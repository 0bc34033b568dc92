/**
 * The object descriptor (`DBObject`): which schema object is meant (owner,
 * name, type) and the options that steer the clone.
 */
module Descriptors {
  import opened Wrappers
  import opened Text

  /** A value held in the option dictionary: `None`, a boolean or a string. */
  datatype OptValue = NoneValue | Flag(b: bool) | Str(s: string)

  /** Python truthiness of an option value, as used by `if opts[...]`. */
  predicate Truthy(v: OptValue)
  {
    match v
    case NoneValue => false
    case Flag(b) => b
    case Str(s) => s != ""
  }

  /** `'{}'.format(v)`. */
  function Format(v: OptValue): string
  {
    match v
    case NoneValue => "None"
    case Flag(b) => if b then "True" else "False"
    case Str(s) => s
  }

  const TablespaceKey: string := "tablespace"
  const TruncateKey: string := "truncate"
  const CreateKey: string := "create_if_not_exists"

  /** The defaults every descriptor starts from. */
  const DefaultOptions: map<string, OptValue> :=
    map[TablespaceKey := NoneValue, TruncateKey := Flag(false), CreateKey := Flag(false)]

  /** The three options the tool reads are present. */
  predicate HasOptionKeys(opts: map<string, OptValue>)
  {
    TablespaceKey in opts && TruncateKey in opts && CreateKey in opts
  }

  /**
   * The option dictionary of a new descriptor: the defaults, overridden by
   * the caller's dictionary when one is given (anything that is not a
   * dictionary is modelled as `None` and ignored).
   */
  function MergeOptions(given: Option<map<string, OptValue>>): (r: map<string, OptValue>)
    ensures HasOptionKeys(r)
    ensures given.None? ==> r == DefaultOptions
    ensures given.Some? ==> r.Keys == DefaultOptions.Keys + given.value.Keys
    ensures given.Some? ==> forall k :: k in given.value ==> r[k] == given.value[k]
    ensures forall k :: k in DefaultOptions && (given.None? || k !in given.value) ==> r[k] == DefaultOptions[k]
  {
    match given
    case None => DefaultOptions
    case Some(m) => DefaultOptions + m
  }

  /** The value of a descriptor. */
  datatype Descriptor = Descriptor(
    owner: Option<string>,
    name: Option<string>,
    objectType: string,
    opts: map<string, OptValue>)

  predicate IsLowerIdent(id: Option<string>)
  {
    id.Some? ==> IsLower(id.value)
  }

  /** What every descriptor satisfies: lower-case identifiers and the three options present. */
  predicate IsNormal(d: Descriptor)
  {
    IsLowerIdent(d.owner) && IsLowerIdent(d.name) && HasOptionKeys(d.opts)
  }

  /** An identifier as stored: lower-cased, or unset. */
  function NormalIdent(id: Option<string>): (r: Option<string>)
    ensures r.Some? <==> id.Some?
    ensures IsLowerIdent(r)
    ensures r.Some? ==> Upper(r.value) == Upper(id.value)
  {
    match id
    case None => None
    case Some(s) => UpperOfLower(s); Some(Lower(s))
  }

  /** The descriptor built from the constructor's arguments. */
  function MakeDescriptor(name: Option<string>, owner: Option<string>, objectType: string,
                          opts: Option<map<string, OptValue>>): (d: Descriptor)
    ensures IsNormal(d)
    ensures d.objectType == objectType
    ensures d.owner.Some? <==> owner.Some?
    ensures d.name.Some? <==> name.Some?
    ensures owner.Some? ==> Upper(d.owner.value) == Upper(owner.value)
    ensures name.Some? ==> Upper(d.name.value) == Upper(name.value)
    ensures d.opts == MergeOptions(opts)
  {
    Descriptor(NormalIdent(owner), NormalIdent(name), objectType, MergeOptions(opts))
  }

  /** Normalising an already normal identifier is the identity. */
  lemma NormalIdentIdempotent(id: Option<string>)
    ensures NormalIdent(NormalIdent(id)) == NormalIdent(id)
  {
    if id.Some? {
      LowerOfLower(Lower(id.value));
    }
  }

  /** A schema object descriptor whose owner, name and options change in place. */
  class DBObject {
    var owner: Option<string>
    var name: Option<string>
    const objectType: string
    var opts: map<string, OptValue>

    function Value(): Descriptor
      reads this
    {
      Descriptor(owner, name, objectType, opts)
    }

    ghost predicate Valid()
      reads this
    {
      IsNormal(Value())
    }

    constructor (name: Option<string> := None, owner: Option<string> := None,
                 objectType: string := "TABLE", opts: Option<map<string, OptValue>> := None)
      ensures Valid()
      ensures Value() == MakeDescriptor(name, owner, objectType, opts)
    {
      this.owner := NormalIdent(owner);
      this.name := NormalIdent(name);
      this.objectType := objectType;
      this.opts := MergeOptions(opts);
    }
  }
}
