/**
 * Translation of the source object's DDL into DDL for the target
 * (`Connection.ddl_target`): a literal rename of the schema-qualified object
 * name, then a regular-expression rewrite of every `TABLESPACE "..."` clause.
 */
module Ddl {
  import opened Wrappers
  import opened Text
  import opened Descriptors

  // ---------------------------------------------------------------------------
  // Step 1: the identifier rewrite

  /** `' TABLE "OWNER"."NAME"'`: the qualified name as the metadata service renders it. */
  function QualifiedName(objectType: string, owner: string, name: string): (r: string)
    ensures r != [] && r[0] == ' '
  {
    " " + objectType + " \"" + Upper(owner) + "\".\"" + Upper(name) + "\""
  }

  /** `' TABLE "NAME"'`: the unqualified name, so that the object lands in the session's schema. */
  function LocalName(objectType: string, name: string): (r: string)
    ensures r != [] && r[0] == ' '
  {
    " " + objectType + " \"" + Upper(name) + "\""
  }

  /** Every occurrence of the source's qualified name becomes the target's unqualified name. */
  function RenameObject(ddl: string, from: Descriptor, to: Descriptor): string
    requires from.owner.Some? && from.name.Some? && to.name.Some?
  {
    ReplaceAll(ddl, QualifiedName(from.objectType, from.owner.value, from.name.value),
               LocalName(to.objectType, to.name.value))
  }

  // ---------------------------------------------------------------------------
  // Step 2: the tablespace rewrite, re.sub('TABLESPACE ".*"', rep, ddl)

  const ClausePrefix: string := "TABLESPACE \""

  /** The index of the first line break at or after `k`, or the end of `t`. */
  function LineEnd(t: string, k: nat): (e: nat)
    requires k <= |t|
    ensures k <= e <= |t|
    ensures e < |t| ==> t[e] == '\n'
    ensures forall j :: k <= j < e ==> t[j] != '\n'
    decreases |t| - k
  {
    if k == |t| || t[k] == '\n' then k else LineEnd(t, k + 1)
  }

  /** The last index in `[lo, hi)` holding a double quote, if any. */
  function LastQuote(t: string, lo: nat, hi: nat): (q: Option<nat>)
    requires lo <= hi <= |t|
    ensures q.Some? ==> lo <= q.value < hi && t[q.value] == '"'
    ensures q.Some? ==> forall j :: q.value < j < hi ==> t[j] != '"'
    ensures q.None? ==> forall j :: lo <= j < hi ==> t[j] != '"'
    decreases hi - lo
  {
    if lo == hi then None
    else if t[hi - 1] == '"' then Some(hi - 1)
    else LastQuote(t, lo, hi - 1)
  }

  /**
   * The length of the match of `TABLESPACE ".*"` at the start of `t`, if it
   * matches there (ClauseAtSpec says which text that is).
   */
  function ClauseAt(t: string): (m: Option<nat>)
    ensures m.Some? ==> |ClausePrefix| < m.value <= |t|
  {
    if ClausePrefix <= t then
      var q := LastQuote(t, |ClausePrefix|, LineEnd(t, |ClausePrefix|));
      if q.Some? then Some(q.value + 1) else None
    else None
  }

  /**
   * A match is the clause keyword followed by text up to a double quote,
   * all on one line; the `.` of Python's `re` stops at a line break and `*`
   * is greedy, so the match ends at the LAST double quote of the line. With
   * no double quote after the keyword on its line there is no match.
   */
  lemma ClauseAtSpec(t: string)
    ensures ClauseAt(t).Some? ==>
              var m := ClauseAt(t).value;
              && ClausePrefix <= t && t[m - 1] == '"'
              && (forall j :: |ClausePrefix| <= j < m ==> t[j] != '\n')
              && (forall j :: m <= j < LineEnd(t, |ClausePrefix|) ==> t[j] != '"')
    ensures ClauseAt(t).None? && ClausePrefix <= t ==>
              forall j :: |ClausePrefix| <= j < LineEnd(t, |ClausePrefix|) ==> t[j] != '"'
  {
  }

  /** `re.sub`: scanning from the left, each match is replaced by `rep` and scanning resumes after it. */
  function ReplaceClauses(s: string, rep: string): string
    decreases |s|
  {
    if s == [] then []
    else match ClauseAt(s)
      case Some(e) => rep + ReplaceClauses(s[e..], rep)
      case None => [s[0]] + ReplaceClauses(s[1..], rep)
  }

  /** The clause that replaces each match: the target's tablespace, or nothing when it is `None`. */
  function TablespaceClause(ts: OptValue): (r: string)
    ensures r == [] <==> ts.NoneValue?
    ensures !ts.NoneValue? ==> ClausePrefix <= r && r[|r| - 1] == '"'
  {
    if ts.NoneValue? then "" else "TABLESPACE \"" + Format(ts) + "\""
  }

  /** `Connection.ddl_target`: rename, then re-point or strip the tablespace clauses. */
  function DdlTarget(ddl: string, from: Descriptor, to: Descriptor): string
    requires from.owner.Some? && from.name.Some? && to.name.Some? && TablespaceKey in to.opts
  {
    ReplaceClauses(RenameObject(ddl, from, to), TablespaceClause(to.opts[TablespaceKey]))
  }

  // ---------------------------------------------------------------------------
  // Properties of the identifier rewrite

  /** `pat` occurs in `s` at no index other than `k`. */
  predicate OccursOnlyAt(s: string, pat: string, k: nat)
  {
    forall i :: 0 <= i < |s| && i != k ==> !OccursAt(s, pat, i)
  }

  /** DDL that does not mention the source's qualified name passes the rename unchanged. */
  lemma RenameAbsent(ddl: string, from: Descriptor, to: Descriptor)
    requires from.owner.Some? && from.name.Some? && to.name.Some?
    requires forall i :: 0 <= i < |ddl| ==> !OccursAt(ddl, QualifiedName(from.objectType, from.owner.value, from.name.value), i)
    ensures RenameObject(ddl, from, to) == ddl
  {
    ReplaceAllAbsent(ddl, QualifiedName(from.objectType, from.owner.value, from.name.value),
                     LocalName(to.objectType, to.name.value));
  }

  /**
   * The first occurrence of the qualified name is replaced by the target's
   * unqualified name; the text before it is kept, and the rename goes on
   * after it.
   */
  lemma RenameFirst(x: string, y: string, from: Descriptor, to: Descriptor)
    requires from.owner.Some? && from.name.Some? && to.name.Some?
    requires var pat := QualifiedName(from.objectType, from.owner.value, from.name.value);
             forall i :: 0 <= i < |x| ==> !OccursAt(x + pat + y, pat, i)
    ensures var pat := QualifiedName(from.objectType, from.owner.value, from.name.value);
            RenameObject(x + pat + y, from, to) ==
            x + LocalName(to.objectType, to.name.value) + RenameObject(y, from, to)
  {
    ReplaceAllFirst(x, QualifiedName(from.objectType, from.owner.value, from.name.value), y,
                    LocalName(to.objectType, to.name.value));
  }

  /** DDL that names the source object exactly once has just that name replaced. */
  lemma RenameOnce(x: string, y: string, from: Descriptor, to: Descriptor)
    requires from.owner.Some? && from.name.Some? && to.name.Some?
    requires var pat := QualifiedName(from.objectType, from.owner.value, from.name.value);
             OccursOnlyAt(x + pat + y, pat, |x|)
    ensures var pat := QualifiedName(from.objectType, from.owner.value, from.name.value);
            RenameObject(x + pat + y, from, to) == x + LocalName(to.objectType, to.name.value) + y
  {
    var pat := QualifiedName(from.objectType, from.owner.value, from.name.value);
    var s := x + pat + y;
    RenameFirst(x, y, from, to);
    forall i | 0 <= i < |y| ensures !OccursAt(y, pat, i) {
      assert s[|x| + |pat| + i..] == y[i..];
      assert !OccursAt(s, pat, |x| + |pat| + i);
    }
    RenameAbsent(y, from, to);
  }

  /**
   * Cloning to the same name and type (into another schema or database)
   * only drops the schema qualification `"OWNER".` from the object's name.
   */
  lemma RenameDropsSchema(x: string, y: string, from: Descriptor, to: Descriptor)
    requires from.owner.Some? && from.name.Some? && to.name.Some?
    requires to.objectType == from.objectType && Upper(to.name.value) == Upper(from.name.value)
    requires var pat := QualifiedName(from.objectType, from.owner.value, from.name.value);
             OccursOnlyAt(x + pat + y, pat, |x|)
    ensures var kind := " " + from.objectType + " ";
            var schema := "\"" + Upper(from.owner.value) + "\".";
            var name := "\"" + Upper(from.name.value) + "\"";
            RenameObject(x + kind + schema + name + y, from, to) == x + kind + name + y
  {
    var kind := " " + from.objectType + " ";
    var schema := "\"" + Upper(from.owner.value) + "\".";
    var name := "\"" + Upper(from.name.value) + "\"";
    assert QualifiedName(from.objectType, from.owner.value, from.name.value) == kind + schema + name;
    assert LocalName(to.objectType, to.name.value) == kind + name;
    RenameOnce(x, y, from, to);
    AppendAssoc(x, kind, schema);
    AppendAssoc(x, kind + schema, name);
    AppendAssoc(x, kind, name);
  }

  // ---------------------------------------------------------------------------
  // Properties of the tablespace rewrite

  /** Text in which no clause matches passes through unchanged. */
  lemma {:induction false} ReplaceClausesNoMatch(s: string, rep: string)
    requires NoClause(s)
    ensures ReplaceClauses(s, rep) == s
    decreases |s|
  {
    if s != [] {
      assert s[0..] == s;
      forall i | 0 <= i < |s[1..]| ensures ClauseAt(s[1..][i..]).None? {
        assert s[1..][i..] == s[i + 1..];
      }
      ReplaceClausesNoMatch(s[1..], rep);
      assert [s[0]] + s[1..] == s;
    }
  }

  lemma ClauseUnfold(t: string, rep: string, e: nat)
    requires ClauseAt(t) == Some(e)
    ensures ReplaceClauses(t, rep) == rep + ReplaceClauses(t[e..], rep)
  {
  }

  /** The leftmost match is replaced, the text before it is kept, and scanning resumes after it. */
  lemma {:induction false} ReplaceClausesFirst(x: string, t: string, rep: string, e: nat)
    requires forall i :: 0 <= i < |x| ==> ClauseAt(x[i..] + t).None?
    requires ClauseAt(t) == Some(e)
    ensures ReplaceClauses(x + t, rep) == x + rep + ReplaceClauses(t[e..], rep)
    decreases |x|
  {
    if x == [] {
      ReplaceClausesFirstHere(x, t, rep, e);
    } else {
      assert ClauseAt(x[0..] + t).None?;
      assert x[0..] == x;
      NoClauseInRest(x, t);
      ReplaceClausesFirst(x[1..], t, rep, e);
      ReplaceClausesKeep(x, t, rep, ReplaceClauses(t[e..], rep));
    }
  }

  lemma ReplaceClausesFirstHere(x: string, t: string, rep: string, e: nat)
    requires x == [] && ClauseAt(t) == Some(e)
    ensures ReplaceClauses(x + t, rep) == x + rep + ReplaceClauses(t[e..], rep)
  {
    assert x + t == t;
    ClauseUnfold(t, rep, e);
    assert x + rep == rep;
  }

  /** The step of the induction above: a character where no match starts is kept in front. */
  lemma ReplaceClausesKeep(x: string, t: string, rep: string, r: string)
    requires x != [] && ClauseAt(x + t).None?
    requires ReplaceClauses(x[1..] + t, rep) == x[1..] + rep + r
    ensures ReplaceClauses(x + t, rep) == x + rep + r
  {
    ReplaceClausesSkip(x, t, rep);
    AppendAssoc([x[0]], x[1..] + rep, r);
    AppendAssoc([x[0]], x[1..], rep);
    assert [x[0]] + x[1..] == x;
  }

  lemma NoClauseInRest(x: string, t: string)
    requires x != [] && forall i :: 0 <= i < |x| ==> ClauseAt(x[i..] + t).None?
    ensures forall i :: 0 <= i < |x[1..]| ==> ClauseAt(x[1..][i..] + t).None?
  {
    forall i | 0 <= i < |x[1..]| ensures ClauseAt(x[1..][i..] + t).None? {
      assert x[1..][i..] == x[i + 1..];
    }
  }

  /** Where no match starts, the first character is kept and scanning moves on by one. */
  lemma ReplaceClausesSkip(x: string, t: string, rep: string)
    requires x != [] && ClauseAt(x + t).None?
    ensures ReplaceClauses(x + t, rep) == [x[0]] + ReplaceClauses(x[1..] + t, rep)
  {
    assert (x + t)[1..] == x[1..] + t;
  }

  /** No clause starts anywhere in `s`. */
  predicate NoClause(s: string)
  {
    forall i :: 0 <= i < |s| ==> ClauseAt(s[i..]).None?
  }

  /** The keyword ends in a double quote, so text without one holds no clause and passes the rewrite unchanged. */
  lemma ReplaceClausesWithoutQuote(s: string, rep: string)
    requires '"' !in s
    ensures ReplaceClauses(s, rep) == s
  {
    forall i | 0 <= i < |s| ensures ClauseAt(s[i..]).None? {
    }
    ReplaceClausesNoMatch(s, rep);
  }

  /**
   * Greediness: on a line, a match runs from the keyword to the last double
   * quote of the line, whatever quotes lie in between.
   */
  lemma ClauseAtGreedy(body: string, y: string)
    requires '\n' !in body && '\n' !in y && '"' !in y
    ensures ClauseAt(ClausePrefix + body + "\"" + y) == Some(|ClausePrefix| + |body| + 1)
  {
    var t := ClausePrefix + body + "\"" + y;
    var q := |ClausePrefix| + |body|;
    assert t[..|ClausePrefix|] == ClausePrefix;
    assert t[q] == '"';
    forall j | |ClausePrefix| <= j < |t| ensures t[j] != '\n' {
      if j < q { assert t[j] == body[j - |ClausePrefix|]; }
      else if j > q { assert t[j] == y[j - q - 1]; }
    }
    assert LineEnd(t, |ClausePrefix|) == |t|;
    forall j | q < j < |t| ensures t[j] != '"' {
      assert t[j] == y[j - q - 1];
    }
  }

  /**
   * A line `x TABLESPACE "body" y`, where no clause starts in `x` and `y`
   * holds no double quote, becomes `x <rep> y`: everything from the keyword
   * to the last quote of the line is replaced.
   */
  lemma ReplaceClauseInLine(x: string, body: string, y: string, rep: string)
    requires forall i :: 0 <= i < |x| ==> ClauseAt(x[i..] + ClausePrefix + body + "\"" + y).None?
    requires '\n' !in body && '\n' !in y && '"' !in y
    ensures ReplaceClauses(x + ClausePrefix + body + "\"" + y, rep) == x + rep + y
  {
    var t := ClausePrefix + body + "\"" + y;
    var e := |ClausePrefix| + |body| + 1;
    ClauseAtGreedy(body, y);
    assert x + ClausePrefix + body + "\"" + y == x + t;
    forall i | 0 <= i < |x| ensures ClauseAt(x[i..] + t).None? {
      assert x[i..] + ClausePrefix + body + "\"" + y == x[i..] + t;
    }
    ReplaceClausesFirst(x, t, rep, e);
    assert t[e..] == y;
    ReplaceClausesWithoutQuote(y, rep);
  }

  /** A clause at the very start of the text, with nothing before it on its line. */
  lemma ReplaceClauseLeading(body: string, y: string, rep: string)
    requires '\n' !in body && '\n' !in y && '"' !in y
    ensures ReplaceClauses(ClausePrefix + body + "\"" + y, rep) == rep + y
  {
    var t := ClausePrefix + body + "\"" + y;
    var e := |ClausePrefix| + |body| + 1;
    ClauseAtGreedy(body, y);
    ClauseUnfold(t, rep, e);
    assert t[e..] == y;
    ReplaceClausesWithoutQuote(y, rep);
  }

  lemma {:induction false} LineEndBefore(a: string, b: string, k: nat)
    requires k <= |a|
    ensures LineEnd(a + "\n" + b, k) == LineEnd(a, k)
    decreases |a| - k
  {
    if k < |a| && a[k] != '\n' {
      LineEndBefore(a, b, k + 1);
    }
  }

  lemma {:induction false} LastQuoteBefore(a: string, b: string, lo: nat, hi: nat)
    requires lo <= hi <= |a|
    ensures LastQuote(a + b, lo, hi) == LastQuote(a, lo, hi)
    decreases hi - lo
  {
    if lo < hi {
      LastQuoteBefore(a, b, lo, hi - 1);
    }
  }

  /** Whether a clause matches at the start of a line depends on that line alone. */
  lemma ClauseAtLine(a: string, b: string)
    ensures ClauseAt(a + "\n" + b) == ClauseAt(a)
  {
    var t := a + "\n" + b;
    var n := |ClausePrefix|;
    if |a| < n {
      assert t[|a|] == '\n';
    } else {
      assert t[..n] == a[..n];
      if ClausePrefix <= a {
        LineEndBefore(a, b, n);
        assert t == a + ("\n" + b);
        LastQuoteBefore(a, "\n" + b, n, LineEnd(a, n));
      }
    }
  }

  /** Four pieces of text regroup freely. */
  lemma Regroup4(p: string, x: string, q: string, r: string)
    ensures p + x + q + r == p + (x + q + r)
  {
    AppendAssoc(p, x, q);
    AppendAssoc(p, x + q, r);
  }

  /** Where the rewrite of a non-empty line resumes, with or without the text after the line. */
  function ResumeAt(a: string): (k: nat)
    requires a != []
    ensures 0 < k <= |a|
  {
    if ClauseAt(a).Some? then ClauseAt(a).value else 1
  }

  /** One step of the rewrite of a line followed by more text. */
  lemma ReplaceClausesLineStep(a: string, b: string, rep: string)
    requires a != []
    ensures var head := if ClauseAt(a).Some? then rep else [a[0]];
            && ReplaceClauses(a + "\n" + b, rep) == head + ReplaceClauses(a[ResumeAt(a)..] + "\n" + b, rep)
            && ReplaceClauses(a, rep) == head + ReplaceClauses(a[ResumeAt(a)..], rep)
  {
    var t := a + "\n" + b;
    ClauseAtLine(a, b);
    assert t[ResumeAt(a)..] == a[ResumeAt(a)..] + "\n" + b;
  }

  /** The rewrite works line by line: no match crosses a line break. */
  lemma {:induction false} ReplaceClausesLines(a: string, b: string, rep: string)
    ensures ReplaceClauses(a + "\n" + b, rep) == ReplaceClauses(a, rep) + "\n" + ReplaceClauses(b, rep)
    decreases |a|
  {
    if a == [] {
      var t := a + "\n" + b;
      assert t == "\n" + b;
      assert t[0] != ClausePrefix[0];
      assert t[1..] == b;
    } else {
      var head := if ClauseAt(a).Some? then rep else [a[0]];
      var rest := a[ResumeAt(a)..];
      ReplaceClausesLineStep(a, b, rep);
      ReplaceClausesLines(rest, b, rep);
      Regroup4(head, ReplaceClauses(rest, rep), "\n", ReplaceClauses(b, rep));
    }
  }

  // ---------------------------------------------------------------------------
  // The translation as a whole, on the DDL shapes the metadata service renders

  /** DDL that neither names the source object nor holds a tablespace clause is left as it is. */
  lemma DdlTargetUnchanged(ddl: string, from: Descriptor, to: Descriptor)
    requires from.owner.Some? && from.name.Some? && to.name.Some? && TablespaceKey in to.opts
    requires forall i :: 0 <= i < |ddl| ==> !OccursAt(ddl, QualifiedName(from.objectType, from.owner.value, from.name.value), i)
    requires NoClause(ddl)
    ensures DdlTarget(ddl, from, to) == ddl
  {
    RenameAbsent(ddl, from, to);
    ReplaceClausesNoMatch(ddl, TablespaceClause(to.opts[TablespaceKey]));
  }

  /** Five pieces of text regroup freely. */
  lemma Regroup5(a: string, b: string, c: string, d: string, e: string)
    ensures a + b + c + d + e == a + (b + c + d + e)
  {
    Regroup4(a, b, c, d);
    AppendAssoc(a, b + c + d, e);
  }

  /**
   * A `CREATE` statement as the metadata service renders it: text naming the
   * source object once, then, on a later line, a tablespace clause followed
   * by the rest of that line. It is translated into the same statement
   * naming the target object without a schema, with the clause pointing at
   * the target's tablespace (or removed when there is none). `x` and `y` may
   * span several lines (the column list); they must hold no other mention of
   * the qualified name and no clause.
   */
  lemma DdlTargetCreate(x: string, y: string, w: string, ts: string, z: string, from: Descriptor, to: Descriptor)
    requires from.owner.Some? && from.name.Some? && to.name.Some? && TablespaceKey in to.opts
    requires var pat := QualifiedName(from.objectType, from.owner.value, from.name.value);
             OccursOnlyAt(x + pat + y + "\n" + w + ClausePrefix + ts + "\"" + z, pat, |x|)
    requires NoClause(x + LocalName(to.objectType, to.name.value) + y)
    requires forall i :: 0 <= i < |w| ==> ClauseAt(w[i..] + ClausePrefix + ts + "\"" + z).None?
    requires '\n' !in ts && '\n' !in z && '"' !in z
    ensures var pat := QualifiedName(from.objectType, from.owner.value, from.name.value);
            DdlTarget(x + pat + y + "\n" + w + ClausePrefix + ts + "\"" + z, from, to)
            == x + LocalName(to.objectType, to.name.value) + y + "\n" + w + TablespaceClause(to.opts[TablespaceKey]) + z
  {
    var pat := QualifiedName(from.objectType, from.owner.value, from.name.value);
    var local := LocalName(to.objectType, to.name.value);
    var rep := TablespaceClause(to.opts[TablespaceKey]);
    var line := w + ClausePrefix + ts + "\"" + z;
    var rest := y + "\n" + line;
    var a := x + local + y;
    calc {
      x + pat + y + "\n" + w + ClausePrefix + ts + "\"" + z;
      { Regroup5(x + pat + y + "\n", w, ClausePrefix, ts, "\"" + z); }
      x + pat + y + "\n" + line;
      { Regroup4(x + pat, y, "\n", line); }
      x + pat + rest;
    }
    RenameOnce(x, rest, from, to);
    Regroup4(x + local, y, "\n", line);
    ReplaceClausesLines(a, line, rep);
    ReplaceClausesNoMatch(a, rep);
    ReplaceClauseInLine(w, ts, z, rep);
    Regroup4(a + "\n", w, rep, z);
  }

  /**
   * A table `t` of schema `src` whose DDL reads
   * `CREATE TABLE "SRC"."T" (...)` and, on the last line, `TABLESPACE "TS1"`
   * is created as `CREATE TABLE "T" (...)` with `TABLESPACE "TS2"` for a
   * target named `t` whose tablespace option is `TS2`; the column list is
   * kept as it is.
   */
  lemma CreateTableTranslated(columns: string, from: Descriptor, to: Descriptor)
    requires forall i :: 0 <= i < |columns| ==>
               !OccursAt(columns + "\n  " + ClausePrefix + "TS1\"", " TABLE \"SRC\".\"T\"", i)
    requires NoClause(columns)
    requires from.owner == Some("src") && from.name == Some("t") && from.objectType == "TABLE"
    requires to.name == Some("t") && to.objectType == "TABLE"
    requires TablespaceKey in to.opts && to.opts[TablespaceKey] == Str("TS2")
    ensures DdlTarget("\n  CREATE" + " TABLE \"SRC\".\"T\"" + columns + "\n" + "  " + ClausePrefix + "TS1" + "\"" + "",
                      from, to)
            == "\n  CREATE" + " TABLE \"T\"" + columns + "\n" + "  " + "TABLESPACE \"TS2\"" + ""
  {
    var x := "\n  CREATE";
    var pat := " TABLE \"SRC\".\"T\"";
    var local := " TABLE \"T\"";
    assert Upper("src") == "SRC" && Upper("t") == "T";
    assert QualifiedName("TABLE", "src", "t") == pat;
    assert LocalName("TABLE", "t") == local;
    CreateNamedOnce(x, pat, columns);
    CreateHeadNoClause(x + local, columns);
    forall i | 0 <= i < |"  "| ensures ClauseAt("  "[i..] + ClausePrefix + "TS1" + "\"" + "").None? {
      assert ("  "[i..] + ClausePrefix + "TS1" + "\"" + "")[0] == ' ';
    }
    DdlTargetCreate(x, columns, "  ", "TS1", "", from, to);
  }

  /** The qualified name occurs only once in the example's DDL. */
  lemma CreateNamedOnce(x: string, pat: string, columns: string)
    requires x == "\n  CREATE" && pat == " TABLE \"SRC\".\"T\""
    requires forall i :: 0 <= i < |columns| ==> !OccursAt(columns + "\n  " + ClausePrefix + "TS1\"", pat, i)
    ensures OccursOnlyAt(x + pat + columns + "\n" + "  " + ClausePrefix + "TS1" + "\"" + "", pat, |x|)
  {
    var tail := "\n  " + ClausePrefix + "TS1\"";
    var s := x + pat + columns + "\n" + "  " + ClausePrefix + "TS1" + "\"" + "";
    var k := |x| + |pat|;
    assert s == x + pat + (columns + tail);
    assert columns + tail == columns + "\n  " + ClausePrefix + "TS1\"";
    CreateHeadNamedOnce(x, pat, columns + tail);
    CreateTailUnnamed(pat, tail);
    forall i | k <= i < |s| ensures !OccursAt(s, pat, i) {
      if i < k + |columns| {
        assert s[i..] == (columns + tail)[i - k..];
        assert !OccursAt(columns + tail, pat, i - k);
      } else {
        assert s[i..] == tail[i - k - |columns|..];
        assert !OccursAt(tail, pat, i - k - |columns|);
      }
    }
  }

  /** Around the example's first mention of the name, the name starts nowhere else. */
  lemma CreateHeadNamedOnce(x: string, pat: string, rest: string)
    requires x == "\n  CREATE" && pat == " TABLE \"SRC\".\"T\""
    ensures forall i :: 0 <= i < |x| + |pat| && i != |x| ==> !OccursAt(x + pat + rest, pat, i)
  {
    var s := x + pat + rest;
    forall i | 0 <= i < |x| + |pat| && i != |x| ensures !OccursAt(s, pat, i) {
      // the offset into the name at which the text differs from it
      var m := if i == 1 || i == 2 || i == |x| + 6 then 1 else 0;
      if i < |x| {
        assert s[i + m] == x[i + m];
      } else {
        assert s[i + m] == pat[i - |x| + m];
      }
      assert s[i..][m] != pat[m];
    }
  }

  /** The example's tablespace line does not mention the name. */
  lemma CreateTailUnnamed(pat: string, tail: string)
    requires pat == " TABLE \"SRC\".\"T\"" && tail == "\n  " + ClausePrefix + "TS1\""
    ensures forall j :: 0 <= j < |tail| ==> !OccursAt(tail, pat, j)
  {
    forall j | 0 <= j < |tail| ensures !OccursAt(tail, pat, j) {
      var m := if j == 1 || j == 13 then 1 else if j == 2 then 6 else 0;
      assert j + m >= |tail| || tail[j..][m] != pat[m];
      assert |pat| == 16;
    }
  }

  /** No clause starts in the example's first line, renamed, and its column list. */
  lemma CreateHeadNoClause(head: string, columns: string)
    requires head == "\n  CREATE" + " TABLE \"T\""
    requires NoClause(columns)
    ensures NoClause(head + columns)
  {
    var s := head + columns;
    forall i | 0 <= i < |s| ensures ClauseAt(s[i..]).None? {
      if i < |head| {
        var m := if i == 7 || i == 17 then 1 else if i == 10 then 5 else 0;
        assert i + m < |head|;
        assert s[i..][m] == head[i + m];
        assert head[i + m] != ClausePrefix[m];
        assert !(ClausePrefix <= s[i..]);
      } else {
        assert s[i..] == columns[i - |head|..];
      }
    }
  }

  /** A line that is nothing but a clause becomes the replacement. */
  lemma ClauseAlone(ts: string, rep: string)
    requires '\n' !in ts
    ensures ReplaceClauses(ClausePrefix + ts + "\"", rep) == rep
  {
    ReplaceClauseLeading(ts, "", rep);
    assert ClausePrefix + ts + "\"" + "" == ClausePrefix + ts + "\"";
    assert rep + "" == rep;
  }

  /** Two clauses on separate lines are both re-pointed. */
  lemma ClausesOnTwoLines(ts1: string, ts2: string, rep: string)
    requires '\n' !in ts1 && '\n' !in ts2
    ensures ReplaceClauses(ClausePrefix + ts1 + "\"" + "\n" + ClausePrefix + ts2 + "\"", rep) == rep + "\n" + rep
  {
    var a := ClausePrefix + ts1 + "\"";
    var b := ClausePrefix + ts2 + "\"";
    assert ClausePrefix + ts1 + "\"" + "\n" + ClausePrefix + ts2 + "\"" == a + "\n" + b;
    ReplaceClausesLines(a, b, rep);
    ClauseAlone(ts1, rep);
    ClauseAlone(ts2, rep);
  }

  /**
   * Two clauses on ONE line are replaced as one: the greedy match swallows
   * everything between the first keyword and the last quote.
   */
  lemma ClausesOnOneLine(ts1: string, ts2: string, rep: string)
    requires '\n' !in ts1 && '\n' !in ts2
    ensures ReplaceClauses(ClausePrefix + ts1 + "\" " + ClausePrefix + ts2 + "\"", rep) == rep
  {
    var body := ts1 + "\" " + ClausePrefix + ts2;
    assert ClausePrefix + ts1 + "\" " + ClausePrefix + ts2 + "\"" == ClausePrefix + body + "\"";
    ClauseAlone(body, rep);
  }

  /** Greediness also swallows a quoted identifier that follows the clause on its line. */
  lemma ClauseSwallowsLaterQuotes(ts: string, column: string, rep: string)
    requires '\n' !in ts && '\n' !in column
    ensures ReplaceClauses(ClausePrefix + (ts + "\" LOB (\"" + column) + "\"" + ")", rep) == rep + ")"
  {
    var body := ts + "\" LOB (\"" + column;
    ReplaceClauseLeading(body, ")", rep);
  }

  /** Without a target tablespace the clause is deleted, leaving the rest of the line. */
  lemma ClauseStripped(x: string, ts: string, y: string)
    requires forall i :: 0 <= i < |x| ==> ClauseAt(x[i..] + ClausePrefix + ts + "\"" + y).None?
    requires '\n' !in ts && '\n' !in y && '"' !in y
    ensures ReplaceClauses(x + ClausePrefix + ts + "\"" + y, TablespaceClause(NoneValue)) == x + y
  {
    ReplaceClauseInLine(x, ts, y, TablespaceClause(NoneValue));
    EmptyClauseJoins(x, y);
  }

  lemma EmptyClauseJoins(x: string, y: string)
    ensures x + TablespaceClause(NoneValue) + y == x + y
  {
    assert TablespaceClause(NoneValue) == [];
  }
}
