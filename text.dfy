/**
 * The few string operations of Python that the tool relies on: case mapping
 * of identifiers, literal `str.replace`, decimal rendering of an `int` and
 * `str.join`.
 */
module Text {

  predicate IsUpperLetter(c: char) { 'A' <= c <= 'Z' }

  predicate IsLowerLetter(c: char) { 'a' <= c <= 'z' }

  function LowerChar(c: char): char
  {
    if IsUpperLetter(c) then (c as int + 32) as char else c
  }

  function UpperChar(c: char): char
  {
    if IsLowerLetter(c) then (c as int - 32) as char else c
  }

  /** No upper-case letter occurs in `s`. */
  predicate IsLower(s: string)
  {
    forall i :: 0 <= i < |s| ==> !IsUpperLetter(s[i])
  }

  /** `s.lower()` for ASCII letters. */
  function Lower(s: string): (r: string)
    ensures |r| == |s| && IsLower(r)
    ensures forall i :: 0 <= i < |s| && !IsUpperLetter(s[i]) ==> r[i] == s[i]
  {
    seq(|s|, i requires 0 <= i < |s| => LowerChar(s[i]))
  }

  /** `s.upper()` for ASCII letters. */
  function Upper(s: string): (r: string)
    ensures |r| == |s|
    ensures forall i :: 0 <= i < |r| ==> !IsLowerLetter(r[i])
    ensures forall i :: 0 <= i < |s| && !IsLowerLetter(s[i]) ==> r[i] == s[i]
  {
    seq(|s|, i requires 0 <= i < |s| => UpperChar(s[i]))
  }

  /** Each upper-case letter becomes the same letter in lower case. */
  lemma LowerLetters(s: string)
    ensures forall i :: 0 <= i < |s| && IsUpperLetter(s[i]) ==>
              IsLowerLetter(Lower(s)[i]) && Lower(s)[i] as int - 'a' as int == s[i] as int - 'A' as int
  {
  }

  /** Each lower-case letter becomes the same letter in upper case. */
  lemma UpperLetters(s: string)
    ensures forall i :: 0 <= i < |s| && IsLowerLetter(s[i]) ==>
              IsUpperLetter(Upper(s)[i]) && Upper(s)[i] as int - 'A' as int == s[i] as int - 'a' as int
  {
  }

  /** Lower-casing loses nothing that upper-casing keeps: identifiers compare case-insensitively. */
  lemma UpperOfLower(s: string)
    ensures Upper(Lower(s)) == Upper(s)
  {
  }

  /** A lower-case string is its own lower-case form. */
  lemma LowerOfLower(s: string)
    requires IsLower(s)
    ensures Lower(s) == s
  {
  }

  // ---------------------------------------------------------------------------
  // str.replace

  /** `pat` occurs in `s` starting at index `i`. */
  predicate OccursAt(s: string, pat: string, i: nat)
  {
    i <= |s| && pat <= s[i..]
  }

  /**
   * `s.replace(pat, rep)`: scanning from the left, every occurrence of `pat`
   * that does not overlap an earlier replaced one becomes `rep`.
   */
  function ReplaceAll(s: string, pat: string, rep: string): string
    requires pat != []
    decreases |s|
  {
    if s == [] then []
    else if pat <= s then rep + ReplaceAll(s[|pat|..], pat, rep)
    else [s[0]] + ReplaceAll(s[1..], pat, rep)
  }

  /** Text in which `pat` does not occur passes through unchanged. */
  lemma {:induction false} ReplaceAllAbsent(s: string, pat: string, rep: string)
    requires pat != []
    requires forall i :: 0 <= i < |s| ==> !OccursAt(s, pat, i)
    ensures ReplaceAll(s, pat, rep) == s
    decreases |s|
  {
    if s != [] {
      assert !OccursAt(s, pat, 0);
      forall i | 0 <= i < |s[1..]|
        ensures !OccursAt(s[1..], pat, i)
      {
        OccursAtTail(s, pat, i);
      }
      ReplaceAllAbsent(s[1..], pat, rep);
    }
  }

  /**
   * The leftmost occurrence is replaced, the text before it is kept, and
   * scanning resumes right after it.
   */
  lemma {:induction false} ReplaceAllFirst(x: string, pat: string, y: string, rep: string)
    requires pat != []
    requires forall i :: 0 <= i < |x| ==> !OccursAt(x + pat + y, pat, i)
    ensures ReplaceAll(x + pat + y, pat, rep) == x + rep + ReplaceAll(y, pat, rep)
    decreases |x|
  {
    if x == [] {
      assert x + pat + y == pat + y;
      ReplaceAllAt(pat, y, rep);
    } else {
      NoOccurrenceTail(x, pat, y);
      ReplaceAllKeepFirst(x, pat, y, rep);
      ReplaceAllFirst(x[1..], pat, y, rep);
      ConsAssoc(x, rep, ReplaceAll(y, pat, rep));
    }
  }

  /** An occurrence at the very start is replaced and scanning resumes after it. */
  lemma ReplaceAllAt(pat: string, y: string, rep: string)
    requires pat != []
    ensures ReplaceAll(pat + y, pat, rep) == rep + ReplaceAll(y, pat, rep)
  {
    assert (pat + y)[|pat|..] == y;
  }

  /** No occurrence in the first `|x|` places of `x + pat + y` leaves none in the first `|x| - 1` places once `x` loses its head. */
  lemma NoOccurrenceTail(x: string, pat: string, y: string)
    requires x != []
    requires forall i :: 0 <= i < |x| ==> !OccursAt(x + pat + y, pat, i)
    ensures forall i :: 0 <= i < |x[1..]| ==> !OccursAt(x[1..] + pat + y, pat, i)
  {
    var s := x + pat + y;
    assert s[1..] == x[1..] + pat + y;
    forall i | 0 <= i < |x[1..]|
      ensures !OccursAt(s[1..], pat, i)
    {
      OccursAtTail(s, pat, i);
      assert !OccursAt(s, pat, i + 1);
    }
  }

  /** Dropping the first character shifts every occurrence one place left. */
  lemma OccursAtTail(s: string, pat: string, i: nat)
    requires 0 < |s|
    ensures OccursAt(s[1..], pat, i) == OccursAt(s, pat, i + 1)
  {
    if i <= |s[1..]| {
      assert s[1..][i..] == s[i + 1..];
    }
  }

  /** Where `pat` does not start, the first character is kept and scanning moves on. */
  lemma ReplaceAllKeep(s: string, pat: string, rep: string)
    requires pat != [] && s != [] && !OccursAt(s, pat, 0)
    ensures ReplaceAll(s, pat, rep) == [s[0]] + ReplaceAll(s[1..], pat, rep)
  {
    assert s[0..] == s;
  }

  /** Before the leftmost occurrence, the first character of `x` is kept. */
  lemma ReplaceAllKeepFirst(x: string, pat: string, y: string, rep: string)
    requires pat != [] && x != []
    requires !OccursAt(x + pat + y, pat, 0)
    ensures ReplaceAll(x + pat + y, pat, rep) == [x[0]] + ReplaceAll(x[1..] + pat + y, pat, rep)
  {
    var s := x + pat + y;
    assert s[1..] == x[1..] + pat + y;
    ReplaceAllKeep(s, pat, rep);
  }

  /** A non-empty text is its first character followed by the rest. */
  lemma ConsAssoc<T>(x: seq<T>, a: seq<T>, b: seq<T>)
    requires x != []
    ensures [x[0]] + (x[1..] + a + b) == x + a + b
  {
    assert [x[0]] + x[1..] == x;
  }

  // ---------------------------------------------------------------------------
  // Decimal rendering of a non-negative int ('{!s}'.format(n))

  predicate IsDigit(c: char) { '0' <= c <= '9' }

  predicate IsDigits(s: string)
  {
    forall i :: 0 <= i < |s| ==> IsDigit(s[i])
  }

  function DigitChar(d: nat): char
    requires d < 10
  {
    ('0' as int + d) as char
  }

  function DigitValue(c: char): nat
    requires IsDigit(c)
  {
    c as int - '0' as int
  }

  /** The decimal numeral of `n`, without sign and without leading zeros. */
  function Decimal(n: nat): (r: string)
    ensures |r| >= 1 && IsDigits(r)
    ensures r[0] == '0' <==> n == 0
    decreases n
  {
    if n < 10 then [DigitChar(n)] else Decimal(n / 10) + [DigitChar(n % 10)]
  }

  /** The value of a numeral. */
  function ParseDecimal(s: string): nat
    requires IsDigits(s)
    decreases |s|
  {
    if s == [] then 0 else 10 * ParseDecimal(s[..|s| - 1]) + DigitValue(s[|s| - 1])
  }

  /** Reading a rendered numeral gives back the number, so distinct numbers render distinctly. */
  lemma {:induction false} DecimalRoundTrip(n: nat)
    ensures ParseDecimal(Decimal(n)) == n
    decreases n
  {
    var r := Decimal(n);
    if n >= 10 {
      DecimalRoundTrip(n / 10);
      assert r[..|r| - 1] == Decimal(n / 10);
    }
  }

  // ---------------------------------------------------------------------------
  // str.join and character counting

  /** `sep.join(parts)`. */
  function Join(sep: string, parts: seq<string>): string
    decreases |parts|
  {
    if |parts| == 0 then ""
    else if |parts| == 1 then parts[0]
    else Join(sep, parts[..|parts| - 1]) + sep + parts[|parts| - 1]
  }

  /** Concatenation regroups freely. */
  lemma AppendAssoc<T>(a: seq<T>, b: seq<T>, c: seq<T>)
    ensures a + b + c == a + (b + c)
  {
  }

  /** The number of occurrences of `c` in `s`. */
  function Count(c: char, s: string): nat
    decreases |s|
  {
    if s == [] then 0 else Count(c, s[..|s| - 1]) + (if s[|s| - 1] == c then 1 else 0)
  }

  lemma {:induction false} CountAppend(c: char, a: string, b: string)
    ensures Count(c, a + b) == Count(c, a) + Count(c, b)
    decreases |b|
  {
    if b != [] {
      assert (a + b)[..|a + b| - 1] == a + b[..|b| - 1];
      CountAppend(c, a, b[..|b| - 1]);
    } else {
      assert a + b == a;
    }
  }

  /** A character absent from `s` is counted zero times. */
  lemma {:induction false} CountAbsent(c: char, s: string)
    requires forall i :: 0 <= i < |s| ==> s[i] != c
    ensures Count(c, s) == 0
    decreases |s|
  {
    if s != [] {
      CountAbsent(c, s[..|s| - 1]);
    }
  }
}
