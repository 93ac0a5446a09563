/** The JavaScript string and array built-ins the core relies on, as far as it
    uses them: `String.prototype.split` with a non-empty separator,
    `Array.prototype.join`, the last element of an array (`pop`),
    `String.prototype.startsWith`, and `Number.prototype.toString` on a
    non-negative integer. */
module JsStrings {

  /** `sep` occurs in `s` starting at index `i`. */
  predicate OccursAt(s: string, sep: string, i: int) {
    0 <= i && i + |sep| <= |s| && s[i..i + |sep|] == sep
  }

  ghost predicate Contains(s: string, sep: string) {
    exists i :: OccursAt(s, sep, i)
  }

  predicate StartsWith(s: string, prefix: string) {
    |prefix| <= |s| && s[..|prefix|] == prefix
  }

  ghost predicate IsSuffix(t: string, s: string) {
    |t| <= |s| && s[|s| - |t|..] == t
  }

  /** `s.indexOf(sep, from)`: the first occurrence at or after `from`, or -1. */
  function IndexOfFrom(s: string, sep: string, from: nat): (r: int)
    requires from <= |s|
    ensures r == -1 || (from <= r && OccursAt(s, sep, r))
    ensures forall i :: from <= i && (r == -1 || i < r) ==> !OccursAt(s, sep, i)
    decreases |s| - from
  {
    if from + |sep| > |s| then -1
    else if s[from..from + |sep|] == sep then from
    else IndexOfFrom(s, sep, from + 1)
  }

  /** `s.split(sep)` for a non-empty string separator: cut at the leftmost
      occurrence, then go on splitting what follows it, so occurrences never
      overlap. */
  function Split(s: string, sep: string): (parts: seq<string>)
    requires |sep| > 0
    ensures |parts| >= 1
    decreases |s|
  {
    var i := IndexOfFrom(s, sep, 0);
    if i < 0 then [s] else [s[..i]] + Split(s[i + |sep|..], sep)
  }

  /** The split yields more than one piece exactly when the separator occurs. */
  lemma SplitCount(s: string, sep: string)
    requires |sep| > 0
    ensures |Split(s, sep)| > 1 <==> Contains(s, sep)
  {
    var i := IndexOfFrom(s, sep, 0);
    if i >= 0 {
      assert OccursAt(s, sep, i);
    }
  }

  /** `parts.join(sep)`. */
  function Join(parts: seq<string>, sep: string): string {
    if |parts| == 0 then ""
    else if |parts| == 1 then parts[0]
    else parts[0] + sep + Join(parts[1..], sep)
  }

  /** The last element, as `parts.pop()` or `parts[parts.length - 1]` give it. */
  function Last<T>(parts: seq<T>): T
    requires |parts| > 0
  {
    parts[|parts| - 1]
  }

  /** One unfolding of `Split` at the first occurrence `i`. */
  lemma SplitUnfold(s: string, sep: string, i: nat)
    requires |sep| > 0 && IndexOfFrom(s, sep, 0) == i
    ensures OccursAt(s, sep, i)
    ensures Split(s, sep) == [s[..i]] + Split(s[i + |sep|..], sep)
    ensures s == s[..i] + sep + s[i + |sep|..]
  {
    assert s == s[..i] + s[i..i + |sep|] + s[i + |sep|..];
  }

  lemma JoinCons(p: string, ps: seq<string>, sep: string)
    requires |ps| > 0
    ensures Join([p] + ps, sep) == p + sep + Join(ps, sep)
  {
    assert ([p] + ps)[1..] == ps;
  }

  /** Joining the pieces of a split with the same separator gives the string back. */
  lemma {:induction false} SplitJoin(s: string, sep: string)
    requires |sep| > 0
    ensures Join(Split(s, sep), sep) == s
    decreases |s|
  {
    var i := IndexOfFrom(s, sep, 0);
    if i >= 0 {
      var rest := s[i + |sep|..];
      SplitUnfold(s, sep, i);
      SplitJoin(rest, sep);
      JoinCons(s[..i], Split(rest, sep), sep);
    }
  }

  /** The text before the first occurrence does not contain the separator. */
  lemma BeforeFirstIsFree(s: string, sep: string, i: nat)
    requires |sep| > 0 && i == IndexOfFrom(s, sep, 0)
    ensures !Contains(s[..i], sep)
  {
    forall j | OccursAt(s[..i], sep, j) ensures false {
      assert s[..i][j..j + |sep|] == s[j..j + |sep|];
      assert OccursAt(s, sep, j);
    }
  }

  /** No piece of a split contains the separator. */
  lemma {:induction false} SplitPiecesFree(s: string, sep: string, k: nat)
    requires |sep| > 0
    requires k < |Split(s, sep)|
    ensures !Contains(Split(s, sep)[k], sep)
    decreases |s|
  {
    var i := IndexOfFrom(s, sep, 0);
    if i < 0 {
      assert Split(s, sep) == [s];
    } else if k == 0 {
      BeforeFirstIsFree(s, sep, i);
    } else {
      assert Split(s, sep)[k] == Split(s[i + |sep|..], sep)[k - 1];
      SplitPiecesFree(s[i + |sep|..], sep, k - 1);
    }
  }

  /** Joining any tail of the pieces gives a suffix of the split string. */
  lemma {:induction false} SplitTailIsSuffix(s: string, sep: string, k: nat)
    requires |sep| > 0
    requires k < |Split(s, sep)|
    ensures IsSuffix(Join(Split(s, sep)[k..], sep), s)
    decreases |s|
  {
    var parts := Split(s, sep);
    if k == 0 {
      SplitJoin(s, sep);
      assert parts[0..] == parts;
    } else {
      var i := IndexOfFrom(s, sep, 0);
      var rest := s[i + |sep|..];
      assert parts[k..] == Split(rest, sep)[k - 1..];
      SplitTailIsSuffix(rest, sep, k - 1);
      var t := Join(parts[k..], sep);
      assert s[|s| - |t|..] == rest[|rest| - |t|..];
    }
  }

  /** An occurrence inside a tail is an occurrence in the whole string. */
  lemma OccursInTail(s: string, sep: string, m: nat, j: int)
    requires m <= |s| && OccursAt(s[m..], sep, j)
    ensures OccursAt(s, sep, m + j)
    ensures s[m..][j + |sep|..] == s[m + j + |sep|..]
  {
    assert s[m..][j..j + |sep|] == s[m + j..m + j + |sep|];
  }

  /** When the separator occurs, the last piece is exactly the text after one
      of its occurrences. */
  lemma {:induction false} LastPieceFollowsSeparator(s: string, sep: string)
    requires |sep| > 0
    requires |Split(s, sep)| > 1
    ensures exists i :: OccursAt(s, sep, i) && Last(Split(s, sep)) == s[i + |sep|..]
    decreases |s|
  {
    var i := IndexOfFrom(s, sep, 0);
    var rest := s[i + |sep|..];
    SplitUnfold(s, sep, i);
    assert Last(Split(s, sep)) == Last(Split(rest, sep));
    if |Split(rest, sep)| > 1 {
      LastPieceFollowsSeparator(rest, sep);
      var j :| OccursAt(rest, sep, j) && Last(Split(rest, sep)) == rest[j + |sep|..];
      OccursInTail(s, sep, i + |sep|, j);
    }
  }

  /** A separator holding a character the string lacks does not occur in it. */
  lemma AbsentCharExcludes(s: string, sep: string, c: char)
    requires c in sep && c !in s
    ensures !Contains(s, sep)
  {
  }

  /** A string without the separator splits into itself alone. */
  lemma SplitWithout(s: string, sep: string)
    requires |sep| > 0 && !Contains(s, sep)
    ensures Split(s, sep) == [s]
  {
  }

  /** The split cuts first at the leftmost occurrence: when `sep` occurs at `k`
      and not within the text before `k + |sep| - 1`, the first piece is `s[..k]`. */
  lemma SplitAtFirst(s: string, sep: string, k: nat)
    requires |sep| > 0 && OccursAt(s, sep, k)
    requires !Contains(s[..k + |sep| - 1], sep)
    ensures Split(s, sep) == [s[..k]] + Split(s[k + |sep|..], sep)
  {
    var i := IndexOfFrom(s, sep, 0);
    if i != k {
      assert 0 <= i < k;
      assert s[..k + |sep| - 1][i..i + |sep|] == s[i..i + |sep|];
      assert OccursAt(s[..k + |sep| - 1], sep, i);
    }
  }

  /** The search moves past a position where the separator does not occur. */
  lemma IndexSkip(s: string, sep: string, from: nat)
    requires from + |sep| <= |s| && !OccursAt(s, sep, from)
    ensures IndexOfFrom(s, sep, from) == IndexOfFrom(s, sep, from + 1)
  {
  }

  predicate IsDigit(c: char) {
    '0' as int <= c as int <= '9' as int
  }

  function DigitChar(d: nat): (c: char)
    requires d < 10
    ensures IsDigit(c) && (c as int) - ('0' as int) == d
  {
    "0123456789"[d]
  }

  /** `n.toString()` for a non-negative integer: its decimal digits, with no
      leading zero unless `n` is zero. */
  function NatToString(n: nat): (s: string)
    ensures |s| >= 1
    ensures forall k :: 0 <= k < |s| ==> IsDigit(s[k])
    ensures s[0] == '0' <==> n == 0
  {
    if n < 10 then [DigitChar(n)] else NatToString(n / 10) + [DigitChar(n % 10)]
  }

  /** Reads a string of decimal digits back as a number. */
  function ParseDecimal(s: string): nat
    requires forall k :: 0 <= k < |s| ==> IsDigit(s[k])
  {
    if s == [] then 0
    else
      assert IsDigit(s[|s| - 1]);
      ParseDecimal(s[..|s| - 1]) * 10 + ((s[|s| - 1] as int) - ('0' as int))
  }

  /** The decimal string of a number reads back as that number. */
  lemma {:induction false} ParseNatToString(n: nat)
    ensures ParseDecimal(NatToString(n)) == n
  {
    if n >= 10 {
      ParseNatToString(n / 10);
      var s := NatToString(n);
      assert s[..|s| - 1] == NatToString(n / 10);
    }
  }

  /** Different numbers have different decimal strings. */
  lemma NatToStringInjective(m: nat, n: nat)
    requires NatToString(m) == NatToString(n)
    ensures m == n
  {
    ParseNatToString(m);
    ParseNatToString(n);
  }
}
