/**
 * The pieces of Go's `fmt` formatting that the messages of the core use:
 * joining strings with a separator (`strings`-style joins, `%v` of a string
 * slice), quoting (`%q`, without escape sequences) and decimal rendering of
 * integers (`%d`).
 */
module Format {

  /** `t` occurs in `s` starting at offset `p`. */
  ghost predicate OccursAt(s: string, t: string, p: int) {
    0 <= p && p + |t| <= |s| && s[p..p + |t|] == t
  }

  /** `t` is a substring of `s`. */
  ghost predicate Contains(s: string, t: string) {
    exists p :: OccursAt(s, t, p)
  }

  /** `s` begins with `t`. */
  ghost predicate StartsWith(s: string, t: string) {
    |t| <= |s| && s[..|t|] == t
  }

  /** `s` ends with `t`. */
  ghost predicate EndsWith(s: string, t: string) {
    |t| <= |s| && s[|s| - |t|..] == t
  }

  /** The elements of `xs` separated by `sep`: no separator before the first
      element or after the last one. Defined by joining all but the last
      element and then appending `sep` and the last element, which is how a
      loop that writes `sep` before every element but the first builds it. */
  function Join(xs: seq<string>, sep: string): string {
    if |xs| == 0 then ""
    else if |xs| == 1 then xs[0]
    else Join(xs[..|xs| - 1], sep) + sep + xs[|xs| - 1]
  }

  /** `%q` of a string, without Go's escape sequences. */
  function Quote(s: string): string {
    "\"" + s + "\""
  }

  /** `%v` of a Go string slice: `[a b c]`. */
  function ListString(xs: seq<string>): string {
    "[" + Join(xs, " ") + "]"
  }

  predicate IsDigit(c: char) {
    '0' <= c <= '9'
  }

  /** The value of a string of decimal digits, most significant first. */
  function DecimalValue(s: string): int {
    if |s| == 0 then 0
    else DecimalValue(s[..|s| - 1]) * 10 + (s[|s| - 1] as int - '0' as int)
  }

  /** `%d` of a natural number: its decimal digits, no leading zeros. */
  function NatToString(n: nat): (r: string)
    ensures |r| > 0 && forall i :: 0 <= i < |r| ==> IsDigit(r[i])
    ensures DecimalValue(r) == n
    ensures |r| > 1 ==> r[0] != '0'
    decreases n
  {
    var d := [('0' as int + n % 10) as char];
    if n < 10 then d
    else
      var p := NatToString(n / 10);
      assert (p + d)[..|p + d| - 1] == p;
      p + d
  }

  /** `%d` of an integer: a minus sign for a negative value, then the
      decimal digits of its magnitude. */
  function IntToString(i: int): (r: string)
    ensures |r| > 0
    ensures i >= 0 ==> DecimalValue(r) == i && forall k :: 0 <= k < |r| ==> IsDigit(r[k])
    ensures i < 0 ==>
      |r| > 1 && r[0] == '-' && DecimalValue(r[1..]) == -i && forall k :: 1 <= k < |r| ==> IsDigit(r[k])
    // No leading zeros: a zero digit comes first only when it is the only digit.
    ensures i >= 0 && |r| > 1 ==> r[0] != '0'
    ensures i < 0 ==> r[1] != '0'
  {
    if i < 0 then
      var d := NatToString(-i);
      assert ("-" + d)[1..] == d;
      "-" + d
    else NatToString(i)
  }

  lemma ContainsAt(s: string, t: string, p: int)
    requires OccursAt(s, t, p)
    ensures Contains(s, t)
  {
  }

  /** An occurrence stays an occurrence when text is added on either side. */
  lemma OccursExtend(s: string, t: string, p: int, before: string, after: string)
    requires OccursAt(s, t, p)
    ensures OccursAt(before + s + after, t, |before| + p)
  {
    assert (before + s + after)[|before| + p..|before| + p + |t|] == s[p..p + |t|];
  }

  /** A string occurs in any text built around it. */
  lemma ContainsMiddle(before: string, t: string, after: string)
    ensures Contains(before + t + after, t)
  {
    assert OccursAt(before + t + after, t, |before|);
  }

  /** A concatenation starts with its first part and ends with its second. */
  lemma Affixes(a: string, b: string)
    ensures StartsWith(a + b, a) && EndsWith(a + b, b)
  {
    assert (a + b)[..|a|] == a;
    assert (a + b)[|a + b| - |b|..] == b;
  }

  /** What the second part of a concatenation contains, the whole contains. */
  lemma ContainsInSuffix(a: string, b: string, t: string)
    requires Contains(b, t)
    ensures Contains(a + b, t)
  {
    var p :| OccursAt(b, t, p);
    assert (a + b)[|a| + p..|a| + p + |t|] == b[p..p + |t|];
    assert OccursAt(a + b, t, |a| + p);
  }

  /** What the first part of a concatenation contains, the whole contains. */
  lemma ContainsInPrefix(a: string, b: string, t: string)
    requires Contains(a, t)
    ensures Contains(a + b, t)
  {
    var p :| OccursAt(a, t, p);
    assert (a + b)[p..p + |t|] == a[p..p + |t|];
    assert OccursAt(a + b, t, p);
  }

  /** A substring stays a substring when text is added on either side. */
  lemma ContainsWithin(s: string, t: string, before: string, after: string)
    requires Contains(s, t)
    ensures Contains(before + s + after, t)
  {
    var p :| OccursAt(s, t, p);
    OccursExtend(s, t, p, before, after);
  }

  /** The first element of a non-empty join is a prefix of it. */
  lemma {:induction false} JoinStartsWithFirst(xs: seq<string>, sep: string)
    requires |xs| > 0
    ensures |xs[0]| <= |Join(xs, sep)| && Join(xs, sep)[..|xs[0]|] == xs[0]
    decreases |xs|
  {
    if |xs| > 1 {
      var front := xs[..|xs| - 1];
      JoinStartsWithFirst(front, sep);
      assert front[0] == xs[0];
      var j := Join(front, sep);
      assert Join(xs, sep) == j + (sep + xs[|xs| - 1]);
      assert (j + (sep + xs[|xs| - 1]))[..|xs[0]|] == j[..|xs[0]|];
    }
  }

  /** The last element of a non-empty join is a suffix of it. */
  lemma JoinEndsWithLast(xs: seq<string>, sep: string)
    requires |xs| > 0
    ensures |xs[|xs| - 1]| <= |Join(xs, sep)|
    ensures Join(xs, sep)[|Join(xs, sep)| - |xs[|xs| - 1]|..] == xs[|xs| - 1]
  {
  }

  /** Every element of a join occurs in it. */
  lemma {:induction false} JoinContains(xs: seq<string>, sep: string, i: int)
    requires 0 <= i < |xs|
    ensures Contains(Join(xs, sep), xs[i])
    decreases |xs|
  {
    var j := Join(xs, sep);
    if |xs| == 1 {
      assert OccursAt(j, xs[i], 0);
    } else {
      var front := xs[..|xs| - 1];
      var jf := Join(front, sep);
      if i == |xs| - 1 {
        assert j == jf + sep + xs[i];
        assert OccursAt(j, xs[i], |jf| + |sep|);
      } else {
        JoinContains(front, sep, i);
        var p :| OccursAt(jf, front[i], p);
        OccursExtend(jf, xs[i], p, "", sep + xs[|xs| - 1]);
        assert "" + jf + (sep + xs[|xs| - 1]) == j;
        ContainsAt(j, xs[i], p);
      }
    }
  }

  /** Every element of a list occurs in its `%v` rendering. */
  lemma ListStringMentions(xs: seq<string>, i: int)
    requires 0 <= i < |xs|
    ensures Contains(ListString(xs), xs[i])
  {
    JoinContains(xs, " ", i);
    ContainsWithin(Join(xs, " "), xs[i], "[", "]");
  }

  /** The length of a join: the elements plus one separator between each two. */
  lemma {:induction false} JoinLength(xs: seq<string>, sep: string)
    requires |xs| > 0
    ensures |Join(xs, sep)| == SumLengths(xs) + (|xs| - 1) * |sep|
    decreases |xs|
  {
    if |xs| > 1 {
      var front := xs[..|xs| - 1];
      SumLengthsSnoc(front, xs[|xs| - 1]);
      assert front + [xs[|xs| - 1]] == xs;
      JoinLength(front, sep);
    }
  }

  function SumLengths(xs: seq<string>): nat {
    if |xs| == 0 then 0 else |xs[0]| + SumLengths(xs[1..])
  }

  lemma {:induction false} SumLengthsSnoc(xs: seq<string>, x: string)
    ensures SumLengths(xs + [x]) == SumLengths(xs) + |x|
    decreases |xs|
  {
    if |xs| > 0 {
      assert (xs + [x])[1..] == xs[1..] + [x];
      SumLengthsSnoc(xs[1..], x);
    }
  }
}
