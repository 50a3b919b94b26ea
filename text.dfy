/**
  The string helpers the upload pipeline calls: `strings.TrimSpace`,
  `strings.SplitN(s, ":", 2)` on a string that holds a colon, and
  `strings.Join`.
*/
module Text {

  /**
    `unicode.IsSpace`: the six ASCII blanks, NEL, NO-BREAK SPACE and the
    other characters of Unicode's White_Space property.
  */
  predicate IsSpace(c: char) {
    var n := c as int;
    (9 <= n <= 13) || n == 32 || n == 0x85 || n == 0xA0 || n == 0x1680
    || (0x2000 <= n <= 0x200A) || n == 0x2028 || n == 0x2029 || n == 0x202F
    || n == 0x205F || n == 0x3000
  }

  predicate AllSpace(s: string) {
    forall i | 0 <= i < |s| :: IsSpace(s[i])
  }

  /** The number of white-space characters `s` starts with. */
  function LeadingSpace(s: string): (n: nat)
    ensures n <= |s| && AllSpace(s[..n])
    ensures n < |s| ==> !IsSpace(s[n])
  {
    if s != [] && IsSpace(s[0]) then
      var n := 1 + LeadingSpace(s[1..]);
      assert s[..n] == [s[0]] + s[1..][..n - 1];
      n
    else 0
  }

  /** The number of white-space characters `s` ends with. */
  function TrailingSpace(s: string): (n: nat)
    ensures n <= |s| && AllSpace(s[|s| - n..])
    ensures n < |s| ==> !IsSpace(s[|s| - n - 1])
  {
    if s != [] && IsSpace(s[|s| - 1]) then
      var n := 1 + TrailingSpace(s[..|s| - 1]);
      assert s[|s| - n..] == s[..|s| - 1][|s| - n..] + [s[|s| - 1]];
      n
    else 0
  }

  /**
    `strings.TrimSpace`: the part of `s` between its leading and its trailing
    white space; it neither starts nor ends with white space.
  */
  function TrimSpace(s: string): (r: string)
    ensures r == [] || (!IsSpace(r[0]) && !IsSpace(r[|r| - 1]))
    ensures var i := LeadingSpace(s);
      i + |r| <= |s| && s[i..i + |r|] == r && AllSpace(s[i + |r|..])
  {
    var t := s[LeadingSpace(s)..];
    t[..|t| - TrailingSpace(t)]
  }

  /** The position of the first `c` in `s`. */
  function IndexOf(s: string, c: char): (i: nat)
    requires c in s
    ensures i < |s| && s[i] == c && c !in s[..i]
  {
    if s[0] == c then 0
    else
      var i := 1 + IndexOf(s[1..], c);
      assert s[..i] == [s[0]] + s[1..][..i - 1];
      i
  }

  /**
    `strings.SplitN(s, ":", 2)` on a string holding a colon: the text before
    the first colon and the text after it.
  */
  function SplitColon(s: string): (kv: (string, string))
    requires ':' in s
    ensures kv.0 + ":" + kv.1 == s
    ensures ':' !in kv.0
  {
    var i := IndexOf(s, ':');
    assert s == s[..i] + ":" + s[i + 1..];
    (s[..i], s[i + 1..])
  }

  /** The first occurrence is the only position with `c` and no `c` before it. */
  lemma {:induction false} IndexOfUnique(s: string, c: char, j: nat)
    requires j < |s| && s[j] == c && c !in s[..j]
    ensures IndexOf(s, c) == j
  {
    if j > 0 {
      assert s[0] in s[..j];
      assert s[1..][..j - 1] == s[..j][1..];
      IndexOfUnique(s[1..], c, j - 1);
    }
  }

  /** The two parts are fixed by the ensures of SplitColon: no other split has a colon-free key. */
  lemma SplitColonUnique(s: string, k: string, v: string)
    requires k + ":" + v == s && ':' !in k
    ensures SplitColon(s) == (k, v)
  {
    assert s[..|k|] == k && s[|k|] == ':';
    IndexOfUnique(s, ':', |k|);
    assert s[|k| + 1..] == v;
  }

  /** `strings.Join`. */
  function Join(xs: seq<string>, sep: string): string {
    if xs == [] then ""
    else if |xs| == 1 then xs[0]
    else xs[0] + sep + Join(xs[1..], sep)
  }
}
