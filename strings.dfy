/** The Python string primitives the response pipeline is built from:
    `str.find`, `str.rfind` and slicing with non-negative bounds. */
module Strings {

  /** `s.find(c)`: the index of the first `c` in `s`, or -1 when there is none. */
  function FindFirst(s: string, c: char): (r: int)
    ensures -1 <= r < |s|
    ensures r == -1 <==> c !in s
    ensures 0 <= r ==> s[r] == c && c !in s[..r]
  {
    if |s| == 0 then -1
    else if s[0] == c then 0
    else
      var k := FindFirst(s[1..], c);
      assert s[1..] == s[1..][..];
      if k == -1 then -1
      else
        assert s[..k + 1] == [s[0]] + s[1..][..k];
        k + 1
  }

  /** `s.rfind(c)`: the index of the last `c` in `s`, or -1 when there is none. */
  function FindLast(s: string, c: char): (r: int)
    ensures -1 <= r < |s|
    ensures r == -1 <==> c !in s
    ensures 0 <= r ==> s[r] == c && c !in s[r + 1..]
  {
    if |s| == 0 then -1
    else if s[|s| - 1] == c then |s| - 1
    else
      var k := FindLast(s[..|s| - 1], c);
      assert s == s[..|s| - 1] + [s[|s| - 1]];
      if k == -1 then -1
      else
        assert s[k + 1..] == s[..|s| - 1][k + 1..] + [s[|s| - 1]];
        k
  }

  /** Any `c` at index `i` with no `c` before it is the one `find` reports. */
  lemma FindFirstAt(s: string, c: char, i: int)
    requires 0 <= i < |s| && s[i] == c && c !in s[..i]
    ensures FindFirst(s, c) == i
  {
  }

  /** Any `c` at index `i` with no `c` after it is the one `rfind` reports. */
  lemma FindLastAt(s: string, c: char, i: int)
    requires 0 <= i < |s| && s[i] == c && c !in s[i + 1..]
    ensures FindLast(s, c) == i
  {
  }

  /** `s[i:j]` for bounds already inside `s`: the characters from `i` up to
      but not including `j`, none when `j <= i`. */
  function Slice(s: string, i: nat, j: nat): (r: string)
    requires i <= |s| && j <= |s|
    ensures |r| == if i <= j then j - i else 0
    ensures forall k :: 0 <= k < |r| ==> r[k] == s[i + k]
  {
    if i <= j then s[i..j] else []
  }
}
