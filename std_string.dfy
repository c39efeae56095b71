/** The few `std::string` operations the Base64 core relies on, with `size_t` as a 64-bit unsigned integer. */
module StdString {

  /** `std::string::npos`: the largest `size_t` value, 2^64 - 1. */
  const NPos: nat := 0xFFFF_FFFF_FFFF_FFFF

  /** `a - b` on `size_t`: subtraction modulo 2^64 (it wraps below zero). */
  function SizeSub(a: nat, b: nat): (r: nat)
    requires a <= NPos && b <= NPos
    ensures r <= NPos
    ensures b <= a ==> r == a - b
    ensures a < b ==> r == NPos + 1 + a - b
  {
    (a - b) % (NPos + 1)
  }

  /** `s.find(c)`, searching from the front; `FindResult` states what it gives. */
  function Find(s: string, c: char): (r: nat)
    requires |s| < NPos
    decreases |s|
  {
    if s == [] then NPos
    else if s[0] == c then 0
    else
      var k := Find(s[1..], c);
      if k == NPos then NPos else k + 1
  }

  /** `s.find(c)` is the index of the first occurrence of `c` in `s`, or `npos` when there is none. */
  lemma {:induction false} FindResult(s: string, c: char)
    requires |s| < NPos
    ensures Find(s, c) == NPos <==> c !in s
    ensures Find(s, c) != NPos ==> Find(s, c) < |s| && s[Find(s, c)] == c && c !in s[..Find(s, c)]
    decreases |s|
  {
    if s != [] && s[0] != c {
      FindResult(s[1..], c);
      assert s == [s[0]] + s[1..];
      var k := Find(s[1..], c);
      if k != NPos {
        assert s[..k + 1] == [s[0]] + s[1..][..k];
      }
    }
  }

  /** `s.find_last_of(c)`: the index of the last occurrence of `c` in `s`, or `npos` when there is none. */
  function FindLastOf(s: string, c: char): (r: nat)
    requires |s| < NPos
    ensures r == NPos <==> c !in s
    ensures r != NPos ==> r < |s| && s[r] == c && c !in s[r + 1..]
    decreases |s|
  {
    if s == [] then NPos
    else if s[|s| - 1] == c then |s| - 1
    else FindLastOf(s[..|s| - 1], c)
  }

  /** `s.substr(0, count)`: at most `count` characters from the start; a count past the end is clipped. */
  function SubstrFromStart(s: string, count: nat): (r: string)
    ensures |r| == if count < |s| then count else |s|
    ensures r <= s
  {
    if count < |s| then s[..count] else s
  }
}
