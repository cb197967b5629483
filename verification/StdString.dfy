/** The one piece of the C++ standard library that both components rely on:
    `std::string::find` of a single character, with its `npos` sentinel. */
module StdString {

  /** `std::string::npos`, the largest value of a 64-bit `size_t`. */
  const NPOS: nat := 0xFFFF_FFFF_FFFF_FFFF

  /** Index of the first occurrence of `x` in `s` at or after `from`, or NPOS. */
  function FindFrom<T(==)>(s: seq<T>, x: T, from: nat): (r: nat)
    requires from <= |s| < NPOS
    ensures r == NPOS <==> x !in s[from..]
    ensures r != NPOS ==> from <= r < |s| && s[r] == x && x !in s[from..r]
    decreases |s| - from
  {
    if from == |s| then NPOS
    else if s[from] == x then from
    else
      assert s[from..] == [s[from]] + s[from + 1..];
      FindFrom(s, x, from + 1)
  }

  /** `s.find(x)`: the first index holding `x`, or NPOS when `x` does not occur. */
  function Find<T(==)>(s: seq<T>, x: T): (r: nat)
    requires |s| < NPOS
    ensures r == NPOS <==> x !in s
    ensures r != NPOS ==> r < |s| && s[r] == x && x !in s[..r]
  {
    assert s[0..] == s;
    FindFrom(s, x, 0)
  }
}
