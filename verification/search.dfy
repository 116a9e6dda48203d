/** First-index linear search over a vector of ints, as used for the page
    table's reverse lookup and for the secondary-storage record. */
module Search {

  /** `r` is the first position of `x` in `s`, or -1 when `x` does not occur in `s`. */
  predicate IsFirstIndex(s: seq<int>, x: int, r: int) {
    (r == -1 && x !in s) || (0 <= r < |s| && s[r] == x && x !in s[..r])
  }

  /** Specification of the search: the first index of `x` in `s`, or -1. */
  function IndexOf(s: seq<int>, x: int): (r: int)
    ensures IsFirstIndex(s, x, r)
    ensures -1 <= r < |s|
  {
    if |s| == 0 then -1
    else if s[0] == x then 0
    else
      var k := IndexOf(s[1..], x);
      if k == -1 then -1
      else
        assert s[..k + 1] == [s[0]] + s[1..][..k];
        k + 1
  }

  /** The first-index property pins the answer down: at most one `r` satisfies it. */
  lemma FirstIndexUnique(s: seq<int>, x: int, r1: int, r2: int)
    requires IsFirstIndex(s, x, r1) && IsFirstIndex(s, x, r2)
    ensures r1 == r2
  {
  }

  /** numInVector: scans `vec` from the front and returns the first index
      holding `num`, or -1 after a full scan without a match. */
  method NumInVector(vec: seq<int>, num: int) returns (r: int)
    ensures IsFirstIndex(vec, num, r)
    ensures -1 <= r < |vec|
  {
    var i := 0;
    while i < |vec|
      invariant 0 <= i <= |vec|
      invariant num !in vec[..i]
    {
      if vec[i] == num {
        return i;
      }
      assert vec[..i + 1] == vec[..i] + [vec[i]];
      i := i + 1;
    }
    assert vec[..i] == vec;
    return -1;
  }
}
