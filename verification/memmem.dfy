/**
  memmem of shared/string.c: the "Not So Naive" search. It compares the second byte first and then moves on by one or two
  positions, depending on whether the first two bytes of the needle are equal.
 */
module Memmem {

  datatype Found = At(index: nat) | NotFound

  predicate Occurs(y: seq<int>, x: seq<int>, j: int) {
    0 <= j && j + |x| <= |y| && y[j..j + |x|] == x
  }

  /** No occurrence starts before position j. */
  predicate NoneBefore(y: seq<int>, x: seq<int>, j: int) {
    forall i :: 0 <= i < j ==> !Occurs(y, x, i)
  }

  lemma OccursBytes(y: seq<int>, x: seq<int>, j: int, i: int)
    requires Occurs(y, x, j) && 0 <= i < |x|
    ensures y[j + i] == x[i]
  {
    assert y[j..j + |x|][i] == y[j + i];
  }

  /** A difference at the second byte rules out position j, and j + 1 as well when the first two bytes are equal. */
  lemma SkipAfterMismatch(y: seq<int>, x: seq<int>, j: int, step: int)
    requires |x| >= 2 && 0 <= j && j + |x| <= |y| && y[j + 1] != x[1] && NoneBefore(y, x, j)
    requires step == if x[0] == x[1] then 2 else 1
    ensures NoneBefore(y, x, j + step)
  {
    forall i | 0 <= i < j + step ensures !Occurs(y, x, i) {
      if i == j && Occurs(y, x, i) { OccursBytes(y, x, j, 1); }
      if i == j + 1 && Occurs(y, x, i) { OccursBytes(y, x, j + 1, 0); }
    }
  }

  /** Equality at the second byte rules out j + 1 when the first two bytes differ. */
  lemma SkipAfterMatch(y: seq<int>, x: seq<int>, j: int, step: int)
    requires |x| >= 2 && 0 <= j && j + |x| <= |y| && y[j + 1] == x[1] && NoneBefore(y, x, j) && !Occurs(y, x, j)
    requires step == if x[0] == x[1] then 1 else 2
    ensures NoneBefore(y, x, j + step)
  {
    forall i | 0 <= i < j + step ensures !Occurs(y, x, i) {
      if i == j + 1 && Occurs(y, x, i) { OccursBytes(y, x, j + 1, 0); }
    }
  }

  /** The comparison of the second byte, of the tail and of the first byte together decide position j. */
  lemma ComparedAll(y: seq<int>, x: seq<int>, j: int)
    requires |x| >= 2 && 0 <= j && j + |x| <= |y| && y[j + 1] == x[1]
    ensures Occurs(y, x, j) <==> y[j + 2..j + |x|] == x[2..] && x[0] == y[j]
  {
    var w := y[j..j + |x|];
    assert w[2..] == y[j + 2..j + |x|] && w[0] == y[j] && w[1] == y[j + 1];
    assert x == [x[0], x[1]] + x[2..];
    assert w == [w[0], w[1]] + w[2..];
  }

  /** A needle longer than one byte. The index stays within the haystack, so it cannot wrap. */
  method SearchLong(y: seq<int>, x: seq<int>) returns (r: Found)
    requires 2 <= |x| <= |y|
    ensures r.At? ==> Occurs(y, x, r.index) && NoneBefore(y, x, r.index)
    ensures r.NotFound? ==> NoneBefore(y, x, |y|)
  {
    var k, l := 1, 2;
    if x[0] == x[1] {
      k, l := 2, 1;
    }
    var j := 0;
    while j <= |y| - |x|
      invariant 0 <= j <= |y|
      invariant NoneBefore(y, x, j)
    {
      if x[1] != y[j + 1] {
        SkipAfterMismatch(y, x, j, k);
        j := j + k;
      } else {
        ComparedAll(y, x, j);
        if y[j + 2..j + |x|] == x[2..] && x[0] == y[j] {
          return At(j);
        }
        SkipAfterMatch(y, x, j, l);
        j := j + l;
      }
    }
    return NotFound;
  }

  method SearchByte(y: seq<int>, b: int) returns (r: Found)
    requires |y| >= 1
    ensures r.At? ==> Occurs(y, [b], r.index) && NoneBefore(y, [b], r.index)
    ensures r.NotFound? ==> NoneBefore(y, [b], |y|)
  {
    var j := 0;
    while true
      invariant 0 <= j < |y| && NoneBefore(y, [b], j)
      decreases |y| - j
    {
      assert y[j..j + 1] == [y[j]];
      if y[j] == b {
        return At(j);
      }
      assert !Occurs(y, [b], j) by {
        if Occurs(y, [b], j) { OccursBytes(y, [b], j, 0); }
      }
      j := j + 1;
      if j == |y| {
        return NotFound;
      }
    }
  }

  /** The first occurrence of a non-empty needle, or none; an empty needle or haystack is never found. */
  method Search(y: seq<int>, x: seq<int>) returns (r: Found)
    ensures r.At? <==> x != [] && exists j :: Occurs(y, x, j)
    ensures r.At? ==> Occurs(y, x, r.index) && NoneBefore(y, x, r.index)
  {
    if |x| > |y| || |x| == 0 || |y| == 0 {
      return NotFound;
    }
    if |x| != 1 {
      r := SearchLong(y, x);
    } else {
      assert x == [x[0]];
      r := SearchByte(y, x[0]);
    }
    if r.NotFound? {
      forall j ensures !Occurs(y, x, j) {
        assert Occurs(y, x, j) ==> 0 <= j < |y|;
      }
    }
  }
}
