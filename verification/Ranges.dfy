/** Ranges of byte positions that several workers share out among them. */
module Ranges {

  datatype Range = Range(start: int, length: int)

  function Max(x: int, y: int): int { if x < y then y else x }

  predicate Covers(r: Range, p: int) {
    r.start <= p < r.start + r.length
  }

  /** End to end from 0 to n. */
  predicate EndToEnd(rs: seq<Range>, n: int) {
    && (forall k | 0 <= k < |rs| :: rs[k].length >= 0)
    && (forall j, k | 0 <= j < |rs| && k == j + 1 < |rs| :: rs[k].start == rs[j].start + rs[j].length)
    && (if rs == [] then n == 0
        else rs[0].start == 0 && rs[|rs| - 1].start + rs[|rs| - 1].length == n)
  }

  predicate Covered(rs: seq<Range>, p: int) {
    exists k :: 0 <= k < |rs| && Covers(rs[k], p)
  }

  /** Every position from 0 to n, and no other, lies in exactly one range. */
  ghost predicate Partition(rs: seq<Range>, n: int) {
    && (forall p :: Covered(rs, p) <==> 0 <= p < n)
    && (forall j, k, p: int | 0 <= j < k < |rs| && Covers(rs[j], p) :: !Covers(rs[k], p))
  }

  lemma {:induction false} Ordered(rs: seq<Range>, n: int, j: nat, k: nat)
    requires EndToEnd(rs, n) && j <= k < |rs|
    ensures 0 <= rs[j].start <= rs[k].start && rs[k].start + rs[k].length <= n
    ensures j < k ==> rs[j].start + rs[j].length <= rs[k].start
    decreases |rs| - k, k, k - j
  {
    Forward(rs, n, 0, j);
    Forward(rs, n, j, k);
    Forward(rs, n, k, |rs| - 1);
  }

  lemma {:induction false} Forward(rs: seq<Range>, n: int, j: nat, k: nat)
    requires EndToEnd(rs, n) && j <= k < |rs|
    ensures rs[j].start <= rs[k].start
    ensures rs[j].start + rs[j].length <= rs[k].start + rs[k].length
    ensures j < k ==> rs[j].start + rs[j].length <= rs[k].start
    decreases k
  {
    if j < k {
      Forward(rs, n, j, k - 1);
      var i := k - 1;
      assert rs[k].start == rs[i].start + rs[i].length;
    }
  }

  /** The range that position p lies in. */
  lemma {:induction false} FindRange(rs: seq<Range>, n: int, p: int, m: nat) returns (k: nat)
    requires EndToEnd(rs, n) && 0 <= p && m < |rs| && p < rs[m].start + rs[m].length
    ensures k < |rs| && Covers(rs[k], p)
    decreases m
  {
    if rs[m].start <= p {
      k := m;
    } else {
      var i := m - 1;
      assert rs[m].start == rs[i].start + rs[i].length;
      k := FindRange(rs, n, p, i);
    }
  }

  lemma EndToEndIsPartition(rs: seq<Range>, n: int)
    requires EndToEnd(rs, n)
    ensures n >= 0 && Partition(rs, n)
  {
    if rs != [] {
      Ordered(rs, n, 0, |rs| - 1);
    }
    forall p ensures Covered(rs, p) <==> 0 <= p < n {
      if 0 <= p < n {
        var k := FindRange(rs, n, p, |rs| - 1);
      } else if Covered(rs, p) {
        var k :| 0 <= k < |rs| && Covers(rs[k], p);
        Ordered(rs, n, k, k);
      }
    }
    forall j, k, p: int | 0 <= j < k < |rs| && Covers(rs[j], p) ensures !Covers(rs[k], p) {
      Ordered(rs, n, j, k);
    }
  }

  /** Ranges cannot partition two different stretches. */
  lemma PartitionUnique(rs: seq<Range>, m: int, n: int)
    requires Partition(rs, m) && Partition(rs, n) && 0 <= m && 0 <= n
    ensures m == n
  {
    assert Covered(rs, m) <==> m < n;
    assert Covered(rs, n) <==> n < m;
  }
}
