/** The ELF metadata meter: how many distinct bytes a set of reads has touched. */
module IntervalMeter {
  import opened Wrappers
  import opened Bytes
  import opened Order

  const ELF_METADATA_MAX_BYTES: nat := 16 * 1024 * 1024

  /** A half-open interval of offsets. */
  datatype Interval = Interval(start: nat, stop: nat)

  predicate Ordered(iv: Interval) {
    iv.start <= iv.stop
  }

  predicate Within(x: int, lo: int, hi: int) {
    lo <= x < hi
  }

  /** The offsets of an interval, and of a list of them. */
  function Range(lo: int, hi: int): set<int> {
    set x | lo <= x < hi && Within(x, lo, hi)
  }

  function Covered(ivs: seq<Interval>): set<int> {
    if ivs == [] then {} else Range(ivs[0].start, ivs[0].stop) + Covered(ivs[1..])
  }

  /** Python's order on pairs is that of their lists. */
  function PairKey(iv: Interval): seq<int> {
    [iv.start, iv.stop]
  }

  lemma {:induction false} RangeSize(lo: int, hi: int)
    requires lo <= hi
    ensures |Range(lo, hi)| == hi - lo
    decreases hi - lo
  {
    if lo < hi {
      RangeSize(lo, hi - 1);
      assert Range(lo, hi) == Range(lo, hi - 1) + {hi - 1};
    }
  }

  lemma {:induction false} CoveredIff(ivs: seq<Interval>, x: int)
    ensures x in Covered(ivs) <==> exists iv | iv in ivs :: iv.start <= x < iv.stop
  {
    if ivs != [] {
      assert ivs == [ivs[0]] + ivs[1..];
      CoveredIff(ivs[1..], x);
    }
  }

  lemma CoveredIsMultiset(a: seq<Interval>, b: seq<Interval>)
    requires multiset(a) == multiset(b)
    ensures Covered(a) == Covered(b)
  {
    forall x ensures x in Covered(a) <==> x in Covered(b) {
      CoveredIff(a, x);
      CoveredIff(b, x);
      assert forall iv :: iv in a <==> iv in multiset(a);
      assert forall iv :: iv in b <==> iv in multiset(b);
    }
  }

  lemma CoveredSnoc(ivs: seq<Interval>, iv: Interval)
    ensures Covered(ivs + [iv]) == Covered(ivs) + Range(iv.start, iv.stop)
  {
    forall x ensures x in Covered(ivs + [iv]) <==> x in Covered(ivs) + Range(iv.start, iv.stop) {
      CoveredIff(ivs + [iv], x);
      CoveredIff(ivs, x);
    }
  }

  function LastStart(ivs: seq<Interval>): nat {
    if ivs == [] then 0 else ivs[|ivs| - 1].start
  }

  /** The sweep has counted these intervals: they end at reach, without a gap since the last start. */
  ghost predicate Swept(ivs: seq<Interval>, total: int, reach: int) {
    && 0 <= reach && total == |Covered(ivs)|
    && (forall x | x in Covered(ivs) :: x < reach)
    && (forall x | Within(x, LastStart(ivs), reach) :: x in Covered(ivs))
  }

  lemma SweepNext(ivs: seq<Interval>, total: int, reach: int, next: Interval)
    requires Swept(ivs, total, reach) && Ordered(next) && LastStart(ivs) <= next.start
    ensures if next.stop <= reach then Swept(ivs + [next], total, reach)
            else Swept(ivs + [next], total + next.stop - Max(next.start, reach), next.stop)
  {
    CoveredSnoc(ivs, next);
    hide Covered;
    var added := Range(Max(next.start, reach), next.stop);
    if next.stop > reach {
      RangeSize(Max(next.start, reach), next.stop);
      assert Covered(ivs + [next]) == Covered(ivs) + added;
      assert Covered(ivs) !! added;
    } else {
      assert forall x | x in Range(next.start, next.stop) :: Within(x, LastStart(ivs), reach);
      assert Covered(ivs + [next]) == Covered(ivs);
    }
  }

  lemma SweptNothing()
    ensures Swept([], 0, 0)
  {
  }

  lemma SweptAll(ivs: seq<Interval>, total: int, reach: int)
    requires Swept(ivs, total, reach)
    ensures total == |Covered(ivs)|
  {
  }

  lemma StartsAscend(a: Interval, b: Interval)
    requires !Less(PairKey(b), PairKey(a))
    ensures a.start <= b.start
  {
  }

  /** _interval_bytes: one sweep over the sorted intervals counts every covered offset once. */
  method IntervalBytes(intervals: seq<Interval>) returns (total: nat)
    requires forall iv | iv in intervals :: Ordered(iv)
    ensures total == |Covered(intervals)|
  {
    hide Less, Covered, Swept, Sort, PairKey;
    var sorted := Sort(intervals, PairKey);
    SweptNothing();
    assert sorted[..0] == [];
    var sum, end := 0, 0;
    for i := 0 to |sorted|
      invariant Swept(sorted[..i], sum, end)
    {
      assert sorted[i] in multiset(sorted);
      assert sorted[..i + 1] == sorted[..i] + [sorted[i]];
      if i > 0 {
        StartsAscend(sorted[i - 1], sorted[i]);
      }
      SweepNext(sorted[..i], sum, end, sorted[i]);
      if sorted[i].stop > end {
        sum := sum + sorted[i].stop - Max(sorted[i].start, end);
        end := sorted[i].stop;
      }
    }
    assert sorted[..|sorted|] == sorted;
    SweptAll(sorted, sum, end);
    CoveredIsMultiset(sorted, intervals);
    total := sum;
  }

  datatype Failure = PastEnd | LimitExceeded | Truncated

  /** _BoundedElfReader over a source that may hold fewer bytes than its recorded size. */
  class BoundedReader {
    const source: seq<Byte>
    const size: nat
    var intervals: seq<Interval>

    constructor (source: seq<Byte>, size: nat)
      ensures Valid() && this.source == source && this.size == size && intervals == []
    {
      this.source, this.size, intervals := source, size, [];
    }

    /** Every offset read so far lies in the source, and they are at most the limit. */
    ghost predicate Valid()
      reads this
    {
      && (forall iv | iv in intervals :: Ordered(iv) && iv.stop <= size && (iv.start < iv.stop ==> iv.stop <= |source|))
      && |Covered(intervals)| <= ELF_METADATA_MAX_BYTES
    }

    method Read(offset: int, length: int) returns (r: Result<seq<Byte>, Failure>)
      requires Valid()
      modifies this
      ensures Valid()
      ensures r.Ok? ==>
                && 0 <= offset && 0 <= length
                && r.value == Slice(source, offset, offset + length) && |r.value| == length
                && Covered(intervals) == old(Covered(intervals)) + Range(offset, offset + length)
      ensures r.Err? ==> intervals == old(intervals)
      ensures r == Err(PastEnd) <==> offset < 0 || length < 0 || offset + length > size
      ensures r == Err(LimitExceeded) <==>
                && 0 <= offset && 0 <= length && offset + length <= size
                && |old(Covered(intervals)) + Range(offset, offset + length)| > ELF_METADATA_MAX_BYTES
      ensures r == Err(Truncated) <==>
                && 0 <= offset && 0 < length && |source| < offset + length <= size
                && |old(Covered(intervals)) + Range(offset, offset + length)| <= ELF_METADATA_MAX_BYTES
    {
      hide Covered, Range;
      if offset < 0 || length < 0 || offset + length > size {
        return Err(PastEnd);
      }
      var next := intervals + [Interval(offset, offset + length)];
      CoveredSnoc(intervals, Interval(offset, offset + length));
      var measured := IntervalBytes(next);
      if measured > ELF_METADATA_MAX_BYTES {
        return Err(LimitExceeded);
      }
      var data := Slice(source, offset, offset + length);
      if |data| != length {
        return Err(Truncated);
      }
      intervals := next;
      r := Ok(data);
    }

    method MeasuredBytes() returns (total: nat)
      requires Valid()
      ensures total == |Covered(intervals)| && total <= ELF_METADATA_MAX_BYTES
    {
      total := IntervalBytes(intervals);
    }
  }
}
