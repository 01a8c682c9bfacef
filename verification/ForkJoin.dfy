/** CountTask: a sum of consecutive integers by divide and conquer, in 32-bit arithmetic. */
module ForkJoin {
  const MODULUS := 0x1_0000_0000
  const HALF := 0x8000_0000
  const QUARTER := 0x4000_0000

  const THERE_SHOULD := 2

  /** The int that Java keeps of an exact result. */
  function Wrap32(x: int): (r: int)
    ensures -HALF <= r < HALF && (r - x) % MODULUS == 0
  {
    (x + HALF) % MODULUS - HALF
  }

  /** Java's integer division truncates toward zero. */
  function Truncated(x: int, d: int): (r: int)
    requires d > 0
    ensures if x >= 0 then d * r <= x < d * r + d else d * r - d < x <= d * r
  {
    if x >= 0 then x / d else -(-x / d)
  }

  /** Two ints are congruent iff they are equal. */
  lemma WrapIsUnique(x: int, y: int)
    ensures Wrap32(x) == Wrap32(y) <==> (x - y) % MODULUS == 0
  {
    if (x - y) % MODULUS == 0 {
      var k := (x - y) / MODULUS;
      assert x + HALF == y + HALF + k * MODULUS;
    }
  }

  lemma WrapAdd(x: int, y: int)
    ensures Wrap32(Wrap32(x) + Wrap32(y)) == Wrap32(x + y)
  {
    WrapIsUnique(Wrap32(x) + Wrap32(y), x + y);
  }

  /** The exact sum of start, start + 1, ..., end. */
  function Sum(start: int, end: int): int
    decreases end - start
  {
    if start > end then 0 else Sum(start, end - 1) + end
  }

  lemma {:induction false} ClosedForm(start: int, end: int)
    requires start <= end + 1
    ensures 2 * Sum(start, end) == (start + end) * (end - start + 1)
    decreases end - start
  {
    if start <= end {
      ClosedForm(start, end - 1);
    }
  }

  lemma {:induction false} SumSplits(start: int, middle: int, end: int)
    requires start <= middle + 1 && middle <= end
    ensures Sum(start, end) == Sum(start, middle) + Sum(middle + 1, end)
    decreases end - middle
  {
    if middle < end {
      SumSplits(start, middle, end - 1);
    }
  }

  /** Whether a task adds its range itself. */
  predicate Leaf(start: int, end: int) {
    Wrap32(end - start) <= THERE_SHOULD
  }

  /** Within the bounds, a task adds its range itself iff that has at most three numbers. */
  lemma LeafIff(start: int, end: int)
    requires InRange(start) && InRange(end)
    ensures Leaf(start, end) <==> end - start + 1 <= 3
  {
  }

  function Middle(start: int, end: int): int {
    Truncated(Wrap32(start + end), 2)
  }

  predicate InRange(x: int) {
    -QUARTER <= x < QUARTER
  }

  /** A split gives two smaller nonempty ranges. */
  lemma SplitIsProper(start: int, end: int)
    requires InRange(start) && InRange(end) && !Leaf(start, end)
    ensures start <= Middle(start, end) < end
    ensures InRange(Middle(start, end)) && InRange(Middle(start, end) + 1)
  {
  }

  predicate IsInt(x: int) {
    -HALF <= x < HALF
  }

  /** Over all of int a split is proper exactly when the sum of the bounds does not overflow. */
  lemma SplitIsProperIff(start: int, end: int)
    requires IsInt(start) && IsInt(end) && start <= end && !Leaf(start, end)
    ensures start <= Middle(start, end) < end <==> IsInt(start + end)
  {
  }

  /** A range of four numbers that overflows: its second part starts far below it. */
  lemma OverflowingSplit()
    ensures !Leaf(QUARTER - 1, QUARTER + 2) && Middle(QUARTER - 1, QUARTER + 2) + 1 == 2 - QUARTER
  {
  }

  datatype Range = Range(start: int, end: int)

  /** The tasks that add their range themselves, left to right. */
  function Leaves(start: int, end: int): seq<Range>
    requires InRange(start) && InRange(end)
    decreases end - start
  {
    if Leaf(start, end) then [Range(start, end)]
    else
      SplitIsProper(start, end);
      Leaves(start, Middle(start, end)) + Leaves(Middle(start, end) + 1, end)
  }

  /** Each leaf starts where the one before ended. */
  ghost predicate Tiles(ls: seq<Range>, start: int, end: int) {
    && ls != [] && ls[0].start == start && ls[|ls| - 1].end == end
    && (forall i :: 0 <= i < |ls| ==> ls[i].start <= ls[i].end <= ls[i].start + THERE_SHOULD)
    && forall i :: 0 < i < |ls| ==> ls[i].start == ls[i - 1].end + 1
  }

  lemma {:induction false} LeavesPartition(start: int, end: int)
    requires InRange(start) && InRange(end) && start <= end
    ensures Tiles(Leaves(start, end), start, end)
    decreases end - start
  {
    if !Leaf(start, end) {
      SplitIsProper(start, end);
      var m := Middle(start, end);
      LeavesPartition(start, m);
      LeavesPartition(m + 1, end);
      TilesJoin(Leaves(start, m), Leaves(m + 1, end), start, m, end);
    }
  }

  lemma TilesJoin(a: seq<Range>, b: seq<Range>, start: int, middle: int, end: int)
    requires Tiles(a, start, middle) && Tiles(b, middle + 1, end)
    ensures Tiles(a + b, start, end)
  {
    forall i | 0 < i < |a + b| ensures (a + b)[i].start == (a + b)[i - 1].end + 1 {
      if i > |a| {
        assert (a + b)[i] == b[i - |a|] && (a + b)[i - 1] == b[i - |a| - 1];
      }
    }
  }

  /** Every number of the range belongs to exactly one leaf. */
  lemma {:induction false} TilesExact(ls: seq<Range>, start: int, end: int, x: int)
    requires Tiles(ls, start, end)
    ensures start <= x <= end <==> exists i :: 0 <= i < |ls| && ls[i].start <= x <= ls[i].end
    ensures forall i, j :: 0 <= i < j < |ls| ==> ls[i].end < ls[j].start
    decreases |ls|
  {
    if |ls| > 1 {
      var init, last := ls[..|ls| - 1], ls[|ls| - 1];
      TilesExact(init, start, last.start - 1, x);
      forall i, j | 0 <= i < j < |ls| ensures ls[i].end < ls[j].start {
        if j < |init| {
          assert init[i].end < init[j].start;
        } else if i < |init| - 1 {
          assert init[i].end < init[|init| - 1].start;
        }
      }
      assert forall i :: 0 <= i < |init| ==> ls[i] == init[i];
      if start <= x < last.start {
        var i :| 0 <= i < |init| && init[i].start <= x <= init[i].end;
        assert ls[i] == init[i];
      }
      if i :| 0 <= i < |ls| && ls[i].start <= x <= ls[i].end {
        if i < |init| {
          assert init[i].start <= x <= init[i].end;
        }
        FirstLast(ls, start, end);
      }
    }
  }

  lemma {:induction false} FirstLast(ls: seq<Range>, start: int, end: int)
    requires Tiles(ls, start, end)
    ensures forall i :: 0 <= i < |ls| ==> start <= ls[i].start && ls[i].end <= end
    decreases |ls|
  {
    if |ls| > 1 {
      var init := ls[..|ls| - 1];
      FirstLast(init, start, init[|init| - 1].end);
      assert forall i :: 0 <= i < |init| ==> ls[i] == init[i];
    }
  }

  /** compute: the int left of the exact sum, for every range within the bounds. */
  method Compute(start: int, end: int) returns (sum: int)
    requires InRange(start) && InRange(end)
    ensures sum == Wrap32(Sum(start, end))
    decreases end - start
  {
    var canCompute := Wrap32(end - start) <= THERE_SHOULD;
    if canCompute {
      sum := AddAll(start, end);
    } else {
      SplitIsProper(start, end);
      var middle := Truncated(Wrap32(start + end), 2);
      var resultOne := Compute(start, middle);
      var resultTwo := Compute(middle + 1, end);
      SumSplits(start, middle, end);
      WrapAdd(Sum(start, middle), Sum(middle + 1, end));
      sum := Wrap32(resultOne + resultTwo);
    }
  }

  /** The loop of a leaf. */
  method AddAll(start: int, end: int) returns (sum: int)
    ensures sum == Wrap32(Sum(start, end))
  {
    sum := 0;
    var i := start;
    while i <= end
      invariant start <= i <= if start <= end then end + 1 else start
      invariant sum == Wrap32(Sum(start, i - 1))
    {
      AddOne(start, i);
      sum := Wrap32(sum + i);
      i := i + 1;
    }
    EmptySum(start, end);
  }

  lemma AddOne(start: int, i: int)
    requires start <= i
    ensures Wrap32(Wrap32(Sum(start, i - 1)) + i) == Wrap32(Sum(start, i))
  {
    WrapIsUnique(Wrap32(Sum(start, i - 1)) + i, Sum(start, i));
  }

  lemma EmptySum(start: int, end: int)
    ensures start > end ==> Sum(start, end) == Sum(start, start - 1)
  {
  }

  /** Twice the result of compute is congruent to Gauss's product. */
  lemma ResultIsGauss(start: int, end: int)
    requires start <= end
    ensures (2 * Wrap32(Sum(start, end)) - (start + end) * (end - start + 1)) % MODULUS == 0
  {
    ClosedForm(start, end);
    var r, s := Wrap32(Sum(start, end)), Sum(start, end);
    var k := (r - s) / MODULUS;
    assert 2 * r - 2 * s == (2 * k) * MODULUS;
  }
}
