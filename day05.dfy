/**
  Day 5: a block of inclusive ranges `a-b`, a blank line, then a block of ingredient ids.
  Part 1 counts the ids that fall in some range; part 2 counts the integers covered by the
  union of the ranges, by sorting them on their start and sweeping once.
 */
module Day05 {
  import opened Wrappers
  import opened Text
  import Sorting

  /** An inclusive range `lo..=hi`; it is empty when `lo > hi`. */
  datatype Range = Range(lo: int, hi: int)

  predicate Contains(r: Range, x: int) { r.lo <= x <= r.hi }

  /** The sort key of `merge_and_sum_ranges`: a range's start. */
  function Start(r: Range): int { r.lo }

  /** A line `a-b` split at its first `-`, both sides integers; anything else is `None`. */
  function ParseRange(line: string): (r: Option<Range>)
    ensures r.Some? ==> exists i :: 0 <= i < |line| && line[i] == '-'
    ensures r.Some? <==> (SplitOnce(line, '-').Some?
                          && ParseInt(SplitOnce(line, '-').value.0).Some?
                          && ParseInt(SplitOnce(line, '-').value.1).Some?)
  {
    match SplitOnce(line, '-')
    case None => None
    case Some((a, b)) =>
      match (ParseInt(a), ParseInt(b))
      case (Some(lo), Some(hi)) => Some(Range(lo, hi))
      case _ => None
  }

  /** A range written with a non-negative start parses back to itself. */
  lemma ParseRangeOfText(lo: nat, hi: int)
    ensures ParseRange(NatToDecimal(lo) + "-" + IntToDecimal(hi)) == Some(Range(lo, hi))
  {
    var a, b := NatToDecimal(lo), IntToDecimal(hi);
    assert '-' !in a by {
      forall i | 0 <= i < |a|
        ensures a[i] != '-'
      {
        assert IsDigit(a[i]);
      }
    }
    SplitOnceAt(a, '-', b);
    assert ParseInt(a) == Some(lo) by {
      assert a[0] != '-' && a[0] != '+';
    }
    ParseIntToDecimal(hi);
  }

  /** `parse_ranges`: the lines that parse as ranges, in order; the rest are skipped. */
  function ParseRanges(lines: seq<string>): (rs: seq<Range>)
    ensures |rs| <= |lines|
    ensures forall k :: 0 <= k < |rs| ==> exists i :: 0 <= i < |lines| && ParseRange(lines[i]) == Some(rs[k])
    ensures forall i :: 0 <= i < |lines| && ParseRange(lines[i]).Some? ==> ParseRange(lines[i]).value in rs
  {
    if lines == [] then
      []
    else
      var rest := ParseRanges(lines[1..]);
      match ParseRange(lines[0])
      case None => rest
      case Some(r) => [r] + rest
  }

  /** There is a blank line at index `i` that ends the range block: `i >= 1`. */
  predicate BreakAt(lines: seq<string>, i: int)
  {
    1 <= i < |lines| && lines[i] == []
  }

  /**
    Where `split_once("\n\n")` cuts the input: at the first blank line after the first
    line (a blank first line is not preceded by a newline).
   */
  function FirstBreak(lines: seq<string>, from: nat): (r: Option<nat>)
    requires from >= 1
    ensures r.Some? ==> from <= r.value && BreakAt(lines, r.value)
    ensures r.Some? ==> forall j :: from <= j < r.value ==> !BreakAt(lines, j)
    ensures r.None? ==> forall j :: from <= j ==> !BreakAt(lines, j)
    decreases |lines| - from
  {
    if from >= |lines| then None
    else if lines[from] == [] then Some(from)
    else FirstBreak(lines, from + 1)
  }

  /** The range block and the id block; without a blank line the ids are empty. */
  function Blocks(lines: seq<string>): (r: (seq<string>, seq<string>))
    ensures FirstBreak(lines, 1).None? ==> r == (lines, [])
    ensures FirstBreak(lines, 1).Some? ==> lines == r.0 + [[]] + r.1
  {
    match FirstBreak(lines, 1)
    case None => (lines, [])
    case Some(i) =>
      assert lines == lines[..i] + [[]] + lines[i + 1..];
      (lines[..i], lines[i + 1..])
  }

  /** The integers covered by `lo..=hi`. */
  function Interval(lo: int, hi: int): set<int>
    decreases hi - lo
  {
    if lo > hi then {} else Interval(lo, hi - 1) + {hi}
  }

  lemma {:induction false} IntervalMembers(lo: int, hi: int, x: int)
    ensures x in Interval(lo, hi) <==> lo <= x <= hi
    decreases hi - lo
  {
    if lo <= hi {
      IntervalMembers(lo, hi - 1, x);
    }
  }

  lemma {:induction false} IntervalSize(lo: int, hi: int)
    ensures |Interval(lo, hi)| == if lo <= hi then hi - lo + 1 else 0
    decreases hi - lo
  {
    if lo <= hi {
      IntervalMembers(lo, hi - 1, hi);
      IntervalSize(lo, hi - 1);
    }
  }

  /** Two overlapping ranges, the second starting inside the first, form one range. */
  lemma IntervalMerge(cs: int, ce: int, lo: int, hi: int)
    requires cs <= lo <= ce
    ensures Interval(cs, ce) + Interval(lo, hi) == Interval(cs, Max(ce, hi))
  {
    forall x
      ensures x in Interval(cs, ce) + Interval(lo, hi) <==> x in Interval(cs, Max(ce, hi))
    {
      IntervalMembers(cs, ce, x);
      IntervalMembers(lo, hi, x);
      IntervalMembers(cs, Max(ce, hi), x);
    }
  }

  /** Closing the group `cs..=ce` above the closed groups adds its length to their size. */
  lemma CloseGroup(closed: set<int>, cs: int, ce: int, next: int)
    requires cs <= ce < next
    requires forall x :: x in closed ==> x < cs
    ensures |closed + Interval(cs, ce)| == |closed| + ce - cs + 1
    ensures forall x :: x in closed + Interval(cs, ce) ==> x < next
  {
    IntervalSize(cs, ce);
    forall x | x in Interval(cs, ce)
      ensures cs <= x <= ce
    {
      IntervalMembers(cs, ce, x);
    }
    assert closed * Interval(cs, ce) == {};
  }

  /** The integers covered by some range of `rs`. */
  function Union(rs: seq<Range>): set<int>
  {
    if rs == [] then {} else Union(rs[..|rs| - 1]) + Interval(rs[|rs| - 1].lo, rs[|rs| - 1].hi)
  }

  lemma {:induction false} UnionMembers(rs: seq<Range>, x: int)
    ensures x in Union(rs) <==> exists k :: 0 <= k < |rs| && Contains(rs[k], x)
  {
    if rs != [] {
      var init := rs[..|rs| - 1];
      UnionMembers(init, x);
      IntervalMembers(rs[|rs| - 1].lo, rs[|rs| - 1].hi, x);
      if x in Union(init) {
        var k :| 0 <= k < |init| && Contains(init[k], x);
        assert rs[k] == init[k];
      }
      if exists k :: 0 <= k < |rs| && Contains(rs[k], x) {
        var k :| 0 <= k < |rs| && Contains(rs[k], x);
        if k < |init| {
          assert init[k] == rs[k];
        }
      }
    }
  }

  /** The union depends only on which ranges there are, not on their order. */
  lemma UnionOfPermutation(a: seq<Range>, b: seq<Range>)
    requires multiset(a) == multiset(b)
    ensures Union(a) == Union(b)
  {
    forall x | x in Union(a)
      ensures x in Union(b)
    {
      UnionMembers(a, x);
      UnionMembers(b, x);
      var k :| 0 <= k < |a| && Contains(a[k], x);
      assert a[k] in multiset(b);
      var j :| 0 <= j < |b| && b[j] == a[k];
    }
    forall x | x in Union(b)
      ensures x in Union(a)
    {
      UnionMembers(a, x);
      UnionMembers(b, x);
      var k :| 0 <= k < |b| && Contains(b[k], x);
      assert b[k] in multiset(a);
      var j :| 0 <= j < |a| && a[j] == b[k];
    }
  }

  /** The number of integers in a range: its contribution when it closes a group. */
  function Length(r: Range): int { r.hi - r.lo + 1 }

  predicate WellFormed(rs: seq<Range>)
  {
    forall k :: 0 <= k < |rs| ==> rs[k].lo <= rs[k].hi
  }

  function Max(a: int, b: int): int { if a >= b then a else b }

  /**
    The sweep of `merge_and_sum_ranges` from range `i` on, with the open group
    `cs..=ce` and `total` counted for the groups already closed.
   */
  function SweepFrom(s: seq<Range>, i: nat, cs: int, ce: int, total: int): int
    requires i <= |s|
    decreases |s| - i
  {
    if i == |s| then
      total + ce - cs + 1
    else if s[i].lo <= ce then
      SweepFrom(s, i + 1, cs, Max(ce, s[i].hi), total)
    else
      SweepFrom(s, i + 1, s[i].lo, s[i].hi, total + ce - cs + 1)
  }

  /** The result of the sweep over a non-empty sequence of ranges. */
  function Sweep(s: seq<Range>): int
    requires |s| > 0
  {
    SweepFrom(s, 1, s[0].lo, s[0].hi, 0)
  }

  /**
    The loop invariant of the sweep: the ranges before `i` cover the closed groups and
    the open group `cs..=ce`; the closed groups lie below `cs`, and `total` is their size.
   */
  lemma {:induction false} SweepFromIsUnion(s: seq<Range>, i: nat, cs: int, ce: int, total: int, closed: set<int>)
    requires Sorting.SortedBy(s, Start) && WellFormed(s)
    requires 1 <= i <= |s| && cs <= ce
    requires Union(s[..i]) == closed + Interval(cs, ce)
    requires forall x :: x in closed ==> x < cs
    requires total == |closed|
    requires forall k :: i <= k < |s| ==> cs <= s[k].lo
    ensures SweepFrom(s, i, cs, ce, total) == |Union(s)|
    decreases |s| - i, 1
  {
    if i == |s| {
      assert s[..i] == s;
      SweepDone(s, cs, ce, total, closed);
    } else if s[i].lo <= ce {
      SweepMergeStep(s, i, cs, ce, total, closed);
    } else {
      SweepCloseStep(s, i, cs, ce, total, closed);
    }
  }

  /** The invariant after a range that extends the open group. */
  lemma {:induction false} SweepMergeStep(s: seq<Range>, i: nat, cs: int, ce: int, total: int, closed: set<int>)
    requires Sorting.SortedBy(s, Start) && WellFormed(s)
    requires 1 <= i < |s| && cs <= ce && s[i].lo <= ce
    requires Union(s[..i]) == closed + Interval(cs, ce)
    requires forall x :: x in closed ==> x < cs
    requires total == |closed|
    requires forall k :: i <= k < |s| ==> cs <= s[k].lo
    ensures SweepFrom(s, i, cs, ce, total) == |Union(s)|
    decreases |s| - i, 0
  {
    SweepMerge(s, i, cs, ce, closed);
    SweepFromIsUnion(s, i + 1, cs, Max(ce, s[i].hi), total, closed);
  }

  /** The invariant after a range that closes the open group. */
  lemma {:induction false} SweepCloseStep(s: seq<Range>, i: nat, cs: int, ce: int, total: int, closed: set<int>)
    requires Sorting.SortedBy(s, Start) && WellFormed(s)
    requires 1 <= i < |s| && cs <= ce < s[i].lo
    requires Union(s[..i]) == closed + Interval(cs, ce)
    requires forall x :: x in closed ==> x < cs
    requires total == |closed|
    ensures SweepFrom(s, i, cs, ce, total) == |Union(s)|
    decreases |s| - i, 0
  {
    var next := total + ce - cs + 1;
    assert SweepFrom(s, i, cs, ce, total) == SweepFrom(s, i + 1, s[i].lo, s[i].hi, next);
    SweepClose(s, i, cs, ce, total, closed);
    SweepFromIsUnion(s, i + 1, s[i].lo, s[i].hi, next, closed + Interval(cs, ce));
  }

  /** At the end the open group is closed, and the groups make up the union. */
  lemma SweepDone(s: seq<Range>, cs: int, ce: int, total: int, closed: set<int>)
    requires cs <= ce && Union(s) == closed + Interval(cs, ce)
    requires forall x :: x in closed ==> x < cs
    requires total == |closed|
    ensures total + ce - cs + 1 == |Union(s)|
  {
    CloseGroup(closed, cs, ce, ce + 1);
  }

  /** A range that starts inside the open group extends it. */
  lemma SweepMerge(s: seq<Range>, i: nat, cs: int, ce: int, closed: set<int>)
    requires i < |s| && cs <= s[i].lo <= ce
    requires Union(s[..i]) == closed + Interval(cs, ce)
    ensures Union(s[..i + 1]) == closed + Interval(cs, Max(ce, s[i].hi))
  {
    UnionSnoc(s, i);
    IntervalMerge(cs, ce, s[i].lo, s[i].hi);
  }

  /** A range that starts past the open group closes it and opens a new one. */
  lemma SweepClose(s: seq<Range>, i: nat, cs: int, ce: int, total: int, closed: set<int>)
    requires Sorting.SortedBy(s, Start) && WellFormed(s)
    requires i < |s| && cs <= ce < s[i].lo
    requires Union(s[..i]) == closed + Interval(cs, ce)
    requires forall x :: x in closed ==> x < cs
    requires total == |closed|
    ensures Union(s[..i + 1]) == (closed + Interval(cs, ce)) + Interval(s[i].lo, s[i].hi)
    ensures forall x :: x in closed + Interval(cs, ce) ==> x < s[i].lo
    ensures total + ce - cs + 1 == |closed + Interval(cs, ce)|
    ensures s[i].lo <= s[i].hi
    ensures forall k :: i + 1 <= k < |s| ==> s[i].lo <= s[k].lo
  {
    UnionSnoc(s, i);
    CloseGroup(closed, cs, ce, s[i].lo);
    assert forall k :: i + 1 <= k < |s| ==> Start(s[i]) <= Start(s[k]);
  }

  lemma UnionSnoc(s: seq<Range>, i: nat)
    requires i < |s|
    ensures Union(s[..i + 1]) == Union(s[..i]) + Interval(s[i].lo, s[i].hi)
  {
    assert s[..i + 1][..i] == s[..i];
  }

  /** On sorted, well-formed ranges the sweep counts exactly the integers covered. */
  lemma SweepIsUnionSize(s: seq<Range>)
    requires |s| > 0 && Sorting.SortedBy(s, Start) && WellFormed(s)
    ensures Sweep(s) == |Union(s)|
  {
    assert s[..1] == [s[0]];
    assert s[..1][..0] == [];
    assert Union(s[..1]) == {} + Interval(s[0].lo, s[0].hi);
    SweepFromIsUnion(s, 1, s[0].lo, s[0].hi, 0, {});
  }

  /**
    `merge_and_sum_ranges`: sorts the ranges in place by their start, then sweeps. On
    well-formed ranges the result is the size of their union, whatever the input order.
   */
  method MergeAndSum(ranges: array<Range>) returns (totalLength: int)
    requires ranges.Length > 0
    modifies ranges
    ensures Sorting.SortedBy(ranges[..], Start)
    ensures multiset(ranges[..]) == old(multiset(ranges[..]))
    ensures totalLength == Sweep(ranges[..])
    ensures WellFormed(old(ranges[..])) ==> totalLength == |Union(old(ranges[..]))|
  {
    Sorting.SortByKey(ranges, Start);
    ghost var s := ranges[..];
    totalLength := 0;
    var currentStart := ranges[0].lo;
    var currentEnd := ranges[0].hi;
    for i := 1 to ranges.Length
      invariant SweepFrom(s, i, currentStart, currentEnd, totalLength) == Sweep(s)
    {
      var range := ranges[i];
      if range.lo <= currentEnd {
        currentEnd := Max(currentEnd, range.hi);
      } else {
        totalLength := totalLength + currentEnd - currentStart + 1;
        currentStart := range.lo;
        currentEnd := range.hi;
      }
    }
    totalLength := totalLength + currentEnd - currentStart + 1;
    if WellFormed(old(ranges[..])) {
      assert WellFormed(s) by {
        forall k | 0 <= k < |s|
          ensures s[k].lo <= s[k].hi
        {
          assert s[k] in multiset(old(ranges[..]));
        }
      }
      SweepIsUnionSize(s);
      UnionOfPermutation(s, old(ranges[..]));
    }
  }

  /** The union holds every range and is no bigger than their lengths added up. */
  lemma {:induction false} UnionBounds(rs: seq<Range>)
    requires WellFormed(rs)
    ensures forall k :: 0 <= k < |rs| ==> Length(rs[k]) <= |Union(rs)|
    ensures |Union(rs)| <= TotalLength(rs)
  {
    if rs != [] {
      var init := rs[..|rs| - 1];
      var last := rs[|rs| - 1];
      UnionBounds(init);
      IntervalSize(last.lo, last.hi);
      forall k | 0 <= k < |rs|
        ensures Length(rs[k]) <= |Union(rs)|
      {
        if k < |init| {
          assert rs[k] == init[k];
        }
        IntervalSize(rs[k].lo, rs[k].hi);
        assert Interval(rs[k].lo, rs[k].hi) <= Union(rs) by {
          forall x | x in Interval(rs[k].lo, rs[k].hi)
            ensures x in Union(rs)
          {
            IntervalMembers(rs[k].lo, rs[k].hi, x);
            UnionMembers(rs, x);
          }
        }
        SubsetSize(Interval(rs[k].lo, rs[k].hi), Union(rs));
      }
    }
  }

  lemma SubsetSize(a: set<int>, b: set<int>)
    requires a <= b
    ensures |a| <= |b|
  {
    assert b == a + (b - a);
  }

  /** The lengths of the ranges added up. */
  function TotalLength(rs: seq<Range>): int
  {
    if rs == [] then 0 else TotalLength(rs[..|rs| - 1]) + Length(rs[|rs| - 1])
  }

  /** `r.contains(id)` for some range of `rs`. */
  predicate InSomeRange(rs: seq<Range>, id: int)
  {
    exists k :: 0 <= k < |rs| && Contains(rs[k], id)
  }

  /** The id lines that parse as integers lying in some range. */
  function CountFresh(ids: seq<string>, rs: seq<Range>): (n: nat)
    ensures n <= |ids|
  {
    if ids == [] then
      0
    else
      var rest := CountFresh(ids[1..], rs);
      match ParseInt(ids[0])
      case Some(id) => if InSomeRange(rs, id) then 1 + rest else rest
      case None => rest
  }

  /** An id is fresh exactly when it lies in the union of the ranges. */
  lemma InSomeRangeIsUnion(rs: seq<Range>, id: int)
    ensures InSomeRange(rs, id) <==> id in Union(rs)
  {
    UnionMembers(rs, id);
  }

  /** Part 1: the fresh ids of the id block, judged against the ranges of the range block. */
  function Part1(lines: seq<string>): (n: nat)
    ensures n <= |Blocks(lines).1|
    ensures FirstBreak(lines, 1).None? ==> n == 0
  {
    var (rangeBlock, idBlock) := Blocks(lines);
    CountFresh(idBlock, ParseRanges(rangeBlock))
  }

  /**
    Part 2: the sweep over the ranges of the range block once sorted by start; for
    well-formed ranges, the size of their union. The order the sort leaves ranges with equal
    starts in is not fixed, so the sorted ranges are returned as a ghost output.
   */
  method Part2(lines: seq<string>) returns (total: int, ghost sorted: seq<Range>)
    requires |ParseRanges(Blocks(lines).0)| > 0
    ensures multiset(sorted) == multiset(ParseRanges(Blocks(lines).0)) && Sorting.SortedBy(sorted, Start)
    ensures |sorted| > 0 && total == Sweep(sorted)
    ensures WellFormed(ParseRanges(Blocks(lines).0)) ==> total == |Union(ParseRanges(Blocks(lines).0))|
  {
    var rs := ParseRanges(Blocks(lines).0);
    var ranges := RangeArray(rs);
    total := MergeAndSum(ranges);
    sorted := ranges[..];
  }

  /** The vector `parse_ranges` collects, as a fresh array. */
  method RangeArray(rs: seq<Range>) returns (ranges: array<Range>)
    ensures fresh(ranges) && ranges[..] == rs
  {
    ranges := new Range[|rs|](i requires 0 <= i < |rs| => rs[i]);
    assert ranges[..] == rs;
  }
}
