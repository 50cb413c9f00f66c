/**
  Day 7: a tachyon beam enters at the `S` of the first line and moves down one line at a
  time. On `.` a beam goes straight on; on `^` it splits into the two neighbouring columns.
  Beams in the same column merge. Part 1 counts the splits; part 2 counts timelines, where
  every split doubles the timelines of the beam it splits.
 */
module Day07 {
  import opened Text

  /**
    A beam in column `p` can meet this line: the column exists and holds `.` or `^`
    (anything else aborts), and a `^` is not in column 0 (`p - 1` would underflow).
   */
  predicate Lands(line: string, p: nat)
  {
    p < |line| && (line[p] == '.' || (line[p] == '^' && p >= 1))
  }

  predicate AllLand(line: string, active: set<nat>)
  {
    forall p :: p in active ==> Lands(line, p)
  }

  lemma AllLandAdd(line: string, done: set<nat>, p: nat)
    requires AllLand(line, done) && Lands(line, p)
    ensures AllLand(line, done + {p})
  {
  }

  predicate IsSplitter(line: string, p: nat)
  {
    p < |line| && line[p] == '^'
  }

  /** The columns a beam in column `p` goes on to. */
  function Targets(line: string, p: nat): (t: set<nat>)
    requires Lands(line, p)
    ensures p in t <==> line[p] == '.'
    ensures forall q :: q in t ==> p - 1 <= q <= p + 1
  {
    if line[p] == '.' then {p} else {p - 1, p + 1}
  }

  /** The beams after the line: the targets of every active beam, merged. */
  function StepSet(line: string, active: set<nat>): (next: set<nat>)
    requires AllLand(line, active)
    ensures forall q :: q in next <==> exists p :: p in active && q in Targets(line, p)
  {
    set p, q | p in active && q in Targets(line, p) :: q
  }

  /** The active beams that split on this line. */
  function SplitSet(line: string, active: set<nat>): set<nat>
  {
    set p | p in active && IsSplitter(line, p)
  }

  lemma StepSetAdd(line: string, done: set<nat>, p: nat)
    requires AllLand(line, done) && Lands(line, p)
    ensures StepSet(line, done + {p}) == StepSet(line, done) + Targets(line, p)
  {
  }

  lemma SplitSetAdd(line: string, done: set<nat>, p: nat)
    requires p !in done
    ensures |SplitSet(line, done + {p})| == |SplitSet(line, done)| + (if IsSplitter(line, p) then 1 else 0)
  {
    if IsSplitter(line, p) {
      assert SplitSet(line, done + {p}) == SplitSet(line, done) + {p};
    } else {
      assert SplitSet(line, done + {p}) == SplitSet(line, done);
    }
  }

  /** Taking `p` out of the columns still to do adds it to the columns done. */
  lemma TakeOne(all: set<nat>, todo: set<nat>, p: nat)
    requires p in todo && todo <= all
    ensures all - (todo - {p}) == (all - todo) + {p}
  {
  }

  /** Once nothing is left to do, every column is done. */
  lemma TakeAll(all: set<nat>, todo: set<nat>)
    requires todo == {}
    ensures all - todo == all
  {
  }

  /** Inserting the one or two targets of `p`, as the source does, after the beams so far. */
  lemma AddTargets(buffer: set<nat>, prev: set<nat>, line: string, p: nat)
    requires Lands(line, p)
    ensures line[p] == '.' ==> buffer + prev + {p} == buffer + (prev + Targets(line, p))
    ensures line[p] == '^' ==> buffer + prev + {p - 1} + {p + 1} == buffer + (prev + Targets(line, p))
  {
  }

  /**
    One line of part 1: drain `active`, putting every beam's targets into `buffer` and
    counting the beams that split. The drained set comes back empty.
   */
  method DrainRow(line: string, active: set<nat>, buffer: set<nat>)
    returns (drained: set<nat>, next: set<nat>, lineSplits: nat)
    requires AllLand(line, active)
    ensures drained == {}
    ensures next == buffer + StepSet(line, active)
    ensures lineSplits == |SplitSet(line, active)|
  {
    drained, next, lineSplits := active, buffer, 0;
    while drained != {}
      invariant drained <= active
      invariant next == buffer + StepSet(line, active - drained)
      invariant lineSplits == |SplitSet(line, active - drained)|
      decreases |drained|
    {
      var pos :| pos in drained;
      ghost var done := active - drained;
      TakeOne(active, drained, pos);
      StepSetAdd(line, done, pos);
      SplitSetAdd(line, done, pos);
      AddTargets(buffer, StepSet(line, done), line, pos);
      drained := drained - {pos};
      if line[pos] == '.' {
        next := next + {pos};
      } else {
        next := next + {pos - 1};
        next := next + {pos + 1};
        lineSplits := lineSplits + 1;
      }
    }
    TakeAll(active, drained);
  }

  /** Every line below the first can be met by all the beams that reach it. */
  predicate Feasible(rows: seq<string>, active: set<nat>)
  {
    rows == [] || (AllLand(rows[0], active) && Feasible(rows[1..], StepSet(rows[0], active)))
  }

  /** The splits over all the lines. */
  function TotalSplits(rows: seq<string>, active: set<nat>): nat
    requires Feasible(rows, active)
  {
    if rows == [] then 0
    else |SplitSet(rows[0], active)| + TotalSplits(rows[1..], StepSet(rows[0], active))
  }

  /** The beams leaving the last line. */
  function FinalSet(rows: seq<string>, active: set<nat>): set<nat>
    requires Feasible(rows, active)
  {
    if rows == [] then active else FinalSet(rows[1..], StepSet(rows[0], active))
  }

  /** The column of the first `S` on the first line. */
  function Start(lines: seq<string>): nat
    requires |lines| > 0 && 'S' in lines[0]
  {
    IndexOf(lines[0], 'S')
  }

  /** What the source needs not to abort: a first line with an `S`, and beams that land. */
  predicate WellFormed(lines: seq<string>)
  {
    |lines| > 0 && 'S' in lines[0] && Feasible(lines[1..], {Start(lines)})
  }

  /** Part 1: the fold over the lines with two sets swapped after every line. */
  method Part1(lines: seq<string>) returns (totalSplits: nat)
    requires WellFormed(lines)
    ensures totalSplits == TotalSplits(lines[1..], {Start(lines)})
  {
    var startPos := IndexOf(lines[0], 'S');
    var active: set<nat> := {startPos};
    var buffer: set<nat> := {};
    totalSplits := 0;
    for i := 1 to |lines|
      invariant buffer == {}
      invariant Feasible(lines[i..], active)
      invariant totalSplits + TotalSplits(lines[i..], active) == TotalSplits(lines[1..], {startPos})
    {
      var line := lines[i];
      assert lines[i..][0] == line && lines[i..][1..] == lines[i + 1..];
      var drained, next, lineSplits := DrainRow(line, active, buffer);
      active, buffer := next, drained;
      totalSplits := totalSplits + lineSplits;
    }
  }

  // ---------------------------------------------------------------------------------------
  // Part 2: a map from column to the number of timelines with a beam there.

  type Counts = map<nat, nat>

  function Get(m: Counts, q: nat): nat { if q in m then m[q] else 0 }

  /** The terms summed over a set of columns. */
  datatype Summand =
    | Value(m: Counts)                            // the count in each column
    | Inflow(line: string, m: Counts, q: nat)     // what each column sends to column `q`
    | Spread(line: string, m: Counts)             // what each column sends in all
    | OnSplitter(line: string, m: Counts)         // the count of each column that splits

  function Eval(f: Summand, p: nat): nat
  {
    match f
    case Value(m) => Get(m, p)
    case Inflow(line, m, q) => if p in m && Lands(line, p) && q in Targets(line, p) then m[p] else 0
    case Spread(line, m) => if p in m && Lands(line, p) then (if line[p] == '^' then 2 * m[p] else m[p]) else 0
    case OnSplitter(line, m) => if p in m && IsSplitter(line, p) then m[p] else 0
  }

  /** The terms of `f` added up over the columns in `s`. */
  ghost function SetSum(s: set<nat>, f: Summand): nat
  {
    if s == {} then 0 else var x :| x in s; Eval(f, x) + SetSum(s - {x}, f)
  }

  /** Any element may be taken out first. */
  lemma SetSumRemove(s: set<nat>, f: Summand, y: nat)
    requires y in s
    ensures SetSum(s, f) == Eval(f, y) + SetSum(s - {y}, f)
    decreases |s|
  {
    var x :| x in s && SetSum(s, f) == Eval(f, x) + SetSum(s - {x}, f);
    if x != y {
      SetSumRemove(s - {x}, f, y);
      SetSumRemove(s - {y}, f, x);
      assert s - {x} - {y} == s - {y} - {x};
    }
  }

  lemma {:induction false} SetSumCongruence(s: set<nat>, f: Summand, g: Summand)
    requires forall p :: p in s ==> Eval(f, p) == Eval(g, p)
    ensures SetSum(s, f) == SetSum(s, g)
    decreases |s|
  {
    if s != {} {
      var y :| y in s;
      SetSumRemove(s, f, y);
      SetSumRemove(s, g, y);
      SetSumCongruence(s - {y}, f, g);
    }
  }

  lemma {:induction false} SetSumAdditive(s: set<nat>, f: Summand, g: Summand, h: Summand)
    requires forall p :: p in s ==> Eval(h, p) == Eval(f, p) + Eval(g, p)
    ensures SetSum(s, h) == SetSum(s, f) + SetSum(s, g)
    decreases |s|
  {
    if s != {} {
      var y :| y in s;
      SetSumRemove(s, f, y);
      SetSumRemove(s, g, y);
      SetSumRemove(s, h, y);
      SetSumAdditive(s - {y}, f, g, h);
    }
  }

  /** `values().sum()`: the timelines in all columns. */
  ghost function Total(m: Counts): nat
  {
    SetSum(m.Keys, Value(m))
  }

  /** `*m.entry(q).or_insert(0) += c`. */
  function Bump(m: Counts, q: nat, c: nat): (r: Counts)
    ensures r.Keys == m.Keys + {q}
  {
    m[q := Get(m, q) + c]
  }

  lemma BumpTotal(m: Counts, q: nat, c: nat)
    ensures Total(Bump(m, q, c)) == Total(m) + c
  {
    var r := Bump(m, q, c);
    SetSumRemove(r.Keys, Value(r), q);
    SetSumCongruence(r.Keys - {q}, Value(r), Value(m));
    if q in m {
      SetSumRemove(m.Keys, Value(m), q);
      assert r.Keys - {q} == m.Keys - {q};
    } else {
      assert r.Keys - {q} == m.Keys;
    }
  }

  /**
    `buffer` after the columns `done` of `m` have been drained into it: every target
    column gains the count of every beam that reaches it.
   */
  ghost function AddFlow(buffer: Counts, line: string, m: Counts, done: set<nat>): (r: Counts)
    requires done <= m.Keys && AllLand(line, done)
    ensures r.Keys == buffer.Keys + StepSet(line, done)
  {
    map q | q in buffer.Keys + StepSet(line, done) :: Get(buffer, q) + SetSum(done, Inflow(line, m, q))
  }

  /** Column `p` sends its count to column `q` exactly when `q` is one of its targets. */
  lemma InflowStep(line: string, m: Counts, done: set<nat>, p: nat, q: nat)
    requires done <= m.Keys && p in m && p !in done && Lands(line, p)
    ensures SetSum(done + {p}, Inflow(line, m, q))
         == SetSum(done, Inflow(line, m, q)) + (if q in Targets(line, p) then m[p] else 0)
  {
    SetSumRemove(done + {p}, Inflow(line, m, q), p);
    assert done + {p} - {p} == done;
  }

  /** No drained column sends anything to a column outside their targets. */
  lemma InflowOutside(line: string, m: Counts, done: set<nat>, q: nat)
    requires done <= m.Keys && AllLand(line, done) && q !in StepSet(line, done)
    ensures SetSum(done, Inflow(line, m, q)) == 0
  {
    forall x | x in done
      ensures Eval(Inflow(line, m, q), x) == 0
    {
    }
    SetSumZero(done, Inflow(line, m, q));
  }

  /** Draining one more column adds its count to column `q` if `q` is one of its targets. */
  lemma AddFlowAt(buffer: Counts, line: string, m: Counts, done: set<nat>, p: nat, q: nat)
    requires done <= m.Keys && AllLand(line, done) && p in m && p !in done && Lands(line, p)
    requires q in AddFlow(buffer, line, m, done + {p})
    ensures AddFlow(buffer, line, m, done + {p})[q]
         == Get(AddFlow(buffer, line, m, done), q) + (if q in Targets(line, p) then m[p] else 0)
  {
    InflowStep(line, m, done, p, q);
    if q !in StepSet(line, done) {
      InflowOutside(line, m, done, q);
    }
  }

  /** Draining one more column adds its count to each of its targets. */
  lemma AddFlowStep(buffer: Counts, line: string, m: Counts, done: set<nat>, p: nat)
    requires done <= m.Keys && AllLand(line, done) && p in m && p !in done && Lands(line, p)
    ensures AddFlow(buffer, line, m, done + {p}).Keys == AddFlow(buffer, line, m, done).Keys + Targets(line, p)
    ensures forall q :: q in AddFlow(buffer, line, m, done + {p}) ==>
      AddFlow(buffer, line, m, done + {p})[q] == Get(AddFlow(buffer, line, m, done), q) + (if q in Targets(line, p) then m[p] else 0)
  {
    StepSetAdd(line, done, p);
    forall q | q in AddFlow(buffer, line, m, done + {p})
      ensures AddFlow(buffer, line, m, done + {p})[q]
           == Get(AddFlow(buffer, line, m, done), q) + (if q in Targets(line, p) then m[p] else 0)
    {
      AddFlowAt(buffer, line, m, done, p, q);
    }
  }

  /** Adding `c` to each target of `p`, written as the updates the source performs. */
  lemma BumpTargets(before: Counts, after: Counts, line: string, p: nat, c: nat)
    requires Lands(line, p)
    requires after.Keys == before.Keys + Targets(line, p)
    requires forall q :: q in after.Keys ==> after[q] == Get(before, q) + (if q in Targets(line, p) then c else 0)
    ensures line[p] == '.' ==> after == Bump(before, p, c)
    ensures line[p] == '^' ==> after == Bump(Bump(before, p - 1, c), p + 1, c)
  {
  }

  /** Draining column `p` is the one or two `entry(..).or_insert(0) += count` updates. */
  lemma DrainStep(buffer: Counts, line: string, m: Counts, done: set<nat>, p: nat)
    requires done <= m.Keys && AllLand(line, done) && p in m && p !in done && Lands(line, p)
    ensures line[p] == '.' ==>
      AddFlow(buffer, line, m, done + {p}) == Bump(AddFlow(buffer, line, m, done), p, m[p])
    ensures line[p] == '^' ==>
      AddFlow(buffer, line, m, done + {p})
        == Bump(Bump(AddFlow(buffer, line, m, done), p - 1, m[p]), p + 1, m[p])
  {
    AllLandAdd(line, done, p);
    AddFlowStep(buffer, line, m, done, p);
    BumpTargets(AddFlow(buffer, line, m, done), AddFlow(buffer, line, m, done + {p}), line, p, m[p]);
  }

  lemma AddFlowNone(buffer: Counts, line: string, m: Counts)
    ensures AddFlow(buffer, line, m, {}) == buffer
  {
    var r := AddFlow(buffer, line, m, {});
    forall q | q in buffer.Keys
      ensures r[q] == buffer[q]
    {
    }
  }

  lemma {:induction false} SetSumZero(s: set<nat>, f: Summand)
    requires forall x :: x in s ==> Eval(f, x) == 0
    ensures SetSum(s, f) == 0
    decreases |s|
  {
    if s != {} {
      var y :| y in s;
      SetSumRemove(s, f, y);
      SetSumZero(s - {y}, f);
    }
  }

  /** Draining the columns `done` adds what they send, one or two copies each. */
  lemma {:induction false} AddFlowTotal(buffer: Counts, line: string, m: Counts, done: set<nat>)
    requires done <= m.Keys && AllLand(line, done)
    ensures Total(AddFlow(buffer, line, m, done)) == Total(buffer) + SetSum(done, Spread(line, m))
    decreases |done|
  {
    if done == {} {
      AddFlowNone(buffer, line, m);
    } else {
      var p :| p in done;
      var rest := done - {p};
      assert rest + {p} == done;
      AddFlowTotal(buffer, line, m, rest);
      SetSumRemove(done, Spread(line, m), p);
      AddFlowTotalStep(buffer, line, m, rest, p);
    }
  }

  lemma AddFlowTotalStep(buffer: Counts, line: string, m: Counts, rest: set<nat>, p: nat)
    requires rest <= m.Keys && AllLand(line, rest) && p in m && p !in rest && Lands(line, p)
    ensures Total(AddFlow(buffer, line, m, rest + {p}))
         == Total(AddFlow(buffer, line, m, rest)) + Eval(Spread(line, m), p)
  {
    DrainStep(buffer, line, m, rest, p);
    SpreadTotal(AddFlow(buffer, line, m, rest), AddFlow(buffer, line, m, rest + {p}), line, p, m[p]);
  }

  /** One or two updates of `c` raise the total by `c` per target. */
  lemma SpreadTotal(before: Counts, after: Counts, line: string, p: nat, c: nat)
    requires Lands(line, p)
    requires line[p] == '.' ==> after == Bump(before, p, c)
    requires line[p] == '^' ==> after == Bump(Bump(before, p - 1, c), p + 1, c)
    ensures Total(after) == Total(before) + (if line[p] == '.' then c else 2 * c)
  {
    if line[p] == '.' {
      BumpTotal(before, p, c);
    } else {
      BumpTotal(before, p - 1, c);
      BumpTotal(Bump(before, p - 1, c), p + 1, c);
    }
  }

  /** The counts after one line. */
  ghost function StepMap(line: string, m: Counts): (r: Counts)
    requires AllLand(line, m.Keys)
    ensures r.Keys == StepSet(line, m.Keys)
  {
    AddFlow(map[], line, m, m.Keys)
  }

  /** One line adds, for every column that splits, the timelines there. */
  lemma StepMapTotal(line: string, m: Counts)
    requires AllLand(line, m.Keys)
    ensures Total(StepMap(line, m)) == Total(m) + SetSum(m.Keys, OnSplitter(line, m))
  {
    AddFlowTotal(map[], line, m, m.Keys);
    assert Total(map[]) == 0;
    SetSumAdditive(m.Keys, Value(m), OnSplitter(line, m), Spread(line, m));
  }

  /**
    One line of part 2: drain `active`, adding every column's count to each of its
    targets in `buffer`. The drained map comes back empty.
   */
  method DrainRowCounts(line: string, active: Counts, buffer: Counts)
    returns (drained: Counts, next: Counts)
    requires AllLand(line, active.Keys)
    ensures drained == map[]
    ensures next == AddFlow(buffer, line, active, active.Keys)
  {
    var todo := active.Keys;
    next := buffer;
    AddFlowNone(buffer, line, active);
    assert active.Keys - todo == {};
    while todo != {}
      invariant todo <= active.Keys
      invariant next == AddFlow(buffer, line, active, active.Keys - todo)
      decreases |todo|
    {
      var pos :| pos in todo;
      var count := active[pos];
      ghost var done := active.Keys - todo;
      TakeOne(active.Keys, todo, pos);
      DrainStep(buffer, line, active, done, pos);
      todo := todo - {pos};
      if line[pos] == '.' {
        next := Bump(next, pos, count);
      } else {
        next := Bump(next, pos - 1, count);
        next := Bump(next, pos + 1, count);
      }
    }
    TakeAll(active.Keys, todo);
    drained := map[];
  }

  /** The counts leaving the last line. */
  ghost function FinalMap(rows: seq<string>, m: Counts): Counts
    requires Feasible(rows, m.Keys)
  {
    if rows == [] then m else FinalMap(rows[1..], StepMap(rows[0], m))
  }

  /** The columns that have timelines in part 2 are exactly the beams of part 1. */
  lemma {:induction false} FinalMapKeys(rows: seq<string>, m: Counts)
    requires Feasible(rows, m.Keys)
    ensures FinalMap(rows, m).Keys == FinalSet(rows, m.Keys)
  {
    if rows != [] {
      FinalMapKeys(rows[1..], StepMap(rows[0], m));
    }
  }

  /** Timelines never disappear: the total only grows from line to line. */
  lemma {:induction false} FinalMapGrows(rows: seq<string>, m: Counts)
    requires Feasible(rows, m.Keys)
    ensures Total(FinalMap(rows, m)) >= Total(m)
  {
    if rows != [] {
      StepMapTotal(rows[0], m);
      FinalMapGrows(rows[1..], StepMap(rows[0], m));
    }
  }

  lemma TotalSingleton(p: nat, c: nat)
    ensures Total(map[p := c]) == c
  {
    var m := map[p := c];
    assert m.Keys == {p};
    SetSumRemove(m.Keys, Value(m), p);
    assert m.Keys - {p} == {};
  }

  /** The counts before the second line: one timeline at the start. */
  function StartCounts(lines: seq<string>): (m: Counts)
    requires |lines| > 0 && 'S' in lines[0]
    ensures m.Keys == {Start(lines)}
  {
    map[Start(lines) := 1]
  }

  /** `values().sum()` by draining the columns. */
  method SumValues(m: Counts) returns (sum: nat)
    ensures sum == Total(m)
  {
    var todo := m.Keys;
    sum := 0;
    while todo != {}
      invariant todo <= m.Keys
      invariant sum + SetSum(todo, Value(m)) == Total(m)
      decreases |todo|
    {
      var k :| k in todo;
      SetSumRemove(todo, Value(m), k);
      sum := sum + m[k];
      todo := todo - {k};
    }
  }

  /** Part 2: the fold with two count maps swapped after every line, then the total. */
  method Part2(lines: seq<string>) returns (timelines: nat)
    requires WellFormed(lines)
    ensures timelines == Total(FinalMap(lines[1..], StartCounts(lines)))
    ensures timelines >= 1
  {
    var startPos := IndexOf(lines[0], 'S');
    var active: Counts := map[startPos := 1];
    var buffer: Counts := map[];
    assert active == StartCounts(lines);
    for i := 1 to |lines|
      invariant buffer == map[]
      invariant Feasible(lines[i..], active.Keys)
      invariant FinalMap(lines[i..], active) == FinalMap(lines[1..], StartCounts(lines))
    {
      var line := lines[i];
      assert lines[i..][0] == line && lines[i..][1..] == lines[i + 1..];
      var drained, next := DrainRowCounts(line, active, buffer);
      active, buffer := next, drained;
    }
    assert lines[|lines|..] == [];
    timelines := SumValues(active);
    FinalMapGrows(lines[1..], StartCounts(lines));
    TotalSingleton(startPos, 1);
  }
}
