/**
  Day 1: a dial numbered 0..99 that starts at 50. Each line is a rotation `R<n>` (right,
  towards higher numbers) or `L<n>` (left). Part 1 counts rotations that end on 0; part 2
  counts every click, during or at the end of a rotation, that points the dial at 0.
 */
module Day01 {
  import opened Wrappers
  import opened Text

  /** The position of the dial before the first rotation. */
  const Start := 50

  /**
    A rotation: the number after the first character, negated unless that character is
    `R`. An empty line or a tail that is not an integer gives `None`.
   */
  function ParseLine(line: string): (r: Option<int>)
    ensures line == [] ==> r == None
    ensures line != [] && ParseInt(line[1..]) == None ==> r == None
    ensures r.Some? ==> |line| >= 2
  {
    if line == [] then
      None
    else
      match ParseInt(line[1..])
      case None => None
      case Some(n) => if line[0] == 'R' then Some(n) else Some(-n)
  }

  /** A line spelled from a direction character and a number parses to the signed rotation. */
  lemma ParseLineOfRotation(dir: char, n: int)
    ensures ParseLine([dir] + IntToDecimal(n)) == Some(if dir == 'R' then n else -n)
  {
    var t := IntToDecimal(n);
    var line := [dir] + t;
    assert line != [] && line[0] == dir && line[1..] == t;
    ParseIntToDecimal(n);
  }

  /** The dial position after turning by `change`, reduced to 0..99. */
  function TurnDial(dial: int, change: int): (r: int)
    ensures 0 <= r < 100
    ensures (dial + change - r) % 100 == 0
  {
    (dial + change) % 100
  }

  function Abs(x: int): nat { if x < 0 then -x else x }

  /** Rust's `change % 100` on integers: the remainder takes the sign of the dividend. */
  function TruncRem100(a: int): (r: int)
    ensures -100 < r < 100 && (a - r) % 100 == 0
    ensures a >= 0 ==> r >= 0
    ensures a <= 0 ==> r <= 0
  {
    if a >= 0 then a % 100 else -((-a) % 100)
  }

  /**
    The new position and the number of times the dial points at 0 during the turn:
    one per full revolution, plus one when the rest of the turn reaches or crosses 0.
   */
  function TurnDialCounter(dial: int, change: int): (r: (int, int))
    ensures r.0 == TurnDial(dial, change)
    ensures Abs(change) / 100 <= r.1 <= Abs(change) / 100 + 1
    ensures change == 0 ==> r.1 == 0
  {
    var counter := Abs(change) / 100;
    var remainder := TruncRem100(change);
    var newPos := (dial + remainder) % 100;
    assert newPos == TurnDial(dial, change) by {
      var k := (change - remainder) / 100;
      assert change == remainder + 100 * k;
      ModMultiple(dial + remainder, k);
    }
    if remainder > 0 then
      (newPos, if newPos == 0 || newPos < dial then counter + 1 else counter)
    else if remainder < 0 then
      (newPos, if newPos == 0 || (newPos > dial && dial != 0) then counter + 1 else counter)
    else
      (newPos, counter)
  }

  lemma ModMultiple(x: int, k: int)
    ensures (x + 100 * k) % 100 == x % 100
  {
  }

  /**
    The reference meaning of part 2: turn the dial one click at a time, `steps` times in
    direction `dir` (+1 or -1), and count the clicks that land on 0.
   */
  function Clicks(dial: int, steps: nat, dir: int): nat
    decreases steps
  {
    if steps == 0 then
      0
    else
      var next := (dial + dir) % 100;
      (if next == 0 then 1 else 0) + Clicks(next, steps - 1, dir)
  }

  /** The clicks of one rotation that land on 0. */
  function ZeroClicks(dial: int, change: int): nat
  {
    Clicks(dial, Abs(change), if change >= 0 then 1 else -1)
  }

  lemma {:induction false} ClicksRight(dial: int, steps: nat)
    decreases steps
    requires 0 <= dial < 100
    ensures Clicks(dial, steps, 1) == (dial + steps) / 100
  {
    if steps > 0 {
      ClicksRight((dial + 1) % 100, steps - 1);
    }
  }

  lemma {:induction false} ClicksLeft(dial: int, steps: nat)
    decreases steps
    requires 0 <= dial < 100
    ensures Clicks(dial, steps, -1) == if dial == 0 then steps / 100 else (100 - dial + steps) / 100
  {
    if steps > 0 {
      if dial == 0 {
        ClicksLeftFromZero(steps);
      } else if dial == 1 {
        ClicksLeftFromOne(steps);
      } else {
        assert (dial - 1) % 100 == dial - 1;
        ClicksLeft(dial - 1, steps - 1);
      }
    }
  }

  lemma {:induction false} ClicksLeftFromZero(steps: nat)
    decreases steps, 0
    requires steps > 0
    ensures Clicks(0, steps, -1) == steps / 100
  {
    assert (0 - 1) % 100 == 99;
    ClicksLeft(99, steps - 1);
  }

  lemma {:induction false} ClicksLeftFromOne(steps: nat)
    decreases steps, 0
    requires steps > 0
    ensures Clicks(1, steps, -1) == (99 + steps) / 100
  {
    assert (1 - 1) % 100 == 0;
    ClicksLeft(0, steps - 1);
    assert (99 + steps) / 100 == 1 + (steps - 1) / 100;
  }

  /** The counter of `TurnDialCounter` is exactly the number of clicks that land on 0. */
  lemma CounterIsZeroClicks(dial: int, change: int)
    requires 0 <= dial < 100
    ensures TurnDialCounter(dial, change).1 == ZeroClicks(dial, change)
  {
    if change >= 0 {
      ClicksRight(dial, change);
      var q, rem := change / 100, change % 100;
      assert change == 100 * q + rem;
      assert TruncRem100(change) == rem;
      assert (dial + change) / 100 == q + (dial + rem) / 100;
    } else {
      ClicksLeft(dial, -change);
      var q, rem := (-change) / 100, (-change) % 100;
      assert -change == 100 * q + rem;
      assert TruncRem100(change) == -rem;
      if dial != 0 {
        assert (100 - dial - change) / 100 == q + (100 - dial + rem) / 100;
      }
    }
  }

  predicate AllRotations(lines: seq<string>)
  {
    forall i :: 0 <= i < |lines| ==> ParseLine(lines[i]).Some?
  }

  function Rotations(lines: seq<string>): (ms: seq<int>)
    requires AllRotations(lines)
    ensures |ms| == |lines|
  {
    seq(|lines|, i requires 0 <= i < |lines| => ParseLine(lines[i]).value)
  }

  /** The number of rotations, applied from `dial`, that leave the dial at 0. */
  function LandingsOnZero(moves: seq<int>, dial: int): nat
  {
    if moves == [] then
      0
    else
      var d := TurnDial(dial, moves[0]);
      (if d == 0 then 1 else 0) + LandingsOnZero(moves[1..], d)
  }

  /** The number of clicks, over all rotations applied from `dial`, that land on 0. */
  function TotalZeroClicks(moves: seq<int>, dial: int): nat
  {
    if moves == [] then
      0
    else
      ZeroClicks(dial, moves[0]) + TotalZeroClicks(moves[1..], TurnDial(dial, moves[0]))
  }

  /** Part 1: every line must be a rotation (a malformed line aborts the run). */
  method Part1(lines: seq<string>) returns (password: int)
    requires AllRotations(lines)
    ensures password == LandingsOnZero(Rotations(lines), Start)
  {
    ghost var moves := Rotations(lines);
    var dial := Start;
    password := 0;
    for i := 0 to |lines|
      invariant password + LandingsOnZero(moves[i..], dial) == LandingsOnZero(moves, Start)
    {
      var change := ParseLine(lines[i]).value;
      assert moves[i..][0] == change && moves[i..][1..] == moves[i + 1..];
      dial := TurnDial(dial, change);
      if dial == 0 {
        password := password + 1;
      }
    }
  }

  /** Part 2: the sum of the counters, which is the number of clicks that land on 0. */
  method Part2(lines: seq<string>) returns (password: int)
    requires AllRotations(lines)
    ensures password == TotalZeroClicks(Rotations(lines), Start)
  {
    ghost var moves := Rotations(lines);
    var dial := Start;
    var counter: int;
    password := 0;
    for i := 0 to |lines|
      invariant 0 <= dial < 100
      invariant password + TotalZeroClicks(moves[i..], dial) == TotalZeroClicks(moves, Start)
    {
      var change := ParseLine(lines[i]).value;
      assert moves[i..][0] == change && moves[i..][1..] == moves[i + 1..];
      CounterIsZeroClicks(dial, change);
      dial, counter := TurnDialCounter(dial, change).0, TurnDialCounter(dial, change).1;
      password := password + counter;
    }
  }
}
