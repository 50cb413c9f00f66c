/**
  Day 2: invalid product ids. The input is a comma-separated list of inclusive ranges
  `a-b`; part 1 sums the numbers whose decimal spelling is one block written twice, part 2
  the numbers whose spelling is one block written at least twice.
 */
module Day02 {
  import opened Wrappers
  import opened Text

  /** The block `b` written `k` times in a row. */
  function Repeat(b: string, k: nat): string
  {
    if k == 0 then [] else Repeat(b, k - 1) + b
  }

  lemma RepeatTwice(b: string)
    ensures Repeat(b, 2) == b + b
  {
    assert Repeat(b, 1) == [] + b == b;
  }

  lemma {:induction false} RepeatLength(b: string, k: nat)
    ensures |Repeat(b, k)| == k * |b|
  {
    if k > 0 {
      RepeatLength(b, k - 1);
    }
  }

  lemma {:induction false} RepeatCons(b: string, k: nat)
    requires k >= 1
    ensures Repeat(b, k) == b + Repeat(b, k - 1)
  {
    if k > 1 {
      RepeatCons(b, k - 1);
    }
  }

  /** `s` is a non-empty block written at least twice. */
  ghost predicate IsRepetition(s: string)
  {
    exists b: string, k: nat :: 2 <= k && |b| > 0 && s == Repeat(b, k)
  }

  /** `is_twice`: the two halves of an even-length string are equal. */
  function IsTwice(s: string): bool
  {
    if |s| % 2 != 0 then
      false
    else
      s[..|s| / 2] == s[|s| / 2..]
  }

  /** `is_twice` holds exactly for a block written twice (so never for an odd length). */
  lemma TwiceIffRepeat(s: string)
    ensures |s| % 2 == 1 ==> !IsTwice(s)
    ensures IsTwice(s) <==> exists b :: s == Repeat(b, 2)
  {
    var h := s[..|s| / 2];
    RepeatTwice(h);
    if IsTwice(s) {
      assert s == Repeat(h, 2);
    }
    forall b | s == Repeat(b, 2)
      ensures IsTwice(s)
    {
      RepeatTwice(b);
      assert s[..|s| / 2] == b == s[|s| / 2..];
    }
  }

  predicate OccursAt(text: string, pattern: string, j: int)
  {
    0 <= j <= |text| - |pattern| && text[j..j + |pattern|] == pattern
  }

  predicate Contains(text: string, pattern: string)
  {
    exists j :: 0 <= j <= |text| - |pattern| && OccursAt(text, pattern, j)
  }

  /**
    `is_periodic`: `s` occurs in `s + s` with its first and last characters removed. The
    lemma `PeriodicIffRepetition` shows that this is the case exactly when `s` is a block
    written at least twice.
   */
  function IsPeriodic(s: string): (r: bool)
    ensures |s| <= 1 ==> !r
  {
    |s| > 1 && Contains((s + s)[1..|s| * 2 - 1], s)
  }

  // ---- Rotations of a string by p positions, written without `%` ----

  function Rot(i: nat, p: nat, n: nat): nat
  {
    if i + p < n then i + p else i + p - n
  }

  /** Rotating `s` by `p` positions gives `s` again. */
  ghost predicate RotInvariant(s: string, p: nat)
  {
    p <= |s| && forall i :: 0 <= i < |s| ==> Rot(i, p, |s|) < |s| && s[Rot(i, p, |s|)] == s[i]
  }

  lemma RotInvariantFull(s: string)
    ensures RotInvariant(s, |s|)
  {
  }

  lemma RotInvariantSub(s: string, p: nat, q: nat)
    requires q <= p
    requires RotInvariant(s, p) && RotInvariant(s, q)
    ensures RotInvariant(s, p - q)
  {
    var n, d := |s|, p - q;
    forall i | 0 <= i < n
      ensures Rot(i, d, n) < n && s[Rot(i, d, n)] == s[i]
    {
      var j := Rot(i, d, n);
      assert Rot(j, q, n) == Rot(i, p, n);
    }
  }

  /** `x` is a multiple of `g`, defined without multiplication. */
  ghost predicate Multiple(x: nat, g: nat)
    decreases x
  {
    x == 0 || (g > 0 && x >= g && Multiple(x - g, g))
  }

  lemma {:induction false} MultipleAdd(a: nat, c: nat, g: nat)
    requires Multiple(a, g) && Multiple(c, g)
    ensures Multiple(a + c, g)
    decreases a
  {
    if a > 0 {
      MultipleAdd(a - g, c, g);
    }
  }

  /** Greatest common divisor by repeated subtraction. */
  function Gcd(a: nat, b: nat): nat
    requires a > 0 && b > 0
    decreases a + b
  {
    if a == b then a else if a < b then Gcd(a, b - a) else Gcd(a - b, b)
  }

  lemma {:induction false} GcdProperties(s: string, a: nat, b: nat)
    requires a > 0 && b > 0
    requires RotInvariant(s, a) && RotInvariant(s, b)
    ensures 0 < Gcd(a, b) <= a && Gcd(a, b) <= b
    ensures Multiple(a, Gcd(a, b)) && Multiple(b, Gcd(a, b))
    ensures RotInvariant(s, Gcd(a, b))
    decreases a + b
  {
    if a == b {
      assert Multiple(a - a, a);
    } else if a < b {
      RotInvariantSub(s, b, a);
      GcdProperties(s, a, b - a);
      MultipleAdd(b - a, a, Gcd(a, b - a));
    } else {
      RotInvariantSub(s, a, b);
      GcdProperties(s, a - b, b);
      MultipleAdd(a - b, b, Gcd(a - b, b));
    }
  }

  /** A string invariant under rotation by `g` repeats its first `g` characters. */
  lemma {:induction false} PrefixRepeats(s: string, g: nat, x: nat) returns (k: nat)
    requires 0 < g && x <= |s|
    requires RotInvariant(s, g) && Multiple(x, g)
    ensures g <= |s| && s[..x] == Repeat(s[..g], k)
    ensures x > 0 ==> k >= 1
    ensures x > g ==> k >= 2
    decreases x
  {
    if x == 0 {
      k := 0;
    } else {
      var y := x - g;
      var k' := PrefixRepeats(s, g, y);
      k := k' + 1;
      if y > 0 {
        LastBlock(s, g, y, k');
        forall i | 0 <= i < g
          ensures s[y + i] == s[i]
        {
          assert Rot(y - g + i, g, |s|) == y + i;
        }
      }
      AppendBlock(s, g, y);
    }
  }

  /** The last `g` characters of a prefix made of `k` copies of `s[..g]` are that block. */
  lemma LastBlock(s: string, g: nat, y: nat, k: nat)
    requires g <= y <= |s| && k >= 1 && s[..y] == Repeat(s[..g], k)
    ensures forall i :: 0 <= i < g ==> s[y - g + i] == s[i]
  {
    var b := s[..g];
    assert s[..y] == Repeat(b, k - 1) + b;
    forall i | 0 <= i < g
      ensures s[y - g + i] == s[i]
    {
      assert s[..y][y - g + i] == b[i];
    }
  }

  lemma AppendBlock(s: string, g: nat, y: nat)
    requires y + g <= |s|
    requires forall i :: 0 <= i < g ==> s[y + i] == s[i]
    ensures s[..y + g] == s[..y] + s[..g]
  {
    assert s[y..y + g] == s[..g];
    assert s[..y + g] == s[..y] + s[y..y + g];
  }

  /** The doubled-string test recognises exactly the strings that are a repeated block. */
  lemma PeriodicIffRepetition(s: string)
    ensures IsPeriodic(s) <==> IsRepetition(s)
  {
    if IsPeriodic(s) {
      PeriodicIsRepetition(s);
    }
    if IsRepetition(s) {
      RepetitionIsPeriodic(s);
    }
  }

  lemma PeriodicIsRepetition(s: string)
    requires IsPeriodic(s)
    ensures IsRepetition(s)
  {
    var n := |s|;
    var t := (s + s)[1..n * 2 - 1];
    var j :| 0 <= j <= |t| - n && OccursAt(t, s, j);
    var p := j + 1;
    assert RotInvariant(s, p) by {
      forall i | 0 <= i < n
        ensures Rot(i, p, n) < n && s[Rot(i, p, n)] == s[i]
      {
        assert t[j..j + n][i] == (s + s)[p + i];
      }
    }
    RotInvariantFull(s);
    GcdProperties(s, p, n);
    var g := Gcd(p, n);
    var k := PrefixRepeats(s, g, n);
    assert s[..n] == s;
    assert 2 <= k && |s[..g]| > 0 && s == Repeat(s[..g], k);
  }

  lemma RepetitionIsPeriodic(s: string)
    requires IsRepetition(s)
    ensures IsPeriodic(s)
  {
    var b: string, k: nat :| 2 <= k && |b| > 0 && s == Repeat(b, k);
    RepeatCons(b, k);
    var rest := Repeat(b, k - 1);
    assert |rest| >= |b| by {
      RepeatCons(b, k - 1);
    }
    ShiftOccurs(s, b, rest);
  }

  /** A string that is both `b + rest` and `rest + b` occurs at `|b| - 1` in its trimmed double. */
  lemma ShiftOccurs(s: string, b: string, rest: string)
    requires s == b + rest && s == rest + b && 0 < |b| < |s|
    ensures OccursAt((s + s)[1..|s| * 2 - 1], s, |b| - 1)
  {
    var n, m := |s|, |b|;
    var t := (s + s)[1..n * 2 - 1];
    forall i | 0 <= i < n
      ensures t[m - 1 + i] == s[i]
    {
      if m + i < n {
        assert s[m + i] == rest[i] && s[i] == rest[i];
      } else {
        assert s[m + i - n] == b[m + i - n] && s[i] == b[i - (n - m)];
      }
    }
    assert t[m - 1..m - 1 + n] == s;
  }

  lemma TwiceImpliesPeriodic(s: string)
    requires s != [] && IsTwice(s)
    ensures IsPeriodic(s)
  {
    TwiceIffRepeat(s);
    var b :| s == Repeat(b, 2);
    RepeatTwice(b);
    assert |b| > 0;
    PeriodicIffRepetition(s);
  }

  // ---- Summing over the ranges of the input ----

  /** Which test marks an id invalid: `is_twice` (part 1) or `is_periodic` (part 2). */
  datatype Check = Twice | Periodic

  predicate Invalid(check: Check, num: int)
  {
    match check
    case Twice => IsTwice(IntToDecimal(num))
    case Periodic => IsPeriodic(IntToDecimal(num))
  }

  /** The test of one part, as a function of the id. */
  function InvalidTest(check: Check): int -> bool
  {
    num => Invalid(check, num)
  }

  /** The sum of the ids in the inclusive range lo..hi that `invalid` marks. */
  function RangeSum(invalid: int -> bool, lo: int, hi: int): int
    decreases hi - lo + 1
  {
    if hi < lo then 0 else RangeSum(invalid, lo, hi - 1) + (if invalid(hi) then hi else 0)
  }

  /** A range without invalid ids sums to 0, and a range of non-negative ids to at least 0. */
  lemma {:induction false} RangeSumBounds(invalid: int -> bool, lo: int, hi: int)
    ensures (forall v :: lo <= v <= hi ==> !invalid(v)) ==> RangeSum(invalid, lo, hi) == 0
    ensures 0 <= lo ==> RangeSum(invalid, lo, hi) >= 0
    decreases hi - lo + 1
  {
    if lo <= hi {
      RangeSumBounds(invalid, lo, hi - 1);
    }
  }

  lemma {:induction false} RangeSumSplit(invalid: int -> bool, lo: int, mid: int, hi: int)
    requires lo - 1 <= mid <= hi
    ensures RangeSum(invalid, lo, hi) == RangeSum(invalid, lo, mid) + RangeSum(invalid, mid + 1, hi)
    decreases hi - mid
  {
    if mid < hi {
      RangeSumSplit(invalid, lo, mid, hi - 1);
    }
  }

  /** The bounds of a piece `a-b`, the text either side of its first `-`, trimmed. */
  function Bounds(piece: string): Option<(Option<int>, Option<int>)>
  {
    match SplitOnce(piece, '-')
    case None => None
    case Some((a, b)) => Some((ParseInt(Trim(a)), ParseInt(Trim(b))))
  }

  /** Every piece that holds a `-` has integers on both sides (otherwise the run aborts). */
  predicate WellFormed(input: string)
  {
    forall piece :: piece in Split(input, ',') && Bounds(piece).Some? ==>
      Bounds(piece).value.0.Some? && Bounds(piece).value.1.Some?
  }

  function PieceSum(check: Check, piece: string): int
    requires Bounds(piece).Some? ==> Bounds(piece).value.0.Some? && Bounds(piece).value.1.Some?
  {
    match Bounds(piece)
    case None => 0
    case Some((a, b)) => RangeSum(InvalidTest(check), a.value, b.value)
  }

  function PiecesSum(check: Check, pieces: seq<string>): int
    requires forall piece :: piece in pieces && Bounds(piece).Some? ==>
      Bounds(piece).value.0.Some? && Bounds(piece).value.1.Some?
  {
    if pieces == [] then 0 else PiecesSum(check, pieces[..|pieces| - 1]) + PieceSum(check, pieces[|pieces| - 1])
  }

  /** Part 1 (`Twice`) and part 2 (`Periodic`): the sum of the invalid ids of all ranges. */
  method SumInvalid(input: string, check: Check) returns (sum: int)
    requires WellFormed(input)
    ensures sum == PiecesSum(check, Split(input, ','))
  {
    var parts := Split(input, ',');
    sum := 0;
    for i := 0 to |parts|
      invariant sum == PiecesSum(check, parts[..i])
    {
      var part := parts[i];
      assert parts[..i + 1][..i] == parts[..i];
      assert part in parts;
      var pieceSum := SumPiece(check, part);
      sum := sum + pieceSum;
    }
    assert parts[..|parts|] == parts;
  }

  /** The body of the loop over the pieces: a piece without `-` adds nothing. */
  method SumPiece(check: Check, part: string) returns (sum: int)
    requires Bounds(part).Some? ==> Bounds(part).value.0.Some? && Bounds(part).value.1.Some?
    ensures sum == PieceSum(check, part)
  {
    sum := 0;
    match SplitOnce(part, '-')
    case None =>
    case Some((part1, part2)) =>
      var num1 := ParseInt(Trim(part1)).value;
      var num2 := ParseInt(Trim(part2)).value;
      var rangeSum := SumRange(InvalidTest(check), num1, num2);
      sum := sum + rangeSum;
  }

  /** The inner loop over one range, with the test of the part as `invalid`. */
  method SumRange(invalid: int -> bool, num1: int, num2: int) returns (sum: int)
    ensures sum == RangeSum(invalid, num1, num2)
  {
    sum := 0;
    var num := num1;
    while num <= num2
      invariant num1 <= num <= num2 + 1 || (num == num1 && num2 < num1)
      invariant sum == RangeSum(invalid, num1, num - 1)
      decreases num2 - num + 1
    {
      if invalid(num) {
        sum := sum + num;
      }
      num := num + 1;
    }
  }

  method Part1(input: string) returns (sum: int)
    requires WellFormed(input)
    ensures sum == PiecesSum(Twice, Split(input, ','))
  {
    sum := SumInvalid(input, Twice);
  }

  method Part2(input: string) returns (sum: int)
    requires WellFormed(input)
    ensures sum == PiecesSum(Periodic, Split(input, ','))
  {
    sum := SumInvalid(input, Periodic);
  }
}
