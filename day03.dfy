/**
  Day 3: each line is a bank of batteries, one digit each. Choosing `n` batteries in order
  gives an `n`-digit number; the solver picks greedily, and the sum over the banks is the
  answer (part 1: `n` = 2, part 2: `n` = 12).
 */
module Day03 {
  import opened Text

  /** The digits of a line, in order; every other character is ignored. */
  function Digits(line: string): (d: seq<nat>)
    ensures forall i :: 0 <= i < |d| ==> d[i] < 10
    ensures |d| <= |line|
  {
    if line == [] then [] else (if IsDigit(line[0]) then [DigitValue(line[0])] else []) + Digits(line[1..])
  }

  lemma {:induction false} DigitsAppend(a: string, b: string)
    ensures Digits(a + b) == Digits(a) + Digits(b)
    decreases |a|
  {
    if a == [] {
      assert a + b == b;
    } else {
      assert (a + b)[1..] == a[1..] + b;
      DigitsAppend(a[1..], b);
    }
  }

  /** Removing a character that is not a digit leaves the digits unchanged. */
  lemma DigitsSkipNonDigit(a: string, c: char, b: string)
    requires !IsDigit(c)
    ensures Digits(a + [c] + b) == Digits(a + b)
  {
    DigitsAppend(a + [c], b);
    DigitsAppend(a, [c]);
    DigitsAppend(a, b);
  }

  predicate AllDecimal(ds: seq<nat>) { forall i :: 0 <= i < |ds| ==> ds[i] < 10 }

  /** The number spelled by a sequence of digits, most significant first. */
  function Value(ds: seq<nat>): nat
  {
    if ds == [] then 0 else Value(ds[..|ds| - 1]) * 10 + ds[|ds| - 1]
  }

  function Pow10(k: nat): (p: nat)
    ensures p >= 1
  {
    if k == 0 then 1 else 10 * Pow10(k - 1)
  }

  lemma {:induction false} ValueBound(ds: seq<nat>)
    requires AllDecimal(ds)
    ensures Value(ds) < Pow10(|ds|)
  {
    if ds != [] {
      ValueBound(ds[..|ds| - 1]);
    }
  }

  lemma {:induction false} ValueCons(x: nat, ds: seq<nat>)
    ensures Value([x] + ds) == x * Pow10(|ds|) + Value(ds)
    decreases |ds|
  {
    if ds == [] {
      assert [x] + ds == [x];
      assert Value([x]) == Value([]) * 10 + x;
    } else {
      var init := ds[..|ds| - 1];
      assert ([x] + ds)[..|ds|] == [x] + init;
      ValueCons(x, init);
      calc {
        Value([x] + ds);
        Value([x] + init) * 10 + ds[|ds| - 1];
        (x * Pow10(|init|) + Value(init)) * 10 + ds[|ds| - 1];
        x * (Pow10(|init|) * 10) + (Value(init) * 10 + ds[|ds| - 1]);
        x * Pow10(|ds|) + Value(ds);
      }
    }
  }

  lemma MulMonotone(x: nat, y: nat, p: nat)
    requires x <= y
    ensures x * p <= y * p
  {
  }

  lemma ValueHead(ds: seq<nat>)
    requires ds != []
    ensures Value(ds) == ds[0] * Pow10(|ds| - 1) + Value(ds[1..])
  {
    assert ds == [ds[0]] + ds[1..];
    ValueCons(ds[0], ds[1..]);
  }

  /** Numbers of the same length compare by their first digit first. */
  lemma FirstDigitDecides(a: seq<nat>, b: seq<nat>)
    requires |a| == |b| > 0 && AllDecimal(a) && AllDecimal(b)
    ensures a[0] < b[0] ==> Value(a) < Value(b)
    ensures a[0] == b[0] && Value(a[1..]) <= Value(b[1..]) ==> Value(a) <= Value(b)
  {
    var p := Pow10(|a| - 1);
    ValueHead(a);
    ValueHead(b);
    if a[0] < b[0] {
      assert AllDecimal(a[1..]);
      ValueBound(a[1..]);
      LowerDigitSmaller(a[0], b[0], p, Value(a[1..]), Value(b[1..]));
    }
  }

  lemma LowerDigitSmaller(x: nat, y: nat, p: nat, u: nat, v: nat)
    requires x < y && u < p
    ensures x * p + u < y * p + v
  {
    MulMonotone(x + 1, y, p);
    assert (x + 1) * p == x * p + p;
  }

  /** `idx` is a strictly increasing sequence of positions of `d`, all at or after `from`. */
  ghost predicate IsPick(d: seq<nat>, idx: seq<nat>, from: nat)
  {
    && (forall i :: 0 <= i < |idx| ==> from <= idx[i] < |d|)
    && (forall i :: 0 <= i < |idx| - 1 ==> idx[i] < idx[i + 1])
  }

  lemma PickTail(d: seq<nat>, idx: seq<nat>, from: nat)
    requires IsPick(d, idx, from) && idx != []
    ensures IsPick(d, idx[1..], idx[0] + 1)
  {
    var t := idx[1..];
    forall i | 0 <= i < |t|
      ensures idx[0] + 1 <= t[i]
    {
      PickIncreasing(d, idx, from, 0, i + 1);
    }
  }

  lemma {:induction false} PickIncreasing(d: seq<nat>, idx: seq<nat>, from: nat, i: nat, j: nat)
    requires IsPick(d, idx, from) && i < j < |idx|
    ensures idx[i] + (j - i) <= idx[j]
    decreases j - i
  {
    if j > i + 1 {
      PickIncreasing(d, idx, from, i, j - 1);
    }
  }

  lemma PickRoom(d: seq<nat>, idx: seq<nat>, from: nat)
    requires IsPick(d, idx, from) && idx != []
    ensures idx[0] + |idx| <= |d|
  {
    if |idx| > 1 {
      PickIncreasing(d, idx, from, 0, |idx| - 1);
    }
  }

  /** The digits at the chosen positions (a position past the end, which no pick has, reads as 0). */
  function Select(d: seq<nat>, idx: seq<nat>): (r: seq<nat>)
    ensures |r| == |idx|
  {
    seq(|idx|, i requires 0 <= i < |idx| => if idx[i] < |d| then d[idx[i]] else 0)
  }

  /**
    The position of the leftmost largest digit of `d[lo..hi]`: what `enumerate().rev()`
    followed by `max_by_key` finds, since `max_by_key` keeps the last maximum it sees.
   */
  function LeftmostMax(d: seq<nat>, lo: nat, hi: nat): (k: nat)
    requires lo < hi <= |d|
    ensures lo <= k < hi
    decreases hi - lo
  {
    if lo + 1 == hi then
      lo
    else
      var k := LeftmostMax(d, lo + 1, hi);
      if d[lo] >= d[k] then lo else k
  }

  /** No digit of the window is larger, and every digit before the chosen one is smaller. */
  lemma {:induction false} LeftmostMaxIsMax(d: seq<nat>, lo: nat, hi: nat)
    requires lo < hi <= |d|
    ensures forall j :: lo <= j < hi ==> d[j] <= d[LeftmostMax(d, lo, hi)]
    ensures forall j :: lo <= j < LeftmostMax(d, lo, hi) ==> d[j] < d[LeftmostMax(d, lo, hi)]
    decreases hi - lo
  {
    if lo + 1 < hi {
      LeftmostMaxIsMax(d, lo + 1, hi);
    }
  }

  /**
    The greedy choice of `k` positions from `d[from..]`: the leftmost largest digit among
    those that still leave room for the other `k - 1`, then the rest after it.
   */
  function Greedy(d: seq<nat>, from: nat, k: nat): (idx: seq<nat>)
    requires from + k <= |d|
    ensures |idx| == k
    decreases k
  {
    if k == 0 then
      []
    else
      var p := LeftmostMax(d, from, |d| - k + 1);
      [p] + Greedy(d, p + 1, k - 1)
  }

  /** The greedy choice is a pick: increasing positions of `d`, all at or after `from`. */
  lemma {:induction false} GreedyIsPick(d: seq<nat>, from: nat, k: nat)
    requires from + k <= |d|
    ensures IsPick(d, Greedy(d, from, k), from)
    decreases k
  {
    if k > 0 {
      var p := LeftmostMax(d, from, |d| - k + 1);
      var rest := Greedy(d, p + 1, k - 1);
      GreedyIsPick(d, p + 1, k - 1);
      assert forall i :: 1 <= i < k ==> ([p] + rest)[i] == rest[i - 1];
    }
  }

  /** The joltage of a bank: the greedy `n`-digit number, or 0 when there are too few digits. */
  function BankValue(d: seq<nat>, n: nat): nat
  {
    if |d| < n then 0 else Value(Select(d, Greedy(d, 0, n)))
  }

  /** The first greedy digit is at least the first chosen one, and on a tie it comes no later. */
  lemma GreedyHead(d: seq<nat>, from: nat, k: nat, idx: seq<nat>)
    requires from + k <= |d| && 0 < k
    requires IsPick(d, idx, from) && |idx| == k
    ensures var p := LeftmostMax(d, from, |d| - k + 1);
      d[idx[0]] <= d[p] && (d[idx[0]] == d[p] ==> p <= idx[0])
  {
    PickRoom(d, idx, from);
    LeftmostMaxIsMax(d, from, |d| - k + 1);
  }

  lemma SelectDecimal(d: seq<nat>, idx: seq<nat>)
    requires AllDecimal(d)
    ensures AllDecimal(Select(d, idx))
  {
  }

  lemma PickLater(d: seq<nat>, idx: seq<nat>, from: nat, from': nat)
    requires IsPick(d, idx, from) && from' <= from
    ensures IsPick(d, idx, from')
  {
  }

  lemma SelectTail(d: seq<nat>, idx: seq<nat>)
    requires idx != [] && idx[0] < |d|
    ensures Select(d, idx)[0] == d[idx[0]]
    ensures Select(d, idx)[1..] == Select(d, idx[1..])
  {
  }

  /** No order-preserving choice of `k` digits from `d[from..]` beats the greedy one. */
  lemma {:induction false} GreedyIsMaximal(d: seq<nat>, from: nat, k: nat, idx: seq<nat>)
    requires AllDecimal(d) && from + k <= |d|
    requires IsPick(d, idx, from) && |idx| == k
    ensures Value(Select(d, idx)) <= Value(Select(d, Greedy(d, from, k)))
    decreases k
  {
    if k > 0 {
      var p := LeftmostMax(d, from, |d| - k + 1);
      var rest := Greedy(d, p + 1, k - 1);
      var best := Greedy(d, from, k);
      assert best == [p] + rest;
      PickRoom(d, idx, from);
      GreedyHead(d, from, k, idx);
      SelectTail(d, idx);
      SelectTail(d, best);
      assert best[1..] == rest;
      var a, b := Select(d, idx), Select(d, best);
      assert a[0] == d[idx[0]] && b[0] == d[p];
      assert b[1..] == Select(d, rest);
      SelectDecimal(d, idx);
      SelectDecimal(d, best);
      FirstDigitDecides(a, b);
      if d[idx[0]] == d[p] {
        PickTail(d, idx, from);
        PickLater(d, idx[1..], idx[0] + 1, p + 1);
        GreedyIsMaximal(d, p + 1, k - 1, idx[1..]);
        assert Value(a[1..]) <= Value(b[1..]);
      }
    }
  }

  /** The joltage is the largest number spelled by any `n` of the bank's digits, in order. */
  lemma BankValueIsMaximal(d: seq<nat>, n: nat, idx: seq<nat>)
    requires AllDecimal(d) && IsPick(d, idx, 0) && |idx| == n
    ensures Value(Select(d, idx)) <= BankValue(d, n)
  {
    if n > 0 {
      PickRoom(d, idx, 0);
    }
    GreedyIsMaximal(d, 0, n, idx);
  }

  /** The joltage is spelled by `n` of the bank's digits, so it has at most `n` digits. */
  lemma BankValueIsPicked(d: seq<nat>, n: nat)
    requires AllDecimal(d) && |d| >= n
    ensures IsPick(d, Greedy(d, 0, n), 0)
    ensures BankValue(d, n) == Value(Select(d, Greedy(d, 0, n))) < Pow10(n)
  {
    GreedyIsPick(d, 0, n);
    SelectDecimal(d, Greedy(d, 0, n));
    ValueBound(Select(d, Greedy(d, 0, n)));
  }

  /** One greedy choice extends the chosen prefix of the greedy pick. */
  lemma GreedyStep(d: seq<nat>, from: nat, k: nat, chosen: seq<nat>)
    requires 0 < k && from + k <= |d|
    ensures var p := LeftmostMax(d, from, |d| - k + 1);
      chosen + Greedy(d, from, k) == (chosen + [p]) + Greedy(d, p + 1, k - 1)
  {
  }

  lemma SelectAppend(d: seq<nat>, idx: seq<nat>, k: nat)
    requires k < |d|
    ensures Value(Select(d, idx + [k])) == Value(Select(d, idx)) * 10 + d[k]
  {
    var before := Select(d, idx);
    assert Select(d, idx + [k]) == before + [d[k]];
    assert (before + [d[k]])[..|before|] == before;
  }

  /** The search of one window, walking it from the right and keeping ties. */
  method SearchWindow(digits: seq<nat>, lo: nat, hi: nat) returns (found: bool, k: nat)
    requires lo <= hi <= |digits|
    ensures found <==> lo < hi
    ensures found ==> k == LeftmostMax(digits, lo, hi)
  {
    found, k := false, 0;
    var j := hi;
    while j > lo
      invariant lo <= j <= hi
      invariant found <==> j < hi
      invariant found ==> k == LeftmostMax(digits, j, hi)
    {
      j := j - 1;
      if !found || digits[j] >= digits[k] {
        k := j;
      }
      found := true;
    }
  }

  /** What `parse_bank_n` knows after choosing `i` of the `n` digits. */
  ghost predicate ParseProgress(digits: seq<nat>, n: nat, i: nat, currentPos: nat, chosen: seq<nat>, result: nat)
  {
    && i <= n
    && (|digits| < n ==> i == 0 && currentPos == 0)
    && (|digits| >= n ==>
          currentPos + (n - i) <= |digits| && Greedy(digits, 0, n) == chosen + Greedy(digits, currentPos, n - i))
    && result == Value(Select(digits, chosen))
  }

  /** Taking the greedy digit of the current window keeps the progress predicate. */
  lemma ParseAdvance(digits: seq<nat>, n: nat, i: nat, currentPos: nat, chosen: seq<nat>, result: nat, k: nat)
    requires ParseProgress(digits, n, i, currentPos, chosen, result) && i < n && |digits| >= n
    requires k == LeftmostMax(digits, currentPos, |digits| - (n - 1 - i))
    ensures ParseProgress(digits, n, i + 1, k + 1, chosen + [k], result * 10 + digits[k])
  {
    var rest := Greedy(digits, k + 1, n - (i + 1));
    assert Greedy(digits, 0, n) == (chosen + [k]) + rest by {
      GreedyStep(digits, currentPos, n - i, chosen);
    }
    SelectAppend(digits, chosen, k);
  }

  /** The next window lies inside the digits, and it is empty only when the bank is one digit short. */
  lemma ParseWindow(digits: seq<nat>, n: nat, i: nat, currentPos: nat, chosen: seq<nat>, result: nat)
    requires ParseProgress(digits, n, i, currentPos, chosen, result) && i < n && |digits| >= n - 1
    ensures currentPos <= |digits| - (n - 1 - i) <= |digits|
    ensures currentPos == |digits| - (n - 1 - i) ==> BankValue(digits, n) == 0
  {
  }

  /** After all `n` choices the chosen digits are the greedy pick. */
  lemma ParseDone(digits: seq<nat>, n: nat, currentPos: nat, chosen: seq<nat>, result: nat)
    requires ParseProgress(digits, n, n, currentPos, chosen, result)
    ensures result == BankValue(digits, n)
  {
    assert |digits| >= n;
    assert Greedy(digits, currentPos, 0) == [];
    assert chosen + [] == chosen;
  }

  /** One round of `parse_bank_n`: the largest digit of the window that leaves room for the rest. */
  method ChooseDigit(digits: seq<nat>, n: nat, i: nat, currentPos: nat, ghost chosen: seq<nat>, result: nat)
    returns (found: bool, k: nat)
    requires ParseProgress(digits, n, i, currentPos, chosen, result) && i < n && |digits| >= n - 1
    ensures !found ==> BankValue(digits, n) == 0
    ensures found ==> k < |digits| && ParseProgress(digits, n, i + 1, k + 1, chosen + [k], result * 10 + digits[k])
  {
    var remainingNeeded := n - 1 - i;
    var limit := |digits| - remainingNeeded;
    ParseWindow(digits, n, i, currentPos, chosen, result);
    found, k := SearchWindow(digits, currentPos, limit);
    if found {
      ParseAdvance(digits, n, i, currentPos, chosen, result, k);
    }
  }

  /**
    `parse_bank_n`. With fewer than `n - 1` digits the source underflows, so that is
    excluded; with exactly `n - 1` digits the first window is empty and the result is 0.
   */
  method ParseBankN(input: string, n: nat) returns (result: nat)
    requires n == 0 || |Digits(input)| >= n - 1
    ensures result == BankValue(Digits(input), n)
  {
    var digits := Digits(input);
    result := 0;
    var currentPos := 0;
    ghost var chosen: seq<nat> := [];
    for i := 0 to n
      invariant ParseProgress(digits, n, i, currentPos, chosen, result)
    {
      var found, k := ChooseDigit(digits, n, i, currentPos, chosen, result);
      if !found {
        return 0;
      }
      result := result * 10 + digits[k];
      chosen := chosen + [k];
      currentPos := k + 1;
    }
    ParseDone(digits, n, currentPos, chosen, result);
  }

  predicate BanksLongEnough(lines: seq<string>, n: nat)
  {
    forall i :: 0 <= i < |lines| ==> n == 0 || |Digits(lines[i])| >= n - 1
  }

  function TotalJoltage(lines: seq<string>, n: nat): nat
  {
    if lines == [] then 0 else TotalJoltage(lines[..|lines| - 1], n) + BankValue(Digits(lines[|lines| - 1]), n)
  }

  /** The sum over all banks (part 1 with `n` = 2, part 2 with `n` = 12). */
  method SumBanks(lines: seq<string>, n: nat) returns (total: nat)
    requires BanksLongEnough(lines, n)
    ensures total == TotalJoltage(lines, n)
  {
    total := 0;
    for i := 0 to |lines|
      invariant total == TotalJoltage(lines[..i], n)
    {
      assert lines[..i + 1][..i] == lines[..i];
      var v := ParseBankN(lines[i], n);
      total := total + v;
    }
    assert lines[..|lines|] == lines;
  }

  method Part1(lines: seq<string>) returns (total: nat)
    requires BanksLongEnough(lines, 2)
    ensures total == TotalJoltage(lines, 2)
  {
    total := SumBanks(lines, 2);
  }

  method Part2(lines: seq<string>) returns (total: nat)
    requires BanksLongEnough(lines, 12)
    ensures total == TotalJoltage(lines, 12)
  {
    total := SumBanks(lines, 12);
  }
}
