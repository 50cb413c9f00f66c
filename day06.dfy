/**
  Day 6: a worksheet whose last line holds one operator per problem and whose other lines
  hold the numbers. Part 1 reads the numbers row by row and combines each column; part 2
  reads the characters column by column, each column spelling one number, and problems are
  separated by blank columns.
 */
module Day06 {
  import opened Wrappers
  import opened Text

  function Min(a: nat, b: nat): nat { if a <= b then a else b }

  /** The length of the shortest row. */
  function MinLen<T>(rows: seq<seq<T>>): (m: nat)
    requires |rows| > 0
    ensures forall i :: 0 <= i < |rows| ==> m <= |rows[i]|
    ensures exists i :: 0 <= i < |rows| && m == |rows[i]|
  {
    if |rows| == 1 then |rows[0]| else Min(|rows[0]|, MinLen(rows[1..]))
  }

  /** Element `k` of every row. */
  function Column<T>(rows: seq<seq<T>>, k: nat): (col: seq<T>)
    requires forall i :: 0 <= i < |rows| ==> k < |rows[i]|
    ensures |col| == |rows| && forall i :: 0 <= i < |rows| ==> col[i] == rows[i][k]
  {
    seq(|rows|, i requires 0 <= i < |rows| => rows[i][k])
  }

  /**
    How many columns `Columns` yields before it stops or before `limit` are taken: the
    shortest row length, or `limit` with no rows at all (then every column is empty).
   */
  function ColumnCount<T>(rows: seq<seq<T>>, limit: nat): nat
  {
    if |rows| == 0 then limit else Min(limit, MinLen(rows))
  }

  /** The first `limit` columns, or all of them when the shortest row runs out first. */
  function Columns<T>(rows: seq<seq<T>>, limit: nat): (cols: seq<seq<T>>)
    ensures |cols| == ColumnCount(rows, limit)
    ensures forall k :: 0 <= k < |cols| ==> |cols[k]| == |rows|
    ensures forall k, i :: 0 <= k < |cols| && 0 <= i < |rows| ==> k < |rows[i]| && cols[k][i] == rows[i][k]
  {
    seq(ColumnCount(rows, limit), k requires 0 <= k < ColumnCount(rows, limit) => Column(rows, k))
  }

  /** The rows all have length `w`. */
  predicate Rectangular<T>(rows: seq<seq<T>>, w: nat)
  {
    forall i :: 0 <= i < |rows| ==> |rows[i]| == w
  }

  /** Transposing a non-empty rectangular block twice gives it back. */
  lemma ColumnsInvolution<T>(rows: seq<seq<T>>, w: nat)
    requires |rows| > 0 && w > 0 && Rectangular(rows, w)
    ensures Columns(Columns(rows, w), |rows|) == rows
  {
    var cols := Columns(rows, w);
    assert |cols| == w;
    assert Rectangular(cols, |rows|);
    var back := Columns(cols, |rows|);
    assert |back| == |rows|;
    forall i | 0 <= i < |rows|
      ensures back[i] == rows[i]
    {
    }
  }

  /** Index of the first row whose position has run past its end. */
  function FirstExhausted<T>(rows: seq<seq<T>>, pos: seq<nat>): (f: nat)
    requires |pos| == |rows|
    ensures f <= |rows|
    ensures forall i :: 0 <= i < f ==> pos[i] < |rows[i]|
    ensures f < |rows| ==> pos[f] >= |rows[f]|
    decreases |rows|
  {
    if rows == [] then 0
    else if pos[0] >= |rows[0]| then 0
    else 1 + FirstExhausted(rows[1..], pos[1..])
  }

  /**
    The `Columns` iterator: one position per row. `Next` advances the rows in order and
    stops at the first exhausted one, so the rows before it have moved on.
   */
  class ColumnIter<T> {
    const rows: seq<seq<T>>
    var pos: seq<nat>

    predicate Valid()
      reads this
    {
      |pos| == |rows|
    }

    constructor (rows: seq<seq<T>>)
      ensures Valid() && this.rows == rows
      ensures forall i :: 0 <= i < |rows| ==> pos[i] == 0
    {
      this.rows := rows;
      pos := seq(|rows|, _ => 0);
    }

    /** `Columns::next`: the next element of every row, or `None` once one is exhausted. */
    method Next() returns (col: Option<seq<T>>)
      requires Valid()
      modifies this
      ensures Valid()
      ensures col.Some? <==> FirstExhausted(rows, old(pos)) == |rows|
      ensures col.Some? ==> |col.value| == |rows|
                            && forall i :: 0 <= i < |rows| ==> col.value[i] == rows[i][old(pos)[i]]
      ensures forall i :: 0 <= i < |rows| ==>
                pos[i] == if i < FirstExhausted(rows, old(pos)) then old(pos)[i] + 1 else old(pos)[i]
    {
      ghost var f := FirstExhausted(rows, pos);
      var out: seq<T> := [];
      for i := 0 to |rows|
        invariant |pos| == |rows| && i <= f
        invariant f == FirstExhausted(rows, old(pos))
        invariant |out| == i && forall j :: 0 <= j < i ==> out[j] == rows[j][old(pos)[j]]
        invariant forall j :: 0 <= j < |rows| ==> pos[j] == if j < i then old(pos)[j] + 1 else old(pos)[j]
      {
        if pos[i] >= |rows[i]| {
          return None;
        }
        out := out + [rows[i][pos[i]]];
        pos := pos[i := pos[i] + 1];
      }
      col := Some(out);
    }
  }

  /** Pulling up to `limit` columns from the iterator, as `zip` does, gives `Columns`. */
  method CollectColumns<T>(rows: seq<seq<T>>, limit: nat) returns (cols: seq<seq<T>>)
    ensures cols == Columns(rows, limit)
  {
    var it := new ColumnIter(rows);
    cols := [];
    while |cols| < limit
      invariant it.Valid() && it.rows == rows
      invariant forall i :: 0 <= i < |rows| ==> it.pos[i] == |cols| <= |rows[i]|
      invariant |cols| <= ColumnCount(rows, limit)
      invariant forall k :: 0 <= k < |cols| ==> |cols[k]| == |rows| && cols[k] == Column(rows, k)
      decreases limit - |cols|
    {
      var c := it.Next();
      if c.None? {
        break;
      }
      assert c.value == Column(rows, |cols|);
      cols := cols + [c.value];
    }
  }

  function Sum(ns: seq<int>): int
  {
    if ns == [] then 0 else Sum(ns[..|ns| - 1]) + ns[|ns| - 1]
  }

  function Product(ns: seq<int>): int
  {
    if ns == [] then 1 else Product(ns[..|ns| - 1]) * ns[|ns| - 1]
  }

  /** One problem: its numbers added under `+`, multiplied under any other operator. */
  function Combine(op: string, ns: seq<int>): (r: int)
    ensures op == "+" ==> r == Sum(ns)
    ensures op != "+" ==> r == Product(ns)
    ensures ns == [] ==> r == if op == "+" then 0 else 1
  {
    if op == "+" then Sum(ns) else Product(ns)
  }

  lemma {:induction false} SumAppend(a: seq<int>, b: seq<int>)
    ensures Sum(a + b) == Sum(a) + Sum(b)
    decreases |b|
  {
    if b == [] {
      assert a + b == a;
    } else {
      SumAppend(a, b[..|b| - 1]);
      assert (a + b)[..|a + b| - 1] == a + b[..|b| - 1];
    }
  }

  lemma {:induction false} ProductAppend(a: seq<int>, b: seq<int>)
    ensures Product(a + b) == Product(a) * Product(b)
    decreases |b|
  {
    if b == [] {
      assert a + b == a;
    } else {
      ProductAppend(a, b[..|b| - 1]);
      assert (a + b)[..|a + b| - 1] == a + b[..|b| - 1];
    }
  }

  /** A problem split in two: the halves' results added under `+`, multiplied otherwise. */
  lemma CombineAppend(op: string, a: seq<int>, b: seq<int>)
    ensures op == "+" ==> Combine(op, a + b) == Combine(op, a) + Combine(op, b)
    ensures op != "+" ==> Combine(op, a + b) == Combine(op, a) * Combine(op, b)
  {
    SumAppend(a, b);
    ProductAppend(a, b);
  }

  /** Taking one number out of a problem: the rest combined, then that number added or multiplied in. */
  lemma CombineRemove(op: string, b: seq<int>, j: nat)
    requires j < |b|
    ensures op == "+" ==> Combine(op, b) == Combine(op, b[..j] + b[j + 1..]) + b[j]
    ensures op != "+" ==> Combine(op, b) == Combine(op, b[..j] + b[j + 1..]) * b[j]
  {
    var x := b[j];
    assert b == b[..j] + [x] + b[j + 1..];
    CombineAppend(op, b[..j], [x]);
    CombineAppend(op, b[..j] + [x], b[j + 1..]);
    CombineAppend(op, b[..j], b[j + 1..]);
    assert Sum([x]) == x && Product([x]) == x by {
      assert [x][..0] == [];
    }
  }

  lemma MultisetRemove(b: seq<int>, j: nat)
    requires j < |b|
    ensures multiset(b[..j] + b[j + 1..]) == multiset(b) - multiset{b[j]}
  {
    assert b == b[..j] + [b[j]] + b[j + 1..];
  }

  /** The order of a problem's numbers does not matter. */
  lemma {:induction false} CombinePermutation(op: string, a: seq<int>, b: seq<int>)
    requires multiset(a) == multiset(b)
    ensures Combine(op, a) == Combine(op, b)
    decreases |a|
  {
    if a != [] {
      var x := a[|a| - 1];
      var a' := a[..|a| - 1];
      assert a == a' + [x];
      assert x in multiset(b);
      var j :| 0 <= j < |b| && b[j] == x;
      var b' := b[..j] + b[j + 1..];
      MultisetRemove(b, j);
      MultisetRemove(a, |a| - 1);
      assert a[..|a| - 1] + a[|a|..] == a';
      CombinePermutation(op, a', b');
      CombineRemove(op, b, j);
      CombineRemove(op, a, |a| - 1);
    } else {
      assert b == [];
    }
  }

  /** `zip(operators, groups)` combined and summed: it stops at the shorter of the two. */
  function ZipCombine(ops: seq<string>, groups: seq<seq<int>>): int
  {
    if ops == [] || groups == [] then 0
    else Combine(ops[0], groups[0]) + ZipCombine(ops[1..], groups[1..])
  }

  /** The problems `0..m` combined and added up. */
  function SumProblems(ops: seq<string>, groups: seq<seq<int>>, m: nat): int
    requires m <= |ops| && m <= |groups|
  {
    if m == 0 then 0 else SumProblems(ops, groups, m - 1) + Combine(ops[m - 1], groups[m - 1])
  }

  lemma {:induction false} SumProblemsShift(ops: seq<string>, groups: seq<seq<int>>, m: nat)
    requires 0 < m <= |ops| && m <= |groups|
    ensures SumProblems(ops, groups, m)
         == Combine(ops[0], groups[0]) + SumProblems(ops[1..], groups[1..], m - 1)
  {
    if m > 1 {
      SumProblemsShift(ops, groups, m - 1);
    }
  }

  /** The zip adds up exactly the first `min(|ops|, |groups|)` problems. */
  lemma {:induction false} ZipCombineIsSum(ops: seq<string>, groups: seq<seq<int>>)
    ensures ZipCombine(ops, groups) == SumProblems(ops, groups, Min(|ops|, |groups|))
    decreases |ops|
  {
    if ops != [] && groups != [] {
      ZipCombineIsSum(ops[1..], groups[1..]);
      SumProblemsShift(ops, groups, Min(|ops|, |groups|));
    }
  }

  /** The integer tokens of a line; tokens that do not parse are dropped. */
  function Numbers(tokens: seq<string>): (ns: seq<int>)
    ensures |ns| <= |tokens|
  {
    if tokens == [] then []
    else
      var rest := Numbers(tokens[1..]);
      match ParseInt(tokens[0])
      case Some(n) => [n] + rest
      case None => rest
  }

  /** The decimal spellings of some integers, as `to_string` writes them. */
  function Decimals(ns: seq<int>): (tokens: seq<string>)
    ensures |tokens| == |ns|
  {
    if ns == [] then [] else [IntToDecimal(ns[0])] + Decimals(ns[1..])
  }

  /** Decimal spellings parse back to the numbers they spell. */
  lemma {:induction false} NumbersOfDecimals(ns: seq<int>)
    ensures Numbers(Decimals(ns)) == ns
  {
    if ns != [] {
      var tokens := Decimals(ns);
      assert tokens[0] == IntToDecimal(ns[0]) && tokens[1..] == Decimals(ns[1..]);
      NumbersOfDecimals(ns[1..]);
      ParseIntToDecimal(ns[0]);
    }
  }

  /** The number rows of part 1: each line's whitespace-separated integers. */
  function NumberRows(lines: seq<string>): (rows: seq<seq<int>>)
    ensures |rows| == |lines|
  {
    seq(|lines|, i requires 0 <= i < |lines| => Numbers(SplitWhitespace(lines[i])))
  }

  /** The operators: the whitespace-separated tokens of the last line. */
  function Operators(lines: seq<string>): seq<string>
    requires |lines| > 0
  {
    SplitWhitespace(lines[|lines| - 1])
  }

  /**
    Part 1: column `k` of the number rows is problem `k`, combined with operator `k`.
    The last line must exist: an empty input aborts.
   */
  function Part1(lines: seq<string>): (total: int)
    requires |lines| > 0
    ensures var ops, rows := Operators(lines), NumberRows(lines[..|lines| - 1]);
      total == SumProblems(ops, Columns(rows, |ops|), Min(|ops|, ColumnCount(rows, |ops|)))
  {
    var ops := Operators(lines);
    var rows := NumberRows(lines[..|lines| - 1]);
    ZipCombineIsSum(ops, Columns(rows, |ops|));
    ZipCombine(ops, Columns(rows, |ops|))
  }

  /** The operators other than `+`. */
  function CountProducts(ops: seq<string>): nat
  {
    if ops == [] then 0 else (if ops[0] == "+" then 0 else 1) + CountProducts(ops[1..])
  }

  /** With only the operator line, every problem is empty: 0 under `+` and 1 otherwise. */
  lemma {:induction false} ZipEmptyGroups(ops: seq<string>, groups: seq<seq<int>>)
    requires |groups| == |ops| && forall k :: 0 <= k < |groups| ==> groups[k] == []
    ensures ZipCombine(ops, groups) == CountProducts(ops)
  {
    if ops != [] {
      ZipEmptyGroups(ops[1..], groups[1..]);
    }
  }

  lemma Part1OperatorsOnly(line: string)
    ensures Part1([line]) == CountProducts(SplitWhitespace(line))
  {
    var ops := SplitWhitespace(line);
    assert [line][..0] == [];
    ZipEmptyGroups(ops, Columns(NumberRows([]), |ops|));
  }

  /** The number a character column spells: its characters, trimmed, parsed. */
  function ColumnValue(col: string): Option<int>
  {
    ParseInt(Trim(col))
  }

  /** A blank column holds no number, so it separates problems. */
  lemma BlankColumn(col: string)
    requires OnlySpace(col)
    ensures ColumnValue(col) == None
  {
  }

  function NoneCount(rs: seq<Option<int>>): nat
  {
    if rs == [] then 0 else (if rs[0].None? then 1 else 0) + NoneCount(rs[1..])
  }

  function Values(rs: seq<Option<int>>): seq<int>
  {
    if rs == [] then [] else (if rs[0].Some? then [rs[0].value] else []) + Values(rs[1..])
  }

  function Flatten(gs: seq<seq<int>>): seq<int>
  {
    if gs == [] then [] else gs[0] + Flatten(gs[1..])
  }

  /**
    `split(|res| res.is_err())` followed by keeping the values: the runs of numbers between
    failed columns. There is one more group than failures, and the groups hold every
    number once, in order.
   */
  function Groups(rs: seq<Option<int>>): (gs: seq<seq<int>>)
    ensures |gs| == NoneCount(rs) + 1
    ensures Flatten(gs) == Values(rs)
  {
    if rs == [] then
      [[]]
    else
      var rest := Groups(rs[1..]);
      match rs[0]
      case None =>
        assert ([[]] + rest)[1..] == rest;
        [[]] + rest
      case Some(v) =>
        var gs := [[v] + rest[0]] + rest[1..];
        assert gs[1..] == rest[1..];
        assert Flatten(rest) == rest[0] + Flatten(rest[1..]);
        gs
  }

  /** A group of numbers as the column results it came from. */
  function Somes(ns: seq<int>): (rs: seq<Option<int>>)
    ensures |rs| == |ns|
  {
    if ns == [] then [] else [Some(ns[0])] + Somes(ns[1..])
  }

  /** The column results a list of groups is cut from: the groups with one failure between neighbours. */
  function Unsplit(gs: seq<seq<int>>): seq<Option<int>>
  {
    if gs == [] then []
    else if |gs| == 1 then Somes(gs[0])
    else Somes(gs[0]) + [None] + Unsplit(gs[1..])
  }

  lemma SomesCons(v: int, ns: seq<int>)
    ensures Somes([v] + ns) == [Some(v)] + Somes(ns)
  {
    assert ([v] + ns)[1..] == ns;
  }

  /** Putting the groups back between their failures gives the column results back. */
  lemma {:induction false} UnsplitGroups(rs: seq<Option<int>>)
    ensures Unsplit(Groups(rs)) == rs
  {
    if rs != [] {
      UnsplitGroups(rs[1..]);
      if rs[0].None? {
        UnsplitAfterNone(rs);
      } else {
        UnsplitAfterSome(rs);
      }
    }
  }

  lemma UnsplitAfterNone(rs: seq<Option<int>>)
    requires rs != [] && rs[0].None? && Unsplit(Groups(rs[1..])) == rs[1..]
    ensures Unsplit(Groups(rs)) == rs
  {
    var rest := Groups(rs[1..]);
    assert Groups(rs) == [[]] + rest;
    assert ([[]] + rest)[1..] == rest;
    assert Somes([]) == [];
    assert Unsplit(Groups(rs)) == [] + [None] + Unsplit(rest);
    assert [rs[0]] + rs[1..] == rs;
  }

  lemma UnsplitAfterSome(rs: seq<Option<int>>)
    requires rs != [] && rs[0].Some? && Unsplit(Groups(rs[1..])) == rs[1..]
    ensures Unsplit(Groups(rs)) == rs
  {
    var v := rs[0].value;
    var rest := Groups(rs[1..]);
    assert [rs[0]] + rs[1..] == rs;
    GroupsConsSome(v, rs[1..]);
    UnsplitConsSome(v, rest);
  }

  /** A successful result in front joins the first group. */
  lemma GroupsConsSome(v: int, r: seq<Option<int>>)
    ensures Groups([Some(v)] + r) == [[v] + Groups(r)[0]] + Groups(r)[1..]
  {
    assert ([Some(v)] + r)[1..] == r;
  }

  lemma UnsplitConsSome(v: int, gs: seq<seq<int>>)
    requires gs != []
    ensures Unsplit([[v] + gs[0]] + gs[1..]) == [Some(v)] + Unsplit(gs)
  {
    var hs := [[v] + gs[0]] + gs[1..];
    assert hs[0] == [v] + gs[0] && hs[1..] == gs[1..] && |hs| == |gs|;
    SomesCons(v, gs[0]);
  }

  /** Groups followed by more column results: the groups run on into the first group of the rest. */
  lemma {:induction false} GroupsOfSomes(ns: seq<int>, tail: seq<Option<int>>)
    ensures Groups(Somes(ns) + tail) == [ns + Groups(tail)[0]] + Groups(tail)[1..]
  {
    if ns == [] {
      assert Somes(ns) == [];
      assert Somes(ns) + tail == tail;
      var g := Groups(tail);
      assert ns + g[0] == g[0];
      assert [g[0]] + g[1..] == g;
    } else {
      GroupsOfSomes(ns[1..], tail);
      GroupsOfSomesStep(ns, tail);
    }
  }

  lemma GroupsOfSomesStep(ns: seq<int>, tail: seq<Option<int>>)
    requires ns != []
    requires Groups(Somes(ns[1..]) + tail) == [ns[1..] + Groups(tail)[0]] + Groups(tail)[1..]
    ensures Groups(Somes(ns) + tail) == [ns + Groups(tail)[0]] + Groups(tail)[1..]
  {
    var r := Somes(ns[1..]) + tail;
    SomesConsAppend(ns, tail);
    GroupsConsSome(ns[0], r);
    PrependToFirst(ns, Groups(tail)[0], Groups(tail)[1..], Groups(r));
  }

  lemma SomesConsAppend(ns: seq<int>, tail: seq<Option<int>>)
    requires ns != []
    ensures Somes(ns) + tail == [Some(ns[0])] + (Somes(ns[1..]) + tail)
  {
  }

  lemma PrependToFirst(ns: seq<int>, g0: seq<int>, grest: seq<seq<int>>, h: seq<seq<int>>)
    requires ns != [] && h == [ns[1..] + g0] + grest
    ensures [[ns[0]] + h[0]] + h[1..] == [ns + g0] + grest
  {
    assert h[1..] == grest;
    assert [ns[0]] + (ns[1..] + g0) == ns + g0;
  }

  /** Cutting the column results a list of groups is made from gives those groups back. */
  lemma {:induction false} GroupsOfUnsplit(gs: seq<seq<int>>)
    requires gs != []
    ensures Groups(Unsplit(gs)) == gs
  {
    if |gs| == 1 {
      GroupsOfSomes(gs[0], []);
      assert Somes(gs[0]) + [] == Somes(gs[0]);
      assert gs[0] + [] == gs[0];
    } else {
      GroupsOfUnsplit(gs[1..]);
      var tail := [None] + Unsplit(gs[1..]);
      assert Somes(gs[0]) + [None] + Unsplit(gs[1..]) == Somes(gs[0]) + tail;
      GroupsOfSomes(gs[0], tail);
      assert tail[0] == None && tail[1..] == Unsplit(gs[1..]);
      assert Groups(tail) == [[]] + gs[1..];
      assert gs[0] + [] == gs[0];
      assert [gs[0]] + gs[1..] == gs;
    }
  }

  /** The character rows of part 2, every line but the last. */
  function CharRows(lines: seq<string>): seq<seq<char>>
    requires |lines| > 0
  {
    lines[..|lines| - 1]
  }

  /** The value of every character column, up to the shortest row. */
  function ColumnValues(rows: seq<seq<char>>): (vs: seq<Option<int>>)
    requires |rows| > 0
    ensures |vs| == MinLen(rows)
    ensures forall k :: 0 <= k < |vs| ==> vs[k] == ColumnValue(Column(rows, k))
  {
    var cols := Columns(rows, MinLen(rows));
    seq(|cols|, k requires 0 <= k < |cols| => ColumnValue(cols[k]))
  }

  /**
    Part 2: the numbers read down the columns, grouped between blank columns, group `k`
    combined with operator `k`. Without a number row the column iterator never ends and
    collecting it does not terminate, so at least one is required.
   */
  function Part2(lines: seq<string>): (total: int)
    requires |lines| > 1
    ensures var ops, gs := Operators(lines), Groups(ColumnValues(CharRows(lines)));
      total == SumProblems(ops, gs, Min(|ops|, |gs|))
  {
    var ops := Operators(lines);
    var gs := Groups(ColumnValues(CharRows(lines)));
    ZipCombineIsSum(ops, gs);
    ZipCombine(ops, gs)
  }
}
