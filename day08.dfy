/**
  Day 8: junction boxes at integer points in space. Every pair of boxes is an edge weighted
  by its squared distance. Part 1 joins the boxes along the shortest edges and multiplies
  the sizes of the three largest circuits; part 2 joins boxes along the edges in order and
  reports the edge that leaves a single circuit.
 */
module Day08 {
  import opened Wrappers
  import opened Text
  import Sorting

  datatype Coordinate = Coordinate(x: int, y: int, z: int)

  /** `.map(|n| n.trim().parse())`: every field trimmed and parsed. */
  function FieldValues(fields: seq<string>): (vs: seq<Option<int>>)
    ensures |vs| == |fields|
  {
    seq(|fields|, k requires 0 <= k < |fields| => ParseInt(Trim(fields[k])))
  }

  /** `.collect::<Result<Vec<_>, _>>()`: all the values, or `None` when one of them is missing. */
  function Collect(os: seq<Option<int>>): (r: Option<seq<int>>)
    ensures r.Some? ==> |r.value| == |os|
  {
    if os == [] then Some([])
    else
      var head, tail := os[0], Collect(os[1..]);
      if head.Some? && tail.Some? then Some([head.value] + tail.value) else None
  }

  /** Collecting succeeds exactly when every value is present, and then keeps them in order. */
  lemma {:induction false} CollectMeaning(os: seq<Option<int>>)
    ensures Collect(os).Some? <==> forall k :: 0 <= k < |os| ==> os[k].Some?
    ensures Collect(os).Some? ==> forall k :: 0 <= k < |os| ==> os[k] == Some(Collect(os).value[k])
  {
    if os != [] {
      var rest := os[1..];
      CollectMeaning(rest);
      assert forall k :: 0 < k < |os| ==> rest[k - 1] == os[k];
      var head, tail := os[0], Collect(rest);
      if head.Some? && tail.Some? {
        var v := [head.value] + tail.value;
        assert Collect(os) == Some(v);
        forall k | 0 <= k < |os|
          ensures os[k] == Some(v[k])
        {
          if k > 0 {
            assert v[k] == tail.value[k - 1];
          }
        }
      }
    }
  }

  lemma CollectExact(os: seq<Option<int>>, vs: seq<int>)
    requires |os| == |vs| && forall k :: 0 <= k < |os| ==> os[k] == Some(vs[k])
    ensures Collect(os) == Some(vs)
  {
    CollectMeaning(os);
    assert Collect(os).value == vs;
  }

  /** The fields of a line, parsed: `None` when one of them is not an integer. */
  function ParseFields(fields: seq<string>): (r: Option<seq<int>>)
    ensures r.Some? ==> |r.value| == |fields|
  {
    Collect(FieldValues(fields))
  }

  /** The fields parse exactly when each of them does, and then to their values. */
  lemma ParseFieldsMeaning(fields: seq<string>)
    ensures ParseFields(fields).Some? <==> forall k :: 0 <= k < |fields| ==> ParseInt(Trim(fields[k])).Some?
    ensures ParseFields(fields).Some? ==>
      forall k :: 0 <= k < |fields| ==> ParseInt(Trim(fields[k])) == Some(ParseFields(fields).value[k])
  {
    CollectMeaning(FieldValues(fields));
    assert forall k :: 0 <= k < |fields| ==> FieldValues(fields)[k] == ParseInt(Trim(fields[k]));
  }

  /**
    A line `Coordinate::from_str` handles without aborting: some field is not an integer,
    or there are at least three fields to index.
   */
  predicate Readable(line: string)
  {
    var r := ParseFields(Split(line, ','));
    r.None? || |r.value| >= 3
  }

  /** `Coordinate::from_str`: the first three fields of a line whose fields all parse. */
  function ParseCoordinate(line: string): Option<Coordinate>
    requires Readable(line)
  {
    var r := ParseFields(Split(line, ','));
    if r.Some? then Some(Coordinate(r.value[0], r.value[1], r.value[2])) else None
  }

  /**
    A line gives a point exactly when every comma-separated field is an integer once
    trimmed; the point is the first three fields and any further ones are ignored.
   */
  lemma ParseCoordinateMeaning(line: string)
    requires Readable(line)
    ensures ParseCoordinate(line).Some? <==>
      forall k :: 0 <= k < |Split(line, ',')| ==> ParseInt(Trim(Split(line, ',')[k])).Some?
    ensures ParseCoordinate(line).Some? ==>
      && |Split(line, ',')| >= 3
      && ParseInt(Trim(Split(line, ',')[0])) == Some(ParseCoordinate(line).value.x)
      && ParseInt(Trim(Split(line, ',')[1])) == Some(ParseCoordinate(line).value.y)
      && ParseInt(Trim(Split(line, ',')[2])) == Some(ParseCoordinate(line).value.z)
  {
    ParseFieldsMeaning(Split(line, ','));
  }

  /** How a point is written: `x,y,z` in decimal. */
  function Format(c: Coordinate): string
  {
    IntToDecimal(c.x) + "," + IntToDecimal(c.y) + "," + IntToDecimal(c.z)
  }

  /** A decimal holds no comma and trims to itself. */
  lemma DecimalField(n: int)
    ensures ',' !in IntToDecimal(n) && Trim(IntToDecimal(n)) == IntToDecimal(n)
    ensures ParseInt(IntToDecimal(n)) == Some(n)
  {
    ParseIntToDecimal(n);
    var s := IntToDecimal(n);
    IntToDecimalChars(n);
    assert forall i :: 0 <= i < |s| ==> s[i] != ',' && !IsSpace(s[i]);
    TrimOfNoSpace(s);
  }

  /** A written point splits into its three decimal fields. */
  lemma SplitFormat(c: Coordinate)
    ensures Split(Format(c), ',') == [IntToDecimal(c.x)] + ([IntToDecimal(c.y)] + [IntToDecimal(c.z)])
  {
    DecimalField(c.x);
    DecimalField(c.y);
    DecimalField(c.z);
    SplitThree(IntToDecimal(c.x), IntToDecimal(c.y), IntToDecimal(c.z), ',');
  }

  lemma LengthThree(os: seq<Option<int>>, vs: seq<int>)
    requires |os| == |vs| == 3 && os[0] == Some(vs[0]) && os[1] == Some(vs[1]) && os[2] == Some(vs[2])
    ensures forall k :: 0 <= k < |os| ==> os[k] == Some(vs[k])
  {
  }

  lemma FieldsOfThree(a: string, b: string, d: string, x: int, y: int, z: int)
    requires ParseInt(Trim(a)) == Some(x) && ParseInt(Trim(b)) == Some(y) && ParseInt(Trim(d)) == Some(z)
    ensures ParseFields([a] + ([b] + [d])) == Some([x] + ([y] + [z]))
  {
    var fs, vs := [a] + ([b] + [d]), [x] + ([y] + [z]);
    assert fs[0] == a && fs[1] == b && fs[2] == d;
    assert vs[0] == x && vs[1] == y && vs[2] == z;
    var os := FieldValues(fs);
    assert os[0] == Some(x) && os[1] == Some(y) && os[2] == Some(z);
    assert forall k :: 0 <= k < |os| ==> os[k] == Some(vs[k]) by {
      LengthThree(os, vs);
    }
    CollectExact(os, vs);
  }

  lemma FieldsFormat(c: Coordinate)
    ensures ParseFields([IntToDecimal(c.x)] + ([IntToDecimal(c.y)] + [IntToDecimal(c.z)]))
         == Some([c.x] + ([c.y] + [c.z]))
  {
    DecimalField(c.x);
    DecimalField(c.y);
    DecimalField(c.z);
    FieldsOfThree(IntToDecimal(c.x), IntToDecimal(c.y), IntToDecimal(c.z), c.x, c.y, c.z);
  }

  /** Reading a written point gives the point back. */
  lemma ParseFormat(c: Coordinate)
    ensures Readable(Format(c)) && ParseCoordinate(Format(c)) == Some(c)
  {
    SplitFormat(c);
    FieldsFormat(c);
  }

  predicate AllReadable(lines: seq<string>)
  {
    forall i :: 0 <= i < |lines| ==> Readable(lines[i])
  }

  /** `parse_coordinates`: the points of the lines that parse, in order; other lines are skipped. */
  function ParseCoordinates(lines: seq<string>): (cs: seq<Coordinate>)
    requires AllReadable(lines)
    ensures |cs| <= |lines|
  {
    if lines == [] then []
    else
      assert AllReadable(lines[1..]) by {
        assert forall i :: 0 < i < |lines| ==> lines[1..][i - 1] == lines[i];
      }
      var rest := ParseCoordinates(lines[1..]);
      var head := ParseCoordinate(lines[0]);
      if head.Some? then [head.value] + rest else rest
  }

  /** The lines that write the points. */
  function FormatAll(cs: seq<Coordinate>): (lines: seq<string>)
    ensures |lines| == |cs|
  {
    if cs == [] then [] else [Format(cs[0])] + FormatAll(cs[1..])
  }

  lemma ParseCoordinatesCons(line: string, rest: seq<string>)
    requires Readable(line) && AllReadable(rest)
    ensures AllReadable([line] + rest)
    ensures ParseCoordinates([line] + rest)
         == (var head := ParseCoordinate(line); if head.Some? then [head.value] + ParseCoordinates(rest) else ParseCoordinates(rest))
  {
    var lines := [line] + rest;
    assert lines[0] == line && lines[1..] == rest;
    assert forall i :: 0 < i < |lines| ==> lines[i] == rest[i - 1];
  }

  lemma {:induction false} FormatAllReadable(cs: seq<Coordinate>)
    ensures AllReadable(FormatAll(cs))
  {
    if cs != [] {
      assert Readable(Format(cs[0])) by {
        ParseFormat(cs[0]);
      }
      FormatAllReadable(cs[1..]);
      ParseCoordinatesCons(Format(cs[0]), FormatAll(cs[1..]));
    }
  }

  /** Reading the written points gives them back, in order. */
  lemma {:induction false} ParseFormatAll(cs: seq<Coordinate>)
    ensures AllReadable(FormatAll(cs)) && ParseCoordinates(FormatAll(cs)) == cs
  {
    FormatAllReadable(cs);
    if cs == [] {
      assert FormatAll(cs) == [];
    } else {
      var line, rest := Format(cs[0]), FormatAll(cs[1..]);
      assert AllReadable(rest) && ParseCoordinates(rest) == cs[1..] by {
        ParseFormatAll(cs[1..]);
      }
      assert Readable(line) && ParseCoordinate(line) == Some(cs[0]) by {
        ParseFormat(cs[0]);
      }
      assert FormatAll(cs) == [line] + rest;
      ParseFormatStep(cs, line, rest);
    }
  }

  lemma ParseFormatStep(cs: seq<Coordinate>, line: string, rest: seq<string>)
    requires cs != [] && Readable(line) && ParseCoordinate(line) == Some(cs[0])
    requires AllReadable(rest) && ParseCoordinates(rest) == cs[1..]
    ensures AllReadable([line] + rest) && ParseCoordinates([line] + rest) == cs
  {
    ParseCoordinatesCons(line, rest);
    assert [cs[0]] + cs[1..] == cs;
  }

  function Square(d: int): (s: nat)
    ensures s == 0 <==> d == 0
  {
    if d >= 0 then d * d else (-d) * (-d)
  }

  /** `distance_squared`: never negative, and zero exactly for the same point. */
  function DistanceSquared(a: Coordinate, b: Coordinate): (d: nat)
    ensures d == 0 <==> a == b
  {
    Square(a.x - b.x) + Square(a.y - b.y) + Square(a.z - b.z)
  }

  lemma DistanceSymmetric(a: Coordinate, b: Coordinate)
    ensures DistanceSquared(a, b) == DistanceSquared(b, a)
  {
    assert Square(a.x - b.x) == Square(b.x - a.x);
    assert Square(a.y - b.y) == Square(b.y - a.y);
    assert Square(a.z - b.z) == Square(b.z - a.z);
  }

  datatype Edge = Edge(p1: nat, p2: nat, dist: int)

  /** The key of `Ord for Edge`. */
  function Dist(e: Edge): int { e.dist }

  datatype Ordering = Less | Equal | Greater

  /** `Ord for Edge`: edges compare by their squared distance alone. */
  function Compare(a: Edge, b: Edge): (o: Ordering)
  {
    if a.dist < b.dist then Less else if a.dist == b.dist then Equal else Greater
  }

  /** The order is a total preorder: swapping the sides reverses it, and equal is by distance only. */
  lemma CompareProperties(a: Edge, b: Edge)
    ensures Compare(a, b) == Less <==> Compare(b, a) == Greater
    ensures Compare(a, b) == Equal <==> Compare(b, a) == Equal
    ensures Compare(a, b) == Equal <==> Dist(a) == Dist(b)
  {
  }

  /** Being sorted by `Dist` is being in non-decreasing `Ord` order. */
  lemma SortedByCompare(s: seq<Edge>)
    ensures Sorting.SortedBy(s, Dist) <==> forall i, j :: 0 <= i < j < |s| ==> Compare(s[j], s[i]) != Less
  {
  }

  /** The edges `(i, k)` for `i < k < j`, in order of `k`: the inner loop's pushes so far. */
  function RowUpTo(cs: seq<Coordinate>, i: nat, j: nat): (r: seq<Edge>)
    requires i < j <= |cs|
    ensures |r| == j - i - 1
    decreases j
  {
    if j == i + 1 then [] else RowUpTo(cs, i, j - 1) + [Edge(i, j - 1, DistanceSquared(cs[i], cs[j - 1]))]
  }

  /** The edges of the rows before `i`: the outer loop's pushes so far. */
  function Pairs(cs: seq<Coordinate>, i: nat): seq<Edge>
    requires i <= |cs|
  {
    if i == 0 then [] else Pairs(cs, i - 1) + RowUpTo(cs, i - 1, |cs|)
  }

  /** One edge per pair of points, with the pair's squared distance. */
  ghost predicate PairEdge(cs: seq<Coordinate>, e: Edge)
  {
    e.p1 < e.p2 < |cs| && e.dist == DistanceSquared(cs[e.p1], cs[e.p2])
  }

  function AllPairs(cs: seq<Coordinate>): seq<Edge>
  {
    Pairs(cs, |cs|)
  }

  lemma {:induction false} RowMembers(cs: seq<Coordinate>, i: nat, j: nat, e: Edge)
    requires i < j <= |cs|
    ensures e in RowUpTo(cs, i, j) <==> e.p1 == i && e.p2 < j && PairEdge(cs, e)
    decreases j
  {
    if j > i + 1 {
      RowMembers(cs, i, j - 1, e);
    }
  }

  lemma {:induction false} PairsMembers(cs: seq<Coordinate>, i: nat, e: Edge)
    requires i <= |cs|
    ensures e in Pairs(cs, i) <==> e.p1 < i && PairEdge(cs, e)
  {
    if i > 0 {
      var before, row := Pairs(cs, i - 1), RowUpTo(cs, i - 1, |cs|);
      assert Pairs(cs, i) == before + row;
      InConcat(before, row, e);
      PairsMembers(cs, i - 1, e);
      RowMembers(cs, i - 1, |cs|, e);
    }
  }

  lemma InConcat(a: seq<Edge>, b: seq<Edge>, e: Edge)
    ensures e in a + b <==> e in a || e in b
  {
  }

  lemma {:induction false} PairsLength(cs: seq<Coordinate>, i: nat)
    requires i <= |cs|
    ensures 2 * |Pairs(cs, i)| == i * (2 * |cs| - i - 1)
  {
    if i > 0 {
      PairsLength(cs, i - 1);
      assert i * (2 * |cs| - i - 1) == (i - 1) * (2 * |cs| - (i - 1) - 1) + 2 * (|cs| - i);
    }
  }

  /** There are n(n-1)/2 edges, exactly the pairs `i < j` with their squared distance. */
  lemma AllPairsProperties(cs: seq<Coordinate>)
    ensures 2 * |AllPairs(cs)| == |cs| * (|cs| - 1)
    ensures forall e :: e in AllPairs(cs) <==> PairEdge(cs, e)
  {
    PairsLength(cs, |cs|);
    forall e
      ensures e in AllPairs(cs) <==> PairEdge(cs, e)
    {
      PairsMembers(cs, |cs|, e);
    }
  }

  /**
    `generate_sorted_edges`: push the pair edges row by row, then sort them by squared
    distance. Ties may come out in any order.
   */
  method GenerateSortedEdges(cs: seq<Coordinate>) returns (edges: seq<Edge>)
    ensures multiset(edges) == multiset(AllPairs(cs))
    ensures Sorting.SortedBy(edges, Dist)
  {
    var pushed: seq<Edge> := [];
    for i := 0 to |cs|
      invariant pushed == Pairs(cs, i)
    {
      for j := i + 1 to |cs|
        invariant pushed == Pairs(cs, i) + RowUpTo(cs, i, j)
      {
        pushed := pushed + [Edge(i, j, DistanceSquared(cs[i], cs[j]))];
      }
    }
    var a := new Edge[|pushed|](k requires 0 <= k < |pushed| => pushed[k]);
    assert a[..] == pushed;
    Sorting.SortByKey(a, Dist);
    edges := a[..];
  }

  function Min(a: int, b: int): int { if a <= b then a else b }

  /** Every edge of `es` joins two of the first `n` points. */
  predicate InRange(es: seq<Edge>, n: nat)
  {
    forall k :: 0 <= k < |es| ==> es[k].p1 < n && es[k].p2 < n
  }

  /** The sorted edges join the points `0..n` of the list they were generated from. */
  lemma EdgesInRange(cs: seq<Coordinate>, edges: seq<Edge>)
    requires multiset(edges) == multiset(AllPairs(cs))
    ensures InRange(edges, |cs|)
  {
    forall k | 0 <= k < |edges|
      ensures edges[k].p1 < |cs| && edges[k].p2 < |cs|
    {
      assert edges[k] in multiset(AllPairs(cs));
      assert edges[k] in AllPairs(cs);
      PairsMembers(cs, |cs|, edges[k]);
    }
  }

  // Part 1: circuits along the `x` shortest edges.

  /** `e` joins `u` and `v`, in either direction. */
  predicate Joins(e: Edge, u: nat, v: nat)
  {
    (e.p1 == u && e.p2 == v) || (e.p1 == v && e.p2 == u)
  }

  /** Some edge of `es` joins `u` and `v`. */
  predicate Linked(es: seq<Edge>, u: nat, v: nat)
  {
    exists k :: 0 <= k < |es| && Joins(es[k], u, v)
  }

  lemma LinkedSymmetric(es: seq<Edge>, u: nat, v: nat)
    ensures Linked(es, u, v) <==> Linked(es, v, u)
  {
    if Linked(es, u, v) {
      var k :| 0 <= k < |es| && Joins(es[k], u, v);
      assert Joins(es[k], v, u);
    }
    if Linked(es, v, u) {
      var k :| 0 <= k < |es| && Joins(es[k], v, u);
      assert Joins(es[k], u, v);
    }
  }

  lemma LinkedInRange(es: seq<Edge>, n: nat, u: nat, v: nat)
    requires InRange(es, n) && Linked(es, u, v)
    ensures u < n && v < n
  {
    var k :| 0 <= k < |es| && Joins(es[k], u, v);
  }

  /** The neighbour list of `u`; a point missing from the map has none. */
  function Neighbours(adj: map<nat, seq<nat>>, u: nat): seq<nat>
  {
    if u in adj then adj[u] else []
  }

  /** `adjacency_list.entry(u).or_default().push(v)`. */
  function Push(adj: map<nat, seq<nat>>, u: nat, v: nat): (r: map<nat, seq<nat>>)
  {
    adj[u := Neighbours(adj, u) + [v]]
  }

  /** The map lists, for each point, exactly the points an edge of `es` joins it to. */
  ghost predicate AdjacencyOf(adj: map<nat, seq<nat>>, es: seq<Edge>)
  {
    forall u: nat, v: nat :: v in Neighbours(adj, u) <==> Linked(es, u, v)
  }

  /** Pushing `v` onto the list of `u` adds exactly that one neighbour. */
  lemma NeighboursPush(adj: map<nat, seq<nat>>, a: nat, b: nat, u: nat, v: nat)
    ensures v in Neighbours(Push(adj, a, b), u) <==> v in Neighbours(adj, u) || (u == a && v == b)
  {
    if u == a {
      assert Neighbours(Push(adj, a, b), u) == Neighbours(adj, u) + [b];
    } else {
      assert Neighbours(Push(adj, a, b), u) == Neighbours(adj, u);
    }
  }

  lemma LinkedSnoc(es: seq<Edge>, e: Edge, u: nat, v: nat)
    ensures Linked(es + [e], u, v) <==> Linked(es, u, v) || Joins(e, u, v)
  {
    var t := es + [e];
    if Linked(t, u, v) {
      var k :| 0 <= k < |t| && Joins(t[k], u, v);
      if k < |es| {
        assert Joins(es[k], u, v);
      }
    }
    if Linked(es, u, v) {
      var k :| 0 <= k < |es| && Joins(es[k], u, v);
      assert Joins(t[k], u, v);
    }
    if Joins(e, u, v) {
      assert Joins(t[|es|], u, v);
    }
  }

  /** Pushing an edge at both ends keeps the map in step with the edges seen. */
  lemma AdjacencyPush(adj: map<nat, seq<nat>>, es: seq<Edge>, e: Edge)
    requires AdjacencyOf(adj, es)
    ensures AdjacencyOf(Push(Push(adj, e.p1, e.p2), e.p2, e.p1), es + [e])
  {
    var once := Push(adj, e.p1, e.p2);
    forall u: nat, v: nat
      ensures v in Neighbours(Push(once, e.p2, e.p1), u) <==> Linked(es + [e], u, v)
    {
      NeighboursPush(adj, e.p1, e.p2, u, v);
      NeighboursPush(once, e.p2, e.p1, u, v);
      LinkedSnoc(es, e, u, v);
    }
  }

  /** The first loop of `part1`: each of the taken edges is pushed at both of its ends. */
  method BuildAdjacency(es: seq<Edge>) returns (adj: map<nat, seq<nat>>)
    ensures AdjacencyOf(adj, es)
  {
    adj := map[];
    for i := 0 to |es|
      invariant AdjacencyOf(adj, es[..i])
    {
      var e := es[i];
      AdjacencyPush(adj, es[..i], e);
      assert es[..i + 1] == es[..i] + [e];
      adj := Push(adj, e.p1, e.p2);
      adj := Push(adj, e.p2, e.p1);
    }
    assert es[..|es|] == es;
  }

  /** Consecutive points of `p` are linked by edges of `es`. */
  predicate Walk(es: seq<Edge>, p: seq<nat>)
  {
    forall k :: 0 <= k < |p| - 1 ==> Linked(es, p[k], p[k + 1])
  }

  /** Some walk along `es` leads from `u` to `v`. */
  ghost predicate Reachable(es: seq<Edge>, u: nat, v: nat)
  {
    exists p :: Walk(es, p) && |p| > 0 && p[0] == u && p[|p| - 1] == v
  }

  lemma ReachSelf(es: seq<Edge>, u: nat)
    ensures Reachable(es, u, u)
  {
    assert Walk(es, [u]);
  }

  lemma ReachExtend(es: seq<Edge>, u: nat, v: nat, w: nat)
    requires Reachable(es, u, v) && Linked(es, v, w)
    ensures Reachable(es, u, w)
  {
    var p :| Walk(es, p) && |p| > 0 && p[0] == u && p[|p| - 1] == v;
    var q := p + [w];
    forall k | 0 <= k < |q| - 1
      ensures Linked(es, q[k], q[k + 1])
    {
      if k < |p| - 1 {
        assert q[k] == p[k] && q[k + 1] == p[k + 1];
      } else {
        assert q[k] == v && q[k + 1] == w;
      }
    }
    assert Walk(es, q) && q[0] == u && q[|q| - 1] == w;
  }

  /** No edge of `es` leaves `s`. */
  ghost predicate Closed(es: seq<Edge>, s: set<nat>)
  {
    forall u: nat, v: nat :: u in s && Linked(es, u, v) ==> v in s
  }

  /** A walk that starts in a closed set stays in it. */
  lemma {:induction false} WalkStays(es: seq<Edge>, s: set<nat>, p: seq<nat>)
    requires Closed(es, s) && Walk(es, p) && |p| > 0 && p[0] in s
    ensures p[|p| - 1] in s
  {
    if |p| > 1 {
      var init := p[..|p| - 1];
      assert Walk(es, init) by {
        forall k | 0 <= k < |init| - 1
          ensures Linked(es, init[k], init[k + 1])
        {
          assert init[k] == p[k] && init[k + 1] == p[k + 1];
        }
      }
      WalkStays(es, s, init);
      assert Linked(es, p[|p| - 2], p[|p| - 1]);
    }
  }

  lemma ClosedHoldsReachable(es: seq<Edge>, s: set<nat>, u: nat, v: nat)
    requires Closed(es, s) && u in s && Reachable(es, u, v)
    ensures v in s
  {
    var p :| Walk(es, p) && |p| > 0 && p[0] == u && p[|p| - 1] == v;
    WalkStays(es, s, p);
  }

  /** `c` is the circuit of `root`: the points reachable from it, and no others. */
  ghost predicate IsCircuit(es: seq<Edge>, c: set<nat>, root: nat)
  {
    root in c && forall v: nat :: v in c <==> Reachable(es, root, v)
  }

  /**
    What one traversal adds to a closed set of visited points, when the new points are
    reachable from `start` and the enlarged set is closed too, is the circuit of `start`.
   */
  lemma CircuitOfTraversal(es: seq<Edge>, before: set<nat>, after: set<nat>, start: nat)
    requires Closed(es, before) && Closed(es, after) && before <= after
    requires start in after - before
    requires forall v :: v in after - before ==> Reachable(es, start, v)
    ensures IsCircuit(es, after - before, start)
  {
    var c := after - before;
    forall u: nat, v: nat | u in c && Linked(es, u, v)
      ensures v in c
    {
      LinkedSymmetric(es, u, v);
    }
    forall v: nat | Reachable(es, start, v)
      ensures v in c
    {
      ClosedHoldsReachable(es, c, start, v);
    }
  }

  /** The elements of a sequence of points. */
  function Elements(s: seq<nat>): set<nat>
  {
    set k | 0 <= k < |s| :: s[k]
  }

  lemma ElementsSnoc(s: seq<nat>, w: nat)
    ensures Elements(s + [w]) == Elements(s) + {w}
  {
    var t := s + [w];
    forall v | v in Elements(t)
      ensures v in Elements(s) + {w}
    {
      var k :| 0 <= k < |t| && t[k] == v;
      if k < |s| {
        assert s[k] == v;
      }
    }
    forall v | v in Elements(s)
      ensures v in Elements(t)
    {
      var k :| 0 <= k < |s| && s[k] == v;
      assert t[k] == v;
    }
    assert t[|s|] == w;
  }

  /** `(0..n).collect()`: each point starts in a group of its own. */
  function Identity(n: nat): (g: seq<nat>)
    ensures |g| == n
  {
    seq(n, k requires 0 <= k < n => k)
  }

  /** The points `0..n`. */
  function Nodes(n: nat): set<nat>
  {
    Elements(Identity(n))
  }

  lemma NodesMembers(n: nat)
    ensures forall v: nat :: v in Nodes(n) <==> v < n
  {
    forall v: nat | v < n
      ensures v in Nodes(n)
    {
      assert Identity(n)[v] == v;
    }
  }

  lemma {:induction false} NodesSize(n: nat)
    ensures |Nodes(n)| == n
  {
    if n > 0 {
      NodesMembers(n);
      NodesMembers(n - 1);
      assert Nodes(n) == Nodes(n - 1) + {n - 1};
      NodesSize(n - 1);
    }
  }

  predicate Distinct(s: seq<nat>)
  {
    forall a, b :: 0 <= a < b < |s| ==> s[a] != s[b]
  }

  /**
    The inner loop of the traversal: `visited.insert(neighbor)` succeeds only for a point
    not seen yet, and exactly those points are pushed, in order.
   */
  method PushUnseen(neighbours: seq<nat>, visited0: set<nat>, stack0: seq<nat>)
    returns (visited: set<nat>, stack: seq<nat>)
    requires Distinct(stack0) && Elements(stack0) <= visited0
    ensures visited == visited0 + Elements(neighbours)
    ensures Distinct(stack) && Elements(stack) == Elements(stack0) + (visited - visited0)
    ensures visited == visited0 ==> stack == stack0
  {
    visited, stack := visited0, stack0;
    for j := 0 to |neighbours|
      invariant visited == visited0 + Elements(neighbours[..j])
      invariant Distinct(stack) && Elements(stack) == Elements(stack0) + (visited - visited0)
      invariant visited == visited0 ==> stack == stack0
    {
      var w := neighbours[j];
      assert neighbours[..j + 1] == neighbours[..j] + [w];
      assert Elements(neighbours[..j + 1]) == Elements(neighbours[..j]) + {w};
      if w !in visited {
        ElementsSnoc(stack, w);
        visited := visited + {w};
        stack := stack + [w];
      }
    }
    assert neighbours[..|neighbours|] == neighbours;
  }

  /** Popping the top of a stack without repeats removes exactly that element. */
  lemma PopElements(s: seq<nat>)
    requires s != [] && Distinct(s)
    ensures Distinct(s[..|s| - 1])
    ensures Elements(s[..|s| - 1]) == Elements(s) - {s[|s| - 1]}
  {
    var init := s[..|s| - 1];
    assert Elements(s) == Elements(init) + {s[|s| - 1]};
    assert s[|s| - 1] !in Elements(init);
  }

  /**
    One traversal of `part1`, from an unvisited `start`: pop a point, count it, and push each
    neighbour the first time it is seen. The newly visited points are all reachable from
    `start`, the visited set stays closed under the edges, and the count is the number of
    newly visited points.
   */
  method Explore(adj: map<nat, seq<nat>>, ghost es: seq<Edge>, n: nat, start: nat, visited0: set<nat>)
    returns (size: nat, visited: set<nat>)
    requires AdjacencyOf(adj, es) && InRange(es, n)
    requires start < n && start !in visited0 && visited0 <= Nodes(n) && Closed(es, visited0)
    ensures visited0 <= visited <= Nodes(n) && start in visited
    ensures size == |visited - visited0|
    ensures Closed(es, visited)
    ensures forall v :: v in visited - visited0 ==> Reachable(es, start, v)
  {
    visited := visited0 + {start};
    var stack := [start];
    ghost var done: set<nat> := {};
    size := 0;
    ReachSelf(es, start);
    NodesMembers(n);
    assert Elements(stack) == {start} by {
      assert stack[0] == start;
    }
    while stack != []
      invariant Counted(n, start, visited0, visited, stack, done)
      invariant Explored(es, start, visited0, visited, done)
      invariant size == |done|
      decreases n - |done|
    {
      ghost var node := stack[|stack| - 1];
      size := size + 1;
      visited, stack := PopAndVisit(adj, es, n, start, visited0, visited, stack, done);
      done := done + {node};
    }
  }

  /**
    The bookkeeping of the traversal from `start`: the points visited since `visited0` are
    the counted ones and those on the stack, and the stack holds no point twice.
   */
  ghost predicate Counted(n: nat, start: nat, visited0: set<nat>, visited: set<nat>, stack: seq<nat>, done: set<nat>)
  {
    && visited0 + {start} <= visited <= Nodes(n)
    && Distinct(stack) && Elements(stack) <= visited
    && visited - visited0 == done + Elements(stack) && done !! Elements(stack)
  }

  /**
    What the traversal from `start` has learnt of the graph: every neighbour of a counted
    point is visited, and every point visited since `visited0` is reachable from `start`.
   */
  ghost predicate Explored(es: seq<Edge>, start: nat, visited0: set<nat>, visited: set<nat>, done: set<nat>)
  {
    && (forall u: nat, v: nat :: u in done && Linked(es, u, v) ==> v in visited)
    && (forall v :: v in visited - visited0 ==> Reachable(es, start, v))
  }

  /**
    One round of the traversal: pop the top of `full` and push its unseen neighbours; the
    popped point then counts as done.
   */
  method PopAndVisit(adj: map<nat, seq<nat>>, ghost es: seq<Edge>, n: nat, ghost start: nat,
                     ghost visited0: set<nat>, before: set<nat>, full: seq<nat>, ghost done: set<nat>)
    returns (visited: set<nat>, stack: seq<nat>)
    requires AdjacencyOf(adj, es) && InRange(es, n) && full != []
    requires Counted(n, start, visited0, before, full, done)
    requires Explored(es, start, visited0, before, done)
    ensures Counted(n, start, visited0, visited, stack, done + {full[|full| - 1]})
    ensures Explored(es, start, visited0, visited, done + {full[|full| - 1]})
    ensures |done| + 1 == |done + {full[|full| - 1]}| <= n
  {
    var node := full[|full| - 1];
    PopElements(full);
    var popped := full[..|full| - 1];
    visited, stack := PushUnseen(Neighbours(adj, node), before, popped);
    NeighboursInRange(adj, es, n, node, before, visited);
    RoundCounted(n, start, visited0, before, full, done, visited, stack);
    RoundExplored(adj, es, start, visited0, before, node, done, visited);
  }

  /** The neighbours pushed in a round are points `0..n`. */
  lemma NeighboursInRange(adj: map<nat, seq<nat>>, es: seq<Edge>, n: nat, node: nat, before: set<nat>, after: set<nat>)
    requires AdjacencyOf(adj, es) && InRange(es, n)
    requires before <= Nodes(n) && after == before + Elements(Neighbours(adj, node))
    ensures after <= Nodes(n)
  {
    NodesMembers(n);
    forall v | v in after - before
      ensures v in Nodes(n)
    {
      var k :| 0 <= k < |Neighbours(adj, node)| && Neighbours(adj, node)[k] == v;
      assert Linked(es, node, v);
      LinkedInRange(es, n, node, v);
    }
  }

  /** The bookkeeping of a round: the popped point moves from the stack to the counted ones. */
  lemma RoundCounted(n: nat, start: nat, visited0: set<nat>, before: set<nat>, full: seq<nat>,
                     done: set<nat>, visited: set<nat>, stack: seq<nat>)
    requires full != [] && Counted(n, start, visited0, before, full, done)
    requires before <= visited <= Nodes(n)
    requires Distinct(stack) && Elements(stack) == Elements(full[..|full| - 1]) + (visited - before)
    ensures Counted(n, start, visited0, visited, stack, done + {full[|full| - 1]})
    ensures |done| + 1 == |done + {full[|full| - 1]}| <= n
  {
    var node := full[|full| - 1];
    PopElements(full);
    RoundCount(visited0, before, visited, done, full, stack, node);
    SubsetBound(done + {node}, n);
  }

  /** What a round learns: the popped point's neighbours are visited, and reachable through it. */
  lemma RoundExplored(adj: map<nat, seq<nat>>, es: seq<Edge>, start: nat, visited0: set<nat>,
                      before: set<nat>, node: nat, done: set<nat>, after: set<nat>)
    requires AdjacencyOf(adj, es)
    requires node in before - visited0 && Explored(es, start, visited0, before, done)
    requires after == before + Elements(Neighbours(adj, node))
    ensures Explored(es, start, visited0, after, done + {node})
  {
    forall v | v in after - before
      ensures Reachable(es, start, v)
    {
      var k :| 0 <= k < |Neighbours(adj, node)| && Neighbours(adj, node)[k] == v;
      assert Linked(es, node, v);
      ReachExtend(es, start, node, v);
    }
    forall v: nat | Linked(es, node, v)
      ensures v in after
    {
      assert v in Neighbours(adj, node);
      assert Neighbours(adj, node)[..] == Neighbours(adj, node);
    }
  }

  /** The count of one round: the popped point moves from the stack to the counted points. */
  lemma RoundCount(visited0: set<nat>, before: set<nat>, after: set<nat>, done: set<nat>,
                   full: seq<nat>, stack: seq<nat>, node: nat)
    requires full != [] && node == full[|full| - 1]
    requires visited0 <= before <= after
    requires before - visited0 == done + Elements(full) && done !! Elements(full)
    requires Elements(stack) == (Elements(full) - {node}) + (after - before)
    ensures after - visited0 == (done + {node}) + Elements(stack)
    ensures (done + {node}) !! Elements(stack)
    ensures |done + {node}| == |done| + 1
  {
    assert node in Elements(full) by {
      assert full[|full| - 1] == node;
    }
  }

  /** No more than `n` of the points `0..n`. */
  lemma SubsetBound(s: set<nat>, n: nat)
    requires s <= Nodes(n)
    ensures |s| <= n
  {
    NodesSize(n);
    assert Nodes(n) == s + (Nodes(n) - s);
  }



  /** The sizes added up. */
  function Sum(s: seq<nat>): nat
  {
    if s == [] then 0 else Sum(s[..|s| - 1]) + s[|s| - 1]
  }

  /** The sizes multiplied together; the empty product is 1. */
  function Product(s: seq<nat>): nat
  {
    if s == [] then 1 else Product(s[..|s| - 1]) * s[|s| - 1]
  }

  /** The points of all the circuits together. */
  ghost function UnionOf(cs: seq<set<nat>>): set<nat>
  {
    if cs == [] then {} else UnionOf(cs[..|cs| - 1]) + cs[|cs| - 1]
  }

  lemma {:induction false} UnionHolds(cs: seq<set<nat>>, k: nat)
    requires k < |cs|
    ensures cs[k] <= UnionOf(cs)
  {
    if k < |cs| - 1 {
      UnionHolds(cs[..|cs| - 1], k);
    }
  }

  /**
    The circuits of the points `0..n` along `es`, as the traversal of `part1` finds them:
    the circuit of each root, pairwise disjoint, covering every point, with their sizes.
   */
  ghost predicate CircuitsOf(es: seq<Edge>, n: nat, sizes: seq<nat>, circuits: seq<set<nat>>, roots: seq<nat>)
  {
    Partition(Nodes(n), sizes, circuits) && Rooted(es, circuits, roots)
  }

  /** The circuits found so far are disjoint, cover exactly `visited`, and have the given sizes. */
  ghost predicate Partition(visited: set<nat>, sizes: seq<nat>, circuits: seq<set<nat>>)
  {
    && |sizes| == |circuits|
    && (forall k :: 0 <= k < |sizes| ==> sizes[k] == |circuits[k]|)
    && (forall a, b :: 0 <= a < b < |circuits| ==> circuits[a] !! circuits[b])
    && UnionOf(circuits) == visited
  }

  /** Each circuit found is the circuit of its root. */
  ghost predicate Rooted(es: seq<Edge>, circuits: seq<set<nat>>, roots: seq<nat>)
  {
    && |circuits| == |roots|
    && forall k :: 0 <= k < |circuits| ==> IsCircuit(es, circuits[k], roots[k])
  }

  /** A traversal from an unvisited point adds one more part to the partition. */
  lemma PartitionSnoc(visited: set<nat>, next: set<nat>, size: nat, sizes: seq<nat>, circuits: seq<set<nat>>)
    requires Partition(visited, sizes, circuits) && Sum(sizes) == |visited|
    requires visited <= next && size == |next - visited|
    ensures Partition(next, sizes + [size], circuits + [next - visited])
    ensures Sum(sizes + [size]) == |next|
  {
    AddCircuit(circuits, visited, next);
    SumSnoc(sizes, size);
    var sizes', circuits' := sizes + [size], circuits + [next - visited];
    assert forall k :: 0 <= k < |sizes'| ==> sizes'[k] == |circuits'[k]| by {
      forall k | 0 <= k < |sizes'|
        ensures sizes'[k] == |circuits'[k]|
      {
        if k < |sizes| {
          assert sizes'[k] == sizes[k] && circuits'[k] == circuits[k];
        }
      }
    }
    assert forall a, b :: 0 <= a < b < |circuits'| ==> circuits'[a] !! circuits'[b] by {
      forall a, b | 0 <= a < b < |circuits'|
        ensures circuits'[a] !! circuits'[b]
      {
        if b < |circuits| {
          assert circuits'[a] == circuits[a] && circuits'[b] == circuits[b];
        }
      }
    }
  }

  lemma RootedSnoc(es: seq<Edge>, circuits: seq<set<nat>>, roots: seq<nat>, c: set<nat>, root: nat)
    requires Rooted(es, circuits, roots) && IsCircuit(es, c, root)
    ensures Rooted(es, circuits + [c], roots + [root])
  {
    var circuits', roots' := circuits + [c], roots + [root];
    forall k | 0 <= k < |circuits'|
      ensures IsCircuit(es, circuits'[k], roots'[k])
    {
      if k < |circuits| {
        assert circuits'[k] == circuits[k] && roots'[k] == roots[k];
      }
    }
  }

  /**
    The traversal loop of `part1`: every point not visited yet starts a new circuit. The
    circuits found partition the points, so their sizes add up to the number of points.
   */
  method Circuits(adj: map<nat, seq<nat>>, ghost es: seq<Edge>, n: nat)
    returns (sizes: seq<nat>, ghost circuits: seq<set<nat>>, ghost roots: seq<nat>)
    requires AdjacencyOf(adj, es) && InRange(es, n)
    ensures CircuitsOf(es, n, sizes, circuits, roots)
    ensures Sum(sizes) == n
  {
    var visited: set<nat> := {};
    sizes, circuits, roots := [], [], [];
    for start := 0 to n
      invariant Progress(es, n, start, visited, sizes, circuits, roots)
    {
      visited, sizes, circuits, roots := VisitFrom(adj, es, n, start, visited, sizes, circuits, roots);
    }
    assert visited == Nodes(n) by {
      NodesMembers(n);
    }
    NodesSize(n);
  }

  /**
    The state of the traversal loop before `start`: the points below `start` are visited,
    and the visited points, a closed set, are split into the circuits found so far.
   */
  ghost predicate Progress(es: seq<Edge>, n: nat, start: nat, visited: set<nat>,
                           sizes: seq<nat>, circuits: seq<set<nat>>, roots: seq<nat>)
  {
    && visited <= Nodes(n) && Closed(es, visited)
    && (forall v: nat :: v < start ==> v in visited)
    && Partition(visited, sizes, circuits) && Sum(sizes) == |visited|
    && Rooted(es, circuits, roots)
  }

  /** One step of the traversal loop: a visited point is skipped, any other starts a circuit. */
  method VisitFrom(adj: map<nat, seq<nat>>, ghost es: seq<Edge>, n: nat, start: nat, visited: set<nat>,
                   sizes: seq<nat>, ghost circuits: seq<set<nat>>, ghost roots: seq<nat>)
    returns (next: set<nat>, sizes': seq<nat>, ghost circuits': seq<set<nat>>, ghost roots': seq<nat>)
    requires AdjacencyOf(adj, es) && InRange(es, n) && start < n
    requires Progress(es, n, start, visited, sizes, circuits, roots)
    ensures Progress(es, n, start + 1, next, sizes', circuits', roots')
  {
    if start in visited {
      ProgressSkip(es, n, start, visited, sizes, circuits, roots);
      return visited, sizes, circuits, roots;
    }
    next, sizes', circuits', roots' := NewCircuit(adj, es, n, start, visited, sizes, circuits, roots);
  }

  /** One circuit of the traversal loop: explore from `start` and record what was found. */
  method NewCircuit(adj: map<nat, seq<nat>>, ghost es: seq<Edge>, n: nat, start: nat, visited: set<nat>,
                    sizes: seq<nat>, ghost circuits: seq<set<nat>>, ghost roots: seq<nat>)
    returns (next: set<nat>, sizes': seq<nat>, ghost circuits': seq<set<nat>>, ghost roots': seq<nat>)
    requires AdjacencyOf(adj, es) && InRange(es, n)
    requires start < n && start !in visited
    requires Progress(es, n, start, visited, sizes, circuits, roots)
    ensures Progress(es, n, start + 1, next, sizes', circuits', roots')
  {
    var size;
    size, next := Explore(adj, es, n, start, visited);
    CircuitOfTraversal(es, visited, next, start);
    PartitionSnoc(visited, next, size, sizes, circuits);
    RootedSnoc(es, circuits, roots, next - visited, start);
    sizes', circuits', roots' := sizes + [size], circuits + [next - visited], roots + [start];
  }

  /** A point visited by an earlier circuit starts nothing. */
  lemma ProgressSkip(es: seq<Edge>, n: nat, start: nat, visited: set<nat>,
                     sizes: seq<nat>, circuits: seq<set<nat>>, roots: seq<nat>)
    requires start in visited && Progress(es, n, start, visited, sizes, circuits, roots)
    ensures Progress(es, n, start + 1, visited, sizes, circuits, roots)
  {
  }

  lemma SumSnoc(s: seq<nat>, x: nat)
    ensures Sum(s + [x]) == Sum(s) + x
  {
    assert (s + [x])[..|s|] == s;
  }

  /** A new circuit outside the visited points is disjoint from the earlier ones. */
  lemma AddCircuit(circuits: seq<set<nat>>, visited: set<nat>, next: set<nat>)
    requires UnionOf(circuits) == visited && visited <= next
    ensures UnionOf(circuits + [next - visited]) == next
    ensures forall a :: 0 <= a < |circuits| ==> circuits[a] !! (next - visited)
    ensures |next| == |visited| + |next - visited|
  {
    var all := circuits + [next - visited];
    assert all[..|circuits|] == circuits;
    forall a | 0 <= a < |circuits|
      ensures circuits[a] !! (next - visited)
    {
      UnionHolds(circuits, a);
    }
    assert next == visited + (next - visited);
  }

  /** The key that sorts sizes from the largest down: `sort_unstable_by(|a, b| b.cmp(a))`. */
  function Negated(k: nat): int { -(k as int) }

  /** Non-increasing order. */
  predicate Descending(s: seq<nat>)
  {
    forall i, j :: 0 <= i < j < |s| ==> s[i] >= s[j]
  }

  /** Sorting the sizes in place from the largest down. */
  method SortDescending(sizes: seq<nat>) returns (sorted: seq<nat>)
    ensures multiset(sorted) == multiset(sizes) && Descending(sorted)
  {
    var a := new nat[|sizes|](k requires 0 <= k < |sizes| => sizes[k]);
    assert a[..] == sizes;
    Sorting.SortByKey(a, Negated);
    sorted := a[..];
    assert Descending(sorted) by {
      forall i, j | 0 <= i < j < |sorted|
        ensures sorted[i] >= sorted[j]
      {
        assert Negated(sorted[i]) <= Negated(sorted[j]);
      }
    }
  }

  /**
    `part1`: the circuits along the `x` shortest edges, and the product of the (up to)
    three largest circuit sizes. Which edges are the `x` shortest is fixed only up to ties,
    so the sorted edges are returned with the answer.
   */
  method Part1(lines: seq<string>, x: nat)
    returns (r: nat, ghost edges: seq<Edge>, ghost sizes: seq<nat>, ghost circuits: seq<set<nat>>,
             ghost roots: seq<nat>, ghost largest: seq<nat>)
    requires AllReadable(lines)
    ensures multiset(edges) == multiset(AllPairs(ParseCoordinates(lines))) && Sorting.SortedBy(edges, Dist)
    ensures CircuitsOf(edges[..Min(x, |edges|)], |ParseCoordinates(lines)|, sizes, circuits, roots)
    ensures Sum(sizes) == |ParseCoordinates(lines)|
    ensures multiset(largest) == multiset(sizes) && Descending(largest)
    ensures r == Product(largest[..Min(3, |largest|)])
  {
    var cs := ParseCoordinates(lines);
    var all := GenerateSortedEdges(cs);
    edges := all;
    var taken := all[..Min(x, |all|)];
    EdgesInRange(cs, all);
    assert InRange(taken, |cs|);
    var adj := BuildAdjacency(taken);
    var found;
    found, circuits, roots := Circuits(adj, taken, |cs|);
    sizes := found;
    var sorted := SortDescending(found);
    largest := sorted;
    r := ProductOfFirst(sorted, 3);
  }

  /** `iter().take(m).product()`. */
  method ProductOfFirst(s: seq<nat>, m: nat) returns (p: nat)
    ensures p == Product(s[..Min(m, |s|)])
  {
    p := 1;
    var k := Min(m, |s|);
    for i := 0 to k
      invariant p == Product(s[..i])
    {
      assert s[..i + 1][..i] == s[..i];
      p := p * s[i];
    }
  }

  // Part 2: merging groups along every edge, shortest first.

  /** The relabelling loop of `part2`: every point labelled `from` is labelled `to` instead. */
  function Relabel(g: seq<nat>, from: nat, to: nat): (r: seq<nat>)
    ensures |r| == |g|
  {
    seq(|g|, k requires 0 <= k < |g| => if g[k] == from then to else g[k])
  }

  /** `for id in group_ids.iter_mut()`, rewriting the array in place. */
  method RelabelInPlace(g: array<nat>, from: nat, to: nat)
    modifies g
    ensures g[..] == Relabel(old(g[..]), from, to)
  {
    for k := 0 to g.Length
      invariant forall j :: 0 <= j < k ==> g[j] == if old(g[j]) == from then to else old(g[j])
      invariant forall j :: k <= j < g.Length ==> g[j] == old(g[j])
    {
      if g[k] == from {
        g[k] := to;
      }
    }
  }

  /** One edge of the loop of `part2`: when its ends carry different labels, the group of the second end joins the group of the first. */
  function Merge(g: seq<nat>, e: Edge): (r: seq<nat>)
    requires e.p1 < |g| && e.p2 < |g|
    ensures |r| == |g|
  {
    if g[e.p1] != g[e.p2] then Relabel(g, g[e.p2], g[e.p1]) else g
  }

  /** The labels after merging along the edges `es` in order. */
  function MergeAll(g: seq<nat>, es: seq<Edge>): (r: seq<nat>)
    requires InRange(es, |g|)
    ensures |r| == |g|
  {
    if es == [] then g else Merge(MergeAll(g, es[..|es| - 1]), es[|es| - 1])
  }

  /**
    A merge changes only the points labelled like the second end, each to the label of the
    first end, after which both ends share a label; labels below `n` stay below `n`.
   */
  lemma MergeProperties(g: seq<nat>, e: Edge, n: nat)
    requires e.p1 < |g| && e.p2 < |g|
    ensures forall k :: 0 <= k < |g| && Merge(g, e)[k] != g[k] ==> g[k] == g[e.p2] && Merge(g, e)[k] == g[e.p1]
    ensures Merge(g, e)[e.p1] == Merge(g, e)[e.p2]
    ensures (forall k :: 0 <= k < |g| ==> g[k] < n) ==> forall k :: 0 <= k < |g| ==> Merge(g, e)[k] < n
  {
  }

  /** Points that share a label keep sharing one. */
  lemma MergeKeepsJoined(g: seq<nat>, e: Edge, a: nat, b: nat)
    requires e.p1 < |g| && e.p2 < |g| && a < |g| && b < |g| && g[a] == g[b]
    ensures Merge(g, e)[a] == Merge(g, e)[b]
  {
  }

  /** Merging two different groups removes the label of the second; one group fewer. */
  lemma LabelsOfMerge(g: seq<nat>, e: Edge)
    requires e.p1 < |g| && e.p2 < |g| && g[e.p1] != g[e.p2]
    ensures Elements(Merge(g, e)) == Elements(g) - {g[e.p2]}
    ensures |Elements(Merge(g, e))| == |Elements(g)| - 1
  {
    var r := Merge(g, e);
    forall v | v in Elements(g) - {g[e.p2]}
      ensures v in Elements(r)
    {
      var k :| 0 <= k < |g| && g[k] == v;
      assert r[k] == v;
    }
    forall v | v in Elements(r)
      ensures v in Elements(g) - {g[e.p2]}
    {
      var k :| 0 <= k < |r| && r[k] == v;
      if g[k] == g[e.p2] {
        assert v == g[e.p1];
        assert g[e.p1] in Elements(g);
      } else {
        assert g[k] == v;
      }
    }
    assert g[e.p2] in Elements(g);
  }

  /** Two different labels in use make at least two groups. */
  lemma TwoLabels(g: seq<nat>, a: nat, b: nat)
    requires a < |g| && b < |g| && g[a] != g[b]
    ensures |Elements(g)| >= 2
  {
    assert {g[a], g[b]} <= Elements(g);
    assert |{g[a], g[b]}| == 2;
    assert Elements(g) == {g[a], g[b]} + (Elements(g) - {g[a], g[b]});
  }

  /** After merging along `es`, the two ends of every edge of `es` share a label. */
  lemma {:induction false} MergeAllJoins(g: seq<nat>, es: seq<Edge>, j: nat)
    requires InRange(es, |g|) && j < |es|
    ensures MergeAll(g, es)[es[j].p1] == MergeAll(g, es)[es[j].p2]
  {
    var init := es[..|es| - 1];
    var last := es[|es| - 1];
    if j == |es| - 1 {
      MergeProperties(MergeAll(g, init), last, 0);
    } else {
      assert init[j] == es[j];
      MergeAllJoins(g, init, j);
      MergeKeepsJoined(MergeAll(g, init), last, es[j].p1, es[j].p2);
    }
  }

  /** Merging along every pair of points leaves a single group. */
  lemma AllMerged(cs: seq<Coordinate>, edges: seq<Edge>)
    requires |cs| >= 1 && multiset(edges) == multiset(AllPairs(cs)) && InRange(edges, |cs|)
    ensures |Elements(MergeAll(Identity(|cs|), edges))| == 1
  {
    var g := MergeAll(Identity(|cs|), edges);
    forall v | v in Elements(g)
      ensures v == g[0]
    {
      var k :| 0 <= k < |g| && g[k] == v;
      if k > 0 {
        var e := Edge(0, k, DistanceSquared(cs[0], cs[k]));
        PairsMembers(cs, |cs|, e);
        assert e in multiset(edges);
        var j :| 0 <= j < |edges| && edges[j] == e;
        MergeAllJoins(Identity(|cs|), edges, j);
      }
    }
    assert g[0] in Elements(g);
    assert Elements(g) == {g[0]};
  }

  lemma LabelsOfIdentity(n: nat)
    ensures |Elements(Identity(n))| == n
  {
    NodesSize(n);
  }

  /** Edge `k` leaves one group where the edges before it left two: it closes the last circuit. */
  ghost predicate LastMerge(cs: seq<Coordinate>, edges: seq<Edge>, k: nat)
  {
    && k < |edges| && InRange(edges, |cs|)
    && |Elements(MergeAll(Identity(|cs|), edges[..k]))| == 2
    && |Elements(MergeAll(Identity(|cs|), edges[..k + 1]))| == 1
  }

  /**
    One edge of the loop of `part2`: compare the labels of its ends and, when they differ,
    relabel the second group in place. A merge leaves one group fewer.
   */
  method MergeEdge(groupIds: array<nat>, e: Edge) returns (merged: bool)
    requires e.p1 < groupIds.Length && e.p2 < groupIds.Length
    modifies groupIds
    ensures groupIds[..] == Merge(old(groupIds[..]), e)
    ensures merged == (old(groupIds[e.p1]) != old(groupIds[e.p2]))
    ensures merged ==> |Elements(old(groupIds[..]))| >= 2
    ensures merged ==> |Elements(groupIds[..])| == |Elements(old(groupIds[..]))| - 1
  {
    var color1 := groupIds[e.p1];
    var color2 := groupIds[e.p2];
    merged := color1 != color2;
    if merged {
      LabelsOfMerge(groupIds[..], e);
      TwoLabels(groupIds[..], e.p1, e.p2);
      RelabelInPlace(groupIds, color2, color1);
    }
  }

  /**
    The loop of `part2` over the sorted edges: every point starts in a group of its own, and
    an edge between two groups merges them. The count of groups left is the number of labels
    in use; the answer multiplies the `x` coordinates of the edge that leaves one group, and
    is 0 when there are fewer than two points.
   */
  method LastConnection(cs: seq<Coordinate>, sorted: seq<Edge>) returns (r: int, ghost k: nat)
    requires multiset(sorted) == multiset(AllPairs(cs)) && InRange(sorted, |cs|)
    ensures |cs| <= 1 ==> r == 0
    ensures |cs| >= 2 ==> LastMerge(cs, sorted, k) && r == cs[sorted[k].p1].x * cs[sorted[k].p2].x
  {
    var n := |cs|;
    var groupIds := new nat[n](i requires 0 <= i < n => i);
    assert groupIds[..] == Identity(n);
    LabelsOfIdentity(n);
    var clustersRemaining: nat := n;
    k := 0;
    assert n >= 2 || |sorted| == 0 by {
      AllPairsProperties(cs);
      assert |sorted| == |multiset(AllPairs(cs))|;
    }
    for i := 0 to |sorted|
      invariant n >= 2 || |sorted| == 0
      invariant groupIds[..] == MergeAll(Identity(n), sorted[..i])
      invariant clustersRemaining == |Elements(groupIds[..])|
      invariant n >= 2 ==> clustersRemaining >= 2
    {
      var e := sorted[i];
      assert sorted[..i + 1][..i] == sorted[..i];
      var merged := MergeEdge(groupIds, e);
      if merged {
        clustersRemaining := clustersRemaining - 1;
        if clustersRemaining == 1 {
          k := i;
          r := cs[e.p1].x * cs[e.p2].x;
          return;
        }
      }
    }
    if n >= 2 {
      assert sorted[..|sorted|] == sorted;
      AllMerged(cs, sorted);
      assert false;
    }
    r := 0;
  }

  /** `part2`: the last connection along the edges taken shortest first. */
  method Part2(lines: seq<string>) returns (r: int, ghost edges: seq<Edge>, ghost k: nat)
    requires AllReadable(lines)
    ensures multiset(edges) == multiset(AllPairs(ParseCoordinates(lines))) && Sorting.SortedBy(edges, Dist)
    ensures |ParseCoordinates(lines)| <= 1 ==> r == 0
    ensures |ParseCoordinates(lines)| >= 2 ==>
      && LastMerge(ParseCoordinates(lines), edges, k)
      && r == ParseCoordinates(lines)[edges[k].p1].x * ParseCoordinates(lines)[edges[k].p2].x
  {
    var cs := ParseCoordinates(lines);
    var sorted := GenerateSortedEdges(cs);
    edges := sorted;
    EdgesInRange(cs, sorted);
    r, k := LastConnection(cs, sorted);
  }
}
