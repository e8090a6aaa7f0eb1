/**
 * Reading the capacity file (Graph.create_graph): the first line that is
 * not a comment gives the node count, every later one an edge
 * `from to capacity`, stored under the edge's name.
 */
module CapacityGraph {
  import opened Base
  import opened LpText

  /**
   * What create_graph has built after some lines: num_nodes, the graph
   * dictionary and, once a line was rejected, the exception it raised (the
   * fields then keep the values they had before that line).
   */
  datatype CapacityState = CapacityState(numNodes: Option<int>, capacities: map<string, int>, error: Option<Error>)

  /** One pass of the loop in create_graph. */
  function CapacityStep(st: CapacityState, line: Line): CapacityState
  {
    if st.error.Some? then st
    else
      match line
      case Comment => st
      case Fields(vs) =>
        if st.numNodes.None? then
          if |vs| == 1 then st.(numNodes := Some(vs[0])) else st.(error := Some(Malformed))
        else if |vs| != 3 then st.(error := Some(Malformed))
        else
          var edge := EdgeName(vs[0], vs[1]);
          if !HasCapacity(st.capacities, edge) then st.(capacities := st.capacities[edge := vs[2]])
          else if st.capacities[edge] != vs[2] then st.(error := Some(AmbiguousCapacity(vs[0], vs[1])))
          else st
  }

  /** The state after reading the lines one after the other, starting from st. */
  function ReadCapacities(st: CapacityState, lines: seq<Line>): CapacityState
    decreases |lines|
  {
    if lines == [] then st
    else CapacityStep(ReadCapacities(st, lines[..|lines| - 1]), lines[|lines| - 1])
  }

  /** Once a line has raised, nothing after it is read. */
  lemma {:induction false} FailureIsFinal(st: CapacityState, lines: seq<Line>)
    requires st.error.Some?
    ensures ReadCapacities(st, lines) == st
    decreases |lines|
  {
    if lines != [] {
      FailureIsFinal(st, lines[..|lines| - 1]);
    }
  }

  /** A read that failed within the first n lines ends in the state that failure left. */
  lemma {:induction false} FailureInPrefix(st: CapacityState, lines: seq<Line>, n: nat)
    requires n <= |lines| && ReadCapacities(st, lines[..n]).error.Some?
    ensures ReadCapacities(st, lines) == ReadCapacities(st, lines[..n])
    decreases |lines| - n
  {
    if n == |lines| {
      assert lines[..n] == lines;
    } else {
      var init := lines[..|lines| - 1];
      assert init[..n] == lines[..n];
      FailureInPrefix(st, init, n);
    }
  }

  lemma {:induction false} ReadCapacitiesAppend(st: CapacityState, a: seq<Line>, b: seq<Line>)
    ensures ReadCapacities(st, a + b) == ReadCapacities(ReadCapacities(st, a), b)
    decreases |b|
  {
    if b == [] {
      assert a + b == a;
    } else {
      assert (a + b)[..|a + b| - 1] == a + b[..|b| - 1];
      ReadCapacitiesAppend(st, a, b[..|b| - 1]);
    }
  }

  /** Comment lines change nothing: reading all lines equals reading only the others. */
  lemma {:induction false} CommentsIgnored(st: CapacityState, lines: seq<Line>)
    ensures ReadCapacities(st, lines) == ReadCapacities(st, NonComments(lines))
    decreases |lines|
  {
    if lines != [] {
      var init, last := lines[..|lines| - 1], lines[|lines| - 1];
      CommentsIgnored(st, init);
      if last.Fields? {
        assert NonComments(lines) == NonComments(init) + [last];
        assert (NonComments(init) + [last])[..|NonComments(init)|] == NonComments(init);
      } else {
        assert NonComments(lines) == NonComments(init);
        assert ReadCapacities(st, lines) == ReadCapacities(st, init);
      }
    }
  }

  /**
   * While no node count has been read, the next data line is the node
   * count: a single integer, or the read fails as malformed.
   */
  lemma HeaderFirst(st: CapacityState, vs: seq<int>, rest: seq<Line>)
    requires st.numNodes.None? && st.error.None?
    ensures |vs| == 1 ==>
      ReadCapacities(st, [Fields(vs)] + rest) == ReadCapacities(st.(numNodes := Some(vs[0])), rest)
    ensures |vs| != 1 ==>
      ReadCapacities(st, [Fields(vs)] + rest) == st.(error := Some(Malformed))
  {
    ReadCapacitiesAppend(st, [Fields(vs)], rest);
    assert [Fields(vs)][..0] == [];
    if |vs| != 1 {
      FailureIsFinal(st.(error := Some(Malformed)), rest);
    }
  }

  /**
   * An edge line read after the node count: a first capacity (or one over a
   * stored 0) is stored, the same non-zero capacity again changes nothing,
   * a different one raises AmbiguousCapacity and stops the read.
   */
  lemma DuplicateEdgeLine(st: CapacityState, a: int, b: int, c: int, rest: seq<Line>)
    requires st.numNodes.Some? && st.error.None?
    ensures var edge := EdgeName(a, b);
      && (HasCapacity(st.capacities, edge) && st.capacities[edge] != c ==>
           ReadCapacities(st, [Fields([a, b, c])] + rest) == st.(error := Some(AmbiguousCapacity(a, b))))
      && (HasCapacity(st.capacities, edge) && st.capacities[edge] == c ==>
           ReadCapacities(st, [Fields([a, b, c])] + rest) == ReadCapacities(st, rest))
      && (!HasCapacity(st.capacities, edge) ==>
           ReadCapacities(st, [Fields([a, b, c])] + rest)
           == ReadCapacities(st.(capacities := st.capacities[edge := c]), rest))
  {
    var edge := EdgeName(a, b);
    ReadCapacitiesAppend(st, [Fields([a, b, c])], rest);
    assert [Fields([a, b, c])][..0] == [];
    if HasCapacity(st.capacities, edge) && st.capacities[edge] != c {
      FailureIsFinal(st.(error := Some(AmbiguousCapacity(a, b))), rest);
    }
  }

  /** A non-zero capacity, once stored, is never replaced by any later line. */
  lemma {:induction false} StoredCapacityIsStable(st: CapacityState, lines: seq<Line>, edge: string)
    requires HasCapacity(st.capacities, edge)
    ensures HasCapacity(ReadCapacities(st, lines).capacities, edge)
    ensures ReadCapacities(st, lines).capacities[edge] == st.capacities[edge]
    decreases |lines|
  {
    if lines != [] {
      StoredCapacityIsStable(st, lines[..|lines| - 1], edge);
    }
  }

  /**
   * When the read after the node count succeeds, every data line was an
   * edge line and every non-zero capacity it gave is the one stored for its
   * edge.
   */
  lemma {:induction false} EdgeLinesRecorded(st: CapacityState, lines: seq<Line>)
    requires st.numNodes.Some?
    ensures ReadCapacities(st, lines).error.None? ==>
      forall n :: 0 <= n < |lines| && lines[n].Fields? ==>
        var vs := lines[n].values;
        && |vs| == 3
        && (vs[2] != 0 ==>
              HasCapacity(ReadCapacities(st, lines).capacities, EdgeName(vs[0], vs[1]))
              && ReadCapacities(st, lines).capacities[EdgeName(vs[0], vs[1])] == vs[2])
    decreases |lines|
  {
    var r := ReadCapacities(st, lines);
    if lines != [] && r.error.None? {
      var init, last := lines[..|lines| - 1], lines[|lines| - 1];
      var mid := ReadCapacities(st, init);
      assert r == CapacityStep(mid, last);
      assert mid.error.None?;
      EdgeLinesRecorded(st, init);
      NumNodesKept(st, init);
      forall n | 0 <= n < |lines| && lines[n].Fields?
        ensures |lines[n].values| == 3
        ensures lines[n].values[2] != 0 ==>
              HasCapacity(r.capacities, EdgeName(lines[n].values[0], lines[n].values[1]))
              && r.capacities[EdgeName(lines[n].values[0], lines[n].values[1])] == lines[n].values[2]
      {
        var vs := lines[n].values;
        if n < |init| {
          assert init[n] == lines[n];
          if vs[2] != 0 {
            StoredCapacityIsStable(mid, [last], EdgeName(vs[0], vs[1]));
            assert ReadCapacities(mid, [last]) == r;
          }
        }
      }
    }
  }

  lemma {:induction false} NumNodesKept(st: CapacityState, lines: seq<Line>)
    requires st.numNodes.Some?
    ensures ReadCapacities(st, lines).numNodes == st.numNodes
    decreases |lines|
  {
    if lines != [] {
      NumNodesKept(st, lines[..|lines| - 1]);
    }
  }

  /**
   * A read after the node count that succeeds never met one edge key with
   * two different non-zero capacities: any two of its edge lines whose
   * endpoints give the same name agree, even when the endpoints differ.
   */
  lemma NoConflictingCapacities(st: CapacityState, lines: seq<Line>, m: nat, n: nat, a: int, b: int, c: int, a': int, b': int, d: int)
    requires st.numNodes.Some? && ReadCapacities(st, lines).error.None?
    requires m < |lines| && n < |lines|
    requires lines[m] == Fields([a, b, c]) && lines[n] == Fields([a', b', d])
    requires EdgeName(a, b) == EdgeName(a', b') && c != 0 && d != 0
    ensures c == d
  {
    EdgeLinesRecorded(st, lines);
    assert lines[m].values[2] == c && lines[n].values[2] == d;
  }

  /** The position of the first data line at or after k, or |lines| when there is none. */
  function FirstData(lines: seq<Line>, k: nat): (h: nat)
    requires k <= |lines|
    ensures k <= h <= |lines|
    ensures forall i :: k <= i < h ==> lines[i].Comment?
    ensures h < |lines| ==> lines[h].Fields?
    decreases |lines| - k
  {
    if k == |lines| || lines[k].Fields? then k else FirstData(lines, k + 1)
  }

  /** Lines that are all comments leave the state as it was. */
  lemma {:induction false} CommentsChangeNothing(st: CapacityState, lines: seq<Line>)
    requires forall i :: 0 <= i < |lines| ==> lines[i].Comment?
    ensures ReadCapacities(st, lines) == st
    decreases |lines|
  {
    if lines != [] {
      var init := lines[..|lines| - 1];
      assert forall i :: 0 <= i < |init| ==> init[i] == lines[i];
      CommentsChangeNothing(st, init);
    }
  }

  /**
   * Reading a whole file from no node count and an empty graph is reading
   * its first data line, the header, and then the lines after it; when the
   * read succeeds, the header was a single integer, the node count.
   */
  lemma AfterHeader(lines: seq<Line>, h: nat)
    requires h == FirstData(lines, 0) < |lines|
    ensures ReadCapacities(CapacityState(None, map[], None), lines)
         == ReadCapacities(CapacityStep(CapacityState(None, map[], None), lines[h]), lines[h + 1..])
    ensures ReadCapacities(CapacityState(None, map[], None), lines).error.None? ==>
      && |lines[h].values| == 1
      && ReadCapacities(CapacityState(Some(lines[h].values[0]), map[], None), lines[h + 1..])
         == ReadCapacities(CapacityState(None, map[], None), lines)
  {
    var st := CapacityState(None, map[], None);
    var pre, rest := lines[..h + 1], lines[h + 1..];
    assert lines == pre + rest;
    ReadCapacitiesAppend(st, pre, rest);
    assert pre[..h] == lines[..h];
    CommentsChangeNothing(st, lines[..h]);
    var header := CapacityStep(st, lines[h]);
    if header.error.Some? {
      FailureIsFinal(header, rest);
    }
  }

  /** A line of three fields comes after a one-field header, so it is a line of what follows the header. */
  lemma LineAfterHeader(lines: seq<Line>, h: nat, m: nat)
    requires h == FirstData(lines, 0) < |lines| && |lines[h].values| == 1
    requires m < |lines| && lines[m].Fields? && |lines[m].values| == 3
    ensures h < m && lines[h + 1..][m - h - 1] == lines[m]
  {
  }

  /**
   * create_graph on a whole file: when it succeeds, no two edge lines with
   * the same key carry different non-zero capacities.
   */
  lemma NoConflictingCapacitiesInFile(lines: seq<Line>, m: nat, n: nat, a: int, b: int, c: int, a': int, b': int, d: int)
    requires ReadCapacities(CapacityState(None, map[], None), lines).error.None?
    requires m < |lines| && n < |lines|
    requires lines[m] == Fields([a, b, c]) && lines[n] == Fields([a', b', d])
    requires EdgeName(a, b) == EdgeName(a', b') && c != 0 && d != 0
    ensures c == d
  {
    var h := FirstData(lines, 0);
    AfterHeader(lines, h);
    LineAfterHeader(lines, h, m);
    LineAfterHeader(lines, h, n);
    NoConflictingCapacities(CapacityState(Some(lines[h].values[0]), map[], None), lines[h + 1..], m - h - 1, n - h - 1, a, b, c, a', b', d);
  }
}
