/**
 * The Graph class of main.py as a Dafny class: its four attributes are
 * fields, the readers and the traversal are methods whose loops are proved
 * equal to the folds and the reference walk of the other modules.
 *
 * A generator is drained by the method that models it: the result is the
 * list of values it yields and the exception that ends it, if any.
 */
module LpGraph {
  import opened Base
  import opened LpText
  import opened CapacityGraph
  import opened RatioMatrix
  import opened Traversal

  /** Looking at one more offset moves the first positive offset only when none was found before. */
  lemma {:induction false} FirstPositiveStep(row: seq<int>, lo: nat, c: nat)
    requires lo <= c < |row|
    ensures FirstPositive(row, lo, c) < c ==> FirstPositive(row, lo, c + 1) == FirstPositive(row, lo, c)
    ensures FirstPositive(row, lo, c) == c && row[c] > 0 ==> FirstPositive(row, lo, c + 1) == c
    ensures FirstPositive(row, lo, c) == c && row[c] <= 0 ==> FirstPositive(row, lo, c + 1) == c + 1
    decreases c - lo
  {
    if lo < c && row[lo] <= 0 {
      FirstPositiveStep(row, lo + 1, c);
    }
  }

  /**
   * What the walk of row i remembers after the offsets [lo, c): no fixed
   * edge while none of them was positive, otherwise the edge name and the
   * ratio of the first positive one, at offset fixedCol, column fixedJ.
   */
  ghost predicate Fixed(row: seq<int>, lo: nat, c: nat, i: nat, fixedEdge: Option<string>, fixedRatio: Option<int>,
                        fixedCol: nat, fixedJ: nat)
    requires lo <= c <= |row|
  {
    && fixedEdge.None? == fixedRatio.None?
    && (fixedEdge.None? ==> FirstPositive(row, lo, c) == c)
    && (fixedEdge.Some? ==>
          && fixedCol == FirstPositive(row, lo, c) < c && fixedJ == fixedCol + 1
          && fixedEdge.value == EdgeName(i, fixedJ) && fixedRatio.value == row[fixedCol])
  }

  /** The first positive offset fixes the reference; later offsets leave it alone. */
  lemma FixedStep(row: seq<int>, lo: nat, c: nat, i: nat, j: nat, fixedEdge: Option<string>, fixedRatio: Option<int>,
                  fixedCol: nat, fixedJ: nat)
    requires lo <= c < |row| && j == c + 1 && Fixed(row, lo, c, i, fixedEdge, fixedRatio, fixedCol, fixedJ)
    ensures row[c] > 0 && fixedEdge.None? ==> Fixed(row, lo, c + 1, i, Some(EdgeName(i, j)), Some(row[c]), c, j)
    ensures !(row[c] > 0 && fixedEdge.None?) ==> Fixed(row, lo, c + 1, i, fixedEdge, fixedRatio, fixedCol, fixedJ)
  {
    FirstPositiveStep(row, lo, c);
  }

  /** Looking at one more offset adds it to the positive ones exactly when its ratio is positive. */
  lemma PositiveColumnsStep(row: seq<int>, lo: nat, c: nat)
    requires lo <= c < |row|
    ensures row[c] > 0 ==> |PositiveColumns(row, lo, c + 1)| == |PositiveColumns(row, lo, c)| + 1
    ensures row[c] <= 0 ==> |PositiveColumns(row, lo, c + 1)| == |PositiveColumns(row, lo, c)|
  {
  }

  /** Once a positive offset is found in [lo, c), widening the range to [lo, hi) keeps it. */
  lemma {:induction false} FirstPositiveStable(row: seq<int>, lo: nat, c: nat, hi: nat)
    requires lo <= c <= hi <= |row| && FirstPositive(row, lo, c) < c
    ensures FirstPositive(row, lo, hi) == FirstPositive(row, lo, c)
    decreases hi - c
  {
    if c < hi {
      FirstPositiveStable(row, lo, c, hi - 1);
      FirstPositiveStep(row, lo, hi - 1);
    }
  }

  /**
   * The positive offset c of row r is the entry that follows those of the
   * earlier rows and the positive offsets of row r before c.
   */
  lemma NextEntry(rows: seq<seq<int>>, reverse: bool, es: seq<(nat, nat)>, r: nat, lo: nat, hi: nat, c: nat, k: nat)
    requires es == Entries(rows, reverse) && r < |rows|
    requires (lo, hi) == Slice(r + 1, |rows[r]|, reverse) && lo <= c < hi && rows[r][c] > 0
    requires k == |Entries(rows[..r], reverse)| + |PositiveColumns(rows[r], lo, c)|
    ensures k < |es| && es[k] == (r, c)
  {
    ColumnPosition(rows[r], lo, c, hi);
    EntryInRow(rows, reverse, es, r, |PositiveColumns(rows[r], lo, c)|);
  }

  /** A positive offset c sits in the positive offsets of [lo, hi) after those before it. */
  lemma ColumnPosition(row: seq<int>, lo: nat, c: nat, hi: nat)
    requires lo <= c < hi <= |row| && row[c] > 0
    ensures |PositiveColumns(row, lo, c)| < |PositiveColumns(row, lo, hi)|
    ensures PositiveColumns(row, lo, hi)[|PositiveColumns(row, lo, c)|] == c
  {
    var head := PositiveColumns(row, lo, c);
    assert PositiveColumns(row, lo, c + 1) == head + [c];
    PositiveColumnsPrefix(row, lo, c + 1, hi);
    assert (head + [c])[|head|] == c;
  }

  /** The n-th positive offset of row r follows, in es, the entries of the earlier rows. */
  lemma EntryInRow(rows: seq<seq<int>>, reverse: bool, es: seq<(nat, nat)>, r: nat, n: nat)
    requires es == Entries(rows, reverse) && r < |rows| && n < RowCount(rows, reverse, r)
    ensures var b := Slice(r + 1, |rows[r]|, reverse);
      && |Entries(rows[..r], reverse)| + n < |es|
      && es[|Entries(rows[..r], reverse)| + n] == (r, PositiveColumns(rows[r], b.0, b.1)[n])
  {
    RowInPrefix(rows, reverse, r, n);
    EntriesPrefix(rows, reverse, r + 1);
  }

  /** The same within the entries of the first r + 1 rows. */
  lemma RowInPrefix(rows: seq<seq<int>>, reverse: bool, r: nat, n: nat)
    requires r < |rows| && n < RowCount(rows, reverse, r)
    ensures var b := Slice(r + 1, |rows[r]|, reverse);
      && |Entries(rows[..r], reverse)| + n < |Entries(rows[..r + 1], reverse)|
      && Entries(rows[..r + 1], reverse)[|Entries(rows[..r], reverse)| + n]
         == (r, PositiveColumns(rows[r], b.0, b.1)[n])
  {
    var b := Slice(r + 1, |rows[r]|, reverse);
    var before := Entries(rows[..r], reverse);
    var row := RowEntries(r, PositiveColumns(rows[r], b.0, b.1));
    EntriesStep(rows, reverse, r);
    assert (before + row)[|before| + n] == row[n];
  }

  /**
   * The call the walk makes at the positive offset c of row r, with the
   * reference taken as the first positive offset up to c.
   */
  lemma VisitAt(graph: map<string, int>, rows: seq<seq<int>>, reverse: bool, r: nat, lo: nat, hi: nat, c: nat)
    requires r < |rows| && (lo, hi) == Slice(r + 1, |rows[r]|, reverse) && lo <= c < hi && rows[r][c] > 0
    requires EdgeName(r + 1, c + 1) in graph
    ensures Positive(rows, reverse, r, c) && EntryEdge((r, c)) in graph
    ensures FirstPositive(rows[r], lo, c + 1) <= c
    ensures VisitOf(graph, rows, reverse, (r, c))
      == Visit(r + 1, c + 1, EdgeName(r + 1, c + 1), graph[EdgeName(r + 1, c + 1)],
               EdgeName(r + 1, FirstPositive(rows[r], lo, c + 1) + 1),
               rows[r][FirstPositive(rows[r], lo, c + 1)], rows[r][c])
  {
    var row := rows[r];
    FirstPositiveAtMost(row, lo, c + 1, c);
    FirstPositiveStable(row, lo, c + 1, hi);
    assert Reference(row, r + 1, reverse) == FirstPositive(row, lo, c + 1);
  }

  /** The number of positive entries row r keeps. */
  ghost function RowCount(rows: seq<seq<int>>, reverse: bool, r: nat): nat
    requires r < |rows|
  {
    var b := Slice(r + 1, |rows[r]|, reverse);
    |PositiveColumns(rows[r], b.0, b.1)|
  }

  /** The entries of the first r + 1 rows: those of the first r rows, then the positive offsets of row r. */
  lemma RowDone(rows: seq<seq<int>>, reverse: bool, r: nat)
    requires r < |rows|
    ensures |Entries(rows[..r + 1], reverse)| == |Entries(rows[..r], reverse)| + RowCount(rows, reverse, r)
  {
    EntriesStep(rows, reverse, r);
  }

  /** For every row, the number of entries of es before it. */
  ghost function RowStarts(rows: seq<seq<int>>, reverse: bool): seq<nat>
  {
    seq(|rows| + 1, r requires 0 <= r <= |rows| => |Entries(rows[..r], reverse)|)
  }

  lemma RowStartsFacts(rows: seq<seq<int>>, reverse: bool, es: seq<(nat, nat)>)
    requires es == Entries(rows, reverse)
    ensures var starts := RowStarts(rows, reverse);
      && |starts| == |rows| + 1 && starts[0] == 0 && starts[|rows|] == |es|
      && (forall r :: 0 <= r < |rows| ==> RowAt(rows, reverse, es, r, starts[r]))
      && (forall r :: 0 <= r < |rows| ==> starts[r + 1] == starts[r] + RowCount(rows, reverse, r))
  {
    var starts := RowStarts(rows, reverse);
    assert rows[..0] == [] && rows[..|rows|] == rows;
    forall r | 0 <= r < |rows|
      ensures RowAt(rows, reverse, es, r, starts[r])
      ensures starts[r + 1] == starts[r] + RowCount(rows, reverse, r)
    {
      RowAtEntries(rows, reverse, es, r);
      RowDone(rows, reverse, r);
    }
  }

  /**
   * Where the positive offsets of row r sit in es when k entries come
   * before the row: the positive offset c follows k and the positive
   * offsets of the row before c.
   */
  ghost predicate RowAt(rows: seq<seq<int>>, reverse: bool, es: seq<(nat, nat)>, r: nat, k: nat)
    requires r < |rows|
  {
    var b := Slice(r + 1, |rows[r]|, reverse);
    forall c :: b.0 <= c < b.1 && rows[r][c] > 0 ==>
      k + |PositiveColumns(rows[r], b.0, c)| < |es| && es[k + |PositiveColumns(rows[r], b.0, c)|] == (r, c)
  }

  lemma RowAtEntries(rows: seq<seq<int>>, reverse: bool, es: seq<(nat, nat)>, r: nat)
    requires es == Entries(rows, reverse) && r < |rows|
    ensures RowAt(rows, reverse, es, r, |Entries(rows[..r], reverse)|)
  {
    var b := Slice(r + 1, |rows[r]|, reverse);
    forall c | b.0 <= c < b.1 && rows[r][c] > 0
      ensures |Entries(rows[..r], reverse)| + |PositiveColumns(rows[r], b.0, c)| < |es|
      ensures es[|Entries(rows[..r], reverse)| + |PositiveColumns(rows[r], b.0, c)|] == (r, c)
    {
      NextEntry(rows, reverse, es, r, b.0, b.1, c, |Entries(rows[..r], reverse)| + |PositiveColumns(rows[r], b.0, c)|);
    }
  }

  /**
   * items holds the values the walk yields for the first |items| entries of
   * es: each entry is positive, its edge has a capacity, and its value is
   * the projector applied to the call made there.
   */
  ghost predicate Walked(graph: map<string, int>, rows: seq<seq<int>>, reverse: bool, es: seq<(nat, nat)>,
                         render: Visit -> Option<string>, items: seq<Option<string>>)
    decreases |items|, 1
  {
    |items| <= |es| && (items != [] ==> LastWalked(graph, rows, reverse, es, render, items))
  }

  /** The values before the last one were walked, and the last one is the walk's value for its entry. */
  ghost predicate LastWalked(graph: map<string, int>, rows: seq<seq<int>>, reverse: bool, es: seq<(nat, nat)>,
                             render: Visit -> Option<string>, items: seq<Option<string>>)
    requires 0 < |items| <= |es|
    decreases |items|, 0
  {
    var n := |items| - 1;
    && Walked(graph, rows, reverse, es, render, items[..n])
    && Positive(rows, reverse, es[n].0, es[n].1) && HasCapacity(graph, EntryEdge(es[n]))
    && items[n] == render(VisitOf(graph, rows, reverse, es[n]))
  }

  lemma {:induction false} WalkedFacts(graph: map<string, int>, rows: seq<seq<int>>, reverse: bool, es: seq<(nat, nat)>,
                                       render: Visit -> Option<string>, items: seq<Option<string>>)
    requires Walked(graph, rows, reverse, es, render, items)
    ensures |items| <= |es|
    ensures forall n :: 0 <= n < |items| ==>
      Positive(rows, reverse, es[n].0, es[n].1) && HasCapacity(graph, EntryEdge(es[n]))
      && items[n] == render(VisitOf(graph, rows, reverse, es[n]))
    decreases |items|
  {
    if items != [] {
      var n := |items| - 1;
      assert LastWalked(graph, rows, reverse, es, render, items);
      WalkedFacts(graph, rows, reverse, es, render, items[..n]);
      assert forall m :: 0 <= m < n ==> items[..n][m] == items[m];
    }
  }

  /** The walk goes on with the value for the next entry of es. */
  lemma WalkedSnoc(graph: map<string, int>, rows: seq<seq<int>>, reverse: bool, es: seq<(nat, nat)>,
                   render: Visit -> Option<string>, items: seq<Option<string>>, x: Option<string>)
    requires Walked(graph, rows, reverse, es, render, items) && |items| < |es|
    requires Positive(rows, reverse, es[|items|].0, es[|items|].1) && HasCapacity(graph, EntryEdge(es[|items|]))
    requires x == render(VisitOf(graph, rows, reverse, es[|items|]))
    ensures Walked(graph, rows, reverse, es, render, items + [x])
  {
    assert (items + [x])[..|items|] == items;
    assert LastWalked(graph, rows, reverse, es, render, items + [x]);
  }

  /**
   * A positive entry whose edge has a capacity: the walk yields the
   * projection of the call made there, whose fixed column is the first
   * positive offset up to c.
   */
  lemma YieldStep(graph: map<string, int>, rows: seq<seq<int>>, reverse: bool, es: seq<(nat, nat)>,
                  render: Visit -> Option<string>, items: seq<Option<string>>, r: nat, lo: nat, hi: nat, c: nat,
                  fixedCol: nat, i: nat, j: nat, fixedJ: nat)
    requires r < |rows| && i == r + 1 && j == c + 1 && fixedJ == fixedCol + 1
    requires (lo, hi) == Slice(r + 1, |rows[r]|, reverse) && lo <= c < hi && rows[r][c] > 0
    requires HasCapacity(graph, EdgeName(i, j)) && fixedCol == FirstPositive(rows[r], lo, c + 1)
    requires Walked(graph, rows, reverse, es, render, items) && |items| < |es| && es[|items|] == (r, c)
    ensures fixedCol < |rows[r]|
    ensures Walked(graph, rows, reverse, es, render,
                   items + [render(Visit(i, j, EdgeName(i, j), graph[EdgeName(i, j)],
                                         EdgeName(i, fixedJ), rows[r][fixedCol], rows[r][c]))])
  {
    VisitAt(graph, rows, reverse, r, lo, hi, c);
    var v := Visit(i, j, EdgeName(i, j), graph[EdgeName(i, j)], EdgeName(i, fixedJ), rows[r][fixedCol], rows[r][c]);
    assert fixedJ == FirstPositive(rows[r], lo, c + 1) + 1;
    assert EdgeName(i, fixedJ) == EdgeName(r + 1, FirstPositive(rows[r], lo, c + 1) + 1);
    assert v == VisitOf(graph, rows, reverse, (r, c));
    WalkedSnoc(graph, rows, reverse, es, render, items, render(v));
  }

  /** The edge named at the entry (r, c) is the one the walk builds from i = r + 1 and j = c + 1. */
  lemma EntryEdgeAt(es: seq<(nat, nat)>, k: nat, r: nat, c: nat, i: nat, j: nat)
    requires k < |es| && es[k] == (r, c) && i == r + 1 && j == c + 1
    ensures EntryEdge(es[k]) == EdgeName(i, j)
  {
  }

  /** The walk raises at the entry after the values so far when its edge has no capacity. */
  lemma MissingStep(graph: map<string, int>, rows: seq<seq<int>>, reverse: bool, es: seq<(nat, nat)>,
                    render: Visit -> Option<string>, items: seq<Option<string>>)
    requires es == Entries(rows, reverse)
    requires Walked(graph, rows, reverse, es, render, items) && |items| < |es|
    requires !HasCapacity(graph, EntryEdge(es[|items|]))
    ensures ProjectStream(render, Traverse(graph, rows, reverse))
      == Stream(items, Some(MissingEdge(EntryEdge(es[|items|]))))
  {
    WalkedFacts(graph, rows, reverse, es, render, items);
    StopsAt(graph, rows, reverse, es, render, items);
  }

  /** After the last row, the walk has yielded the values for every entry and raises nothing. */
  lemma FinishStep(graph: map<string, int>, rows: seq<seq<int>>, reverse: bool, es: seq<(nat, nat)>,
                   render: Visit -> Option<string>, items: seq<Option<string>>)
    requires es == Entries(rows, reverse)
    requires Walked(graph, rows, reverse, es, render, items) && |items| == |es|
    ensures ProjectStream(render, Traverse(graph, rows, reverse)) == Stream(items, None)
  {
    WalkedFacts(graph, rows, reverse, es, render, items);
    StopsAt(graph, rows, reverse, es, render, items);
  }

  /** The first entry without capacity is at k when the k entries before it have one and it has none. */
  lemma FirstMissingAt(graph: map<string, int>, es: seq<(nat, nat)>, k: nat)
    requires k <= |es| && forall n :: 0 <= n < k ==> HasCapacity(graph, EntryEdge(es[n]))
    requires k < |es| ==> !HasCapacity(graph, EntryEdge(es[k]))
    ensures FirstMissing(graph, es) == k
  {
    if k > 0 {
      FirstMissingBeyond(graph, es, k - 1);
    }
  }

  /**
   * A walk that yielded the values for the entries before position |items|
   * of es and stopped there, at the end or at an entry without capacity, is
   * the reference walk.
   */
  lemma StopsAt(graph: map<string, int>, rows: seq<seq<int>>, reverse: bool, es: seq<(nat, nat)>,
                render: Visit -> Option<string>, items: seq<Option<string>>)
    requires es == Entries(rows, reverse) && |items| <= |es|
    requires forall n :: 0 <= n < |items| ==>
      Positive(rows, reverse, es[n].0, es[n].1) && HasCapacity(graph, EntryEdge(es[n]))
      && items[n] == render(VisitOf(graph, rows, reverse, es[n]))
    requires |items| < |es| ==> !HasCapacity(graph, EntryEdge(es[|items|]))
    ensures ProjectStream(render, Traverse(graph, rows, reverse))
      == Stream(items, if |items| < |es| then Some(MissingEdge(EntryEdge(es[|items|]))) else None)
  {
    FirstMissingAt(graph, es, |items|);
    TraverseShape(graph, rows, reverse);
    var s := Traverse(graph, rows, reverse);
    assert ProjectAll(render, s.items) == items;
  }

  class Graph {
    var numNodes: Option<int>
    var graph: Option<map<string, int>>
    var ratioMatrix: Option<seq<seq<int>>>
    var reverse: bool

    /** The attributes before the two files are read. */
    constructor (reverse: bool)
      ensures numNodes.None? && graph.None? && ratioMatrix.None? && this.reverse == reverse
    {
      numNodes := None;
      graph := None;
      ratioMatrix := None;
      this.reverse := reverse;
    }

    /**
     * Graph(graph_file, weights_file, reverse): both files are read, the
     * capacity file first; when it is rejected the ratio file is not read.
     */
    static method Init(graphLines: seq<Line>, ratioLines: seq<Line>, reverse: bool) returns (g: Graph, err: Option<Error>)
      ensures fresh(g) && g.reverse == reverse
      ensures var cs := ReadCapacities(CapacityState(None, map[], None), graphLines);
        && g.numNodes == cs.numNodes && g.graph == Some(cs.capacities)
        && (cs.error.Some? ==> err == cs.error && g.ratioMatrix.None?)
        && (cs.error.None? ==>
              var rs := ReadRatios(START, ratioLines);
              err == rs.error && g.ratioMatrix == MatrixAfter(None, rs))
    {
      g := new Graph(reverse);
      err := g.CreateGraph(graphLines);
      if err.Some? {
        return;
      }
      err := g.SetRatioMatrix(ratioLines);
    }

    /**
     * create_graph: the graph starts empty, num_nodes keeps its earlier
     * value, and the lines are read one by one; after a rejected line the
     * attributes keep what they held before it.
     */
    method CreateGraph(lines: seq<Line>) returns (err: Option<Error>)
      modifies this
      ensures var st := ReadCapacities(CapacityState(old(numNodes), map[], None), lines);
        numNodes == st.numNodes && graph == Some(st.capacities) && err == st.error
      ensures ratioMatrix == old(ratioMatrix) && reverse == old(reverse)
    {
      ghost var start := CapacityState(numNodes, map[], None);
      graph := Some(map[]);
      var i := 0;
      while i < |lines|
        invariant 0 <= i <= |lines| && graph.Some?
        invariant ReadCapacities(start, lines[..i]) == CapacityState(numNodes, graph.value, None)
        invariant ratioMatrix == old(ratioMatrix) && reverse == old(reverse)
      {
        assert lines[..i + 1][..i] == lines[..i];
        match lines[i] {
          case Comment =>
          case Fields(vs) =>
            if numNodes.None? {
              if |vs| != 1 {
                err := Some(Malformed);
                FailureInPrefix(start, lines, i + 1);
                return;
              }
              numNodes := Some(vs[0]);
            } else {
              if |vs| != 3 {
                err := Some(Malformed);
                FailureInPrefix(start, lines, i + 1);
                return;
              }
              var edge := EdgeName(vs[0], vs[1]);
              var cap := vs[2];
              if !HasCapacity(graph.value, edge) {
                graph := Some(graph.value[edge := cap]);
              } else if graph.value[edge] != cap {
                err := Some(AmbiguousCapacity(vs[0], vs[1]));
                FailureInPrefix(start, lines, i + 1);
                return;
              }
            }
        }
        i := i + 1;
      }
      assert lines[..i] == lines;
      err := None;
    }

    /**
     * set_ratio_matrix: the header gives a fresh empty list, every later
     * line one row appended to it; a rejected header leaves the attribute
     * as it was.
     */
    method SetRatioMatrix(lines: seq<Line>) returns (err: Option<Error>)
      modifies this
      ensures var st := ReadRatios(START, lines);
        err == st.error && ratioMatrix == MatrixAfter(old(ratioMatrix), st)
      ensures numNodes == old(numNodes) && graph == old(graph) && reverse == old(reverse)
    {
      var header: Option<int> := None;
      var i := 0;
      while i < |lines|
        invariant 0 <= i <= |lines|
        invariant ReadRatios(START, lines[..i]).error.None?
        invariant ReadRatios(START, lines[..i]).header == header
        invariant header.Some? ==> ratioMatrix == Some(ReadRatios(START, lines[..i]).rows)
        invariant header.None? ==> ratioMatrix == old(ratioMatrix)
        invariant numNodes == old(numNodes) && graph == old(graph) && reverse == old(reverse)
      {
        assert lines[..i + 1][..i] == lines[..i];
        match lines[i] {
          case Comment =>
          case Fields(vs) =>
            if header.None? {
              if |vs| != 1 {
                err := Some(Malformed);
                RatioFailureInPrefix(START, lines, i + 1);
                return;
              }
              header := Some(vs[0]);
              ratioMatrix := Some([]);
            } else {
              ratioMatrix := Some(ratioMatrix.value + [vs]);
            }
        }
        i := i + 1;
      }
      assert lines[..i] == lines;
      err := None;
    }

    /**
     * _iterate_ratio_matrix, drained: the assertions on the two attributes
     * fail first when a file was not read, otherwise the calls and the
     * exception are those of the reference walk.
     */
    method IterateRatioMatrix(render: Visit -> Option<string>) returns (out: Stream<Option<string>>)
      ensures graph.None? || ratioMatrix.None? ==> out == Stream([], Some(NotLoaded))
      ensures graph.Some? && ratioMatrix.Some? ==>
        out == ProjectStream(render, Traverse(graph.value, ratioMatrix.value, reverse))
    {
      if graph.None? || ratioMatrix.None? {
        return Stream([], Some(NotLoaded));
      }
      var g, rows := graph.value, ratioMatrix.value;
      ghost var es := Entries(rows, reverse);
      RowStartsFacts(rows, reverse, es);
      var items, missing := WalkRows(g, rows, reverse, render, es, RowStarts(rows, reverse));
      if missing.Some? {
        MissingStep(g, rows, reverse, es, render, items);
        return Stream(items, Some(MissingEdge(missing.value)));
      }
      FinishStep(g, rows, reverse, es, render, items);
      return Stream(items, None);
    }

    /**
     * get_objective_equation: `max:`, then ` + edge` for every edge the walk
     * yields, then `;`; an exception raised by the walk ends it instead.
     */
    method GetObjectiveEquation() returns (res: Result<string>)
      ensures graph.None? || ratioMatrix.None? ==> res == Failure(NotLoaded)
      ensures graph.Some? && ratioMatrix.Some? ==>
        var t := Traverse(graph.value, ratioMatrix.value, reverse);
        res == if t.failure.Some? then Failure(t.failure.value) else Success(ObjectiveText(EdgesOf(t.items)))
    {
      var out := IterateRatioMatrix(ReturnEdge);
      ghost var edges: seq<string> := [];
      if graph.Some? && ratioMatrix.Some? {
        var t := Traverse(graph.value, ratioMatrix.value, reverse);
        EdgeItems(t);
        edges := EdgesOf(t.items);
      }
      var objective := JoinObjective(out.items, edges);
      if out.failure.Some? {
        return Failure(out.failure.value);
      }
      return Success(objective);
    }

    /** gen_bounds: the walk with _return_inequation, one bound per call. */
    method GenBounds() returns (out: Stream<Option<string>>)
      ensures graph.None? || ratioMatrix.None? ==> out == Stream([], Some(NotLoaded))
      ensures graph.Some? && ratioMatrix.Some? ==>
        var t := Traverse(graph.value, ratioMatrix.value, reverse);
        && out.failure == t.failure && |out.items| == |t.items|
        && forall n :: 0 <= n < |t.items| ==> out.items[n] == Some(BoundText(t.items[n].edge, t.items[n].cap))
    {
      out := IterateRatioMatrix(ReturnInequation);
      if graph.Some? && ratioMatrix.Some? {
        BoundItems(Traverse(graph.value, ratioMatrix.value, reverse));
      }
    }

    /**
     * gen_constraints: the walk with _return_ratio_ineqations, one value per
     * call, None for the reference edge of a row.
     */
    method GenConstraints() returns (out: Stream<Option<string>>)
      ensures graph.None? || ratioMatrix.None? ==> out == Stream([], Some(NotLoaded))
      ensures graph.Some? && ratioMatrix.Some? ==>
        var t := Traverse(graph.value, ratioMatrix.value, reverse);
        && out.failure == t.failure && |out.items| == |t.items|
        && forall n :: 0 <= n < |t.items| ==>
             var v := t.items[n];
             out.items[n] == if v.edge == v.fixedEdge then None
                             else Some(ConstraintText(v.ratio, v.fixedEdge, v.fixedRatio, v.edge))
    {
      out := IterateRatioMatrix(ReturnRatioInequations);
      if graph.Some? && ratioMatrix.Some? {
        ConstraintItems(Traverse(graph.value, ratioMatrix.value, reverse));
      }
    }
  }

  /**
   * The loop of get_objective_equation over the edges the walk yielded:
   * `max:`, ` + edge` for each, then `;`.
   */
  method JoinObjective(items: seq<Option<string>>, ghost edges: seq<string>) returns (objective: string)
    requires |items| == |edges| && forall n :: 0 <= n < |items| ==> items[n] == Some(edges[n])
    ensures objective == ObjectiveText(edges)
  {
    objective := "max:";
    var k := 0;
    while k < |items|
      invariant 0 <= k <= |items|
      invariant objective == ObjectiveSoFar(edges[..k])
    {
      assert edges[..k + 1][..k] == edges[..k];
      assert " + " + edges[k] == " " + ("+" + (" " + edges[k]));
      objective := objective + (" + " + items[k].value);
      k := k + 1;
    }
    assert edges[..k] == edges;
    objective := objective + ";";
  }

  /** The walk with _return_edge yields the edges of its calls. */
  lemma EdgeItems(s: Stream<Visit>)
    ensures var out := ProjectStream(ReturnEdge, s);
      && out.failure == s.failure && |out.items| == |EdgesOf(s.items)|
      && forall n :: 0 <= n < |out.items| ==> out.items[n] == Some(EdgesOf(s.items)[n])
  {
    forall n | 0 <= n < |s.items| ensures ProjectAll(ReturnEdge, s.items)[n] == Some(EdgesOf(s.items)[n]) {
      assert ProjectAll(ReturnEdge, s.items)[n] == ReturnEdge(s.items[n]);
    }
  }

  /** The walk with _return_inequation yields one bound per call. */
  lemma BoundItems(s: Stream<Visit>)
    ensures var out := ProjectStream(ReturnInequation, s);
      && out.failure == s.failure && |out.items| == |s.items|
      && forall n :: 0 <= n < |s.items| ==> out.items[n] == Some(BoundText(s.items[n].edge, s.items[n].cap))
  {
    forall n | 0 <= n < |s.items|
      ensures ProjectAll(ReturnInequation, s.items)[n] == Some(BoundText(s.items[n].edge, s.items[n].cap))
    {
      assert ProjectAll(ReturnInequation, s.items)[n] == ReturnInequation(s.items[n]);
    }
  }

  /** The walk with _return_ratio_ineqations yields, per call, its constraint or None. */
  lemma ConstraintItems(s: Stream<Visit>)
    ensures var out := ProjectStream(ReturnRatioInequations, s);
      && out.failure == s.failure && |out.items| == |s.items|
      && forall n :: 0 <= n < |s.items| ==>
           var v := s.items[n];
           out.items[n] == if v.edge == v.fixedEdge then None
                           else Some(ConstraintText(v.ratio, v.fixedEdge, v.fixedRatio, v.edge))
  {
    forall n | 0 <= n < |s.items|
      ensures ProjectAll(ReturnRatioInequations, s.items)[n] == ReturnRatioInequations(s.items[n])
    {
    }
  }

  /**
   * The outer loop of _iterate_ratio_matrix: the rows in order, each with
   * its own fixed_edge and fixed_ratio, until an edge without capacity
   * raises. It returns the values yielded and the edge that raised, if any.
   */
  method WalkRows(g: map<string, int>, rows: seq<seq<int>>, reverse: bool, render: Visit -> Option<string>,
                  ghost es: seq<(nat, nat)>, ghost starts: seq<nat>)
    returns (items: seq<Option<string>>, missing: Option<string>)
    requires |starts| == |rows| + 1 && starts[0] == 0 && starts[|rows|] == |es|
    requires forall r :: 0 <= r < |rows| ==> RowAt(rows, reverse, es, r, starts[r])
    requires forall r :: 0 <= r < |rows| ==> starts[r + 1] == starts[r] + RowCount(rows, reverse, r)
    ensures Walked(g, rows, reverse, es, render, items)
    ensures missing.None? ==> |items| == |es|
    ensures missing.Some? ==>
      |items| < |es| && !HasCapacity(g, EntryEdge(es[|items|])) && missing.value == EntryEdge(es[|items|])
  {
    items := [];
    var r := 0;
    while r < |rows|
      invariant 0 <= r <= |rows|
      invariant |items| == starts[r] && Walked(g, rows, reverse, es, render, items)
    {
      items, missing := WalkRow(g, rows, reverse, r, render, es, items);
      if missing.Some? {
        return;
      }
      r := r + 1;
    }
    missing := None;
  }

  /**
   * One pass of the outer loop of _iterate_ratio_matrix: row r (the
   * generator's i = r + 1) with its own fixed_edge and fixed_ratio. It
   * appends the values yielded for the row, or reports the edge whose
   * missing capacity raised.
   */
  method WalkRow(g: map<string, int>, rows: seq<seq<int>>, reverse: bool, r: nat, render: Visit -> Option<string>,
                 ghost es: seq<(nat, nat)>, items: seq<Option<string>>)
    returns (items': seq<Option<string>>, missing: Option<string>)
    requires r < |rows| && RowAt(rows, reverse, es, r, |items|) && Walked(g, rows, reverse, es, render, items)
    ensures Walked(g, rows, reverse, es, render, items')
    ensures missing.None? ==> |items'| == |items| + RowCount(rows, reverse, r)
    ensures missing.Some? ==>
      |items'| < |es| && !HasCapacity(g, EntryEdge(es[|items'|])) && missing.value == EntryEdge(es[|items'|])
  {
    items' := items;
    var fixedEdge: Option<string>, fixedRatio: Option<int> := None, None;
    ghost var fixedCol: nat, fixedJ: nat := 0, 0;
    // row[:i] enumerated from 1 when reverse, row[i:] from i + 1 otherwise:
    // the offsets [lo, hi) of the row, offset c numbered j = c + 1
    var bounds := Slice(r + 1, |rows[r]|, reverse);
    var lo, hi := bounds.0, bounds.1;
    var c := lo;
    while c < hi
      invariant lo <= c <= hi
      invariant |items'| == |items| + |PositiveColumns(rows[r], lo, c)|
      invariant Walked(g, rows, reverse, es, render, items')
      invariant Fixed(rows[r], lo, c, r + 1, fixedEdge, fixedRatio, fixedCol, fixedJ)
    {
      items', fixedEdge, fixedRatio, fixedCol, fixedJ, missing :=
        WalkCell(g, rows, reverse, r, render, es, |items|, lo, hi, c, items', fixedEdge, fixedRatio, fixedCol, fixedJ);
      if missing.Some? {
        return;
      }
      c := c + 1;
    }
    missing := None;
  }

  /**
   * The body of the inner loop for offset c of row i = r + 1 (column
   * j = c + 1): a positive ratio fixes the reference when none is fixed
   * yet, then raises when its edge has no capacity and otherwise yields the
   * projection of the call.
   */
  method WalkCell(g: map<string, int>, rows: seq<seq<int>>, reverse: bool, r: nat, render: Visit -> Option<string>,
                  ghost es: seq<(nat, nat)>, ghost base: nat, lo: nat, hi: nat, c: nat, items: seq<Option<string>>,
                  fixedEdge: Option<string>, fixedRatio: Option<int>, ghost fixedCol: nat, ghost fixedJ: nat)
    returns (items': seq<Option<string>>, fixedEdge': Option<string>, fixedRatio': Option<int>,
             ghost fixedCol': nat, ghost fixedJ': nat, missing: Option<string>)
    requires r < |rows| && (lo, hi) == Slice(r + 1, |rows[r]|, reverse) && lo <= c < hi
    requires RowAt(rows, reverse, es, r, base) && |items| == base + |PositiveColumns(rows[r], lo, c)|
    requires Walked(g, rows, reverse, es, render, items)
    requires Fixed(rows[r], lo, c, r + 1, fixedEdge, fixedRatio, fixedCol, fixedJ)
    ensures Walked(g, rows, reverse, es, render, items')
    ensures missing.None? ==>
      && |items'| == base + |PositiveColumns(rows[r], lo, c + 1)|
      && Fixed(rows[r], lo, c + 1, r + 1, fixedEdge', fixedRatio', fixedCol', fixedJ')
    ensures missing.Some? ==>
      |items'| < |es| && !HasCapacity(g, EntryEdge(es[|items'|])) && missing.value == EntryEdge(es[|items'|])
  {
    var i, j := r + 1, c + 1;
    var row := rows[r];
    var ratio := row[c];
    var edge := EdgeName(i, j);
    items', fixedEdge', fixedRatio', fixedCol', fixedJ', missing := items, fixedEdge, fixedRatio, fixedCol, fixedJ, None;
    FixedStep(row, lo, c, i, j, fixedEdge, fixedRatio, fixedCol, fixedJ);
    PositiveColumnsStep(row, lo, c);
    if ratio > 0 {
      assert es[base + |PositiveColumns(row, lo, c)|] == (r, c);
      if fixedRatio.None? && fixedEdge.None? {
        fixedEdge', fixedRatio' := Some(edge), Some(ratio);
        fixedCol', fixedJ' := c, j;
      }
      if !HasCapacity(g, edge) {
        EntryEdgeAt(es, |items|, r, c, i, j);
        missing := Some(edge);
        return;
      }
      YieldStep(g, rows, reverse, es, render, items, r, lo, hi, c, fixedCol', i, j, fixedJ');
      items' := items + [render(Visit(i, j, edge, g[edge], fixedEdge'.value, fixedRatio'.value, ratio))];
    }
  }
}
