/**
 * The walk over the ratio matrix (Graph._iterate_ratio_matrix) as a
 * reference definition on values: the positive entries of the kept part of
 * every row, in row-major order, cut at the first one whose edge has no
 * capacity. The projectors that turn one visited entry into LP text
 * (_return_edge, _return_inequation, _return_ratio_ineqations) live here
 * too.
 *
 * Rows and columns are counted from 0 in the entries (row r is the
 * generator's i = r + 1, offset c in the row is its j = c + 1).
 */
module Traversal {
  import opened Base
  import opened LpText

  /**
   * One call of the function given to _iterate_ratio_matrix: the
   * generator's i and j, and the arguments edge, cap, fixed_edge,
   * fixed_ratio and ratio.
   */
  datatype Visit = Visit(row: nat, column: nat, edge: string, cap: int, fixedEdge: string, fixedRatio: int, ratio: int)

  /** A drained generator: the values it yielded, then the exception that ended it, if any. */
  datatype Stream<T> = Stream(items: seq<T>, failure: Option<Error>)

  /**
   * The offsets [lo, hi) of a row of length len that row i (from 1) keeps:
   * row[:i] when reverse, row[i:] otherwise, with Python's clamping of a
   * slice bound past the end.
   */
  function Slice(i: nat, len: nat, reverse: bool): (bounds: (nat, nat))
    ensures bounds.0 <= bounds.1 <= len
  {
    var m := if i < len then i else len;
    if reverse then (0, m) else (m, len)
  }

  /**
   * The columns j = c + 1 the walk looks at in row i: j <= i (the lower
   * triangle and the diagonal) when reverse, j > i (strictly above the
   * diagonal) otherwise, and never past the row's end.
   */
  lemma SliceColumns(i: nat, len: nat, reverse: bool, c: nat)
    ensures var b := Slice(i, len, reverse);
      b.0 <= c < b.1 <==> c < len && (if reverse then c + 1 <= i else c + 1 > i)
  {
  }

  /** Entry (r, c) lies in the part of its row the walk looks at. */
  predicate Selected(rows: seq<seq<int>>, reverse: bool, r: nat, c: nat)
  {
    r < |rows| && var b := Slice(r + 1, |rows[r]|, reverse); b.0 <= c < b.1
  }

  /** Entry (r, c) is looked at and its ratio is positive. */
  predicate Positive(rows: seq<seq<int>>, reverse: bool, r: nat, c: nat)
  {
    Selected(rows, reverse, r, c) && rows[r][c] > 0
  }

  /** Row-major order on entries. */
  predicate Precedes(p: (nat, nat), q: (nat, nat))
  {
    p.0 < q.0 || (p.0 == q.0 && p.1 < q.1)
  }

  predicate Sorted(es: seq<(nat, nat)>)
  {
    forall m, n :: 0 <= m < n < |es| ==> Precedes(es[m], es[n])
  }

  /** In a sorted sequence, positions are ordered exactly as their entries are. */
  lemma SortedIndexOrder(es: seq<(nat, nat)>, m: nat, n: nat)
    requires Sorted(es) && m < |es| && n < |es|
    ensures Precedes(es[m], es[n]) <==> m < n
  {
    if n < m {
      assert Precedes(es[n], es[m]);
    }
  }

  /** The offsets in [lo, hi) of the row whose ratio is positive, ascending. */
  function PositiveColumns(row: seq<int>, lo: nat, hi: nat): seq<nat>
    requires lo <= hi <= |row|
    decreases hi - lo
  {
    if lo == hi then []
    else PositiveColumns(row, lo, hi - 1) + (if row[hi - 1] > 0 then [hi - 1] else [])
  }

  /** Every offset PositiveColumns holds lies in [lo, hi) and has a positive ratio. */
  lemma {:induction false} PositiveColumnsSound(row: seq<int>, lo: nat, hi: nat)
    requires lo <= hi <= |row|
    ensures forall n :: 0 <= n < |PositiveColumns(row, lo, hi)| ==>
      lo <= PositiveColumns(row, lo, hi)[n] < hi && row[PositiveColumns(row, lo, hi)[n]] > 0
    decreases hi - lo
  {
    if lo < hi {
      PositiveColumnsSound(row, lo, hi - 1);
      var before := PositiveColumns(row, lo, hi - 1);
      var cols := PositiveColumns(row, lo, hi);
      forall n | 0 <= n < |cols| ensures lo <= cols[n] < hi && row[cols[n]] > 0 {
        if n < |before| {
          assert cols[n] == before[n];
        } else {
          assert cols == before + [hi - 1];
        }
      }
    }
  }

  /** Every offset of [lo, hi) with a positive ratio is in PositiveColumns. */
  lemma {:induction false} PositiveColumnsComplete(row: seq<int>, lo: nat, hi: nat, c: nat)
    requires lo <= c < hi <= |row| && row[c] > 0
    ensures exists n :: 0 <= n < |PositiveColumns(row, lo, hi)| && PositiveColumns(row, lo, hi)[n] == c
    decreases hi - lo
  {
    var before := PositiveColumns(row, lo, hi - 1);
    var cols := PositiveColumns(row, lo, hi);
    if c == hi - 1 {
      assert cols[|before|] == c;
    } else {
      PositiveColumnsComplete(row, lo, hi - 1, c);
      var n :| 0 <= n < |before| && before[n] == c;
      assert cols[n] == c;
    }
  }

  /** PositiveColumns is in ascending order. */
  lemma {:induction false} PositiveColumnsSorted(row: seq<int>, lo: nat, hi: nat)
    requires lo <= hi <= |row|
    ensures forall m, n :: 0 <= m < n < |PositiveColumns(row, lo, hi)| ==>
      PositiveColumns(row, lo, hi)[m] < PositiveColumns(row, lo, hi)[n]
    decreases hi - lo
  {
    if lo < hi {
      PositiveColumnsSorted(row, lo, hi - 1);
      PositiveColumnsSound(row, lo, hi - 1);
      var before := PositiveColumns(row, lo, hi - 1);
      var cols := PositiveColumns(row, lo, hi);
      forall m, n | 0 <= m < n < |cols| ensures cols[m] < cols[n] {
        assert cols[m] == before[m];
        if n < |before| {
          assert cols[n] == before[n];
        } else {
          assert cols == before + [hi - 1];
        }
      }
    }
  }

  lemma {:induction false} PositiveColumnsPrefix(row: seq<int>, lo: nat, c: nat, hi: nat)
    requires lo <= c <= hi <= |row|
    ensures PositiveColumns(row, lo, c) <= PositiveColumns(row, lo, hi)
    decreases hi - c
  {
    if c < hi {
      PositiveColumnsPrefix(row, lo, c, hi - 1);
    }
  }

  /**
   * The offset of the first positive entry in [lo, hi) of the row, or hi
   * when there is none.
   */
  function FirstPositive(row: seq<int>, lo: nat, hi: nat): (f: nat)
    requires lo <= hi <= |row|
    ensures lo <= f <= hi
    decreases hi - lo
  {
    if lo == hi then hi
    else if row[lo] > 0 then lo
    else FirstPositive(row, lo + 1, hi)
  }

  /** FirstPositive is positive unless it is hi, and nothing before it in [lo, hi) is. */
  lemma {:induction false} FirstPositiveFacts(row: seq<int>, lo: nat, hi: nat)
    requires lo <= hi <= |row|
    ensures var f := FirstPositive(row, lo, hi);
      && (forall c :: lo <= c < f ==> row[c] <= 0)
      && (f < hi ==> row[f] > 0)
    decreases hi - lo
  {
    if lo < hi && row[lo] <= 0 {
      FirstPositiveFacts(row, lo + 1, hi);
    }
  }

  /** FirstPositive is at or before any positive offset of [lo, hi). */
  lemma {:induction false} FirstPositiveAtMost(row: seq<int>, lo: nat, hi: nat, c: nat)
    requires lo <= c < hi <= |row| && row[c] > 0
    ensures FirstPositive(row, lo, hi) <= c
    decreases hi - lo
  {
    if row[lo] <= 0 {
      FirstPositiveAtMost(row, lo + 1, hi, c);
    }
  }

  /**
   * The reference entry of row i (from 1): the first positive one of the
   * part the walk looks at; its edge and ratio become fixed_edge and
   * fixed_ratio for the whole row.
   */
  function Reference(row: seq<int>, i: nat, reverse: bool): nat
  {
    var b := Slice(i, |row|, reverse);
    FirstPositive(row, b.0, b.1)
  }

  function RowEntries(r: nat, cols: seq<nat>): seq<(nat, nat)>
  {
    seq(|cols|, n requires 0 <= n < |cols| => (r, cols[n]))
  }

  /** Every positive entry the walk looks at, in the order it meets them. */
  function Entries(rows: seq<seq<int>>, reverse: bool): seq<(nat, nat)>
    decreases |rows|
  {
    if rows == [] then []
    else
      var r := |rows| - 1;
      var b := Slice(r + 1, |rows[r]|, reverse);
      Entries(rows[..r], reverse) + RowEntries(r, PositiveColumns(rows[r], b.0, b.1))
  }

  /** Entries of the first r rows stay positive entries of the whole matrix. */
  lemma PositiveInPrefix(rows: seq<seq<int>>, reverse: bool, r: nat, r': nat, c: nat)
    requires r <= |rows| && r' < r
    ensures Positive(rows[..r], reverse, r', c) <==> Positive(rows, reverse, r', c)
  {
    assert rows[..r][r'] == rows[r'];
  }

  /** The entries of the last row come after those of the rows before it. */
  lemma EntriesSplit(rows: seq<seq<int>>, reverse: bool)
    requires rows != []
    ensures var r := |rows| - 1;
      var b := Slice(r + 1, |rows[r]|, reverse);
      var cols := PositiveColumns(rows[r], b.0, b.1);
      var before := Entries(rows[..r], reverse);
      var es := Entries(rows, reverse);
      && |es| == |before| + |cols|
      && (forall n :: 0 <= n < |before| ==> es[n] == before[n])
      && (forall n :: |before| <= n < |es| ==> es[n] == (r, cols[n - |before|]))
  {
  }

  /** Every entry of Entries is a positive entry the walk looks at. */
  lemma {:induction false} EntriesPositive(rows: seq<seq<int>>, reverse: bool)
    ensures forall n :: 0 <= n < |Entries(rows, reverse)| ==>
      Positive(rows, reverse, Entries(rows, reverse)[n].0, Entries(rows, reverse)[n].1)
    decreases |rows|
  {
    if rows != [] {
      var r := |rows| - 1;
      var b := Slice(r + 1, |rows[r]|, reverse);
      var cols := PositiveColumns(rows[r], b.0, b.1);
      var before := Entries(rows[..r], reverse);
      var es := Entries(rows, reverse);
      EntriesPositive(rows[..r], reverse);
      PositiveColumnsSound(rows[r], b.0, b.1);
      EntriesSplit(rows, reverse);
      forall n | 0 <= n < |es|
        ensures Positive(rows, reverse, es[n].0, es[n].1)
      {
        if n < |before| {
          PositiveInPrefix(rows, reverse, r, before[n].0, before[n].1);
        }
      }
    }
  }

  /** Every positive entry the walk looks at is in Entries. */
  lemma {:induction false} EntriesComplete(rows: seq<seq<int>>, reverse: bool, r: nat, c: nat)
    requires Positive(rows, reverse, r, c)
    ensures exists n :: 0 <= n < |Entries(rows, reverse)| && Entries(rows, reverse)[n] == (r, c)
    decreases |rows|
  {
    var last := |rows| - 1;
    var b := Slice(last + 1, |rows[last]|, reverse);
    var cols := PositiveColumns(rows[last], b.0, b.1);
    var before := Entries(rows[..last], reverse);
    var es := Entries(rows, reverse);
    EntriesSplit(rows, reverse);
    if r < last {
      PositiveInPrefix(rows, reverse, last, r, c);
      EntriesComplete(rows[..last], reverse, r, c);
      var n :| 0 <= n < |before| && before[n] == (r, c);
      assert es[n] == (r, c);
    } else {
      PositiveColumnsComplete(rows[last], b.0, b.1, c);
      var n :| 0 <= n < |cols| && cols[n] == c;
      assert es[|before| + n] == (r, c);
    }
  }

  /** Entries come in row-major order. */
  lemma {:induction false} EntriesSorted(rows: seq<seq<int>>, reverse: bool)
    ensures Sorted(Entries(rows, reverse))
    decreases |rows|
  {
    if rows != [] {
      var r := |rows| - 1;
      var b := Slice(r + 1, |rows[r]|, reverse);
      var cols := PositiveColumns(rows[r], b.0, b.1);
      var before := Entries(rows[..r], reverse);
      var es := Entries(rows, reverse);
      EntriesSorted(rows[..r], reverse);
      EntriesPositive(rows[..r], reverse);
      PositiveColumnsSound(rows[r], b.0, b.1);
      PositiveColumnsSorted(rows[r], b.0, b.1);
      EntriesSplit(rows, reverse);
      forall m, n | 0 <= m < n < |es|
        ensures Precedes(es[m], es[n])
      {
        if n < |before| {
          assert Precedes(before[m], before[n]);
        } else if m < |before| {
          assert before[m].0 < r;
        } else {
          assert cols[m - |before|] < cols[n - |before|];
        }
      }
    }
  }

  /**
   * Entries holds exactly the positive entries the walk looks at, each
   * once, in row-major order.
   */
  lemma EntriesFacts(rows: seq<seq<int>>, reverse: bool)
    ensures var es := Entries(rows, reverse);
      && (forall n :: 0 <= n < |es| ==> Positive(rows, reverse, es[n].0, es[n].1))
      && (forall r: nat, c: nat :: Positive(rows, reverse, r, c) ==> (r, c) in es)
      && Sorted(es)
  {
    var es := Entries(rows, reverse);
    EntriesPositive(rows, reverse);
    EntriesSorted(rows, reverse);
    forall r: nat, c: nat | Positive(rows, reverse, r, c)
      ensures (r, c) in es
    {
      EntriesComplete(rows, reverse, r, c);
    }
  }

  lemma {:induction false} EntriesPrefix(rows: seq<seq<int>>, reverse: bool, i: nat)
    requires i <= |rows|
    ensures Entries(rows[..i], reverse) <= Entries(rows, reverse)
    decreases |rows|
  {
    if i < |rows| {
      var r := |rows| - 1;
      assert rows[..r][..i] == rows[..i];
      EntriesPrefix(rows[..r], reverse, i);
    } else {
      assert rows[..i] == rows;
    }
  }

  /** The entries of the first i + 1 rows: those of the first i rows, then row i's. */
  lemma EntriesStep(rows: seq<seq<int>>, reverse: bool, i: nat)
    requires i < |rows|
    ensures var b := Slice(i + 1, |rows[i]|, reverse);
      Entries(rows[..i + 1], reverse)
      == Entries(rows[..i], reverse) + RowEntries(i, PositiveColumns(rows[i], b.0, b.1))
  {
    assert rows[..i + 1][..i] == rows[..i];
  }

  /** The edge of entry (r, c): _get_edge(r + 1, c + 1). */
  function EntryEdge(e: (nat, nat)): string
  {
    EdgeName(e.0 + 1, e.1 + 1)
  }

  /** The position of the first entry whose edge has no capacity (|es| when there is none). */
  function FirstMissing(graph: map<string, int>, es: seq<(nat, nat)>): (k: nat)
    ensures k <= |es|
    ensures forall n :: 0 <= n < k ==> HasCapacity(graph, EntryEdge(es[n]))
    ensures k < |es| ==> !HasCapacity(graph, EntryEdge(es[k]))
  {
    var k := FirstMissingFrom(graph, es, 0);
    assert forall n :: 0 <= n < k ==> HasCapacity(graph, EntryEdge(es[n])) by {
      forall n | 0 <= n < k ensures HasCapacity(graph, EntryEdge(es[n])) {
        BeforeFirstMissingFrom(graph, es, 0, n);
      }
    }
    k
  }

  /** The position of the first entry at or after position m whose edge has no capacity. */
  function FirstMissingFrom(graph: map<string, int>, es: seq<(nat, nat)>, m: nat): (k: nat)
    requires m <= |es|
    ensures m <= k <= |es|
    ensures k < |es| ==> !HasCapacity(graph, EntryEdge(es[k]))
    decreases |es| - m
  {
    if m == |es| || !HasCapacity(graph, EntryEdge(es[m])) then m
    else FirstMissingFrom(graph, es, m + 1)
  }

  /** Every entry from position m up to the first missing edge after it has a capacity. */
  lemma {:induction false} BeforeFirstMissingFrom(graph: map<string, int>, es: seq<(nat, nat)>, m: nat, n: nat)
    requires m <= |es| && m <= n < FirstMissingFrom(graph, es, m)
    ensures HasCapacity(graph, EntryEdge(es[n]))
    decreases n - m
  {
    var k := FirstMissingFrom(graph, es, m);
    if m == n {
      assert k != m;
    } else {
      assert FirstMissingFrom(graph, es, m + 1) == k;
      BeforeFirstMissingFrom(graph, es, m + 1, n);
    }
  }

  /** Every entry before the first missing edge has a capacity. */
  lemma BeforeFirstMissing(graph: map<string, int>, es: seq<(nat, nat)>, m: nat)
    requires m < FirstMissing(graph, es)
    ensures HasCapacity(graph, EntryEdge(es[m]))
  {
  }

  /** The call made for a positive entry whose edge has a capacity. */
  function VisitOf(graph: map<string, int>, rows: seq<seq<int>>, reverse: bool, e: (nat, nat)): Visit
    requires Positive(rows, reverse, e.0, e.1) && EntryEdge(e) in graph
  {
    var row := rows[e.0];
    var b := Slice(e.0 + 1, |row|, reverse);
    FirstPositiveAtMost(row, b.0, b.1, e.1);
    var f := Reference(row, e.0 + 1, reverse);
    Visit(e.0 + 1, e.1 + 1, EntryEdge(e), graph[EntryEdge(e)], EdgeName(e.0 + 1, f + 1), row[f], row[e.1])
  }

  function VisitsOf(graph: map<string, int>, rows: seq<seq<int>>, reverse: bool, es: seq<(nat, nat)>): seq<Visit>
    requires forall n :: 0 <= n < |es| ==> Positive(rows, reverse, es[n].0, es[n].1) && EntryEdge(es[n]) in graph
  {
    seq(|es|, n requires 0 <= n < |es| => VisitOf(graph, rows, reverse, es[n]))
  }

  /**
   * What draining _iterate_ratio_matrix gives: a call for each positive
   * entry in row-major order, until the first one whose edge has no
   * capacity, which raises instead.
   */
  function Traverse(graph: map<string, int>, rows: seq<seq<int>>, reverse: bool): Stream<Visit>
  {
    var es := Entries(rows, reverse);
    EntriesPositive(rows, reverse);
    var k := FirstMissing(graph, es);
    assert forall n :: 0 <= n < k ==> es[..k][n] == es[n];
    assert forall n :: 0 <= n < k ==> Positive(rows, reverse, es[n].0, es[n].1);
    assert forall n :: 0 <= n < k ==> HasCapacity(graph, EntryEdge(es[n]));
    Stream(VisitsOf(graph, rows, reverse, es[..k]),
           if k < |es| then Some(MissingEdge(EntryEdge(es[k]))) else None)
  }

  /** The calls of the walk are those of the entries before the first missing edge. */
  lemma TraverseShape(graph: map<string, int>, rows: seq<seq<int>>, reverse: bool)
    ensures var s := Traverse(graph, rows, reverse);
      var es := Entries(rows, reverse);
      var k := FirstMissing(graph, es);
      && |s.items| == k
      && (forall n :: 0 <= n < k ==>
            && Positive(rows, reverse, es[n].0, es[n].1) && EntryEdge(es[n]) in graph
            && s.items[n] == VisitOf(graph, rows, reverse, es[n]))
      && s.failure == if k < |es| then Some(MissingEdge(EntryEdge(es[k]))) else None
  {
    EntriesFacts(rows, reverse);
  }

  /** The call at position n of the walk is the one made for the n-th entry. */
  lemma ItemIsVisit(graph: map<string, int>, rows: seq<seq<int>>, reverse: bool, es: seq<(nat, nat)>, n: nat)
    requires es == Entries(rows, reverse) && n < |Traverse(graph, rows, reverse).items|
    ensures n < FirstMissing(graph, es) <= |es|
    ensures Positive(rows, reverse, es[n].0, es[n].1) && EntryEdge(es[n]) in graph
    ensures Traverse(graph, rows, reverse).items[n] == VisitOf(graph, rows, reverse, es[n])
  {
    TraverseShape(graph, rows, reverse);
  }

  /** The fields of the call at position n of the walk, in terms of the n-th entry. */
  lemma ItemFields(graph: map<string, int>, rows: seq<seq<int>>, reverse: bool, es: seq<(nat, nat)>, n: nat)
    requires es == Entries(rows, reverse) && n < |Traverse(graph, rows, reverse).items|
    ensures n < |es| && es[n].0 < |rows|
    ensures var v := Traverse(graph, rows, reverse).items[n];
      && v.row == es[n].0 + 1 && v.column == es[n].1 + 1
      && v.edge == EdgeName(es[n].0 + 1, es[n].1 + 1)
      && v.fixedEdge == EdgeName(es[n].0 + 1, Reference(rows[es[n].0], es[n].0 + 1, reverse) + 1)
  {
    ItemIsVisit(graph, rows, reverse, es, n);
    VisitOfFields(graph, rows, reverse, es[n]);
  }

  /** The fields of the call made for entry e, in the entry's own terms. */
  lemma VisitOfFields(graph: map<string, int>, rows: seq<seq<int>>, reverse: bool, e: (nat, nat))
    requires Positive(rows, reverse, e.0, e.1) && EntryEdge(e) in graph
    ensures var v := VisitOf(graph, rows, reverse, e);
      && v.row == e.0 + 1 && v.column == e.1 + 1
      && v.edge == EdgeName(e.0 + 1, e.1 + 1)
      && v.fixedEdge == EdgeName(e.0 + 1, Reference(rows[e.0], e.0 + 1, reverse) + 1)
  {
    var v := VisitOf(graph, rows, reverse, e);
    assert v.row == e.0 + 1 && v.column == e.1 + 1;
    assert v.edge == EdgeName(e.0 + 1, e.1 + 1);
  }

  /**
   * A call the walk makes: for a positive entry it looks at (row and
   * column from 1), with that entry's ratio, its edge name and the non-zero
   * capacity stored for that edge.
   */
  predicate SoundVisit(graph: map<string, int>, rows: seq<seq<int>>, reverse: bool, v: Visit)
  {
    && 1 <= v.row && 1 <= v.column
    && Positive(rows, reverse, v.row - 1, v.column - 1)
    && v.ratio == rows[v.row - 1][v.column - 1]
    && v.edge == EdgeName(v.row, v.column)
    && HasCapacity(graph, v.edge) && v.cap == graph[v.edge]
  }

  /**
   * The call's fixed_edge and fixed_ratio are those of the first positive
   * entry of its row, which is at or before the call's own column.
   */
  predicate RefersToFirstPositive(rows: seq<seq<int>>, reverse: bool, v: Visit)
  {
    && 1 <= v.row <= |rows|
    && var r := v.row - 1;
      var f := Reference(rows[r], v.row, reverse);
      && f + 1 <= v.column
      && Positive(rows, reverse, r, f)
      && (forall c: nat :: Selected(rows, reverse, r, c) && c < f ==> rows[r][c] <= 0)
      && v.fixedEdge == EdgeName(v.row, f + 1)
      && v.fixedRatio == rows[r][f]
  }

  /** The call made for a positive entry is for that entry and is sound. */
  lemma VisitOfSound(graph: map<string, int>, rows: seq<seq<int>>, reverse: bool, e: (nat, nat))
    requires Positive(rows, reverse, e.0, e.1) && HasCapacity(graph, EntryEdge(e))
    ensures var v := VisitOf(graph, rows, reverse, e);
      && v.row == e.0 + 1 && v.column == e.1 + 1
      && SoundVisit(graph, rows, reverse, v)
  {
    var v := VisitOf(graph, rows, reverse, e);
    assert v.row == e.0 + 1 && v.column == e.1 + 1;
    assert v.edge == EntryEdge(e) && v.cap == graph[EntryEdge(e)] && v.ratio == rows[e.0][e.1];
  }

  /** The call made for a positive entry takes its row's first positive entry as reference. */
  lemma VisitOfRefers(graph: map<string, int>, rows: seq<seq<int>>, reverse: bool, e: (nat, nat))
    requires Positive(rows, reverse, e.0, e.1) && HasCapacity(graph, EntryEdge(e))
    ensures RefersToFirstPositive(rows, reverse, VisitOf(graph, rows, reverse, e))
  {
    var v := VisitOf(graph, rows, reverse, e);
    var row := rows[e.0];
    var b := Slice(e.0 + 1, |row|, reverse);
    var f := Reference(row, e.0 + 1, reverse);
    FirstPositiveFacts(row, b.0, b.1);
    assert v.row == e.0 + 1 && v.column == e.1 + 1;
    assert f <= e.1;
    assert v.fixedEdge == EdgeName(v.row, f + 1) && v.fixedRatio == row[f];
  }

  /** Every call of the walk is sound, and the calls come in row-major order. */
  lemma TraversalItems(graph: map<string, int>, rows: seq<seq<int>>, reverse: bool)
    ensures var s := Traverse(graph, rows, reverse);
      forall n :: 0 <= n < |s.items| ==> SoundVisit(graph, rows, reverse, s.items[n])
    ensures var s := Traverse(graph, rows, reverse);
      forall m, n :: 0 <= m < n < |s.items| ==>
        Precedes((s.items[m].row, s.items[m].column), (s.items[n].row, s.items[n].column))
  {
    var s := Traverse(graph, rows, reverse);
    var es := Entries(rows, reverse);
    TraverseShape(graph, rows, reverse);
    EntriesFacts(rows, reverse);
    forall n | 0 <= n < |s.items|
      ensures SoundVisit(graph, rows, reverse, s.items[n])
      ensures s.items[n].row == es[n].0 + 1 && s.items[n].column == es[n].1 + 1
    {
      VisitOfSound(graph, rows, reverse, es[n]);
    }
    forall m, n | 0 <= m < n < |s.items|
      ensures Precedes((s.items[m].row, s.items[m].column), (s.items[n].row, s.items[n].column))
    {
      assert Precedes(es[m], es[n]);
    }
  }

  /**
   * fixed_edge and fixed_ratio of every call are those of its row's
   * reference entry: the first positive entry of the row, so they are reset
   * for every row and set by the first positive ratio met in it.
   */
  lemma ReferenceIsFirstPositive(graph: map<string, int>, rows: seq<seq<int>>, reverse: bool)
    ensures var s := Traverse(graph, rows, reverse);
      forall n :: 0 <= n < |s.items| ==> RefersToFirstPositive(rows, reverse, s.items[n])
  {
    var s := Traverse(graph, rows, reverse);
    var es := Entries(rows, reverse);
    TraverseShape(graph, rows, reverse);
    forall n | 0 <= n < |s.items|
      ensures RefersToFirstPositive(rows, reverse, s.items[n])
    {
      VisitOfRefers(graph, rows, reverse, es[n]);
    }
  }

  /** Every positive entry before (r, c) in row-major order has a capacity. */
  ghost predicate Reached(graph: map<string, int>, rows: seq<seq<int>>, reverse: bool, r: nat, c: nat)
  {
    forall r': nat, c': nat :: Positive(rows, reverse, r', c') && Precedes((r', c'), (r, c)) ==>
      HasCapacity(graph, EntryEdge((r', c')))
  }

  /** The walk made a call for entry (r, c). */
  ghost predicate Yielded(s: Stream<Visit>, r: nat, c: nat)
  {
    exists n :: 0 <= n < |s.items| && s.items[n].row == r + 1 && s.items[n].column == c + 1
  }

  /** The call at position n of the walk is for the n-th entry of Entries. */
  lemma ItemPosition(graph: map<string, int>, rows: seq<seq<int>>, reverse: bool, n: nat)
    requires n < |Traverse(graph, rows, reverse).items|
    ensures var es := Entries(rows, reverse);
      && n < FirstMissing(graph, es)
      && Positive(rows, reverse, es[n].0, es[n].1)
      && Traverse(graph, rows, reverse).items[n].row == es[n].0 + 1
      && Traverse(graph, rows, reverse).items[n].column == es[n].1 + 1
  {
    var es := Entries(rows, reverse);
    TraverseShape(graph, rows, reverse);
    VisitOfSound(graph, rows, reverse, es[n]);
  }

  /** The entries before the first missing edge all get their call, at their own position. */
  lemma PositionItem(graph: map<string, int>, rows: seq<seq<int>>, reverse: bool, n: nat)
    requires n < FirstMissing(graph, Entries(rows, reverse))
    ensures var es := Entries(rows, reverse);
      && n < |Traverse(graph, rows, reverse).items|
      && Traverse(graph, rows, reverse).items[n].row == es[n].0 + 1
      && Traverse(graph, rows, reverse).items[n].column == es[n].1 + 1
  {
    var es := Entries(rows, reverse);
    TraverseShape(graph, rows, reverse);
    VisitOfSound(graph, rows, reverse, es[n]);
  }

  /**
   * In a sorted list holding every positive entry, each entry up to the
   * first missing edge is reached.
   */
  lemma ReachedUpTo(graph: map<string, int>, rows: seq<seq<int>>, reverse: bool, es: seq<(nat, nat)>, k: nat)
    requires Sorted(es) && k < |es| && k <= FirstMissing(graph, es)
    requires forall r: nat, c: nat :: Positive(rows, reverse, r, c) ==> (r, c) in es
    ensures Reached(graph, rows, reverse, es[k].0, es[k].1)
  {
    forall r': nat, c': nat | Positive(rows, reverse, r', c') && Precedes((r', c'), es[k])
      ensures HasCapacity(graph, EntryEdge((r', c')))
    {
      var m :| 0 <= m < |es| && es[m] == (r', c');
      SortedIndexOrder(es, m, k);
      BeforeFirstMissing(graph, es, m);
    }
  }

  lemma YieldedOnlyIfReached(graph: map<string, int>, rows: seq<seq<int>>, reverse: bool, r: nat, c: nat, n: nat)
    requires n < |Traverse(graph, rows, reverse).items|
    requires Traverse(graph, rows, reverse).items[n].row == r + 1
    requires Traverse(graph, rows, reverse).items[n].column == c + 1
    ensures HasCapacity(graph, EntryEdge((r, c))) && Reached(graph, rows, reverse, r, c)
  {
    var es := Entries(rows, reverse);
    ItemPosition(graph, rows, reverse, n);
    assert es[n] == (r, c);
    BeforeFirstMissing(graph, es, n);
    EntriesFacts(rows, reverse);
    ReachedUpTo(graph, rows, reverse, es, n);
  }

  /**
   * In a sorted list of positive entries, an entry that is reached and has
   * a capacity lies before the first missing edge.
   */
  lemma ReachedBeforeFirstMissing(graph: map<string, int>, rows: seq<seq<int>>, reverse: bool, es: seq<(nat, nat)>, m: nat)
    requires Sorted(es) && m < |es|
    requires forall n :: 0 <= n < |es| ==> Positive(rows, reverse, es[n].0, es[n].1)
    requires HasCapacity(graph, EntryEdge(es[m])) && Reached(graph, rows, reverse, es[m].0, es[m].1)
    ensures m < FirstMissing(graph, es)
  {
    forall j | 0 <= j <= m
      ensures HasCapacity(graph, EntryEdge(es[j]))
    {
      if j < m {
        assert Precedes(es[j], es[m]);
        assert Positive(rows, reverse, es[j].0, es[j].1);
        assert (es[j].0, es[j].1) == es[j];
      }
    }
    FirstMissingBeyond(graph, es, m);
  }

  /** When the edges of the entries up to m all have a capacity, the first missing one lies beyond m. */
  lemma FirstMissingBeyond(graph: map<string, int>, es: seq<(nat, nat)>, m: nat)
    requires m < |es|
    requires forall j :: 0 <= j <= m ==> HasCapacity(graph, EntryEdge(es[j]))
    ensures m < FirstMissing(graph, es)
  {
    FirstMissingFromBeyond(graph, es, 0, m);
  }

  lemma {:induction false} FirstMissingFromBeyond(graph: map<string, int>, es: seq<(nat, nat)>, n: nat, m: nat)
    requires n <= m < |es|
    requires forall j :: n <= j <= m ==> HasCapacity(graph, EntryEdge(es[j]))
    ensures m < FirstMissingFrom(graph, es, n)
    decreases m - n
  {
    if n < m {
      FirstMissingFromBeyond(graph, es, n + 1, m);
    }
  }

  lemma ReachedIsYielded(graph: map<string, int>, rows: seq<seq<int>>, reverse: bool, r: nat, c: nat)
    requires Positive(rows, reverse, r, c)
    requires HasCapacity(graph, EntryEdge((r, c))) && Reached(graph, rows, reverse, r, c)
    ensures Yielded(Traverse(graph, rows, reverse), r, c)
  {
    var es := Entries(rows, reverse);
    EntriesFacts(rows, reverse);
    var m :| 0 <= m < |es| && es[m] == (r, c);
    ReachedBeforeFirstMissing(graph, rows, reverse, es, m);
    PositionItem(graph, rows, reverse, m);
  }

  /**
   * A positive entry gets its call exactly when its own edge and the edges
   * of all positive entries before it have a capacity.
   */
  lemma YieldedIffReached(graph: map<string, int>, rows: seq<seq<int>>, reverse: bool, r: nat, c: nat)
    requires Positive(rows, reverse, r, c)
    ensures Yielded(Traverse(graph, rows, reverse), r, c)
        <==> HasCapacity(graph, EntryEdge((r, c))) && Reached(graph, rows, reverse, r, c)
  {
    var s := Traverse(graph, rows, reverse);
    if Yielded(s, r, c) {
      var n :| 0 <= n < |s.items| && s.items[n].row == r + 1 && s.items[n].column == c + 1;
      YieldedOnlyIfReached(graph, rows, reverse, r, c, n);
    }
    if HasCapacity(graph, EntryEdge((r, c))) && Reached(graph, rows, reverse, r, c) {
      ReachedIsYielded(graph, rows, reverse, r, c);
    }
  }

  /** The first positive entry whose edge has no capacity is reached, and the walk raises for it. */
  lemma FailureAtFirstMissing(graph: map<string, int>, rows: seq<seq<int>>, reverse: bool)
    requires FirstMissing(graph, Entries(rows, reverse)) < |Entries(rows, reverse)|
    ensures var e := Entries(rows, reverse)[FirstMissing(graph, Entries(rows, reverse))];
      && Positive(rows, reverse, e.0, e.1) && Reached(graph, rows, reverse, e.0, e.1)
      && !HasCapacity(graph, EntryEdge(e))
      && Traverse(graph, rows, reverse).failure == Some(MissingEdge(EntryEdge(e)))
  {
    var es := Entries(rows, reverse);
    var k := FirstMissing(graph, es);
    var e := es[k];
    TraverseShape(graph, rows, reverse);
    EntriesPositive(rows, reverse);
    EntriesSorted(rows, reverse);
    forall r': nat, c': nat | Positive(rows, reverse, r', c') && Precedes((r', c'), e)
      ensures HasCapacity(graph, EntryEdge((r', c')))
    {
      EntriesComplete(rows, reverse, r', c');
      var m :| 0 <= m < |es| && es[m] == (r', c');
      SortedIndexOrder(es, m, k);
    }
  }

  /** Without a missing edge the walk ends normally, having called for every positive entry. */
  lemma NoFailureWithoutMissing(graph: map<string, int>, rows: seq<seq<int>>, reverse: bool, r: nat, c: nat)
    requires FirstMissing(graph, Entries(rows, reverse)) == |Entries(rows, reverse)|
    requires Positive(rows, reverse, r, c)
    ensures Traverse(graph, rows, reverse).failure.None?
    ensures HasCapacity(graph, EntryEdge((r, c))) && Yielded(Traverse(graph, rows, reverse), r, c)
  {
    var es := Entries(rows, reverse);
    TraverseShape(graph, rows, reverse);
    EntriesComplete(rows, reverse, r, c);
    var m :| 0 <= m < |es| && es[m] == (r, c);
    PositionItem(graph, rows, reverse, m);
  }

  /**
   * The walk raises exactly when some positive entry's edge has no
   * capacity, and then for the first such entry; otherwise it calls for
   * every positive entry.
   */
  lemma FailureIffMissing(graph: map<string, int>, rows: seq<seq<int>>, reverse: bool)
    ensures var s := Traverse(graph, rows, reverse);
      s.failure.Some? <==>
        exists r: nat, c: nat :: Positive(rows, reverse, r, c) && !HasCapacity(graph, EntryEdge((r, c)))
    ensures var s := Traverse(graph, rows, reverse);
      s.failure.Some? ==> exists r: nat, c: nat ::
        && Positive(rows, reverse, r, c) && Reached(graph, rows, reverse, r, c)
        && !HasCapacity(graph, EntryEdge((r, c)))
        && s.failure == Some(MissingEdge(EntryEdge((r, c))))
    ensures var s := Traverse(graph, rows, reverse);
      s.failure.None? ==> forall r: nat, c: nat :: Positive(rows, reverse, r, c) ==> Yielded(s, r, c)
  {
    var es := Entries(rows, reverse);
    var k := FirstMissing(graph, es);
    if k < |es| {
      FailureAtFirstMissing(graph, rows, reverse);
      var e := es[k];
      assert Positive(rows, reverse, e.0, e.1) && !HasCapacity(graph, EntryEdge(e));
    } else {
      forall r: nat, c: nat | Positive(rows, reverse, r, c)
        ensures HasCapacity(graph, EntryEdge((r, c))) && Yielded(Traverse(graph, rows, reverse), r, c)
      {
        NoFailureWithoutMissing(graph, rows, reverse, r, c);
      }
      TraverseShape(graph, rows, reverse);
    }
  }

  /** _return_edge: the edge name alone, as handed to the walk. */
  function ReturnEdge(v: Visit): Option<string>
  {
    Some(v.edge)
  }

  /** The edges of a walk's calls, in the order of the calls. */
  function EdgesOf(vs: seq<Visit>): seq<string>
  {
    seq(|vs|, n requires 0 <= n < |vs| => vs[n].edge)
  }

  /** _return_inequation: the bound `edge <= cap;`, as handed to the walk. */
  function ReturnInequation(v: Visit): Option<string>
  {
    Some(BoundText(v.edge, v.cap))
  }

  /**
   * _return_ratio_ineqations: nothing for the row's reference edge,
   * otherwise `ratio fixed_edge = fixed_ratio edge;`.
   */
  function ReturnRatioInequations(v: Visit): (line: Option<string>)
    ensures line.None? <==> v.edge == v.fixedEdge
  {
    if v.edge == v.fixedEdge then None
    else Some(ConstraintText(v.ratio, v.fixedEdge, v.fixedRatio, v.edge))
  }

  /** The function handed to _iterate_ratio_matrix, applied to every call of a walk. */
  function ProjectAll(render: Visit -> Option<string>, vs: seq<Visit>): seq<Option<string>>
  {
    seq(|vs|, n requires 0 <= n < |vs| => render(vs[n]))
  }

  /** The generator _iterate_ratio_matrix(render) returns, drained. */
  function ProjectStream(render: Visit -> Option<string>, s: Stream<Visit>): Stream<Option<string>>
  {
    Stream(ProjectAll(render, s.items), s.failure)
  }

  /**
   * A call whose edge and fixed edge lie in the same row gets no constraint
   * exactly when both name the same column.
   */
  lemma ConstraintOmittedInRow(v: Visit, i: int, j: int, k: int)
    requires v.edge == EdgeName(i, j) && v.fixedEdge == EdgeName(i, k)
    ensures ReturnRatioInequations(v).None? <==> j == k
  {
    EdgeNameInjectiveInRow(i, j, k);
  }

  /**
   * An entry is its row's reference entry exactly when it is the first
   * entry of its row.
   */
  lemma ReferenceStartsRow(rows: seq<seq<int>>, reverse: bool, es: seq<(nat, nat)>, n: nat)
    requires es == Entries(rows, reverse) && n < |es|
    ensures es[n].0 < |rows|
    ensures Reference(rows[es[n].0], es[n].0 + 1, reverse) == es[n].1 <==> (n == 0 || es[n - 1].0 < es[n].0)
  {
    EntriesPositive(rows, reverse);
    EntriesSorted(rows, reverse);
    var r, c := es[n].0, es[n].1;
    var b := Slice(r + 1, |rows[r]|, reverse);
    var f := Reference(rows[r], r + 1, reverse);
    FirstPositiveFacts(rows[r], b.0, b.1);
    assert f <= c;
    if f != c {
      assert Positive(rows, reverse, r, f);
      EntriesComplete(rows, reverse, r, f);
      var m :| 0 <= m < |es| && es[m] == (r, f);
      SortedIndexOrder(es, m, n);
      if m < n - 1 {
        assert Precedes(es[m], es[n - 1]);
      }
      assert Precedes(es[n - 1], es[n]);
    } else if n > 0 {
      assert Precedes(es[n - 1], es[n]);
      if es[n - 1].0 == r {
        assert false;
      }
    }
  }

  /**
   * A call gets no constraint exactly when it is the first call of its
   * row: the reference entry always comes first, and every later call of
   * the row names another edge.
   */
  lemma ConstraintOmittedOnlyForReference(graph: map<string, int>, rows: seq<seq<int>>, reverse: bool, n: nat)
    requires n < |Traverse(graph, rows, reverse).items|
    ensures var items := Traverse(graph, rows, reverse).items;
      ReturnRatioInequations(items[n]).None? <==> (n == 0 || items[n - 1].row < items[n].row)
  {
    var es := Entries(rows, reverse);
    ConstraintOmittedAtReference(graph, rows, reverse, es, n);
    ReferenceStartsRow(rows, reverse, es, n);
    if n > 0 {
      ItemRowsInOrder(graph, rows, reverse, n);
    }
  }

  /** A call gets no constraint exactly when it is for its row's reference entry. */
  lemma ConstraintOmittedAtReference(graph: map<string, int>, rows: seq<seq<int>>, reverse: bool, es: seq<(nat, nat)>, n: nat)
    requires es == Entries(rows, reverse) && n < |Traverse(graph, rows, reverse).items|
    ensures n < |es| && es[n].0 < |rows|
    ensures ReturnRatioInequations(Traverse(graph, rows, reverse).items[n]).None?
        <==> Reference(rows[es[n].0], es[n].0 + 1, reverse) == es[n].1
  {
    ItemFields(graph, rows, reverse, es, n);
    ConstraintOmittedInRow(Traverse(graph, rows, reverse).items[n], es[n].0 + 1, es[n].1 + 1,
                           Reference(rows[es[n].0], es[n].0 + 1, reverse) + 1);
  }

  /** Two neighbouring calls change row exactly when their entries do. */
  lemma ItemRowsInOrder(graph: map<string, int>, rows: seq<seq<int>>, reverse: bool, n: nat)
    requires 0 < n < |Traverse(graph, rows, reverse).items|
    ensures var items := Traverse(graph, rows, reverse).items;
      var es := Entries(rows, reverse);
      n < |es| && (items[n - 1].row < items[n].row <==> es[n - 1].0 < es[n].0)
  {
    var es := Entries(rows, reverse);
    ItemRow(graph, rows, reverse, es, n);
    ItemRow(graph, rows, reverse, es, n - 1);
  }

  /** The row of the call at position n of the walk is that of the n-th entry. */
  lemma ItemRow(graph: map<string, int>, rows: seq<seq<int>>, reverse: bool, es: seq<(nat, nat)>, n: nat)
    requires es == Entries(rows, reverse) && n < |Traverse(graph, rows, reverse).items|
    ensures n < |es| && Traverse(graph, rows, reverse).items[n].row == es[n].0 + 1
  {
    ItemIsVisit(graph, rows, reverse, es, n);
  }

  lemma OnlyPositiveIsReference(graph: map<string, int>, rows: seq<seq<int>>, reverse: bool, r: nat, v: Visit)
    requires SoundVisit(graph, rows, reverse, v) && RefersToFirstPositive(rows, reverse, v) && v.row == r + 1
    requires forall c: nat, c': nat :: Positive(rows, reverse, r, c) && Positive(rows, reverse, r, c') ==> c == c'
    ensures v.edge == v.fixedEdge
  {
    var f := Reference(rows[r], v.row, reverse);
    assert Positive(rows, reverse, r, f);
  }

  /** A row with a single positive entry gives no constraint at all. */
  lemma SinglePositiveRowHasNoConstraint(graph: map<string, int>, rows: seq<seq<int>>, reverse: bool, r: nat)
    requires forall c: nat, c': nat :: Positive(rows, reverse, r, c) && Positive(rows, reverse, r, c') ==> c == c'
    ensures var items := Traverse(graph, rows, reverse).items;
      forall n :: 0 <= n < |items| && items[n].row == r + 1 ==> ReturnRatioInequations(items[n]).None?
  {
    var items := Traverse(graph, rows, reverse).items;
    TraversalItems(graph, rows, reverse);
    ReferenceIsFirstPositive(graph, rows, reverse);
    forall n | 0 <= n < |items| && items[n].row == r + 1
      ensures ReturnRatioInequations(items[n]).None?
    {
      OnlyPositiveIsReference(graph, rows, reverse, r, items[n]);
    }
  }

  /** The edge and the fixed edge of a call are single words. */
  lemma VisitWords(graph: map<string, int>, rows: seq<seq<int>>, reverse: bool, v: Visit)
    requires SoundVisit(graph, rows, reverse, v) && RefersToFirstPositive(rows, reverse, v)
    ensures ' ' !in v.edge && ' ' !in v.fixedEdge
  {
    EdgeNameWord(v.row, v.column);
    EdgeNameWord(v.row, Reference(rows[v.row - 1], v.row, reverse) + 1);
  }

  /**
   * The objective built from a walk's edges reads back as those edges, in
   * order, and each of them has a capacity in the graph.
   */
  lemma ObjectiveReadBack(graph: map<string, int>, rows: seq<seq<int>>, reverse: bool)
    ensures var edges := EdgesOf(Traverse(graph, rows, reverse).items);
      && ReadObjective(ObjectiveText(edges)) == Some(edges)
      && forall n :: 0 <= n < |edges| ==> HasCapacity(graph, edges[n])
  {
    var items := Traverse(graph, rows, reverse).items;
    var edges := EdgesOf(items);
    TraversalItems(graph, rows, reverse);
    forall n | 0 <= n < |edges|
      ensures ' ' !in edges[n] && HasCapacity(graph, edges[n])
    {
      assert SoundVisit(graph, rows, reverse, items[n]);
      EdgeNameWord(items[n].row, items[n].column);
    }
    ObjectiveRoundTrip(edges);
  }

  /** Every bound line reads back as the call's edge and the capacity stored for it. */
  lemma BoundsReadBack(graph: map<string, int>, rows: seq<seq<int>>, reverse: bool)
    ensures var items := Traverse(graph, rows, reverse).items;
      forall n :: 0 <= n < |items| ==>
        && items[n].edge in graph && ReturnInequation(items[n]).Some?
        && ReadBound(ReturnInequation(items[n]).value) == Some((items[n].edge, graph[items[n].edge]))
  {
    var items := Traverse(graph, rows, reverse).items;
    TraversalItems(graph, rows, reverse);
    forall n | 0 <= n < |items|
      ensures && items[n].edge in graph && ReturnInequation(items[n]).Some?
              && ReadBound(ReturnInequation(items[n]).value) == Some((items[n].edge, graph[items[n].edge]))
    {
      assert SoundVisit(graph, rows, reverse, items[n]);
      EdgeNameWord(items[n].row, items[n].column);
      BoundRoundTrip(items[n].edge, items[n].cap);
    }
  }

  /**
   * Every constraint line reads back as the call's ratio, fixed_edge,
   * fixed_ratio and edge (ReferenceIsFirstPositive says which entry the
   * fixed ones come from).
   */
  lemma ConstraintsReadBack(graph: map<string, int>, rows: seq<seq<int>>, reverse: bool)
    ensures var items := Traverse(graph, rows, reverse).items;
      forall n :: 0 <= n < |items| && ReturnRatioInequations(items[n]).Some? ==>
        var v := items[n];
        ReadConstraint(ReturnRatioInequations(v).value) == Some((v.ratio, v.fixedEdge, v.fixedRatio, v.edge))
  {
    var items := Traverse(graph, rows, reverse).items;
    TraversalItems(graph, rows, reverse);
    ReferenceIsFirstPositive(graph, rows, reverse);
    forall n | 0 <= n < |items| && ReturnRatioInequations(items[n]).Some?
      ensures var v := items[n];
        ReadConstraint(ReturnRatioInequations(v).value) == Some((v.ratio, v.fixedEdge, v.fixedRatio, v.edge))
    {
      var v := items[n];
      VisitWords(graph, rows, reverse, v);
      ConstraintRoundTrip(v.ratio, v.fixedEdge, v.fixedRatio, v.edge);
    }
  }
}
