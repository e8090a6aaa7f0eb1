/**
 * Reading the ratio file (Graph.set_ratio_matrix): the first line that is
 * not a comment is a header, every later one a row of integers, kept as
 * given.
 */
module RatioMatrix {
  import opened Base

  /**
   * What set_ratio_matrix has read after some lines: its local header
   * value, the rows appended since the header and, once a line was
   * rejected, the exception it raised.
   */
  datatype RatioState = RatioState(header: Option<int>, rows: seq<seq<int>>, error: Option<Error>)

  const START := RatioState(None, [], None)

  /** One pass of the loop in set_ratio_matrix. */
  function RatioStep(st: RatioState, line: Line): RatioState
  {
    if st.error.Some? then st
    else
      match line
      case Comment => st
      case Fields(vs) =>
        if st.header.None? then
          if |vs| == 1 then RatioState(Some(vs[0]), [], None) else st.(error := Some(Malformed))
        else st.(rows := st.rows + [vs])
  }

  /** The state after reading the lines one after the other, starting from st. */
  function ReadRatios(st: RatioState, lines: seq<Line>): RatioState
    decreases |lines|
  {
    if lines == [] then st
    else RatioStep(ReadRatios(st, lines[..|lines| - 1]), lines[|lines| - 1])
  }

  /**
   * The value of self.ratio_matrix after the read: a new list once the
   * header was read, the earlier value otherwise.
   */
  function MatrixAfter(before: Option<seq<seq<int>>>, st: RatioState): Option<seq<seq<int>>>
  {
    if st.header.Some? then Some(st.rows) else before
  }

  /** Once a line has raised, nothing after it is read. */
  lemma {:induction false} RatioFailureIsFinal(st: RatioState, lines: seq<Line>)
    requires st.error.Some?
    ensures ReadRatios(st, lines) == st
    decreases |lines|
  {
    if lines != [] {
      RatioFailureIsFinal(st, lines[..|lines| - 1]);
    }
  }

  /** A read that failed within the first n lines ends in the state that failure left. */
  lemma {:induction false} RatioFailureInPrefix(st: RatioState, lines: seq<Line>, n: nat)
    requires n <= |lines| && ReadRatios(st, lines[..n]).error.Some?
    ensures ReadRatios(st, lines) == ReadRatios(st, lines[..n])
    decreases |lines| - n
  {
    if n == |lines| {
      assert lines[..n] == lines;
    } else {
      var init := lines[..|lines| - 1];
      assert init[..n] == lines[..n];
      RatioFailureInPrefix(st, init, n);
    }
  }

  /**
   * Comments are skipped, the first other line is the header (one integer,
   * or the read fails as malformed) and every later line becomes one row,
   * in file order, whatever its length and however many there are.
   */
  lemma {:induction false} RowsInFileOrder(lines: seq<Line>)
    ensures var st, data := ReadRatios(START, lines), NonComments(lines);
      && (data == [] ==> st == START)
      && (data != [] && |data[0].values| != 1 ==> st == START.(error := Some(Malformed)))
      && (data != [] && |data[0].values| == 1 ==>
            && st.header == Some(data[0].values[0])
            && st.error.None?
            && |st.rows| == |data| - 1
            && forall n :: 0 <= n < |st.rows| ==> st.rows[n] == data[n + 1].values)
    decreases |lines|
  {
    if lines != [] {
      var init, last := lines[..|lines| - 1], lines[|lines| - 1];
      RowsInFileOrder(init);
      var mid, before := ReadRatios(START, init), NonComments(init);
      var data := NonComments(lines);
      if last.Fields? {
        assert data == before + [last];
        if before != [] {
          assert data[0] == before[0];
          if |before[0].values| == 1 {
            forall n | 0 <= n < |data| - 1
              ensures ReadRatios(START, lines).rows[n] == data[n + 1].values
            {
              if n < |before| - 1 {
                assert data[n + 1] == before[n + 1];
              }
            }
          }
        }
      }
    }
  }
}
