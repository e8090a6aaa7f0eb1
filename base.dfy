/**
 * Values shared by every part of the LP model generator: optional values,
 * results, the exceptions main.py raises and the shape of an input line.
 */
module Base {

  datatype Option<T> = None | Some(value: T)

  datatype Result<T> = Success(value: T) | Failure(error: Error)

  /** The exceptions raised while reading the inputs or walking the ratio matrix. */
  datatype Error =
    | Malformed                             // int() or tuple unpacking rejects a line (ValueError)
    | AmbiguousCapacity(e1: int, e2: int)   // an edge read twice with two capacities
    | MissingEdge(edge: string)             // a positive ratio on an edge without capacity
    | NotLoaded                             // the assertions guarding the traversal

  /**
   * One line of an input file. A line that starts with '#' is a Comment;
   * any other line arrives already split at white space, its tokens read as
   * integers.
   */
  datatype Line = Comment | Fields(values: seq<int>)

  /** The lines that are not comments, in file order. */
  function NonComments(lines: seq<Line>): (data: seq<Line>)
    ensures |data| <= |lines|
    ensures forall n :: 0 <= n < |data| ==> data[n].Fields? && data[n] in lines
    decreases |lines|
  {
    if lines == [] then []
    else
      var last := lines[|lines| - 1];
      NonComments(lines[..|lines| - 1]) + (if last.Comment? then [] else [last])
  }

  /**
   * The truth value of `graph.get(edge)`: the edge is present with a
   * non-zero capacity. A stored 0 counts as absent.
   */
  predicate HasCapacity(graph: map<string, int>, edge: string)
  {
    edge in graph && graph[edge] != 0
  }
}
