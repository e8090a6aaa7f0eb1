/**
 * The text the generator emits: edge names, decimal integers and the three
 * kinds of LP lines (objective, bound, proportionality constraint), together
 * with readers that recover the values from that text.
 */
module LpText {
  import opened Base

  predicate IsDigit(ch: char) { '0' <= ch <= '9' }

  predicate AllDigits(s: string) { forall k :: 0 <= k < |s| ==> IsDigit(s[k]) }

  function DigitChar(d: nat): (ch: char)
    requires d < 10
    ensures IsDigit(ch)
  {
    (d + 48) as char
  }

  function DigitValue(ch: char): (d: nat)
    requires IsDigit(ch)
    ensures d < 10 && DigitChar(d) == ch
  {
    ch as int - 48
  }

  /**
   * Python's str() of an int: a leading '-' for negative values, then the
   * decimal digits, most significant first.
   */
  function IntString(n: int): string
    decreases if n < 0 then 1 - n else n
  {
    if n < 0 then "-" + IntString(-n)
    else (if n < 10 then "" else IntString(n / 10)) + [DigitChar(n % 10)]
  }

  /** A non-negative integer is written as digits alone. */
  lemma {:induction false} NatStringDigits(n: nat)
    ensures |IntString(n)| >= 1 && AllDigits(IntString(n))
    decreases n
  {
    if n >= 10 {
      NatStringDigits(n / 10);
    }
  }

  /** The decimal form of an integer is a non-empty single word. */
  lemma IntStringWord(n: int)
    ensures |IntString(n)| >= 1 && ' ' !in IntString(n)
  {
    if n < 0 {
      NatStringDigits(-n);
      assert IntString(n)[0] == '-';
      assert forall k :: 1 <= k < |IntString(n)| ==> IntString(n)[k] == IntString(-n)[k - 1];
    } else {
      NatStringDigits(n);
    }
  }

  /** The value of a string of decimal digits (0 for the empty string). */
  function DigitsValue(s: string): nat
    requires AllDigits(s)
    decreases |s|
  {
    if s == [] then 0 else 10 * DigitsValue(s[..|s| - 1]) + DigitValue(s[|s| - 1])
  }

  /** Reads an integer written as decimal digits with an optional leading '-'. */
  function ParseInt(s: string): Option<int>
  {
    if |s| >= 2 && s[0] == '-' && AllDigits(s[1..]) then Some(-(DigitsValue(s[1..]) as int))
    else if |s| >= 1 && AllDigits(s) then Some(DigitsValue(s))
    else None
  }

  lemma {:induction false} DigitsValueOfNatString(n: nat)
    ensures AllDigits(IntString(n)) && DigitsValue(IntString(n)) == n
    decreases n
  {
    var s := IntString(n);
    var p := if n < 10 then "" else IntString(n / 10);
    NatStringDigits(n);
    if n >= 10 {
      NatStringDigits(n / 10);
    }
    assert s == p + [DigitChar(n % 10)];
    assert s[..|s| - 1] == p;
    if n >= 10 {
      DigitsValueOfNatString(n / 10);
    }
    assert DigitsValue(s) == 10 * DigitsValue(p) + n % 10;
  }

  /** Reading back the decimal form of any integer gives the integer. */
  lemma IntStringRoundTrip(n: int)
    ensures ParseInt(IntString(n)) == Some(n)
  {
    if n < 0 {
      var m: nat := -n;
      NatStringDigits(m);
      DigitsValueOfNatString(m);
      ParseNegative(IntString(m), m);
      assert IntString(n) == "-" + IntString(m);
    } else {
      NatStringDigits(n);
      DigitsValueOfNatString(n);
      ParseDigits(IntString(n), n);
    }
  }

  lemma ParseDigits(s: string, n: nat)
    requires |s| >= 1 && AllDigits(s) && DigitsValue(s) == n
    ensures ParseInt(s) == Some(n)
  {
    assert IsDigit(s[0]);
  }

  lemma ParseNegative(s: string, m: nat)
    requires |s| >= 1 && AllDigits(s) && DigitsValue(s) == m
    ensures ParseInt("-" + s) == Some(-(m as int))
  {
    assert ("-" + s)[1..] == s;
  }

  lemma IntStringInjective(a: int, b: int)
    requires IntString(a) == IntString(b)
    ensures a == b
  {
    IntStringRoundTrip(a);
    IntStringRoundTrip(b);
  }

  /** Graph._get_edge: 'x' followed by the decimal forms of both node ids. */
  function EdgeName(n1: int, n2: int): string
  {
    "x" + IntString(n1) + IntString(n2)
  }

  /** An edge name is a single word starting with 'x'. */
  lemma EdgeNameWord(n1: int, n2: int)
    ensures |EdgeName(n1, n2)| >= 3 && EdgeName(n1, n2)[0] == 'x' && ' ' !in EdgeName(n1, n2)
  {
    IntStringWord(n1);
    IntStringWord(n2);
  }

  /** Within one row of the ratio matrix, distinct columns name distinct edges. */
  lemma EdgeNameInjectiveInRow(i: int, j: int, k: int)
    ensures EdgeName(i, j) == EdgeName(i, k) <==> j == k
  {
    if EdgeName(i, j) == EdgeName(i, k) {
      var p := "x" + IntString(i);
      assert EdgeName(i, j) == p + IntString(j);
      assert EdgeName(i, k) == p + IntString(k);
      assert IntString(j) == EdgeName(i, j)[|p|..];
      assert IntString(k) == EdgeName(i, k)[|p|..];
      IntStringInjective(j, k);
    }
  }

  /** While every node id is a single digit, an edge name determines its edge. */
  lemma EdgeNameSingleDigit(a: int, b: int, c: int, d: int)
    requires 0 <= a <= 9 && 0 <= b <= 9 && 0 <= c <= 9 && 0 <= d <= 9
    ensures EdgeName(a, b) == EdgeName(c, d) <==> a == c && b == d
  {
    if EdgeName(a, b) == EdgeName(c, d) {
      assert EdgeName(a, b) == ['x', DigitChar(a), DigitChar(b)];
      assert EdgeName(c, d) == ['x', DigitChar(c), DigitChar(d)];
      assert DigitValue(DigitChar(a)) == a && DigitValue(DigitChar(c)) == c;
      assert DigitValue(DigitChar(b)) == b && DigitValue(DigitChar(d)) == d;
    }
  }

  /** With two-digit node ids the names collide: edges (1, 12) and (11, 2) are both "x112". */
  lemma EdgeNameCollision()
    ensures EdgeName(1, 12) == EdgeName(11, 2) == "x112"
  {
    assert IntString(12) == IntString(1) + ['2'];
    assert IntString(11) == IntString(1) + ['1'];
  }

  /** The fields of s between single spaces, as Python's s.split(' ') gives them. */
  function Split(s: string): (parts: seq<string>)
    ensures |parts| >= 1
    decreases |s|
  {
    if s == [] then [[]]
    else if s[0] == ' ' then [[]] + Split(s[1..])
    else
      var rest := Split(s[1..]);
      [[s[0]] + rest[0]] + rest[1..]
  }

  /** A word without spaces is one field. */
  lemma {:induction false} SplitWord(w: string)
    requires ' ' !in w
    ensures Split(w) == [w]
    decreases |w|
  {
    if w != [] {
      SplitWord(w[1..]);
      assert w == [w[0]] + w[1..];
    }
  }

  /** Splitting at a space splits the two sides apart. */
  lemma {:induction false} SplitAppend(a: string, b: string)
    ensures Split(a + (" " + b)) == Split(a) + Split(b)
    decreases |a|
  {
    var t := a + (" " + b);
    if a == [] {
      assert t == [' '] + b;
      assert t[1..] == b;
    } else {
      assert t[0] == a[0] && t[1..] == a[1..] + (" " + b);
      SplitAppend(a[1..], b);
      if a[0] != ' ' {
        var rest := Split(a[1..]);
        assert Split(t[1..]) == rest + Split(b);
        assert (rest + Split(b))[0] == rest[0];
        assert (rest + Split(b))[1..] == rest[1..] + Split(b);
      }
    }
  }

  /** The text before a final ';', if the text ends with one. */
  function Unterminated(s: string): Option<string>
  {
    if |s| >= 1 && s[|s| - 1] == ';' then Some(s[..|s| - 1]) else None
  }

  lemma UnterminatedRoundTrip(s: string)
    ensures Unterminated(s + ";") == Some(s)
  {
    assert (s + ";")[..|s|] == s;
  }

  /** The bound line of Graph._return_inequation, `edge <= cap;`. */
  function BoundText(edge: string, cap: int): string
  {
    edge + (" " + ("<=" + (" " + (IntString(cap) + ";"))))
  }

  /** Reads the fields of a bound line: the edge, `<=` and the capacity followed by ';'. */
  function ReadBoundFields(parts: seq<string>): Option<(string, int)>
  {
    if |parts| == 3 && parts[1] == "<=" then
      match Unterminated(parts[2])
      case Some(num) =>
        (match ParseInt(num)
         case Some(cap) => Some((parts[0], cap))
         case None => None)
      case None => None
    else None
  }

  /** Reads a bound line back into its edge and capacity. */
  function ReadBound(line: string): Option<(string, int)>
  {
    ReadBoundFields(Split(line))
  }

  lemma BoundFields(edge: string, cap: int)
    requires ' ' !in edge
    ensures Split(BoundText(edge, cap)) == [edge, "<=", IntString(cap) + ";"]
  {
    var last := IntString(cap) + ";";
    IntStringWord(cap);
    assert ' ' !in last;
    SplitWord(last);
    SplitWord("<=");
    SplitWord(edge);
    SplitAppend("<=", last);
    SplitAppend(edge, "<=" + (" " + last));
  }

  /** A bound line reads back as the edge and capacity it was written from. */
  lemma BoundRoundTrip(edge: string, cap: int)
    requires ' ' !in edge
    ensures ReadBound(BoundText(edge, cap)) == Some((edge, cap))
  {
    BoundFields(edge, cap);
    UnterminatedRoundTrip(IntString(cap));
    IntStringRoundTrip(cap);
  }

  /**
   * The proportionality line of Graph._return_ratio_ineqations,
   * `ratio fixedEdge = fixedRatio edge;`, which says
   * fixedEdge / edge = fixedRatio / ratio.
   */
  function ConstraintText(ratio: int, fixedEdge: string, fixedRatio: int, edge: string): string
  {
    IntString(ratio) + (" " + (fixedEdge + (" " + ("=" + (" " + (IntString(fixedRatio) + (" " + (edge + ";"))))))))
  }

  /** Reads the fields of a proportionality line. */
  function ReadConstraintFields(parts: seq<string>): Option<(int, string, int, string)>
  {
    if |parts| == 5 && parts[2] == "=" then
      match ParseInt(parts[0])
      case Some(ratio) =>
        (match ParseInt(parts[3])
         case Some(fixedRatio) =>
           (match Unterminated(parts[4])
            case Some(edge) => Some((ratio, parts[1], fixedRatio, edge))
            case None => None)
         case None => None)
      case None => None
    else None
  }

  /** Reads a proportionality line back into (ratio, fixedEdge, fixedRatio, edge). */
  function ReadConstraint(line: string): Option<(int, string, int, string)>
  {
    ReadConstraintFields(Split(line))
  }

  lemma ConstraintFields(ratio: int, fixedEdge: string, fixedRatio: int, edge: string)
    requires ' ' !in fixedEdge && ' ' !in edge
    ensures Split(ConstraintText(ratio, fixedEdge, fixedRatio, edge))
            == [IntString(ratio), fixedEdge, "=", IntString(fixedRatio), edge + ";"]
  {
    IntStringWord(ratio);
    IntStringWord(fixedRatio);
    assert ' ' !in edge + ";";
    FiveWords(IntString(ratio), fixedEdge, "=", IntString(fixedRatio), edge + ";");
  }

  /** Five words joined by single spaces split back into the five words. */
  lemma FiveWords(a: string, b: string, c: string, d: string, e: string)
    requires ' ' !in a && ' ' !in b && ' ' !in c && ' ' !in d && ' ' !in e
    ensures Split(a + (" " + (b + (" " + (c + (" " + (d + (" " + e)))))))) == [a, b, c, d, e]
  {
    var t3 := d + (" " + e);
    var t2 := c + (" " + t3);
    var t1 := b + (" " + t2);
    SplitWord(a);
    SplitWord(b);
    SplitWord(c);
    SplitWord(d);
    SplitWord(e);
    SplitAppend(d, e);
    SplitAppend(c, t3);
    SplitAppend(b, t2);
    SplitAppend(a, t1);
  }

  /** A proportionality line reads back as the four values it was written from. */
  lemma ConstraintRoundTrip(ratio: int, fixedEdge: string, fixedRatio: int, edge: string)
    requires ' ' !in fixedEdge && ' ' !in edge
    ensures ReadConstraint(ConstraintText(ratio, fixedEdge, fixedRatio, edge))
            == Some((ratio, fixedEdge, fixedRatio, edge))
  {
    var parts := Split(ConstraintText(ratio, fixedEdge, fixedRatio, edge));
    ConstraintFields(ratio, fixedEdge, fixedRatio, edge);
    ConstraintFieldsRoundTrip(ratio, fixedEdge, fixedRatio, edge);
  }

  lemma ConstraintFieldsRoundTrip(ratio: int, fixedEdge: string, fixedRatio: int, edge: string)
    ensures ReadConstraintFields([IntString(ratio), fixedEdge, "=", IntString(fixedRatio), edge + ";"])
            == Some((ratio, fixedEdge, fixedRatio, edge))
  {
    IntStringRoundTrip(ratio);
    IntStringRoundTrip(fixedRatio);
    UnterminatedRoundTrip(edge);
    ReadFiveFields(IntString(ratio), fixedEdge, IntString(fixedRatio), edge + ";", ratio, fixedRatio, edge);
  }

  lemma ReadFiveFields(r: string, fe: string, f: string, last: string, ratio: int, fixedRatio: int, edge: string)
    requires ParseInt(r) == Some(ratio) && ParseInt(f) == Some(fixedRatio) && Unterminated(last) == Some(edge)
    ensures ReadConstraintFields([r, fe, "=", f, last]) == Some((ratio, fe, fixedRatio, edge))
  {
  }

  /**
   * The objective of Graph.get_objective_equation before its final ';':
   * `max:` followed by ` + e` for every edge, in order.
   */
  function ObjectiveSoFar(edges: seq<string>): string
    decreases |edges|
  {
    if edges == [] then "max:"
    else ObjectiveSoFar(edges[..|edges| - 1]) + (" " + ("+" + (" " + edges[|edges| - 1])))
  }

  /** The objective line: `max: + e1 + e2 ... ;`. */
  function ObjectiveText(edges: seq<string>): string
  {
    ObjectiveSoFar(edges) + ";"
  }

  /** The fields after `max:`: `+` and the edge, for every edge. */
  function TermFields(edges: seq<string>): seq<string>
    decreases |edges|
  {
    if edges == [] then [] else TermFields(edges[..|edges| - 1]) + ["+", edges[|edges| - 1]]
  }

  /** Reads `+ e` pairs back into the edges. */
  function ReadTerms(tokens: seq<string>): Option<seq<string>>
    decreases |tokens|
  {
    if tokens == [] then Some([])
    else if |tokens| >= 2 && tokens[|tokens| - 2] == "+" then
      match ReadTerms(tokens[..|tokens| - 2])
      case Some(edges) => Some(edges + [tokens[|tokens| - 1]])
      case None => None
    else None
  }

  /** Reads an objective line back into its list of edges. */
  function ReadObjective(line: string): Option<seq<string>>
  {
    match Unterminated(line)
    case Some(body) =>
      var parts := Split(body);
      if parts[0] == "max:" then ReadTerms(parts[1..]) else None
    case None => None
  }

  predicate SpaceFree(edges: seq<string>)
  {
    forall n :: 0 <= n < |edges| ==> ' ' !in edges[n]
  }

  lemma {:induction false} ObjectiveFields(edges: seq<string>)
    requires SpaceFree(edges)
    ensures Split(ObjectiveSoFar(edges)) == ["max:"] + TermFields(edges)
    decreases |edges|
  {
    if edges == [] {
      SplitWord("max:");
    } else {
      var init, e := edges[..|edges| - 1], edges[|edges| - 1];
      assert SpaceFree(init) by {
        forall n | 0 <= n < |init| ensures ' ' !in init[n] {
          assert init[n] == edges[n];
        }
      }
      ObjectiveFields(init);
      SplitWord("+");
      SplitWord(e);
      SplitAppend("+", e);
      SplitAppend(ObjectiveSoFar(init), "+" + (" " + e));
    }
  }

  lemma {:induction false} ReadTermFields(edges: seq<string>)
    ensures ReadTerms(TermFields(edges)) == Some(edges)
    decreases |edges|
  {
    if edges != [] {
      var init := edges[..|edges| - 1];
      var fields := TermFields(edges);
      ReadTermFields(init);
      assert fields[..|fields| - 2] == TermFields(init);
      assert edges == init + [edges[|edges| - 1]];
    }
  }

  /** Reading the objective line back gives exactly the edges it was built from, in order. */
  lemma ObjectiveRoundTrip(edges: seq<string>)
    requires SpaceFree(edges)
    ensures ReadObjective(ObjectiveText(edges)) == Some(edges)
  {
    UnterminatedRoundTrip(ObjectiveSoFar(edges));
    ObjectiveFields(edges);
    ReadTermFields(edges);
    assert (["max:"] + TermFields(edges))[1..] == TermFields(edges);
  }
}
