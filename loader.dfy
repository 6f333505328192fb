/**
 * The per-line rule of the edge-list loader: split a line at whitespace,
 * keep the tokens that parse as unsigned integers, and when exactly two
 * remain insert the edge in both directions. Reading the file is not modelled;
 * the lines are given as a sequence.
 */
module Loader {
  import opened Wrappers
  import opened Adjacency

  /** The largest node id: node ids are 64-bit unsigned integers. */
  const UsizeMax: nat := 0xFFFF_FFFF_FFFF_FFFF

  /** The characters that have the Unicode White_Space property. */
  predicate IsWhitespace(c: char)
  {
    || c == '\t' || c == '\n' || c == '\U{B}' || c == '\U{C}' || c == '\r' || c == ' '
    || c == '\U{85}' || c == '\U{A0}' || c == '\U{1680}' || ('\U{2000}' <= c <= '\U{200A}')
    || c == '\U{2028}' || c == '\U{2029}' || c == '\U{202F}' || c == '\U{205F}' || c == '\U{3000}'
  }

  predicate NoWhitespace(s: string)
  {
    forall i :: 0 <= i < |s| ==> !IsWhitespace(s[i])
  }

  /** The characters of s that are not whitespace, in order. */
  function Squeeze(s: string): string
  {
    if s == [] then []
    else if IsWhitespace(s[0]) then Squeeze(s[1..])
    else [s[0]] + Squeeze(s[1..])
  }

  function Concat(ts: seq<string>): string
  {
    if ts == [] then [] else ts[0] + Concat(ts[1..])
  }

  /**
   * The whitespace-separated tokens of s, where cur is the part of a token
   * already read. Every token is non-empty and free of whitespace, and
   * together they hold exactly the non-whitespace characters.
   */
  function SplitFrom(s: string, cur: string): (r: seq<string>)
    requires NoWhitespace(cur)
    ensures forall i :: 0 <= i < |r| ==> r[i] != [] && NoWhitespace(r[i])
    ensures Concat(r) == cur + Squeeze(s)
    decreases |s|
  {
    if s == [] then
      if cur == [] then [] else ConcatCons(cur, []); [cur]
    else if IsWhitespace(s[0]) then
      var rest := SplitFrom(s[1..], []);
      ConcatCons(cur, rest);
      if cur == [] then rest else [cur] + rest
    else
      SqueezeCons(cur, s);
      SplitFrom(s[1..], cur + [s[0]])
  }

  lemma ConcatCons(t: string, ts: seq<string>)
    ensures Concat([t] + ts) == t + Concat(ts)
  {
    assert ([t] + ts)[1..] == ts;
  }

  lemma SqueezeCons(cur: string, s: string)
    requires s != [] && !IsWhitespace(s[0])
    ensures cur + [s[0]] + Squeeze(s[1..]) == cur + Squeeze(s)
  {
  }

  /**
   * The tokens of a line, as split at whitespace: non-empty, free of
   * whitespace, and together exactly the line's other characters.
   * `TokensOfLayout` shows they are the maximal runs between blanks.
   */
  function Tokens(line: string): (r: seq<string>)
    ensures forall i :: 0 <= i < |r| ==> r[i] != [] && NoWhitespace(r[i])
    ensures Concat(r) == Squeeze(line)
  {
    assert [] + Squeeze(line) == Squeeze(line);
    SplitFrom(line, [])
  }

  predicate IsDigit(c: char)
  {
    '0' <= c <= '9'
  }

  predicate AllDigits(s: string)
  {
    forall i :: 0 <= i < |s| ==> IsDigit(s[i])
  }

  /** The value of a string of decimal digits. */
  function DigitsValue(ds: string): nat
    requires AllDigits(ds)
  {
    if ds == [] then 0
    else DigitsValue(ds[..|ds| - 1]) * 10 + (ds[|ds| - 1] as int - '0' as int)
  }

  /**
   * Parsing a token as a 64-bit unsigned integer: an optional leading '+',
   * then one or more decimal digits, with a value of at most UsizeMax.
   */
  function ParseUsize(tok: string): (r: Option<nat>)
    ensures r.Some? ==> r.value <= UsizeMax
    ensures r.Some? ==> tok != [] && (tok[0] == '+' || IsDigit(tok[0]))
  {
    if tok == [] then None
    else
      var digits := if tok[0] == '+' then tok[1..] else tok;
      if digits == [] || !AllDigits(digits) then None
      else if DigitsValue(digits) > UsizeMax then None
      else Some(DigitsValue(digits))
  }

  /** The tokens that parse, as numbers, in order; the others are dropped. */
  function ParsedNumbers(ts: seq<string>): (r: seq<nat>)
    ensures |r| <= |ts|
    ensures forall i :: 0 <= i < |r| ==> r[i] <= UsizeMax
  {
    if ts == [] then []
    else
      match ParseUsize(ts[0])
      case Some(n) => [n] + ParsedNumbers(ts[1..])
      case None => ParsedNumbers(ts[1..])
  }

  /** The edge a line denotes: present when exactly two of its tokens parse. */
  function LineEdge(line: string): (r: Option<(Node, Node)>)
    ensures r.Some? ==> r.value.0 <= UsizeMax && r.value.1 <= UsizeMax
    ensures r.Some? ==> |Tokens(line)| >= 2
  {
    var ns := ParsedNumbers(Tokens(line));
    if |ns| == 2 then Some((ns[0], ns[1])) else None
  }

  /** Adds v to the neighbour set of u, creating the entry when u is not yet a key. */
  function AddArc(g: Graph, u: Node, v: Node): Graph
  {
    g[u := Neighbors(g, u) + {v}]
  }

  /** One loop iteration of the loader: insert the line's edge in both directions, if it has one. */
  function InsertLine(g: Graph, line: string): (r: Graph)
    ensures g.Keys <= r.Keys
    ensures forall u :: Neighbors(g, u) <= Neighbors(r, u)
    ensures LineEdge(line) == None ==> r == g
  {
    match LineEdge(line)
    case None => g
    case Some((a, b)) => AddArc(AddArc(g, a, b), b, a)
  }

  /** The edge e joins u and v, in either direction. */
  predicate Links(e: Option<(Node, Node)>, u: Node, v: Node)
  {
    e == Some((u, v)) || e == Some((v, u))
  }

  /** One of the first n lines denotes an edge between u and v. */
  ghost predicate EdgeBefore(lines: seq<string>, n: nat, u: Node, v: Node)
    requires n <= |lines|
  {
    exists i :: 0 <= i < n && Links(LineEdge(lines[i]), u, v)
  }

  /**
   * Inserting a line adds exactly the edge it denotes, in both directions,
   * creates a key only for an endpoint, and keeps every other entry.
   */
  lemma InsertLineEdges(g: Graph, line: string)
    ensures forall u, v :: v in Neighbors(InsertLine(g, line), u) <==>
      v in Neighbors(g, u) || Links(LineEdge(line), u, v)
    ensures forall u :: u in InsertLine(g, line) ==> u in g || exists v :: Links(LineEdge(line), u, v)
  {
    var h := InsertLine(g, line);
    match LineEdge(line)
    case None =>
    case Some((a, b)) =>
      forall u, v
        ensures v in Neighbors(h, u) <==> v in Neighbors(g, u) || Links(LineEdge(line), u, v)
      {
      }
      forall u | u in h
        ensures u in g || exists v :: Links(LineEdge(line), u, v)
      {
        if u == a {
          assert Links(LineEdge(line), a, b);
        } else if u == b {
          assert Links(LineEdge(line), b, a);
        }
      }
  }

  /** Inserting a line keeps a graph symmetric and free of empty entries. */
  lemma InsertLineSymmetric(g: Graph, line: string)
    requires Symmetric(g) && NoEmptyEntries(g)
    ensures Symmetric(InsertLine(g, line)) && NoEmptyEntries(InsertLine(g, line))
  {
    InsertLineEdges(g, line);
    var h := InsertLine(g, line);
    forall u, v | v in Neighbors(h, u)
      ensures u in Neighbors(h, v)
    {
      if !Links(LineEdge(line), u, v) {
        assert v in Neighbors(g, u);
        assert u in Neighbors(g, v);
      }
    }
  }

  /** A line inserted twice leaves the graph as inserting it once does. */
  lemma InsertLineIdempotent(g: Graph, line: string)
    ensures InsertLine(InsertLine(g, line), line) == InsertLine(g, line)
  {
    var h := InsertLine(g, line);
    match LineEdge(line)
    case None =>
    case Some((a, b)) =>
      assert b in h[a] && a in h[b];
      assert AddArc(h, a, b) == h;
      assert AddArc(AddArc(h, a, b), b, a) == h;
  }

  /** A line whose edge is already stored in both directions changes nothing. */
  lemma InsertPresentEdge(g: Graph, line: string, a: Node, b: Node)
    requires LineEdge(line) == Some((a, b))
    requires b in Neighbors(g, a) && a in Neighbors(g, b)
    ensures InsertLine(g, line) == g
  {
    assert a in g && g[a] + {b} == g[a];
    assert AddArc(g, a, b) == g;
    assert b in g && g[b] + {a} == g[b];
  }

  /**
   * Loading lines one after another, from an empty graph: the result is
   * symmetric, has no empty entry, and holds exactly the edges the accepted
   * lines denote.
   */
  method ReadGraph(lines: seq<string>) returns (g: Graph)
    ensures Symmetric(g) && NoEmptyEntries(g)
    ensures forall u, v :: v in Neighbors(g, u) <==> EdgeBefore(lines, |lines|, u, v)
  {
    g := map[];
    var n := 0;
    while n < |lines|
      invariant 0 <= n <= |lines|
      invariant Symmetric(g) && NoEmptyEntries(g)
      invariant forall u, v :: v in Neighbors(g, u) <==> EdgeBefore(lines, n, u, v)
    {
      InsertLineEdges(g, lines[n]);
      InsertLineSymmetric(g, lines[n]);
      forall u, v
        ensures EdgeBefore(lines, n + 1, u, v) <==> EdgeBefore(lines, n, u, v) || Links(LineEdge(lines[n]), u, v)
      {
        if EdgeBefore(lines, n + 1, u, v) && !Links(LineEdge(lines[n]), u, v) {
          var i :| 0 <= i < n + 1 && Links(LineEdge(lines[i]), u, v);
          assert i < n;
        }
      }
      g := InsertLine(g, lines[n]);
      n := n + 1;
    }
  }

  function DigitChar(d: nat): char
    requires d < 10
  {
    ('0' as int + d) as char
  }

  /** The decimal notation of n, without leading zeros. */
  function Decimal(n: nat): (s: string)
    ensures s != [] && AllDigits(s) && NoWhitespace(s)
  {
    if n < 10 then [DigitChar(n)] else Decimal(n / 10) + [DigitChar(n % 10)]
  }

  lemma {:induction false} DecimalValue(n: nat)
    ensures DigitsValue(Decimal(n)) == n
  {
    if n >= 10 {
      DecimalValue(n / 10);
      var s := Decimal(n);
      assert s[..|s| - 1] == Decimal(n / 10);
    }
  }

  /**
   * A number written in decimal, with or without a leading '+', parses back
   * to itself when it fits in 64 bits; a larger one is refused.
   */
  lemma ParseDecimal(n: nat)
    ensures ParseUsize(Decimal(n)) == if n <= UsizeMax then Some(n) else None
    ensures n <= UsizeMax ==> ParseUsize("+" + Decimal(n)) == Some(n)
  {
    DecimalValue(n);
    assert ("+" + Decimal(n))[1..] == Decimal(n);
  }

  /** A token that is '-' followed by anything is refused. */
  lemma ParseRejectsMinus(tok: string)
    requires tok != [] && tok[0] == '-'
    ensures ParseUsize(tok) == None
  {
    assert !IsDigit(tok[0]);
  }

  /** Tokens written one after another, separated by single spaces. */
  function Join(ts: seq<string>): string
  {
    if ts == [] then []
    else if |ts| == 1 then ts[0]
    else ts[0] + " " + Join(ts[1..])
  }

  lemma {:induction false} SplitWord(t: string, rest: string, cur: string)
    requires NoWhitespace(cur) && NoWhitespace(t)
    ensures SplitFrom(t + rest, cur) == SplitFrom(rest, cur + t)
    decreases |t|
  {
    if t == [] {
      assert t + rest == rest && cur + t == cur;
    } else {
      assert (t + rest)[0] == t[0] && (t + rest)[1..] == t[1..] + rest;
      SplitWord(t[1..], rest, cur + [t[0]]);
      assert cur + [t[0]] + t[1..] == cur + t;
    }
  }

  /** Splitting undoes joining: tokens joined by spaces split back into the same tokens. */
  lemma {:induction false} TokensOfJoin(ts: seq<string>)
    requires forall i :: 0 <= i < |ts| ==> ts[i] != [] && NoWhitespace(ts[i])
    ensures Tokens(Join(ts)) == ts
  {
    if |ts| == 1 {
      SplitWord(ts[0], [], []);
      assert ts[0] + [] == ts[0] && [] + ts[0] == ts[0];
    } else if |ts| > 1 {
      TokensOfJoin(ts[1..]);
      var rest := " " + Join(ts[1..]);
      assert Join(ts) == ts[0] + rest;
      SplitWord(ts[0], rest, []);
      assert [] + ts[0] == ts[0];
      assert rest[0] == ' ' && rest[1..] == Join(ts[1..]);
      assert SplitFrom(rest, ts[0]) == [ts[0]] + Tokens(Join(ts[1..]));
      assert ts == [ts[0]] + ts[1..];
    }
  }

  /** Every character of s is whitespace (s may be empty). */
  predicate Blank(s: string)
  {
    forall i :: 0 <= i < |s| ==> IsWhitespace(s[i])
  }

  /** Tokens laid out one after another, each followed by its own run of whitespace. */
  function Layout(ts: seq<string>, gaps: seq<string>): string
    requires |gaps| == |ts|
  {
    if ts == [] then [] else ts[0] + gaps[0] + Layout(ts[1..], gaps[1..])
  }

  /** Leading whitespace produces no token. */
  lemma {:induction false} SkipBlanks(w: string, rest: string)
    requires Blank(w)
    ensures SplitFrom(w + rest, []) == SplitFrom(rest, [])
    decreases |w|
  {
    if w == [] {
      assert w + rest == rest;
    } else {
      assert (w + rest)[0] == w[0] && (w + rest)[1..] == w[1..] + rest;
      SkipBlanks(w[1..], rest);
    }
  }

  lemma {:induction false} SplitLayout(ts: seq<string>, gaps: seq<string>)
    requires |gaps| == |ts|
    requires forall i :: 0 <= i < |ts| ==> ts[i] != [] && NoWhitespace(ts[i]) && Blank(gaps[i])
    requires forall i :: 0 <= i < |ts| - 1 ==> gaps[i] != []
    ensures SplitFrom(Layout(ts, gaps), []) == ts
  {
    if ts != [] {
      var tail := Layout(ts[1..], gaps[1..]);
      SplitLayout(ts[1..], gaps[1..]);
      assert Layout(ts, gaps) == ts[0] + (gaps[0] + tail);
      SplitFirst(ts[0], gaps[0], tail);
      assert ts == [ts[0]] + ts[1..];
    }
  }

  /** A token followed by whitespace, or by nothing at all, is split off whole. */
  lemma SplitFirst(t: string, w: string, tail: string)
    requires t != [] && NoWhitespace(t) && Blank(w)
    requires w != [] || tail == []
    ensures SplitFrom(t + (w + tail), []) == [t] + SplitFrom(tail, [])
  {
    SplitWord(t, w + tail, []);
    assert [] + t == t;
    if w == [] {
      assert w + tail == [];
    } else {
      assert (w + tail)[0] == w[0] && (w + tail)[1..] == w[1..] + tail;
      SkipBlanks(w[1..], tail);
    }
  }

  /**
   * Splitting finds exactly the maximal whitespace-free runs: a line made of
   * optional leading whitespace, then tokens each followed by whitespace
   * (non-empty between two tokens, possibly empty after the last) splits
   * into exactly those tokens.
   */
  lemma TokensOfLayout(lead: string, ts: seq<string>, gaps: seq<string>)
    requires Blank(lead) && |gaps| == |ts|
    requires forall i :: 0 <= i < |ts| ==> ts[i] != [] && NoWhitespace(ts[i]) && Blank(gaps[i])
    requires forall i :: 0 <= i < |ts| - 1 ==> gaps[i] != []
    ensures Tokens(lead + Layout(ts, gaps)) == ts
  {
    SkipBlanks(lead, Layout(ts, gaps));
    SplitLayout(ts, gaps);
  }

  lemma ParsedCons(t: string, rest: seq<string>)
    ensures ParsedNumbers([t] + rest)
      == (if ParseUsize(t).Some? then [ParseUsize(t).value] else []) + ParsedNumbers(rest)
  {
    assert ([t] + rest)[0] == t && ([t] + rest)[1..] == rest;
  }

  /** "u v" is accepted as the edge (u, v). */
  lemma AcceptPair(u: Node, v: Node)
    requires u <= UsizeMax && v <= UsizeMax
    ensures LineEdge(Decimal(u) + " " + Decimal(v)) == Some((u, v))
  {
    var a, b := Decimal(u), Decimal(v);
    var ts := [a, b];
    TokensOfJoin(ts);
    assert Join(ts[1..]) == b;
    assert Join(ts) == a + " " + b;
    ParseDecimal(u);
    ParseDecimal(v);
    ParsedCons(b, []);
    ParsedCons(a, [b]);
    assert ts == [a] + [b] && [b] == [b] + [];
  }

  /** A token that does not parse is dropped: "u t v" is still the edge (u, v). */
  lemma DropUnparsed(u: Node, t: string, v: Node)
    requires u <= UsizeMax && v <= UsizeMax
    requires t != [] && NoWhitespace(t) && ParseUsize(t) == None
    ensures LineEdge(Decimal(u) + " " + t + " " + Decimal(v)) == Some((u, v))
  {
    var a, b := Decimal(u), Decimal(v);
    TokensOfTriple(a, t, b);
    ParseDecimal(u);
    ParseDecimal(v);
    ParsedCons(b, []);
    ParsedCons(t, [b]);
    ParsedCons(a, [t, b]);
    assert [a, t, b] == [a] + [t, b] && [t, b] == [t] + [b] && [b] == [b] + [];
  }

  lemma TokensOfTriple(a: string, b: string, c: string)
    requires a != [] && NoWhitespace(a) && b != [] && NoWhitespace(b) && c != [] && NoWhitespace(c)
    ensures Tokens(a + " " + b + " " + c) == [a, b, c]
  {
    var ts := [a, b, c];
    TokensOfJoin(ts);
    assert Join(ts[1..][1..]) == c;
    assert Join(ts[1..]) == b + " " + c;
    assert Join(ts) == a + " " + b + " " + c;
  }

  /** A line with three tokens that all parse is refused. */
  lemma RefuseTriple(a: string, b: string, c: string)
    requires a != [] && NoWhitespace(a) && b != [] && NoWhitespace(b) && c != [] && NoWhitespace(c)
    requires ParseUsize(a).Some? && ParseUsize(b).Some? && ParseUsize(c).Some?
    ensures LineEdge(a + " " + b + " " + c) == None
  {
    TokensOfTriple(a, b, c);
    ParsedCons(c, []);
    ParsedCons(b, [c]);
    ParsedCons(a, [b, c]);
    assert [a, b, c] == [a] + [b, c] && [b, c] == [b] + [c] && [c] == [c] + [];
  }
}
