/**
 * Reading the graph document back. `quote` escapes nothing, so the lines can
 * be read back exactly when no name holds a double quote, which is the case
 * for every Ruby method name. With that, the lines `render` writes and the
 * statements they stand for determine each other.
 */
module DotFormat {
  import opened Wrappers
  import opened CallTable
  import opened Dot

  /** A name with no double quote in it. */
  predicate Quotable(name: string)
  {
    '"' !in name
  }

  predicate QuotableStmt(s: Stmt)
  {
    match s
    case NodeDecl(n) => Quotable(n)
    case Edge(a, b) => Quotable(a) && Quotable(b)
  }

  /** Every key and every recorded target of the table is quotable. */
  predicate QuotableTable(t: Table)
  {
    forall k :: k in t.lists ==> Quotable(k) && forall x :: x in t.lists[k] ==> Quotable(x)
  }

  /** The position of the first double quote in `s`, or `|s|` if there is none. */
  function QuoteAt(s: string): (r: nat)
    ensures r <= |s|
    ensures r < |s| ==> s[r] == '"'
    ensures forall i :: 0 <= i < r ==> s[i] != '"'
  {
    if s == [] then 0 else if s[0] == '"' then 0 else 1 + QuoteAt(s[1..])
  }

  /** The statement a body line stands for, if it is one. */
  function ParseLine(l: string): Option<Stmt>
  {
    if |l| < 3 || l[..3] != "  \"" then None
    else
      var rest := l[3..];
      var j := QuoteAt(rest);
      if j == |rest| then None
      else
        var src, tail := rest[..j], rest[j + 1..];
        if tail == " [style=filled];" then Some(NodeDecl(src))
        else if 7 <= |tail| && tail[..5] == " -> \"" && tail[|tail| - 2..] == "\";"
                && Quotable(tail[5..|tail| - 2])
        then Some(Edge(src, tail[5..|tail| - 2]))
        else None
  }

  /** The statements of a sequence of body lines, if every line is one. */
  function ParseBody(ls: seq<string>): Option<seq<Stmt>>
    decreases |ls|
  {
    if ls == [] then Some([])
    else
      match ParseBody(ls[..|ls| - 1])
      case None => None
      case Some(ss) =>
        match ParseLine(ls[|ls| - 1])
        case None => None
        case Some(s) => Some(ss + [s])
  }

  /** The statements of a whole document: the header, body lines, the footer. */
  function ParseDocument(doc: seq<string>): Option<seq<Stmt>>
  {
    if |doc| < 3 || doc[..2] != HeaderLines || doc[|doc| - 1] != FooterLine then None
    else ParseBody(doc[2..|doc| - 1])
  }

  lemma QuoteAtFirst(a: string, b: string)
    requires Quotable(a)
    ensures QuoteAt(a + "\"" + b) == |a|
  {
    var s := a + "\"" + b;
    assert s[|a|] == '"';
    assert forall i :: 0 <= i < |a| ==> s[i] == a[i];
  }

  /** A line made of the opening `  "`, a quotable name, a `"` and a tail: the name and the tail are read back. */
  lemma SplitAtQuote(l: string, name: string, tail: string)
    requires Quotable(name) && l == "  \"" + (name + "\"" + tail)
    ensures |l| >= 3 && l[..3] == "  \""
    ensures QuoteAt(l[3..]) == |name| < |l[3..]|
    ensures l[3..][..|name|] == name && l[3..][|name| + 1..] == tail
  {
    assert l[3..] == name + "\"" + tail;
    QuoteAtFirst(name, tail);
  }

  lemma NodeLineParts(n: string)
    ensures Line(NodeDecl(n)) == "  \"" + (n + "\"" + " [style=filled];")
  {
  }

  lemma EdgeLineParts(a: string, b: string)
    ensures Line(Edge(a, b)) == "  \"" + (a + "\"" + (" -> \"" + b + "\";"))
  {
  }

  lemma EdgeTail(b: string)
    ensures var tail := " -> \"" + b + "\";";
            && tail != " [style=filled];"
            && 7 <= |tail| && tail[..5] == " -> \"" && tail[|tail| - 2..] == "\";"
            && tail[5..|tail| - 2] == b
  {
    var tail := " -> \"" + b + "\";";
    assert tail[1] == '-';
  }

  /** A quotable statement's line reads back as that statement. */
  lemma ParseLineOfLine(s: Stmt)
    requires QuotableStmt(s)
    ensures ParseLine(Line(s)) == Some(s)
  {
    match s
    case NodeDecl(n) =>
      NodeLineParts(n);
      SplitAtQuote(Line(s), n, " [style=filled];");
    case Edge(a, b) =>
      EdgeLineParts(a, b);
      SplitAtQuote(Line(s), a, " -> \"" + b + "\";");
      EdgeTail(b);
  }

  /** A line that reads as a statement is exactly that statement's line, and the statement is quotable. */
  lemma LineOfParseLine(l: string, s: Stmt)
    requires ParseLine(l) == Some(s)
    ensures Line(s) == l && QuotableStmt(s)
  {
    var rest := l[3..];
    var j := QuoteAt(rest);
    var src, tail := rest[..j], rest[j + 1..];
    QuotePrefix(rest, j);
    assert l == l[..3] + rest;
    if tail == " [style=filled];" {
      NodeLineParts(src);
    } else {
      EdgeTailParts(tail);
      EdgeLineParts(src, tail[5..|tail| - 2]);
    }
  }

  /** The text before the first double quote is quotable, and the text splits around that quote. */
  lemma QuotePrefix(rest: string, j: nat)
    requires j == QuoteAt(rest) < |rest|
    ensures Quotable(rest[..j]) && rest == rest[..j] + "\"" + rest[j + 1..]
  {
    forall i | 0 <= i < j ensures rest[..j][i] != '"' { assert rest[..j][i] == rest[i]; }
    SplitAround(rest, j);
  }

  lemma SplitAround(s: string, j: nat)
    requires j < |s|
    ensures s == s[..j] + [s[j]] + s[j + 1..]
  {
    assert s == s[..j] + s[j..];
    assert s[j..] == [s[j]] + s[j + 1..];
  }

  lemma EdgeTailParts(tail: string)
    requires 7 <= |tail| && tail[..5] == " -> \"" && tail[|tail| - 2..] == "\";"
    ensures tail == " -> \"" + tail[5..|tail| - 2] + "\";"
  {
    assert tail == tail[..5] + tail[5..|tail| - 2] + tail[|tail| - 2..];
  }

  /** Two quotable statements with the same line are the same statement. */
  lemma LineInjective(s: Stmt, s': Stmt)
    requires QuotableStmt(s) && QuotableStmt(s') && Line(s) == Line(s')
    ensures s == s'
  {
    ParseLineOfLine(s);
    ParseLineOfLine(s');
  }

  lemma {:induction false} ParseBodyOfLines(ss: seq<Stmt>)
    requires forall s :: s in ss ==> QuotableStmt(s)
    ensures ParseBody(Lines(ss)) == Some(ss)
    decreases |ss|
  {
    if ss != [] {
      var p, last := ss[..|ss| - 1], ss[|ss| - 1];
      assert ss == p + [last];
      ParseBodyOfLines(p);
      ParseLineOfLine(last);
      ParseBodySnoc(Lines(p), p, Line(last), last);
      LinesConcat(p, [last]);
    }
  }

  lemma ParseBodySnoc(ls: seq<string>, ss: seq<Stmt>, l: string, s: Stmt)
    requires ParseBody(ls) == Some(ss) && ParseLine(l) == Some(s)
    ensures ParseBody(ls + [l]) == Some(ss + [s])
  {
    assert (ls + [l])[..|ls|] == ls;
  }

  /** Every statement of a quotable table's graph body is quotable. */
  lemma StatementsQuotable(t: Table)
    requires CallTable.Valid(t) && QuotableTable(t)
    ensures forall s :: s in Statements(t, t.keys) ==> QuotableStmt(s)
  {
    StatementsSound(t, t.keys);
  }

  /** The document of a quotable table reads back as exactly its graph body. */
  lemma DocumentRoundTrip(t: Table)
    requires CallTable.Valid(t) && QuotableTable(t)
    ensures ParseDocument(Document(t)) == Some(Statements(t, t.keys))
  {
    var body := Statements(t, t.keys);
    var doc := Document(t);
    assert doc[..2] == HeaderLines;
    assert doc[2..|doc| - 1] == Lines(body);
    StatementsQuotable(t);
    ParseBodyOfLines(body);
  }

  lemma EdgeLineStart(src: string, dst: string)
    ensures |Line(Edge(src, dst))| >= 2 && Line(Edge(src, dst))[0] == ' ' && Line(Edge(src, dst))[1] == ' '
  {
  }

  /** Neither header line nor the footer can be mistaken for an edge line. */
  lemma FramingIsNoEdge(src: string, dst: string)
    ensures Line(Edge(src, dst)) !in HeaderLines && Line(Edge(src, dst)) != FooterLine
  {
    EdgeLineStart(src, dst);
    assert HeaderLines[0][0] == 'd' && HeaderLines[1][1] == 'p';
  }

  /** A line outside the framing and the body lines is not in the document. */
  lemma NotInDocument(t: Table, l: string)
    requires l !in HeaderLines && l != FooterLine && l !in Lines(Statements(t, t.keys))
    ensures l !in Document(t)
  {
  }

  /** No body line is the line of an edge that is not in the body. */
  lemma NotInBody(body: seq<Stmt>, e: Stmt)
    requires QuotableStmt(e) && e !in body
    requires forall s :: s in body ==> QuotableStmt(s)
    ensures Line(e) !in Lines(body)
  {
    forall i | 0 <= i < |body| ensures Lines(body)[i] != Line(e) {
      if Line(body[i]) == Line(e) {
        LineInjective(body[i], e);
      }
    }
  }

  /**
   * No line of the document is an edge to a blacklisted name: for instance a
   * method that calls `log` gets no `"m" -> "log";` line.
   */
  lemma NoBlacklistedEdgeLine(t: Table, src: string, dst: string)
    requires CallTable.Valid(t) && QuotableTable(t)
    requires Quotable(src) && dst in BLACKLIST
    ensures Line(Edge(src, dst)) !in Document(t)
  {
    var body := Statements(t, t.keys);
    StatementsQuotable(t);
    StatementsSound(t, t.keys);
    assert Edge(src, dst) !in body;
    BlacklistQuotable(dst);
    NotInBody(body, Edge(src, dst));
    FramingIsNoEdge(src, dst);
    NotInDocument(t, Line(Edge(src, dst)));
  }

  lemma BlacklistQuotable(x: string)
    requires x in BLACKLIST
    ensures Quotable(x)
  {
  }

  /**
   * Names that hold a double quote make the format ambiguous: moving the text
   * `" -> "` from the end of the source to the start of the destination
   * gives a different edge with the same line.
   */
  lemma UnquotableNamesCollide(a: string, b: string, c: string)
    ensures Line(Edge(a + "\" -> \"" + b, c)) == Line(Edge(a, b + "\" -> \"" + c))
    ensures Edge(a + "\" -> \"" + b, c) != Edge(a, b + "\" -> \"" + c)
  {
    var arrow := "\" -> \"";
    EdgeLineFlat(a + arrow + b, c);
    EdgeLineFlat(a, b + arrow + c);
    Regroup("  \"", a, arrow, b, c, "\";");
    assert |a + arrow + b| == |a| + 6 + |b|;
  }

  lemma Regroup(x: string, a: string, arrow: string, b: string, c: string, y: string)
    ensures x + (a + arrow + b) + arrow + c + y == x + a + arrow + (b + arrow + c) + y
  {
  }

  lemma EdgeLineFlat(a: string, b: string)
    ensures Line(Edge(a, b)) == "  \"" + a + "\" -> \"" + b + "\";"
  {
    EdgeLineParts(a, b);
  }
}
