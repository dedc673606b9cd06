/** `load_topology`: turns the lines of a topology file into a graph. Each line
    is stripped of surrounding white space; an empty line or one starting with
    `#` is skipped; any other line must hold exactly two decimal numbers `u v`
    and adds the edge from the parent `u` to the child `v`. Opening and reading
    the file are not modelled: the loader is given the file's lines. */
module TopologyFile {
  import opened Wrappers
  import opened Graphs

  /** The characters Python's `str.isspace` accepts: what `strip()` removes
      and `split()` splits on. */
  predicate IsSpace(c: char) {
    var k := c as int;
    || 0x09 <= k <= 0x0D || 0x1C <= k <= 0x20 || k == 0x85 || k == 0xA0 || k == 0x1680
    || 0x2000 <= k <= 0x200A || k == 0x2028 || k == 0x2029 || k == 0x202F || k == 0x205F || k == 0x3000
  }

  /** No character of `w` is white space. */
  predicate Solid(w: string) {
    forall c :: c in w ==> !IsSpace(c)
  }

  /** `s` without its leading white space. */
  function TrimStart(s: string): (r: string)
    ensures |r| <= |s| && r == s[|s| - |r|..]
    ensures forall i :: 0 <= i < |s| - |r| ==> IsSpace(s[i])
    ensures r != [] ==> !IsSpace(r[0])
  {
    if s != [] && IsSpace(s[0]) then TrimStart(s[1..]) else s
  }

  /** `s` without its trailing white space. */
  function TrimEnd(s: string): (r: string)
    ensures |r| <= |s| && r == s[..|r|]
    ensures forall i :: |r| <= i < |s| ==> IsSpace(s[i])
    ensures r != [] ==> !IsSpace(r[|r| - 1])
  {
    if s != [] && IsSpace(s[|s| - 1]) then TrimEnd(s[..|s| - 1]) else s
  }

  /** `line.strip()`. */
  function Strip(s: string): string {
    TrimEnd(TrimStart(s))
  }

  /** The length of the run of non-space characters that starts `s`. */
  function WordLen(s: string): (n: nat)
    ensures n <= |s|
    ensures forall i :: 0 <= i < n ==> !IsSpace(s[i])
    ensures n < |s| ==> IsSpace(s[n])
  {
    if s == [] || IsSpace(s[0]) then 0 else 1 + WordLen(s[1..])
  }

  /** `line.split()`: the maximal runs of non-space characters, in order. */
  function Words(s: string): (ws: seq<string>)
    ensures forall w :: w in ws ==> w != [] && Solid(w)
    decreases |s|
  {
    if s == [] then []
    else if IsSpace(s[0]) then Words(s[1..])
    else
      var n := WordLen(s);
      [s[..n]] + Words(s[n..])
  }

  /** Non-empty words joined by single spaces. */
  function Unwords(ws: seq<string>): string {
    if ws == [] then []
    else if |ws| == 1 then ws[0]
    else ws[0] + " " + Unwords(ws[1..])
  }

  /** A word followed by white space (or by nothing) splits off as one word. */
  lemma WordsAfterWord(w: string, s: string)
    requires w != [] && Solid(w)
    requires s == [] || IsSpace(s[0])
    ensures Words(w + s) == [w] + Words(s)
  {
    var ws := w + s;
    assert ws[0] == w[0];
    var n := WordLen(ws);
    assert n == |w| by {
      assert forall i :: 0 <= i < |w| ==> ws[i] == w[i];
      assert |w| < |ws| ==> ws[|w|] == s[0];
    }
    assert ws[..n] == w && ws[n..] == s;
  }

  /** Splitting undoes joining: `split()` recovers the words of a line whose
      words are separated by single spaces. */
  lemma {:induction false} WordsUnwords(ws: seq<string>)
    requires forall w :: w in ws ==> w != [] && Solid(w)
    ensures Words(Unwords(ws)) == ws
  {
    if |ws| == 1 {
      assert ws[0] in ws;
      WordsAfterWord(ws[0], []);
      assert ws[0] + [] == ws[0];
    } else if |ws| > 1 {
      var rest := " " + Unwords(ws[1..]);
      assert ws[0] in ws && rest[0] == ' ';
      WordsAfterWord(ws[0], rest);
      assert Unwords(ws) == ws[0] + rest;
      assert Words(rest) == Words(Unwords(ws[1..])) by {
        assert rest[1..] == Unwords(ws[1..]);
      }
      assert forall w :: w in ws[1..] ==> w in ws;
      WordsUnwords(ws[1..]);
    }
  }

  /** A decimal digit, `0` to `9`. */
  predicate IsDigit(c: char) {
    48 <= c as int <= 57
  }

  /** The number a non-empty string of decimal digits spells. */
  function DigitsValue(s: string): nat
    requires forall c :: c in s ==> IsDigit(c)
  {
    if s == [] then 0
    else
      assert forall c :: c in s[..|s| - 1] ==> c in s;
      assert IsDigit(s[|s| - 1]);
      10 * DigitsValue(s[..|s| - 1]) + (s[|s| - 1] as int - 48)
  }

  /** `int(token)` for a token of decimal digits, and `None` for any other
      token. */
  function ParseNat(tok: string): Option<nat> {
    if tok != [] && forall c :: c in tok ==> IsDigit(c) then Some(DigitsValue(tok)) else None
  }

  /** The decimal digits of `n`, as `str(n)` writes them. */
  function ShowNat(n: nat): (s: string)
    ensures s != [] && forall c :: c in s ==> IsDigit(c)
  {
    if n < 10 then [(48 + n) as char] else ShowNat(n / 10) + [(48 + n % 10) as char]
  }

  /** Reading the digits `str(n)` writes gives back `n`. */
  lemma {:induction false} ParseShow(n: nat)
    ensures ParseNat(ShowNat(n)) == Some(n)
  {
    var s := ShowNat(n);
    if n >= 10 {
      ParseShow(n / 10);
      assert s[..|s| - 1] == ShowNat(n / 10);
      assert DigitsValue(s[..|s| - 1]) == n / 10;
      assert s[|s| - 1] as int - 48 == n % 10;
      assert 10 * (n / 10) + n % 10 == n;
    } else {
      assert s[0] as int - 48 == n;
      assert s[..0] == [];
      assert DigitsValue(s) == 10 * DigitsValue([]) + (s[0] as int - 48);
    }
  }

  /** What one line contributes to the graph. */
  datatype Line = Skip | Edge(u: nat, v: nat) | Bad

  /** The line is skipped: blank after stripping, or a comment. */
  predicate Skipped(line: string) {
    var s := Strip(line);
    s == [] || s[0] == '#'
  }

  /** One line of the file: skipped, the edge `u v` it names, or `Bad` when
      it does not split into two numbers (Python raises `ValueError`). */
  function ParseLine(line: string): (l: Line)
    ensures l.Skip? <==> Skipped(line)
  {
    var s := Strip(line);
    if s == [] || s[0] == '#' then Skip
    else
      var ws := Words(s);
      if |ws| != 2 then Bad
      else
        match (ParseNat(ws[0]), ParseNat(ws[1]))
        case (Some(u), Some(v)) => Edge(u, v)
        case _ => Bad
  }

  /** A digit is not white space. */
  lemma DigitsSolid(s: string)
    requires forall c :: c in s ==> IsDigit(c)
    ensures Solid(s)
  {
  }

  /** Nothing to strip from a line whose ends are not white space but for a
      final line break. */
  lemma StripLineBreak(s: string)
    requires s != [] && !IsSpace(s[0]) && !IsSpace(s[|s| - 1])
    ensures Strip(s + "\n") == s
  {
    var line := s + "\n";
    assert line[0] == s[0];
    assert TrimStart(line) == line;
    assert line[..|s|] == s;
    assert TrimEnd(s) == s;
  }

  /** A line whose stripped text is not a comment and splits into two
      numbers reads as the edge between them. */
  lemma ReadsAsEdge(line: string, u: nat, v: nat)
    requires Strip(line) != [] && Strip(line)[0] != '#'
    requires |Words(Strip(line))| == 2
    requires ParseNat(Words(Strip(line))[0]) == Some(u) && ParseNat(Words(Strip(line))[1]) == Some(v)
    ensures ParseLine(line) == Edge(u, v)
  {
  }

  /** A line that holds `u`, a space, `v` and a line break reads as the edge
      `u v`. */
  lemma EdgeLineReads(u: nat, v: nat)
    ensures ParseLine(ShowNat(u) + " " + ShowNat(v) + "\n") == Edge(u, v)
  {
    var su, sv := ShowNat(u), ShowNat(v);
    DigitsSolid(su);
    DigitsSolid(sv);
    var body := su + " " + sv;
    assert body[0] == su[0] && body[|body| - 1] == sv[|sv| - 1];
    StripLineBreak(body);
    assert Unwords([su, sv]) == body;
    WordsUnwords([su, sv]);
    ParseShow(u);
    ParseShow(v);
    assert su[0] in su;
    ReadsAsEdge(body + "\n", u, v);
  }

  /** The edges the parsed lines name. */
  ghost function ItemEdges(items: seq<Line>): set<(nat, nat)> {
    set l | l in items && l.Edge? :: (l.u, l.v)
  }

  /** The endpoints of the edges the parsed lines name. */
  ghost function ItemNodes(items: seq<Line>): set<nat> {
    (set l | l in items && l.Edge? :: l.u) + (set l | l in items && l.Edge? :: l.v)
  }

  /** One line of the loop: a skipped line keeps the graph, a bad line (the
      `index`-th) stops the load, an edge line adds its edge; once stopped,
      the load stays stopped. */
  function Step(r: Result<Graph, nat>, l: Line, index: nat): (s: Result<Graph, nat>)
    requires r.Ok? ==> WellFormed(r.value)
    ensures s.Ok? ==> WellFormed(s.value)
  {
    match r
    case Err(i) => Err(i)
    case Ok(g) =>
      match l
      case Skip => Ok(g)
      case Bad => Err(index)
      case Edge(u, v) => Ok(AddEdge(g, u, v))
  }

  /** The graph built from the parsed lines `items`, adding the edge of each
      in turn, or the index of the first bad one. */
  function Build(items: seq<Line>): (r: Result<Graph, nat>)
    ensures r.Ok? ==> WellFormed(r.value)
  {
    if items == [] then Ok(Empty)
    else
      var n := |items| - 1;
      Step(Build(items[..n]), items[n], n)
  }

  /** Building one more line takes one more step. */
  lemma BuildSnoc(items: seq<Line>, l: Line)
    ensures Build(items + [l]) == Step(Build(items), l, |items|)
  {
    assert (items + [l])[..|items|] == items;
  }

  /** One more parsed line adds its edge, if it names one. */
  lemma ItemsAppend(front: seq<Line>, l: Line)
    ensures ItemEdges(front + [l]) == ItemEdges(front) + (if l.Edge? then {(l.u, l.v)} else {})
    ensures ItemNodes(front + [l]) == ItemNodes(front) + (if l.Edge? then {l.u, l.v} else {})
  {
    assert forall x :: x in front + [l] <==> x in front || x == l;
  }

  /** Loading fails exactly when some line is bad, and then names the first
      bad line; otherwise the graph holds exactly the edges the lines name,
      and their endpoints as nodes: no edge is filtered out and none
      invented. */
  lemma {:induction false} BuildContents(items: seq<Line>)
    ensures Build(items).Ok? <==> forall i :: 0 <= i < |items| ==> !items[i].Bad?
    ensures Build(items).Err? ==>
      var e := Build(items).error;
      e < |items| && items[e].Bad? && forall i :: 0 <= i < e ==> !items[i].Bad?
    ensures Build(items).Ok? ==>
      EdgeSet(Build(items).value) == ItemEdges(items) && NodeSet(Build(items).value) == ItemNodes(items)
  {
    if items == [] {
      assert NodeSet(Empty) == {} && EdgeSet(Empty) == {};
    } else {
      var n := |items| - 1;
      var front := items[..n];
      assert items == front + [items[n]];
      assert forall i :: 0 <= i < n ==> front[i] == items[i];
      BuildContents(front);
      BuildSnoc(front, items[n]);
      ItemsAppend(front, items[n]);
    }
  }

  /** Every line of the file, parsed. */
  function ParseLines(lines: seq<string>): (items: seq<Line>)
    ensures |items| == |lines|
  {
    if lines == [] then [] else ParseLines(lines[..|lines| - 1]) + [ParseLine(lines[|lines| - 1])]
  }

  /** Parsing one more line adds its parse at the end. */
  lemma ParseLinesSnoc(lines: seq<string>, line: string)
    ensures ParseLines(lines + [line]) == ParseLines(lines) + [ParseLine(line)]
  {
    assert (lines + [line])[..|lines|] == lines;
  }

  /** Parsing is line by line: the lines of `a + b` parse to those of `a`
      followed by those of `b`. */
  lemma {:induction false} ParseLinesAppend(a: seq<string>, b: seq<string>)
    ensures ParseLines(a + b) == ParseLines(a) + ParseLines(b)
  {
    if b == [] {
      assert a + b == a;
      assert ParseLines(a) + ParseLines(b) == ParseLines(a);
    } else {
      var n := |b| - 1;
      var front := b[..n];
      assert b == front + [b[n]];
      assert a + b == (a + front) + [b[n]];
      ParseLinesAppend(a, front);
      ParseLinesSnoc(a + front, b[n]);
      ParseLinesSnoc(front, b[n]);
      assert ParseLines(a) + ParseLines(b) == (ParseLines(a) + ParseLines(front)) + [ParseLine(b[n])];
    }
  }

  /** Loading stops at the first bad line: what follows it is never read. */
  lemma {:induction false} BuildStops(items: seq<Line>, rest: seq<Line>)
    requires Build(items).Err?
    ensures Build(items + rest) == Build(items)
  {
    if rest == [] {
      assert items + rest == items;
    } else {
      var n := |rest| - 1;
      BuildStops(items, rest[..n]);
      assert items + rest == (items + rest[..n]) + [rest[n]];
      BuildSnoc(items + rest[..n], rest[n]);
    }
  }

  /** The first `i` lines parse to the first `i` parsed lines, and the
      `i`-th line to the `i`-th. */
  lemma ParseAt(lines: seq<string>, i: nat)
    requires i < |lines|
    ensures ParseLines(lines[..i]) == ParseLines(lines)[..i]
    ensures ParseLines(lines)[i] == ParseLine(lines[i])
  {
    assert lines == lines[..i] + lines[i..];
    ParseLinesAppend(lines[..i], lines[i..]);
    assert lines[i..] == [lines[i]] + lines[i + 1..];
    ParseLinesAppend([lines[i]], lines[i + 1..]);
    ParseLinesSnoc([], lines[i]);
    assert [] + [lines[i]] == [lines[i]];
  }

  /** When the items before the `i`-th build and the `i`-th is bad, building
      fails there. */
  lemma BadItemStops(items: seq<Line>, i: nat)
    requires i < |items| && items[i].Bad?
    requires Build(items[..i]).Ok?
    ensures Build(items) == Err(i)
  {
    var head := items[..i + 1];
    assert head == items[..i] + [items[i]];
    BuildSnoc(items[..i], items[i]);
    assert items == head + items[i + 1..];
    BuildStops(head, items[i + 1..]);
  }

  /** `load_topology` on the file's lines: starts from an empty graph and adds
      the edge of every line in turn, stopping at the first line that does not
      read. */
  method LoadTopology(lines: seq<string>) returns (r: Result<Graph, nat>)
    ensures r == Build(ParseLines(lines))
  {
    ghost var items := ParseLines(lines);
    var g := Empty;
    for i := 0 to |lines|
      invariant Build(items[..i]) == Ok(g)
    {
      ParseAt(lines, i);
      assert items[..i + 1] == items[..i] + [items[i]];
      BuildSnoc(items[..i], items[i]);
      match ParseLine(lines[i])
      case Skip =>
      case Bad =>
        BadItemStops(items, i);
        return Err(i);
      case Edge(u, v) =>
        g := AddEdge(g, u, v);
    }
    assert items[..|lines|] == items;
    r := Ok(g);
  }

  /** A skipped line, wherever it stands, changes nothing: the file without
      it loads to the same graph. */
  lemma {:induction false} SkippedLineIgnored(a: seq<Line>, b: seq<Line>)
    ensures Build(a + [Skip] + b).Ok? <==> Build(a + b).Ok?
    ensures Build(a + [Skip] + b).Ok? ==> Build(a + [Skip] + b).value == Build(a + b).value
  {
    if b == [] {
      assert a + [Skip] + b == a + [Skip] && a + b == a;
      BuildSnoc(a, Skip);
    } else {
      var n := |b| - 1;
      var front := b[..n];
      SkippedLineIgnored(a, front);
      assert a + [Skip] + b == (a + [Skip] + front) + [b[n]];
      assert a + b == (a + front) + [b[n]];
      BuildSnoc(a + [Skip] + front, b[n]);
      BuildSnoc(a + front, b[n]);
    }
  }

  /** Reading the same line twice in a row gives what reading it once does. */
  lemma RepeatTwice(a: seq<Line>, l: Line)
    ensures Build(a + [l, l]) == Build(a + [l])
  {
    assert a + [l, l] == (a + [l]) + [l];
    BuildSnoc(a + [l], l);
    BuildSnoc(a, l);
    if Build(a).Ok? && l.Edge? {
      AddEdgeIdempotent(Build(a).value, l.u, l.v);
    }
  }

  /** A line repeated right after itself changes nothing: adding an edge that
      is already there leaves the graph as it was. */
  lemma {:induction false} RepeatedLineIgnored(a: seq<Line>, l: Line, b: seq<Line>)
    ensures Build(a + [l, l] + b).Ok? <==> Build(a + [l] + b).Ok?
    ensures Build(a + [l, l] + b).Ok? ==> Build(a + [l, l] + b).value == Build(a + [l] + b).value
  {
    if b == [] {
      assert a + [l, l] + b == a + [l, l] && a + [l] + b == a + [l];
      RepeatTwice(a, l);
    } else {
      var n := |b| - 1;
      var front := b[..n];
      RepeatedLineIgnored(a, l, front);
      assert a + [l, l] + b == (a + [l, l] + front) + [b[n]];
      assert a + [l] + b == (a + [l] + front) + [b[n]];
      BuildSnoc(a + [l, l] + front, b[n]);
      BuildSnoc(a + [l] + front, b[n]);
    }
  }

  /** A skipped line (blank or comment) of the file changes nothing: the
      file without it loads to the same graph. */
  lemma SkippedLineChangesNothing(a: seq<string>, line: string, b: seq<string>)
    requires Skipped(line)
    ensures Build(ParseLines(a + [line] + b)).Ok? <==> Build(ParseLines(a + b)).Ok?
    ensures Build(ParseLines(a + [line] + b)).Ok? ==>
      Build(ParseLines(a + [line] + b)).value == Build(ParseLines(a + b)).value
  {
    ParseLinesAppend(a + [line], b);
    ParseLinesAppend(a, [line]);
    ParseLinesAppend(a, b);
    assert [line][..0] == [];
    SkippedLineIgnored(ParseLines(a), ParseLines(b));
  }

  /** A line of the file repeated right after itself changes nothing. */
  lemma RepeatedLineChangesNothing(a: seq<string>, line: string, b: seq<string>)
    ensures Build(ParseLines(a + [line, line] + b)).Ok? <==> Build(ParseLines(a + [line] + b)).Ok?
    ensures Build(ParseLines(a + [line, line] + b)).Ok? ==>
      Build(ParseLines(a + [line, line] + b)).value == Build(ParseLines(a + [line] + b)).value
  {
    ParseLinesAppend(a + [line, line], b);
    ParseLinesAppend(a, [line, line]);
    ParseLinesAppend(a + [line], b);
    ParseLinesAppend(a, [line]);
    assert [line, line][..1] == [line] && [line][..0] == [];
    assert ParseLines([line]) == [ParseLine(line)];
    assert ParseLines([line, line]) == [ParseLine(line), ParseLine(line)];
    RepeatedLineIgnored(ParseLines(a), ParseLine(line), ParseLines(b));
  }
}
