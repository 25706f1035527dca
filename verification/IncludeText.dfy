/** The text that the include expander of tools/decompctx.py makes of a tree of expanded headers. */
module IncludeText {
  import opened Wrappers

  type Path = string

  /** A stretch of text without include directives, or a directive with the name it gives. */
  datatype Item = Text(text: string) | Include(name: string)

  /** What becomes of an item: text stays, a directive is replaced by nothing or by the expanded header. */
  datatype Node = Own(text: string) | Nothing | Header(path: Path, nodes: seq<Node>)

  // ----- rendering -----

  /** The white space of Python's `str.strip`. */
  predicate IsSpace(c: char) {
    var n := c as int;
    || 0x09 <= n <= 0x0D || 0x1C <= n <= 0x20 || n == 0x85 || n == 0xA0 || n == 0x1680 || 0x2000 <= n <= 0x200A
    || n == 0x2028 || n == 0x2029 || n == 0x202F || n == 0x205F || n == 0x3000
  }

  lemma SpaceExamples()
    ensures IsSpace(' ') && IsSpace('\t') && IsSpace('\n') && IsSpace('\r')
    ensures IsSpace(0x0B as char) && IsSpace(0x0C as char)
    ensures IsSpace(0x1C as char) && IsSpace(0x85 as char) && IsSpace(0xA0 as char) && IsSpace(0x3000 as char)
    ensures !IsSpace('a') && !IsSpace(0x1B as char) && !IsSpace(0x0E as char) && !IsSpace(0x200B as char)
  {
  }

  function StripFront(s: string): string {
    if s != [] && IsSpace(s[0]) then StripFront(s[1..]) else s
  }

  function StripBack(s: string): string {
    if s != [] && IsSpace(s[|s| - 1]) then StripBack(s[..|s| - 1]) else s
  }

  function Strip(s: string): string {
    StripBack(StripFront(s))
  }

  function RenderNode(n: Node): string {
    match n
    case Own(t) => t
    case Nothing => ""
    case Header(_, nodes) => Strip(Render(nodes)) + "\n"
  }

  function Render(nodes: seq<Node>): string {
    if nodes == [] then "" else RenderNode(nodes[0]) + Render(nodes[1..])
  }

  lemma {:induction false} RenderSnoc(nodes: seq<Node>, n: Node)
    ensures Render(nodes + [n]) == Render(nodes) + RenderNode(n)
  {
    if nodes == [] {
      assert [n][1..] == [];
      assert [] + [n] == [n];
    } else {
      assert (nodes + [n])[0] == nodes[0] && (nodes + [n])[1..] == nodes[1..] + [n];
      RenderSnoc(nodes[1..], n);
    }
  }

  // ----- what replaces a directive -----

  predicate Blank(s: string) {
    forall i :: 0 <= i < |s| ==> IsSpace(s[i])
  }

  /** A text with no white space at its ends. */
  predicate Trim(s: string) {
    s != "" ==> !IsSpace(s[0]) && !IsSpace(s[|s| - 1])
  }

  /** A newline at the end; in front of it and at the beginning no white space. */
  predicate Line(s: string) {
    s != "" && s[|s| - 1] == '\n' && Trim(s[..|s| - 1])
  }

  /** The text is `core`, but for white space around it. */
  ghost predicate Around(s: string, core: string) {
    exists i, j :: 0 <= i <= j <= |s| && Blank(s[..i]) && s[i..j] == core && Blank(s[j..])
  }

  lemma {:induction false} StripFrontMeaning(s: string) returns (i: nat)
    ensures i <= |s| && Blank(s[..i]) && StripFront(s) == s[i..]
    ensures i < |s| ==> !IsSpace(s[i])
  {
    if s != [] && IsSpace(s[0]) {
      var k := StripFrontMeaning(s[1..]);
      i := k + 1;
      assert s[..i] == [s[0]] + s[1..][..k];
    } else {
      i := 0;
    }
  }

  lemma {:induction false} StripBackMeaning(s: string) returns (j: nat)
    ensures j <= |s| && Blank(s[j..]) && StripBack(s) == s[..j]
    ensures j > 0 ==> !IsSpace(s[j - 1])
    decreases |s|
  {
    if s != [] && IsSpace(s[|s| - 1]) {
      j := StripBackMeaning(s[..|s| - 1]);
      assert s[j..] == s[..|s| - 1][j..] + [s[|s| - 1]];
    } else {
      j := |s|;
    }
  }

  /** Stripping takes the white space off both ends and nothing else. */
  lemma StripMeaning(s: string)
    ensures Around(s, Strip(s)) && Trim(Strip(s))
  {
    var i := StripFrontMeaning(s);
    var t := s[i..];
    var j := StripBackMeaning(t);
    assert s[i..i + j] == t[..j] && s[i + j..] == t[j..];
    if j > 0 { assert t[..j][0] == s[i]; }
  }

  /** No other text fits. */
  lemma StripUnique(s: string, a: string, b: string)
    requires Around(s, a) && Trim(a) && Around(s, b) && Trim(b)
    ensures a == b
  {
    var i, j :| 0 <= i <= j <= |s| && Blank(s[..i]) && s[i..j] == a && Blank(s[j..]);
    var k, l :| 0 <= k <= l <= |s| && Blank(s[..k]) && s[k..l] == b && Blank(s[l..]);
    CoreUnique(s, i, j, k, l);
  }

  lemma EndsMeet(s: string, i: nat, j: nat, k: nat, l: nat)
    requires i <= j <= |s| && k <= l <= |s| && Trim(s[i..j]) && Blank(s[..k]) && Blank(s[l..])
    ensures i < j ==> k <= i && j <= l
  {
    if i < j {
      assert s[i..j][0] == s[i] && s[i..j][j - i - 1] == s[j - 1];
      BlankEnds(s, k, l);
    }
  }

  lemma BlankEnds(s: string, k: nat, l: nat)
    requires k <= |s| && l <= |s| && Blank(s[..k]) && Blank(s[l..])
    ensures forall i :: 0 <= i < k ==> IsSpace(s[i])
    ensures forall i :: l <= i < |s| ==> IsSpace(s[i])
  {
    forall i | 0 <= i < k ensures IsSpace(s[i]) { assert s[i] == s[..k][i]; }
    forall i | l <= i < |s| ensures IsSpace(s[i]) { assert s[i] == s[l..][i - l]; }
  }

  lemma CoreUnique(s: string, i: nat, j: nat, k: nat, l: nat)
    requires i <= j <= |s| && k <= l <= |s| && Trim(s[i..j]) && Trim(s[k..l])
    requires Blank(s[..i]) && Blank(s[j..]) && Blank(s[..k]) && Blank(s[l..])
    ensures s[i..j] == s[k..l]
  {
    EndsMeet(s, i, j, k, l);
    EndsMeet(s, k, l, i, j);
  }

  // ----- the whole text -----

  /** The text of the nodes, one behind the other: own text as it is, nothing for a directive that is dropped, and for a
      header one line that holds the header's text but for white space at its ends. */
  ghost predicate Laid(text: string, nodes: seq<Node>)
    decreases nodes
  {
    if nodes == [] then text == ""
    else exists k :: 0 <= k <= |text| && LaidNode(text[..k], nodes[0]) && Laid(text[k..], nodes[1..])
  }

  ghost predicate LaidNode(text: string, n: Node)
    decreases n
  {
    match n
    case Own(t) => text == t
    case Nothing => text == ""
    case Header(_, nodes) => Line(text) && exists inner :: Laid(inner, nodes) && Around(inner, text[..|text| - 1])
  }

  lemma {:induction false} RenderedLaid(nodes: seq<Node>)
    ensures Laid(Render(nodes), nodes)
    decreases nodes
  {
    if nodes != [] {
      var a, b := RenderNode(nodes[0]), Render(nodes[1..]);
      RenderedNodeLaid(nodes[0]);
      RenderedLaid(nodes[1..]);
      assert (a + b)[..|a|] == a && (a + b)[|a|..] == b;
    }
  }

  lemma {:induction false} RenderedNodeLaid(n: Node)
    ensures LaidNode(RenderNode(n), n)
    decreases n
  {
    if n.Header? {
      var inner := Render(n.nodes);
      RenderedLaid(n.nodes);
      StripMeaning(inner);
      assert (Strip(inner) + "\n")[..|Strip(inner)|] == Strip(inner);
    }
  }

  lemma {:induction false} LaidRendered(text: string, nodes: seq<Node>)
    requires Laid(text, nodes)
    ensures text == Render(nodes)
    decreases nodes
  {
    if nodes != [] {
      var k :| 0 <= k <= |text| && LaidNode(text[..k], nodes[0]) && Laid(text[k..], nodes[1..]);
      var a, b := text[..k], text[k..];
      LaidNodeRendered(a, nodes[0]);
      LaidRendered(b, nodes[1..]);
      assert text == a + b;
    }
  }

  lemma {:induction false} LaidNodeRendered(text: string, n: Node)
    requires LaidNode(text, n)
    ensures text == RenderNode(n)
    decreases n
  {
    if n.Header? {
      var inner :| Laid(inner, n.nodes) && Around(inner, text[..|text| - 1]);
      LaidRendered(inner, n.nodes);
      LineOf(inner, text);
    }
  }

  lemma LineOf(inner: string, line: string)
    requires Line(line) && Around(inner, line[..|line| - 1])
    ensures line == Strip(inner) + "\n"
  {
    var core := line[..|line| - 1];
    StripMeaning(inner);
    StripUnique(inner, core, Strip(inner));
    assert line == core + [line[|line| - 1]];
  }

  /** A text is the rendering of the nodes exactly when it is laid out like that. */
  lemma RenderMeaning(text: string, nodes: seq<Node>)
    ensures text == Render(nodes) <==> Laid(text, nodes)
  {
    RenderedLaid(nodes);
    if Laid(text, nodes) { LaidRendered(text, nodes); }
  }

  // ----- what is said -----

  /** A stretch of own text, with the header that it is from; none for the text that is expanded itself. */
  datatype Piece = Piece(source: Option<Path>, text: string)

  /** All own text of the nodes, depth first. */
  function Pieces(source: Option<Path>, nodes: seq<Node>): seq<Piece>
    decreases nodes
  {
    if nodes == [] then [] else PiecesOf(source, nodes[0]) + Pieces(source, nodes[1..])
  }

  function PiecesOf(source: Option<Path>, n: Node): seq<Piece>
    decreases n
  {
    match n
    case Own(t) => [Piece(source, t)]
    case Nothing => []
    case Header(path, nodes) => Pieces(Some(path), nodes)
  }

  /** The pieces' text without any white space. */
  function Squeezed(s: string): string {
    if s == "" then "" else (if IsSpace(s[0]) then "" else [s[0]]) + Squeezed(s[1..])
  }

  function SaidBy(pieces: seq<Piece>): string {
    if pieces == [] then "" else Squeezed(pieces[0].text) + SaidBy(pieces[1..])
  }

  lemma {:induction false} SqueezedConcat(a: string, b: string)
    ensures Squeezed(a + b) == Squeezed(a) + Squeezed(b)
  {
    if a == "" {
      assert a + b == b;
    } else {
      SqueezedConcat(a[1..], b);
      SqueezedBoth(a, b, a[0], a[1..]);
    }
  }

  lemma SqueezedBoth(a: string, b: string, c: char, rest: string)
    requires a == [c] + rest && Squeezed(rest + b) == Squeezed(rest) + Squeezed(b)
    ensures Squeezed(a + b) == Squeezed(a) + Squeezed(b)
  {
    Regroup([c], rest, b);
    SqueezedNext(a + b, c, rest + b);
    SqueezedNext(a, c, rest);
    Regroup(if IsSpace(c) then "" else [c], Squeezed(rest), Squeezed(b));
  }

  lemma Regroup(a: string, b: string, c: string)
    ensures a + b + c == a + (b + c)
  {
  }

  lemma SqueezedNext(s: string, c: char, rest: string)
    requires s == [c] + rest
    ensures Squeezed(s) == (if IsSpace(c) then "" else [c]) + Squeezed(rest)
  {
    assert s[0] == c && s[1..] == rest;
  }

  lemma {:induction false} BlankSqueezed(s: string)
    requires Blank(s)
    ensures Squeezed(s) == ""
  {
    if s != "" {
      assert Blank(s[1..]);
      BlankSqueezed(s[1..]);
    }
  }

  lemma AroundSqueezed(s: string, core: string)
    requires Around(s, core)
    ensures Squeezed(core) == Squeezed(s)
  {
    var i, j :| 0 <= i <= j <= |s| && Blank(s[..i]) && s[i..j] == core && Blank(s[j..]);
    var front, back := s[..i], s[j..];
    assert s == front + (core + back);
    SqueezedConcat(front, core + back);
    SqueezedConcat(core, back);
    BlankSqueezed(front);
    BlankSqueezed(back);
  }

  lemma StripSqueezed(s: string)
    ensures Squeezed(Strip(s) + "\n") == Squeezed(s)
  {
    StripMeaning(s);
    AroundSqueezed(s, Strip(s));
    SqueezedConcat(Strip(s), "\n");
    BlankSqueezed("\n");
  }

  lemma {:induction false} SaidConcat(a: seq<Piece>, b: seq<Piece>)
    ensures SaidBy(a + b) == SaidBy(a) + SaidBy(b)
  {
    if a == [] {
      assert a + b == b;
    } else {
      assert (a + b)[0] == a[0] && (a + b)[1..] == a[1..] + b;
      SaidConcat(a[1..], b);
    }
  }

  /** But for white space, the rendering says what the pieces say, in their order. */
  lemma {:induction false} RenderSays(source: Option<Path>, nodes: seq<Node>)
    ensures Squeezed(Render(nodes)) == SaidBy(Pieces(source, nodes))
    decreases nodes
  {
    if nodes != [] {
      SqueezedConcat(RenderNode(nodes[0]), Render(nodes[1..]));
      SaidConcat(PiecesOf(source, nodes[0]), Pieces(source, nodes[1..]));
      RenderNodeSays(source, nodes[0]);
      RenderSays(source, nodes[1..]);
    }
  }

  lemma {:induction false} RenderNodeSays(source: Option<Path>, n: Node)
    ensures Squeezed(RenderNode(n)) == SaidBy(PiecesOf(source, n))
    decreases n
  {
    match n
    case Own(t) => assert [Piece(source, t)][1..] == [];
    case Nothing =>
    case Header(path, nodes) =>
      RenderSays(Some(path), nodes);
      StripSqueezed(Render(nodes));
  }

  /** The text of an expansion: laid out node by node, and saying nothing but the pieces, in their order. */
  ghost predicate Expands(text: string, nodes: seq<Node>) {
    Laid(text, nodes) && Squeezed(text) == SaidBy(Pieces(None, nodes))
  }

  lemma RenderExpands(nodes: seq<Node>)
    ensures Expands(Render(nodes), nodes)
  {
    RenderMeaning(Render(nodes), nodes);
    RenderSays(None, nodes);
  }
}
