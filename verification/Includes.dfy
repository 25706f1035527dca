/** The include expander of tools/decompctx.py: a depth-first traversal with one shared set of visited headers. */
module Includes {
  import opened IncludeText
  import opened Wrappers

  /** The include directories in order, and the headers that exist. */
  datatype Env = Env(dirs: seq<Path>, files: map<Path, seq<Item>>)

  /** The first include directory that has the header. */
  function ResolveIn(env: Env, dirs: seq<Path>, name: string): (r: Option<Path>)
    ensures r.Some? ==> r.value in env.files
  {
    if dirs == [] then None
    else
      var path := dirs[0] + "/" + name;
      if path in env.files then Some(path) else ResolveIn(env, dirs[1..], name)
  }

  function Resolve(env: Env, name: string): (r: Option<Path>)
    ensures r.Some? ==> r.value in env.files
  {
    ResolveIn(env, env.dirs, name)
  }

  /** `path` is the header in directory number `k`, and no earlier directory has one of that name. */
  predicate FirstAt(env: Env, dirs: seq<Path>, name: string, k: nat, path: Path) {
    && k < |dirs| && path == dirs[k] + "/" + name && path in env.files
    && forall j :: 0 <= j < k ==> dirs[j] + "/" + name !in env.files
  }

  lemma {:induction false} ResolveMeaning(env: Env, dirs: seq<Path>, name: string)
    ensures ResolveIn(env, dirs, name) == None <==> forall j :: 0 <= j < |dirs| ==> dirs[j] + "/" + name !in env.files
    ensures var r := ResolveIn(env, dirs, name); r.Some? ==> exists k :: FirstAt(env, dirs, name, k, r.value)
  {
    if dirs != [] {
      var r, rest := ResolveIn(env, dirs, name), dirs[1..];
      ResolveMeaning(env, rest, name);
      if dirs[0] + "/" + name in env.files {
        assert FirstAt(env, dirs, name, 0, r.value);
      } else if r.Some? {
        var k :| FirstAt(env, rest, name, k, r.value);
        FirstLater(env, dirs, name, k, r.value);
      } else {
        forall j | 0 <= j < |dirs| ensures dirs[j] + "/" + name !in env.files {
          if j > 0 { assert dirs[j] == rest[j - 1]; }
        }
      }
    }
  }

  lemma FirstLater(env: Env, dirs: seq<Path>, name: string, k: nat, path: Path)
    requires dirs != [] && dirs[0] + "/" + name !in env.files && FirstAt(env, dirs[1..], name, k, path)
    ensures FirstAt(env, dirs, name, k + 1, path)
  {
    forall j | 0 <= j < k + 1 ensures dirs[j] + "/" + name !in env.files {
      if j > 0 { assert dirs[j] == dirs[1..][j - 1]; }
    }
  }

  ghost function Unvisited(env: Env, visited: set<Path>): nat {
    |env.files.Keys - visited|
  }

  lemma VisitDecreases(env: Env, visited: set<Path>, h: Path)
    requires h in env.files && h !in visited
    ensures Unvisited(env, visited + {h}) < Unvisited(env, visited)
  {
    assert env.files.Keys - visited == (env.files.Keys - (visited + {h})) + {h};
  }

  lemma VisitShrinks(env: Env, visited: set<Path>, more: set<Path>)
    requires visited <= more
    ensures Unvisited(env, more) <= Unvisited(env, visited)
  {
    SubsetSize(env.files.Keys - more, env.files.Keys - visited);
  }

  lemma {:induction false} SubsetSize(a: set<Path>, b: set<Path>)
    requires a <= b
    ensures |a| <= |b|
  {
    if a != {} {
      var x :| x in a;
      SubsetSize(a - {x}, b - {x});
    }
  }

  /** The expansion of some items and the headers visited after it. The number of unvisited headers is what makes
      this end on cyclic includes. */
  ghost function Expand(env: Env, items: seq<Item>, visited: set<Path>): (r: (seq<Node>, set<Path>))
    ensures visited <= r.1
    decreases Unvisited(env, visited), |items|
  {
    if items == [] then ([], visited)
    else
      var head := ExpandItem(env, items[0], visited);
      VisitShrinks(env, visited, head.1);
      var rest := Expand(env, items[1..], head.1);
      ([head.0] + rest.0, rest.1)
  }

  ghost function ExpandItem(env: Env, item: Item, visited: set<Path>): (r: (Node, set<Path>))
    ensures visited <= r.1
    decreases Unvisited(env, visited), 0
  {
    match item
    case Text(t) => (Own(t), visited)
    case Include(name) =>
      match Resolve(env, name)
      case None => (Nothing, visited)
      case Some(h) =>
        if h in visited then (Nothing, visited)
        else
          VisitDecreases(env, visited, h);
          var inner := Expand(env, env.files[h], visited + {h});
          (Header(h, inner.0), inner.1)
  }

  // ----- the expander -----

  class Expander {
    const env: Env
    var visited: set<Path>

    constructor (env: Env)
      ensures this.env == env && visited == {}
    {
      this.env, visited := env, {};
    }

    /** `expand_header`, with `items` for the text that the pattern is matched against */
    method ExpandHeader(items: seq<Item>) returns (text: string)
      modifies this
      ensures text == Render(Expand(env, items, old(visited)).0)
      ensures visited == Expand(env, items, old(visited)).1
      ensures Expands(text, Expand(env, items, old(visited)).0)
      decreases Unvisited(env, visited), |items| + 1
    {
      text := "";
      ghost var whole := Expand(env, items, visited);
      ghost var done: seq<Node> := [];
      assert items[0..] == items && [] + whole.0 == whole.0;
      for i := 0 to |items|
        invariant old(visited) <= visited
        invariant text == Render(done)
        invariant done + Expand(env, items[i..], visited).0 == whole.0
        invariant Expand(env, items[i..], visited).1 == whole.1
      {
        assert items[i..][0] == items[i] && items[i..][1..] == items[i + 1..];
        VisitShrinks(env, old(visited), visited);
        ghost var before := visited;
        ghost var head := ExpandItem(env, items[i], visited);
        ghost var rest := Expand(env, items[i + 1..], head.1);
        var s := Replace(items[i]);
        assert Expand(env, items[i..], before).0 == [head.0] + rest.0;
        assert done + ([head.0] + rest.0) == done + [head.0] + rest.0;
        RenderSnoc(done, head.0);
        text := text + s;
        done := done + [head.0];
      }
      assert items[|items|..] == [] && done + [] == done;
      RenderExpands(done);
    }

    /** `replacer`, for a directive; other text stays. */
    method Replace(item: Item) returns (text: string)
      modifies this
      ensures text == RenderNode(ExpandItem(env, item, old(visited)).0)
      ensures item.Include? ==> if visited == old(visited) then text == "" else Line(text)
      ensures visited == ExpandItem(env, item, old(visited)).1
      decreases Unvisited(env, visited), 0
    {
      match item
      case Text(t) =>
        text := t;
      case Include(name) =>
        var header := Resolve(env, name);
        if header.None? || header.value in visited {
          return "";
        }
        VisitDecreases(env, visited, header.value);
        visited := visited + {header.value};
        var inner := ExpandHeader(env.files[header.value]);
        StripMeaning(inner);
        text := Strip(inner) + "\n";
        assert text[..|text| - 1] == Strip(inner);
    }
  }

  // ----- which headers are visited -----

  /** The headers that the items' directives name. */
  predicate Names(env: Env, items: seq<Item>, h: Path) {
    exists i :: 0 <= i < |items| && items[i].Include? && Resolve(env, items[i].name) == Some(h)
  }

  /** Every header that the items name is in the set. */
  ghost predicate Covers(env: Env, items: seq<Item>, s: set<Path>) {
    forall i :: 0 <= i < |items| && items[i].Include? && Resolve(env, items[i].name).Some? ==>
      Resolve(env, items[i].name).value in s
  }

  /** The set holds what its members in `part` include. */
  ghost predicate ClosedFor(env: Env, part: set<Path>, s: set<Path>) {
    forall h :: h in part && h in env.files ==> Covers(env, env.files[h], s)
  }

  lemma CoversMore(env: Env, items: seq<Item>, s: set<Path>, t: set<Path>)
    requires Covers(env, items, s) && s <= t
    ensures Covers(env, items, t)
  {
  }

  /** The expansion visits everything that the items and the newly visited headers include, and nothing that could
      be avoided. */
  lemma {:induction false} ExpandCovers(env: Env, items: seq<Item>, visited: set<Path>)
    ensures var v := Expand(env, items, visited).1; Covers(env, items, v) && ClosedFor(env, v - visited, v)
    decreases Unvisited(env, visited), |items|
  {
    if items != [] {
      var head := ExpandItem(env, items[0], visited);
      var v := Expand(env, items[1..], head.1).1;
      VisitShrinks(env, visited, head.1);
      ItemCovers(env, items[0], visited);
      ExpandCovers(env, items[1..], head.1);
      assert items == [items[0]] + items[1..];
      assert Covers(env, items, v);
      forall h | h in v - visited && h in env.files ensures Covers(env, env.files[h], v) {
        if h in head.1 { CoversMore(env, env.files[h], head.1, v); }
      }
    }
  }

  lemma {:induction false} ItemCovers(env: Env, item: Item, visited: set<Path>)
    ensures var v := ExpandItem(env, item, visited).1; Covers(env, [item], v) && ClosedFor(env, v - visited, v)
    decreases Unvisited(env, visited), 0
  {
    if item.Include? && Resolve(env, item.name).Some? {
      var h := Resolve(env, item.name).value;
      if h !in visited {
        VisitDecreases(env, visited, h);
        ExpandCovers(env, env.files[h], visited + {h});
      }
    }
  }

  lemma {:induction false} ExpandLeast(env: Env, items: seq<Item>, visited: set<Path>, s: set<Path>)
    requires Covers(env, items, s) && ClosedFor(env, s, s) && visited <= s
    ensures Expand(env, items, visited).1 <= s
    decreases Unvisited(env, visited), |items|
  {
    if items != [] {
      var head := ExpandItem(env, items[0], visited);
      VisitShrinks(env, visited, head.1);
      assert Covers(env, [items[0]], s) && Covers(env, items[1..], s);
      ItemLeast(env, items[0], visited, s);
      ExpandLeast(env, items[1..], head.1, s);
    }
  }

  lemma {:induction false} ItemLeast(env: Env, item: Item, visited: set<Path>, s: set<Path>)
    requires Covers(env, [item], s) && ClosedFor(env, s, s) && visited <= s
    ensures ExpandItem(env, item, visited).1 <= s
    decreases Unvisited(env, visited), 0
  {
    if item.Include? && Resolve(env, item.name).Some? {
      assert [item][0] == item;
      var h := Resolve(env, item.name).value;
      if h !in visited {
        VisitDecreases(env, visited, h);
        ExpandLeast(env, env.files[h], visited + {h}, s);
      }
    }
  }

  /** A chain of includes from the items to a header. */
  predicate Chain(env: Env, items: seq<Item>, chain: seq<Path>)
    decreases |chain|
  {
    chain == []
    || (chain[0] in env.files && Names(env, items, chain[0]) && Chain(env, env.files[chain[0]], chain[1..]))
  }

  /** The headers that can be reached from the items. */
  ghost function Reachable(env: Env, items: seq<Item>): set<Path> {
    set h | h in env.files && exists c :: Chain(env, items, c) && c != [] && c[|c| - 1] == h
  }

  lemma {:induction false} ChainWithin(env: Env, items: seq<Item>, chain: seq<Path>, s: set<Path>)
    requires Chain(env, items, chain) && chain != [] && Covers(env, items, s) && ClosedFor(env, s, s)
    ensures chain[|chain| - 1] in s
    decreases |chain|
  {
    assert chain[0] in s;
    if |chain| > 1 {
      ChainWithin(env, env.files[chain[0]], chain[1..], s);
    }
  }

  lemma {:induction false} ChainSnoc(env: Env, items: seq<Item>, chain: seq<Path>, h: Path)
    requires Chain(env, items, chain) && h in env.files
    requires Names(env, if chain == [] then items else
                          (ChainLast(env, items, chain); env.files[chain[|chain| - 1]]), h)
    ensures Chain(env, items, chain + [h])
    decreases |chain|
  {
    if chain == [] {
      assert [] + [h] == [h] && [h][1..] == [];
    } else {
      assert (chain + [h])[0] == chain[0] && (chain + [h])[1..] == chain[1..] + [h];
      if |chain| > 1 { ChainLast(env, env.files[chain[0]], chain[1..]); }
      ChainSnoc(env, env.files[chain[0]], chain[1..], h);
    }
  }

  lemma {:induction false} ChainLast(env: Env, items: seq<Item>, chain: seq<Path>)
    requires Chain(env, items, chain) && chain != []
    ensures chain[|chain| - 1] in env.files
    decreases |chain|
  {
    if |chain| > 1 { ChainLast(env, env.files[chain[0]], chain[1..]); }
  }

  /** A chain that is one header longer. */
  lemma ReachableNext(env: Env, items: seq<Item>, c: seq<Path>, h: Path)
    requires Chain(env, items, c + [h]) && h in env.files
    ensures h in Reachable(env, items)
  {
    assert (c + [h])[|c + [h]| - 1] == h;
  }

  lemma ReachableNamed(env: Env, items: seq<Item>, h: Path)
    requires Names(env, items, h) && h in env.files
    ensures h in Reachable(env, items)
  {
    ChainSnoc(env, items, [], h);
    ReachableNext(env, items, [], h);
  }

  lemma ReachableFrom(env: Env, items: seq<Item>, g: Path, h: Path)
    requires g in Reachable(env, items) && Names(env, env.files[g], h) && h in env.files
    ensures h in Reachable(env, items)
  {
    var c :| Chain(env, items, c) && c != [] && c[|c| - 1] == g;
    ChainSnoc(env, items, c, h);
    ReachableNext(env, items, c, h);
  }

  lemma ReachableClosed(env: Env, items: seq<Item>)
    ensures Covers(env, items, Reachable(env, items))
    ensures ClosedFor(env, Reachable(env, items), Reachable(env, items))
  {
    forall i | 0 <= i < |items| && items[i].Include? && Resolve(env, items[i].name).Some?
      ensures Resolve(env, items[i].name).value in Reachable(env, items)
    {
      ReachableNamed(env, items, Resolve(env, items[i].name).value);
    }
    forall g | g in Reachable(env, items) ensures Covers(env, env.files[g], Reachable(env, items)) {
      var inner := env.files[g];
      forall i | 0 <= i < |inner| && inner[i].Include? && Resolve(env, inner[i].name).Some?
        ensures Resolve(env, inner[i].name).value in Reachable(env, items)
      {
        ReachableFrom(env, items, g, Resolve(env, inner[i].name).value);
      }
    }
  }

  /** Starting with nothing visited, the traversal visits exactly the reachable headers. */
  lemma VisitsReachable(env: Env, items: seq<Item>)
    ensures Expand(env, items, {}).1 == Reachable(env, items)
  {
    var v, r := Expand(env, items, {}).1, Reachable(env, items);
    ReachableClosed(env, items);
    ExpandLeast(env, items, {}, r);
    ExpandCovers(env, items, {});
    assert v - {} == v;
    forall h | h in r ensures h in v {
      var c :| Chain(env, items, c) && c != [] && c[|c| - 1] == h;
      ChainWithin(env, items, c, v);
    }
  }

  // ----- what is emitted -----

  /** The headers whose text is emitted, in the order in which their text begins. */
  function Emitted(nodes: seq<Node>): seq<Path> {
    if nodes == [] then [] else EmittedBy(nodes[0]) + Emitted(nodes[1..])
  }

  function EmittedBy(n: Node): seq<Path> {
    match n
    case Header(path, nodes) => [path] + Emitted(nodes)
    case _ => []
  }

  /** The node stands for the item: own text as it is, a header with its own contents. */
  predicate Stands(env: Env, item: Item, n: Node)
    decreases n
  {
    match n
    case Own(t) => item == Text(t)
    case Nothing => item.Include?
    case Header(path, nodes) =>
      && item.Include? && Resolve(env, item.name) == Some(path)
      && AllStand(env, env.files[path], nodes)
  }

  predicate AllStand(env: Env, items: seq<Item>, nodes: seq<Node>)
    decreases nodes
  {
    |items| == |nodes| && forall i :: 0 <= i < |nodes| ==> Stands(env, items[i], nodes[i])
  }

  /** Each header visited is emitted exactly once, and the expansion follows the structure of the files. */
  lemma {:induction false} EmitsOnce(env: Env, items: seq<Item>, visited: set<Path>)
    ensures var (nodes, v) := Expand(env, items, visited);
            multiset(Emitted(nodes)) == multiset(v - visited) && AllStand(env, items, nodes)
    decreases Unvisited(env, visited), |items|
  {
    if items != [] {
      var head := ExpandItem(env, items[0], visited);
      var rest := Expand(env, items[1..], head.1);
      VisitShrinks(env, visited, head.1);
      ItemEmitsOnce(env, items[0], visited);
      EmitsOnce(env, items[1..], head.1);
      assert ([head.0] + rest.0)[1..] == rest.0;
      NewlyVisited(visited, head.1, rest.1);
      StandFirst(env, items, head.0, rest.0);
    }
  }

  lemma NewlyVisited(a: set<Path>, b: set<Path>, c: set<Path>)
    requires a <= b <= c
    ensures multiset(c - a) == multiset(b - a) + multiset(c - b)
  {
    assert c - a == (b - a) + (c - b);
  }

  lemma StandFirst(env: Env, items: seq<Item>, n: Node, rest: seq<Node>)
    requires items != [] && Stands(env, items[0], n) && AllStand(env, items[1..], rest)
    ensures AllStand(env, items, [n] + rest)
  {
    var nodes := [n] + rest;
    forall i | 0 <= i < |nodes| ensures Stands(env, items[i], nodes[i]) {
      if i > 0 { assert Stands(env, items[1..][i - 1], rest[i - 1]); }
    }
  }

  lemma {:induction false} ItemEmitsOnce(env: Env, item: Item, visited: set<Path>)
    ensures var (n, v) := ExpandItem(env, item, visited);
            multiset(EmittedBy(n)) == multiset(v - visited) && Stands(env, item, n)
    decreases Unvisited(env, visited), 0
  {
    if item.Include? && Resolve(env, item.name).Some? && Resolve(env, item.name).value !in visited {
      var h := Resolve(env, item.name).value;
      VisitDecreases(env, visited, h);
      EmitsOnce(env, env.files[h], visited + {h});
      NewlyVisited(visited, visited + {h}, Expand(env, env.files[h], visited + {h}).1);
      assert visited + {h} - visited == {h};
    }
  }

  lemma {:induction false} ExpandConcat(env: Env, a: seq<Item>, b: seq<Item>, visited: set<Path>)
    ensures var first := Expand(env, a, visited);
            var second := Expand(env, b, first.1);
            Expand(env, a + b, visited) == (first.0 + second.0, second.1)
    decreases |a|
  {
    if a == [] {
      var r := Expand(env, b, visited);
      assert a + b == b && [] + r.0 == r.0;
    } else {
      assert (a + b)[0] == a[0] && (a + b)[1..] == a[1..] + b;
      var head := ExpandItem(env, a[0], visited);
      ExpandConcat(env, a[1..], b, head.1);
      var first := Expand(env, a[1..], head.1);
      assert [head.0] + (first.0 + Expand(env, b, first.1).0) == [head.0] + first.0 + Expand(env, b, first.1).0;
    }
  }

  lemma {:induction false} ExpandLength(env: Env, items: seq<Item>, visited: set<Path>)
    ensures |Expand(env, items, visited).0| == |items|
    decreases |items|
  {
    if items != [] { ExpandLength(env, items[1..], ExpandItem(env, items[0], visited).1); }
  }

  /** What a directive names has been emitted by the time the text behind the directive follows. */
  lemma EmittedBeforeUse(env: Env, items: seq<Item>, visited: set<Path>, i: nat)
    requires i < |items| && items[i].Include? && Resolve(env, items[i].name).Some?
    ensures var nodes, h := Expand(env, items, visited).0, Resolve(env, items[i].name).value;
            |nodes| == |items| && (h in visited || h in Emitted(nodes[..i + 1]))
  {
    var front, h := items[..i + 1], Resolve(env, items[i].name).value;
    ExpandFront(env, items, visited, i + 1);
    ExpandLength(env, items, visited);
    EmittedAtEnd(env, front, visited, i);
  }

  /** The nodes of the first items depend on these only. */
  lemma ExpandFront(env: Env, items: seq<Item>, visited: set<Path>, k: nat)
    requires k <= |items|
    ensures |Expand(env, items, visited).0| == |items|
    ensures Expand(env, items, visited).0[..k] == Expand(env, items[..k], visited).0
  {
    var front, back := items[..k], items[k..];
    assert front + back == items;
    ExpandConcat(env, front, back, visited);
    ExpandLength(env, items, visited);
    ExpandLength(env, front, visited);
    FrontOf(Expand(env, front, visited).0, Expand(env, back, Expand(env, front, visited).1).0);
  }

  lemma FrontOf<T>(a: seq<T>, b: seq<T>)
    ensures (a + b)[..|a|] == a
  {
  }

  lemma EmittedAtEnd(env: Env, items: seq<Item>, visited: set<Path>, i: nat)
    requires i < |items| && items[i].Include? && Resolve(env, items[i].name).Some?
    ensures var h := Resolve(env, items[i].name).value;
            h in visited || h in Emitted(Expand(env, items, visited).0)
  {
    var h := Resolve(env, items[i].name).value;
    ExpandCovers(env, items, visited);
    EmitsOnce(env, items, visited);
    if h !in visited {
      assert h in multiset(Emitted(Expand(env, items, visited).0));
    }
  }

  /** From the beginning: exactly the reachable headers are emitted, each once. */
  lemma EmitsReachableOnce(env: Env, items: seq<Item>)
    ensures multiset(Emitted(Expand(env, items, {}).0)) == multiset(Reachable(env, items))
  {
    EmitsOnce(env, items, {});
    VisitsReachable(env, items);
    assert Reachable(env, items) - {} == Reachable(env, items);
  }

  // ----- whose text stands there -----

  /** The texts of the items that are not directives. */
  function TextsIn(items: seq<Item>): seq<string> {
    if items == [] then []
    else (if items[0].Text? then [items[0].text] else []) + TextsIn(items[1..])
  }

  /** The pieces from one source, in order. */
  function From(pieces: seq<Piece>, source: Option<Path>): seq<string> {
    if pieces == [] then []
    else (if pieces[0].source == source then [pieces[0].text] else []) + From(pieces[1..], source)
  }

  lemma {:induction false} FromConcat(a: seq<Piece>, b: seq<Piece>, source: Option<Path>)
    ensures From(a + b, source) == From(a, source) + From(b, source)
  {
    if a == [] {
      assert a + b == b;
    } else {
      assert (a + b)[0] == a[0] && (a + b)[1..] == a[1..] + b;
      FromConcat(a[1..], b, source);
    }
  }

  lemma StandTail(env: Env, items: seq<Item>, nodes: seq<Node>)
    requires AllStand(env, items, nodes) && nodes != []
    ensures items != [] && Stands(env, items[0], nodes[0]) && AllStand(env, items[1..], nodes[1..])
  {
    forall i | 0 <= i < |nodes[1..]| ensures Stands(env, items[1..][i], nodes[1..][i]) {
      assert Stands(env, items[i + 1], nodes[i + 1]);
    }
  }

  /** Nothing is from a header that is not emitted. */
  lemma {:induction false} NothingFrom(source: Option<Path>, nodes: seq<Node>, other: Option<Path>)
    requires other != source && (other.None? || other.value !in Emitted(nodes))
    ensures From(Pieces(source, nodes), other) == []
    decreases nodes
  {
    if nodes != [] {
      FromConcat(PiecesOf(source, nodes[0]), Pieces(source, nodes[1..]), other);
      NothingFrom(source, nodes[1..], other);
      if nodes[0].Header? { NothingFrom(Some(nodes[0].path), nodes[0].nodes, other); }
    }
  }

  /** Of the items' own text nothing is missing and nothing doubled. */
  lemma {:induction false} OwnTexts(env: Env, source: Option<Path>, items: seq<Item>, nodes: seq<Node>)
    requires AllStand(env, items, nodes) && (source.None? || source.value !in Emitted(nodes))
    ensures From(Pieces(source, nodes), source) == TextsIn(items)
    decreases nodes
  {
    if nodes != [] {
      StandTail(env, items, nodes);
      FromConcat(PiecesOf(source, nodes[0]), Pieces(source, nodes[1..]), source);
      OwnTexts(env, source, items[1..], nodes[1..]);
      if nodes[0].Header? {
        assert source != Some(nodes[0].path);
        NothingFrom(Some(nodes[0].path), nodes[0].nodes, source);
      }
    }
  }

  /** The own text of a header that is emitted once stands there once. */
  lemma {:induction false} OnceFrom(env: Env, source: Option<Path>, items: seq<Item>, nodes: seq<Node>, h: Path)
    requires AllStand(env, items, nodes) && source != Some(h) && multiset(Emitted(nodes))[h] == 1
    ensures h in env.files && From(Pieces(source, nodes), Some(h)) == TextsIn(env.files[h])
    decreases nodes, 0
  {
    var first, rest := EmittedBy(nodes[0]), Emitted(nodes[1..]);
    assert multiset(Emitted(nodes)) == multiset(first) + multiset(rest);
    StandTail(env, items, nodes);
    FromConcat(PiecesOf(source, nodes[0]), Pieces(source, nodes[1..]), Some(h));
    if h in first {
      assert h in multiset(first) && h !in multiset(rest);
      NothingFrom(source, nodes[1..], Some(h));
      OnceFromHeader(env, nodes[0].path, env.files[nodes[0].path], nodes[0].nodes, h);
    } else {
      assert h !in multiset(first);
      OnceFrom(env, source, items[1..], nodes[1..], h);
      if nodes[0].Header? {
        assert h !in Emitted(nodes[0].nodes) && nodes[0].path != h;
        NothingFrom(Some(nodes[0].path), nodes[0].nodes, Some(h));
      }
    }
  }

  lemma {:induction false} OnceFromHeader(env: Env, path: Path, items: seq<Item>, nodes: seq<Node>, h: Path)
    requires path in env.files && items == env.files[path] && AllStand(env, items, nodes)
    requires multiset([path] + Emitted(nodes))[h] == 1
    ensures h in env.files && From(Pieces(Some(path), nodes), Some(h)) == TextsIn(env.files[h])
    decreases nodes, 1
  {
    assert multiset([path] + Emitted(nodes)) == multiset{path} + multiset(Emitted(nodes));
    if path == h {
      assert h !in multiset(Emitted(nodes));
      OwnTexts(env, Some(h), items, nodes);
    } else {
      OnceFrom(env, Some(path), items, nodes, h);
    }
  }

  /** The own text of the items stands in the expansion once and in order, and so does that of every header newly
      visited; there is no text from anywhere else. */
  lemma ContentsOnce(env: Env, items: seq<Item>, visited: set<Path>, h: Path)
    ensures var (nodes, v) := Expand(env, items, visited);
            && From(Pieces(None, nodes), None) == TextsIn(items)
            && (h in v - visited ==>
                  h in env.files && From(Pieces(None, nodes), Some(h)) == TextsIn(env.files[h]))
            && (h !in v - visited ==> From(Pieces(None, nodes), Some(h)) == [])
  {
    var (nodes, v) := Expand(env, items, visited);
    EmitsOnce(env, items, visited);
    OwnTexts(env, None, items, nodes);
    if h in v - visited {
      assert multiset(v - visited)[h] == 1;
      OnceFrom(env, None, items, nodes, h);
    } else {
      assert h !in multiset(Emitted(nodes));
      NothingFrom(None, nodes, Some(h));
    }
  }

  /** From the beginning: the own text of every reachable header, once. */
  lemma ReachableContentsOnce(env: Env, items: seq<Item>, h: Path)
    ensures var pieces := Pieces(None, Expand(env, items, {}).0);
            && From(pieces, None) == TextsIn(items)
            && (h in Reachable(env, items) ==> From(pieces, Some(h)) == TextsIn(env.files[h]))
            && (h !in Reachable(env, items) ==> From(pieces, Some(h)) == [])
  {
    VisitsReachable(env, items);
    ContentsOnce(env, items, {}, h);
  }
}
