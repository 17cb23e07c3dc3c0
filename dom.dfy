/**
 * The part of the DOM the gallery manager touches, as a value tree.
 *
 * A node is an element (tag name, attributes, child nodes and its `innerHTML`,
 * kept as an opaque string) or any other node (text, comment), which has no
 * tag name, no attributes and no children. A node is identified by its path
 * from the root of the page: the child positions taken on the way down. Two
 * nodes are the same object exactly when their paths are equal.
 */
module Dom {
  import opened Js

  type Path = seq<nat>

  datatype Node =
    | Element(tag: string, attrs: map<string, string>, children: seq<Node>, innerHTML: string)
    | Text(data: string)

  /** `node.childNodes`: every child, elements and others. */
  function ChildNodes(n: Node): seq<Node> {
    if n.Element? then n.children else []
  }

  /** The element nodes of `nodes`, in order (`nodeType === 1`; for child nodes, the `children` collection). */
  function ElementsOf(nodes: seq<Node>): (r: seq<Node>)
    ensures |r| <= |nodes|
    ensures forall k :: 0 <= k < |r| ==> r[k].Element?
  {
    if nodes == [] then []
    else
      var last := nodes[|nodes| - 1];
      ElementsOf(nodes[..|nodes| - 1]) + (if last.Element? then [last] else [])
  }

  lemma {:induction false} ElementsOfAppend(a: seq<Node>, b: seq<Node>)
    ensures ElementsOf(a + b) == ElementsOf(a) + ElementsOf(b)
  {
    if b == [] {
      assert a + b == a;
    } else {
      var b' := b[..|b| - 1];
      assert (a + b)[..|a + b| - 1] == a + b';
      ElementsOfAppend(a, b');
    }
  }

  /**
   * Counting the element nodes before position `pos` gives the position of
   * `nodes[pos]` among the element nodes: the sibling count of the click
   * handler and the slide order of the extractor agree.
   */
  lemma ElementAtSiblingCount(nodes: seq<Node>, pos: nat)
    requires pos < |nodes| && nodes[pos].Element?
    ensures |ElementsOf(nodes[..pos])| < |ElementsOf(nodes)|
    ensures ElementsOf(nodes)[|ElementsOf(nodes[..pos])|] == nodes[pos]
  {
    assert nodes[..pos + 1][..pos] == nodes[..pos];
    assert ElementsOf(nodes[..pos + 1]) == ElementsOf(nodes[..pos]) + [nodes[pos]];
    assert nodes == nodes[..pos + 1] + nodes[pos + 1..];
    ElementsOfAppend(nodes[..pos + 1], nodes[pos + 1..]);
  }

  /** `el.getAttribute(name)`: `None` stands for `null`. */
  function GetAttribute(n: Node, name: string): Option<string>
    requires n.Element?
  {
    if name in n.attrs then Some(n.attrs[name]) else None
  }

  /** `el.tagName.toUpperCase() === 'FIGURE'` with ASCII case folding; also what `querySelectorAll('figure')` matches. */
  predicate IsFigure(n: Node) {
    n.Element? && AsciiUpper(n.tag) == "FIGURE"
  }

  // ---------------------------------------------------------------------------
  // Paths

  predicate ValidPath(t: Node, p: Path)
    decreases p
  {
    p == [] || (t.Element? && p[0] < |t.children| && ValidPath(t.children[p[0]], p[1..]))
  }

  function NodeAt(t: Node, p: Path): Node
    requires ValidPath(t, p)
    decreases p
  {
    if p == [] then t else NodeAt(t.children[p[0]], p[1..])
  }

  lemma {:induction false} NodeAtConcat(t: Node, p: Path, q: Path)
    requires ValidPath(t, p)
    ensures ValidPath(t, p + q) <==> ValidPath(NodeAt(t, p), q)
    ensures ValidPath(t, p + q) ==> NodeAt(t, p + q) == NodeAt(NodeAt(t, p), q)
    decreases p
  {
    if p == [] {
      assert p + q == q;
    } else {
      assert (p + q)[0] == p[0] && (p + q)[1..] == p[1..] + q;
      NodeAtConcat(t.children[p[0]], p[1..], q);
    }
  }

  /**
   * The chain `closest` walks from the node at `p`: that node first, then each
   * `parentNode` in turn, ending with the root `t` (whose `parentNode` is null).
   * Each node of the chain sits in the next one at the position the path names.
   */
  function Chain(t: Node, p: Path): (r: seq<Node>)
    requires ValidPath(t, p)
    ensures |r| == |p| + 1 && r[0] == NodeAt(t, p) && r[|p|] == t
    decreases p
  {
    if p == [] then [t] else Chain(t.children[p[0]], p[1..]) + [t]
  }

  /** Each node of the chain after the first is the `parentNode` of the one before it. */
  lemma {:induction false} ChainLink(t: Node, p: Path, j: nat)
    requires ValidPath(t, p) && 1 <= j <= |p|
    ensures var r := Chain(t, p);
      r[j].Element? && p[|p| - j] < |r[j].children| && r[j].children[p[|p| - j]] == r[j - 1]
    decreases p
  {
    var r := Chain(t, p);
    var below := Chain(t.children[p[0]], p[1..]);
    assert r == below + [t];
    if j < |p| {
      ChainLink(t.children[p[0]], p[1..], j);
      assert p[1..][|p| - 1 - j] == p[|p| - j];
    } else {
      assert r[j - 1] == below[|p| - 1] == t.children[p[0]];
    }
  }

  /** The `j`-th node of the chain is the node at the path with its last `j` steps removed. */
  lemma {:induction false} ChainAt(t: Node, p: Path, j: nat)
    requires ValidPath(t, p) && j <= |p|
    ensures ValidPath(t, p[..|p| - j]) && Chain(t, p)[j] == NodeAt(t, p[..|p| - j])
    decreases p
  {
    if j == |p| {
      assert p[..|p| - j] == [];
    } else {
      ChainAt(t.children[p[0]], p[1..], j);
      var q := p[..|p| - j];
      assert q[0] == p[0] && q[1..] == p[1..][..|p| - 1 - j];
    }
  }

  // ---------------------------------------------------------------------------
  // querySelectorAll('figure')

  function Under(k: nat, ps: seq<Path>): (r: seq<Path>)
    ensures |r| == |ps| && forall i :: 0 <= i < |ps| ==> r[i] == [k] + ps[i]
  {
    seq(|ps|, i requires 0 <= i < |ps| => [k] + ps[i])
  }

  predicate Distinct(ps: seq<Path>) {
    forall i, j :: 0 <= i < j < |ps| ==> ps[i] != ps[j]
  }

  /** The figures among `n` and its descendants, in document (pre-)order, as paths from `n`. */
  function FiguresFrom(n: Node): seq<Path>
    decreases n
  {
    (if IsFigure(n) then [[]] else []) + (if n.Element? then FiguresAmong(n.children) else [])
  }

  /** The figures in the forest `cs` (the children of some element), in document order, as paths from that element. */
  function FiguresAmong(cs: seq<Node>): seq<Path>
    decreases cs
  {
    if cs == [] then []
    else FiguresAmong(cs[..|cs| - 1]) + Under(|cs| - 1, FiguresFrom(cs[|cs| - 1]))
  }

  /** A path into the forest `cs` (the children of some element) that leads to a figure. */
  predicate FigureIn(cs: seq<Node>, p: Path) {
    && |p| >= 1 && p[0] < |cs|
    && ValidPath(cs[p[0]], p[1..]) && IsFigure(NodeAt(cs[p[0]], p[1..]))
  }

  /** Every path `FiguresFrom` lists leads to a figure, and none is listed twice. */
  lemma {:induction false} FiguresFromSound(n: Node)
    ensures Distinct(FiguresFrom(n))
    ensures forall i :: 0 <= i < |FiguresFrom(n)| ==> ValidPath(n, FiguresFrom(n)[i]) && IsFigure(NodeAt(n, FiguresFrom(n)[i]))
    decreases n
  {
    var self: seq<Path> := if IsFigure(n) then [[]] else [];
    var below := if n.Element? then FiguresAmong(n.children) else [];
    if n.Element? {
      FiguresAmongSound(n.children);
    }
    assert FiguresFrom(n) == self + below;
    forall i | 0 <= i < |below|
      ensures below[i] != [] && ValidPath(n, below[i]) && IsFigure(NodeAt(n, below[i]))
    {
      assert FigureIn(n.children, below[i]);
    }
  }

  /** Every path `FiguresAmong` lists leads to a figure, and none is listed twice. */
  lemma {:induction false} FiguresAmongSound(cs: seq<Node>)
    ensures Distinct(FiguresAmong(cs))
    ensures forall i :: 0 <= i < |FiguresAmong(cs)| ==> FigureIn(cs, FiguresAmong(cs)[i])
    decreases cs
  {
    if cs != [] {
      var k := |cs| - 1;
      var front := FiguresAmong(cs[..k]);
      var own := FiguresFrom(cs[k]);
      var back := Under(k, own);
      FiguresAmongSound(cs[..k]);
      FiguresFromSound(cs[k]);
      forall i | 0 <= i < |front| ensures FigureIn(cs, front[i]) && front[i][0] < k {
        assert FigureIn(cs[..k], front[i]);
      }
      forall i | 0 <= i < |back| ensures FigureIn(cs, back[i]) && back[i][0] == k {
        assert back[i][1..] == own[i];
      }
      assert FiguresAmong(cs) == front + back;
      forall i, j | 0 <= i < j < |back| ensures back[i] != back[j] {
        assert back[i][1..] == own[i] && back[j][1..] == own[j];
      }
    }
  }

  /** `el.querySelectorAll('figure')`: the figure descendants of `n` (not `n` itself), in document order. */
  function QueryFigures(n: Node): seq<Path>
  {
    FiguresAmong(ChildNodes(n))
  }

  /** `querySelectorAll` lists distinct figure descendants. */
  lemma QueryFiguresSound(n: Node)
    ensures Distinct(QueryFigures(n))
    ensures forall i :: 0 <= i < |QueryFigures(n)| ==>
      QueryFigures(n)[i] != [] && ValidPath(n, QueryFigures(n)[i]) && IsFigure(NodeAt(n, QueryFigures(n)[i]))
  {
    FiguresAmongSound(ChildNodes(n));
    forall i | 0 <= i < |QueryFigures(n)|
      ensures QueryFigures(n)[i] != [] && ValidPath(n, QueryFigures(n)[i]) && IsFigure(NodeAt(n, QueryFigures(n)[i]))
    {
      assert FigureIn(ChildNodes(n), QueryFigures(n)[i]);
    }
  }

  /** Every figure descendant is listed: `FiguresFrom` misses none. */
  lemma {:induction false} FiguresFromComplete(n: Node, p: Path)
    requires ValidPath(n, p) && IsFigure(NodeAt(n, p))
    ensures p in FiguresFrom(n)
    decreases n
  {
    if p == [] {
      assert FiguresFrom(n)[0] == [];
    } else {
      assert FigureIn(n.children, p);
      FiguresAmongComplete(n.children, p);
      var below := FiguresAmong(n.children);
      var self: seq<Path> := if IsFigure(n) then [[]] else [];
      assert FiguresFrom(n) == self + below;
    }
  }

  lemma {:induction false} FiguresAmongComplete(cs: seq<Node>, p: Path)
    requires FigureIn(cs, p)
    ensures p in FiguresAmong(cs)
    decreases cs
  {
    var k := |cs| - 1;
    var front := FiguresAmong(cs[..k]);
    var own := FiguresFrom(cs[k]);
    assert FiguresAmong(cs) == front + Under(k, own);
    if p[0] < k {
      assert FigureIn(cs[..k], p);
      FiguresAmongComplete(cs[..k], p);
    } else {
      FiguresFromComplete(cs[k], p[1..]);
      var i :| 0 <= i < |own| && own[i] == p[1..];
      assert Under(k, own)[i] == p;
    }
  }

  /** `querySelectorAll('figure')` lists exactly the figure descendants of `n`. */
  lemma QueryFiguresExact(n: Node, p: Path)
    ensures p in QueryFigures(n) <==> p != [] && ValidPath(n, p) && IsFigure(NodeAt(n, p))
  {
    QueryFiguresSound(n);
    if p != [] && ValidPath(n, p) && IsFigure(NodeAt(n, p)) {
      assert FigureIn(ChildNodes(n), p);
      FiguresAmongComplete(ChildNodes(n), p);
    }
  }

  // ---------------------------------------------------------------------------
  // Document order

  /**
   * `p` comes before `q` in document order (the order of opening tags): `p`
   * leads to an ancestor of `q`'s node, or the two paths part at the children
   * of one element with the smaller child index on `p`'s side.
   */
  predicate DocBefore(p: Path, q: Path)
  {
    if p == [] then q != []
    else q != [] && (p[0] < q[0] || (p[0] == q[0] && DocBefore(p[1..], q[1..])))
  }

  /** Each path of `ps` comes before every later one. */
  predicate InDocOrder(ps: seq<Path>) {
    forall i, j :: 0 <= i < j < |ps| ==> DocBefore(ps[i], ps[j])
  }

  /** Document order is a strict order: irreflexive, asymmetric and transitive. */
  lemma {:induction false} DocBeforeStrict(p: Path, q: Path, r: Path)
    ensures !DocBefore(p, p)
    ensures DocBefore(p, q) ==> !DocBefore(q, p)
    ensures DocBefore(p, q) && DocBefore(q, r) ==> DocBefore(p, r)
    decreases |p|
  {
    if p != [] {
      DocBeforeStrict(p[1..], if q == [] then [] else q[1..], if r == [] then [] else r[1..]);
    }
  }

  /** Continuing both paths from the same path keeps their order. */
  lemma {:induction false} DocBeforePrefixed(c: Path, p: Path, q: Path)
    ensures DocBefore(c + p, c + q) == DocBefore(p, q)
    decreases |c|
  {
    if c != [] {
      assert (c + p)[1..] == c[1..] + p;
      assert (c + q)[1..] == c[1..] + q;
      DocBeforePrefixed(c[1..], p, q);
    } else {
      assert c + p == p && c + q == q;
    }
  }

  /** The figures `FiguresFrom` lists are in document order. */
  lemma {:induction false} FiguresFromInOrder(n: Node)
    ensures InDocOrder(FiguresFrom(n))
    decreases n
  {
    var self: seq<Path> := if IsFigure(n) then [[]] else [];
    var below := if n.Element? then FiguresAmong(n.children) else [];
    var all := FiguresFrom(n);
    assert all == self + below;
    if n.Element? {
      FiguresAmongInOrder(n.children);
      FiguresAmongSound(n.children);
    }
    forall i, j | 0 <= i < j < |all| ensures DocBefore(all[i], all[j]) {
      var b := j - |self|;
      assert all[j] == below[b];
      if i < |self| {
        assert FigureIn(n.children, below[b]);
      } else {
        assert all[i] == below[i - |self|];
      }
    }
  }

  /** The figures `FiguresAmong` lists are in document order. */
  lemma {:induction false} FiguresAmongInOrder(cs: seq<Node>)
    ensures InDocOrder(FiguresAmong(cs))
    decreases cs
  {
    if cs != [] {
      var k := |cs| - 1;
      var front := FiguresAmong(cs[..k]);
      var own := FiguresFrom(cs[k]);
      var back := Under(k, own);
      var all := FiguresAmong(cs);
      assert all == front + back;
      FiguresAmongInOrder(cs[..k]);
      FiguresFromInOrder(cs[k]);
      FiguresAmongSound(cs[..k]);
      forall i, j | 0 <= i < j < |all| ensures DocBefore(all[i], all[j]) {
        if j < |front| {
          assert all[i] == front[i] && all[j] == front[j];
        } else if i < |front| {
          assert FigureIn(cs[..k], front[i]);
          assert all[i] == front[i] && all[j] == back[j - |front|];
        } else {
          var a, b := i - |front|, j - |front|;
          assert all[i] == [k] + own[a] && all[j] == [k] + own[b];
          DocBeforePrefixed([k], own[a], own[b]);
        }
      }
    }
  }

  /** `querySelectorAll('figure')` lists the figure descendants in document order. */
  lemma QueryFiguresInOrder(n: Node)
    ensures InDocOrder(QueryFigures(n))
  {
    FiguresAmongInOrder(ChildNodes(n));
  }

  // ---------------------------------------------------------------------------
  // setAttribute and the shape of the tree

  /** The attributes of the node at `p` (none for a non-element). */
  function AttrsAt(t: Node, p: Path): map<string, string>
    requires ValidPath(t, p)
  {
    var n := NodeAt(t, p);
    if n.Element? then n.attrs else map[]
  }

  /** `el.setAttribute(name, value)` on the element at `p`. */
  function SetAttrAt(t: Node, p: Path, name: string, value: string): Node
    requires ValidPath(t, p)
    decreases p
  {
    if p == [] then (if t.Element? then t.(attrs := t.attrs[name := value]) else t)
    else t.(children := t.children[p[0] := SetAttrAt(t.children[p[0]], p[1..], name, value)])
  }

  /**
   * The two trees differ at most in attributes: same kinds of node, tag
   * names, `innerHTML`, text and numbers of children, all the way down.
   */
  predicate SameShape(a: Node, b: Node)
    decreases a
  {
    && a.Element? == b.Element?
    && (!a.Element? ==> a.data == b.data)
    && (a.Element? ==>
         && a.tag == b.tag && a.innerHTML == b.innerHTML && |a.children| == |b.children|
         && forall i :: 0 <= i < |a.children| ==> SameShape(a.children[i], b.children[i]))
  }

  lemma {:induction false} SameShapeRefl(a: Node)
    ensures SameShape(a, a)
    decreases a
  {
    if a.Element? {
      forall i | 0 <= i < |a.children| ensures SameShape(a.children[i], a.children[i]) {
        SameShapeRefl(a.children[i]);
      }
    }
  }

  lemma {:induction false} SameShapeTrans(a: Node, b: Node, c: Node)
    requires SameShape(a, b) && SameShape(b, c)
    ensures SameShape(a, c)
    decreases a
  {
    if a.Element? {
      forall i | 0 <= i < |a.children| ensures SameShape(a.children[i], c.children[i]) {
        SameShapeTrans(a.children[i], b.children[i], c.children[i]);
      }
    }
  }

  /** Paths and the nodes they reach depend only on the shape. */
  lemma {:induction false} SameShapePaths(a: Node, b: Node, q: Path)
    requires SameShape(a, b)
    ensures ValidPath(a, q) <==> ValidPath(b, q)
    ensures ValidPath(a, q) ==> SameShape(NodeAt(a, q), NodeAt(b, q))
    decreases q
  {
    if q != [] && a.Element? && q[0] < |a.children| {
      SameShapePaths(a.children[q[0]], b.children[q[0]], q[1..]);
    }
  }

  /** Every path into `b` is a path into a tree of the same shape. */
  lemma SameShapeValid(a: Node, b: Node)
    requires SameShape(a, b)
    ensures forall q :: ValidPath(b, q) ==> ValidPath(a, q)
  {
  }

  /** Which descendants are figures depends only on the shape. */
  lemma {:induction false} SameShapeFiguresFrom(a: Node, b: Node)
    requires SameShape(a, b)
    ensures FiguresFrom(a) == FiguresFrom(b)
    decreases a
  {
    if a.Element? {
      SameShapeFiguresAmong(a.children, b.children);
    }
  }

  lemma {:induction false} SameShapeFiguresAmong(xs: seq<Node>, ys: seq<Node>)
    requires |xs| == |ys| && forall i :: 0 <= i < |xs| ==> SameShape(xs[i], ys[i])
    ensures FiguresAmong(xs) == FiguresAmong(ys)
    decreases xs
  {
    if xs != [] {
      var k := |xs| - 1;
      SameShapeFiguresAmong(xs[..k], ys[..k]);
      SameShapeFiguresFrom(xs[k], ys[k]);
    }
  }

  lemma SameShapeQueryFigures(a: Node, b: Node)
    requires SameShape(a, b)
    ensures QueryFigures(a) == QueryFigures(b)
  {
    if a.Element? {
      SameShapeFiguresAmong(a.children, b.children);
    }
  }

  /** `setAttribute` changes no node's kind, tag or children count. */
  lemma {:induction false} SetAttrShape(t: Node, p: Path, name: string, value: string)
    requires ValidPath(t, p)
    ensures SameShape(SetAttrAt(t, p, name, value), t)
    decreases p
  {
    var t' := SetAttrAt(t, p, name, value);
    if p == [] {
      if t.Element? {
        forall i | 0 <= i < |t.children| ensures SameShape(t'.children[i], t.children[i]) {
          SameShapeRefl(t.children[i]);
        }
      } else {
        SameShapeRefl(t);
      }
    } else {
      forall i | 0 <= i < |t.children| ensures SameShape(t'.children[i], t.children[i]) {
        if i == p[0] {
          SetAttrShape(t.children[i], p[1..], name, value);
        } else {
          SameShapeRefl(t.children[i]);
        }
      }
    }
  }

  /** The element at `p` gains (or overwrites) exactly the one attribute. */
  lemma {:induction false} SetAttrSelf(t: Node, p: Path, name: string, value: string)
    requires ValidPath(t, p) && NodeAt(t, p).Element?
    ensures ValidPath(SetAttrAt(t, p, name, value), p)
    ensures AttrsAt(SetAttrAt(t, p, name, value), p) == AttrsAt(t, p)[name := value]
    decreases p
  {
    if p != [] {
      SetAttrSelf(t.children[p[0]], p[1..], name, value);
    }
  }

  /** Every other node keeps its attributes. */
  lemma {:induction false} SetAttrOther(t: Node, p: Path, q: Path, name: string, value: string)
    requires ValidPath(t, p) && ValidPath(t, q) && p != q
    ensures ValidPath(SetAttrAt(t, p, name, value), q)
    ensures AttrsAt(SetAttrAt(t, p, name, value), q) == AttrsAt(t, q)
    decreases p
  {
    var t' := SetAttrAt(t, p, name, value);
    if p == [] {
      assert t'.children == t.children;
    } else if q == [] {
    } else if p[0] != q[0] {
      assert t'.children[q[0]] == t.children[q[0]];
    } else {
      assert p == [p[0]] + p[1..] && q == [q[0]] + q[1..];
      SetAttrOther(t.children[p[0]], p[1..], q[1..], name, value);
    }
  }

  /** Setting an attribute to the value it already has changes nothing. */
  lemma {:induction false} SetAttrUnchanged(t: Node, p: Path, name: string, value: string)
    requires ValidPath(t, p) && NodeAt(t, p).Element?
    requires name in AttrsAt(t, p) && AttrsAt(t, p)[name] == value
    ensures SetAttrAt(t, p, name, value) == t
    decreases p
  {
    if p == [] {
      assert t.attrs[name := value] == t.attrs;
    } else {
      SetAttrUnchanged(t.children[p[0]], p[1..], name, value);
      assert t.children[p[0] := t.children[p[0]]] == t.children;
    }
  }
}
