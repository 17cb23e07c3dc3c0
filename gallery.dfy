/**
 * `PhotoGalleryManager`: binds the figures of a gallery container, opens the
 * PhotoSwipe viewer on a click or on a deep link, and hands it the slides.
 *
 * The page is a value tree (see `Dom`); the manager keeps the current page,
 * the paths of its gallery container and viewer container, the figures whose
 * `onclick` it has bound, and the log of viewer launches (`new PhotoSwipe(…)`
 * followed by `init()`).
 */
module Gallery {
  import opened Js
  import opened Dom
  import opened DeepLink
  import opened Thumbnails

  /** The attribute `setup` stamps on each figure and `openPhotoSwipe` reads back as `galleryUID`. */
  const UidAttribute: string := "data-pswp-uid"

  /** What one `new PhotoSwipe(viewer, PhotoSwipeUI_Default, items, options)` receives. */
  datatype LaunchRequest = LaunchRequest(
    viewer: Path,
    items: seq<Slide>,
    galleryUID: Option<string>,
    index: int,
    showAnimationDuration: Option<int>)

  /** The log entries a plan of `openPhotoSwipe` adds: one launch, or none. */
  function Launched(plan: Result<Option<LaunchRequest>>): seq<LaunchRequest> {
    if plan.Ok? && plan.value.Some? then [plan.value.value] else []
  }

  // ---------------------------------------------------------------------------
  // openPhotoSwipe

  /** The `index` argument of `openPhotoSwipe`: a number from the click handler, text from the URL. */
  datatype IndexArg = IndexNumber(n: nat) | IndexText(s: string)

  /**
   * `parseInt(index, 10)`. A number is read through its decimal text, which
   * gives a whole number back unchanged (`ParseIndexNumber`).
   */
  function ParseIndex(index: IndexArg): Option<int> {
    match index
    case IndexNumber(n) => Some(n)
    case IndexText(s) => ParseInt(s)
  }

  /** `parseInt` of a whole number is `parseInt` of its decimal text. */
  lemma ParseIndexNumber(n: nat)
    ensures ParseIndex(IndexNumber(n)) == ParseInt(NatToString(n))
  {
    ParseIntOfNatToString(n);
  }

  /**
   * What `openPhotoSwipe(index, galleryElement, disableAnimation, fromURL)`
   * does: `Err` when it throws, `Ok(None)` when it returns on a NaN index,
   * `Ok(Some(req))` when it launches the viewer. `galleryElement` is `None`
   * when it is `undefined`.
   */
  function OpenPlan(viewer: Path, index: IndexArg, galleryElement: Option<Node>, disableAnimation: bool, fromURL: bool)
    : Result<Option<LaunchRequest>>
  {
    if galleryElement.None? then Err(TypeError)
    else
      var gallery := galleryElement.value;
      match Slides(ChildNodes(gallery))
      case Err(e) => Err(e)
      case Ok(items) =>
        if !gallery.Element? then Err(TypeError)
        else
          var parsed := ParseIndex(index);
          if parsed.None? then Ok(None)
          else
            Ok(Some(LaunchRequest(
              viewer,
              items,
              GetAttribute(gallery, UidAttribute),
              if fromURL then parsed.value - 1 else parsed.value,
              if disableAnimation then Some(0) else None)))
  }

  /**
   * The slides are read, and may throw, before the index is looked at: a NaN
   * index opens nothing but does not hide an error. A launch gets the gallery's
   * slides, its `data-pswp-uid`, the viewer container, and a duration of 0
   * exactly when animation is disabled.
   */
  lemma OpenPlanOutcome(viewer: Path, index: IndexArg, galleryElement: Option<Node>, disableAnimation: bool, fromURL: bool)
    ensures var plan := OpenPlan(viewer, index, galleryElement, disableAnimation, fromURL);
      plan.Err? <==> galleryElement.None? || Slides(ChildNodes(galleryElement.value)).Err? || !galleryElement.value.Element?
    ensures var plan := OpenPlan(viewer, index, galleryElement, disableAnimation, fromURL);
      plan.Ok? ==> (plan.value.None? <==> ParseIndex(index).None?)
    ensures var plan := OpenPlan(viewer, index, galleryElement, disableAnimation, fromURL);
      plan.Ok? && plan.value.Some? ==>
        var req := plan.value.value;
        && req.viewer == viewer
        && req.index == (if fromURL then ParseIndex(index).value - 1 else ParseIndex(index).value)
        && Slides(ChildNodes(galleryElement.value)) == Ok(req.items)
        && req.galleryUID == GetAttribute(galleryElement.value, UidAttribute)
        && (req.showAnimationDuration == Some(0) <==> disableAnimation)
        && (req.showAnimationDuration.None? <==> !disableAnimation)
  {
  }

  /**
   * Indexes in a URL start from 1: opened from a URL, the same index text
   * gives the slide before the one it gives otherwise, and everything else
   * is the same.
   */
  lemma OpenPlanFromUrl(viewer: Path, index: IndexArg, galleryElement: Option<Node>, disableAnimation: bool)
    ensures var fromUrl := OpenPlan(viewer, index, galleryElement, disableAnimation, true);
      var direct := OpenPlan(viewer, index, galleryElement, disableAnimation, false);
      && (fromUrl.Ok? <==> direct.Ok?)
      && (fromUrl.Ok? ==> (fromUrl.value.Some? <==> direct.value.Some?))
      && (fromUrl.Ok? && fromUrl.value.Some? ==>
            fromUrl.value.value == direct.value.value.(index := direct.value.value.index - 1))
  {
  }

  // ---------------------------------------------------------------------------
  // onThumbnailsClick

  /**
   * `closest(el, isFigure)` along `chain` (the clicked node, then its
   * ancestors): the position of the first figure, or `None` when the walk
   * reaches the null parent of the root.
   */
  function Closest(chain: seq<Node>): (r: Option<nat>)
    ensures r.Some? ==> r.value < |chain| && IsFigure(chain[r.value])
  {
    if chain == [] then None
    else if IsFigure(chain[0]) then Some(0)
    else
      match Closest(chain[1..])
      case None => None
      case Some(k) => Some(k + 1)
  }

  /** `closest` stops at the first figure of the chain, and finds nothing only when there is none. */
  lemma {:induction false} ClosestIsFirst(chain: seq<Node>)
    ensures var r := Closest(chain);
      && (r.Some? ==> forall j :: 0 <= j < r.value ==> !IsFigure(chain[j]))
      && (r.None? ==> forall j :: 0 <= j < |chain| ==> !IsFigure(chain[j]))
  {
    if chain != [] && !IsFigure(chain[0]) {
      ClosestIsFirst(chain[1..]);
      assert forall j :: 0 < j < |chain| ==> chain[j] == chain[1..][j - 1];
    }
  }

  /**
   * The sibling loop: the position of `childNodes[clicked]` among the element
   * nodes of `childNodes`, found by counting the elements before it; `None`
   * (the index stays `undefined`) when there is no such element.
   */
  method SiblingIndex(childNodes: seq<Node>, clicked: nat) returns (index: Option<nat>)
    ensures index.Some? <==> clicked < |childNodes| && childNodes[clicked].Element?
    ensures index.Some? ==> index.value == |ElementsOf(childNodes[..clicked])|
    ensures index.Some? ==> index.value < |ElementsOf(childNodes)| && ElementsOf(childNodes)[index.value] == childNodes[clicked]
  {
    index := None;
    var nodeIndex := 0;
    for i := 0 to |childNodes|
      invariant index.None?
      invariant nodeIndex == |ElementsOf(childNodes[..i])|
      invariant clicked < i ==> !childNodes[clicked].Element?
    {
      assert childNodes[..i + 1][..i] == childNodes[..i];
      if !childNodes[i].Element? {
        continue;
      }
      if i == clicked {
        index := Some(nodeIndex);
        ElementAtSiblingCount(childNodes, clicked);
        break;
      }
      nodeIndex := nodeIndex + 1;
    }
  }

  /** What a click does: nothing (`return;`), or it is handled (`return false`) with at most one launch. */
  datatype ClickEffect = Ignored | Handled(launch: Option<LaunchRequest>)

  /**
   * `onThumbnailsClick` for a click on the node at `target`: find the nearest
   * figure at or above it; it throws when that figure has no parent, and
   * otherwise goes on in the parent, at the figure's position.
   */
  function ClickPlan(viewer: Path, page: Node, target: Path): Result<ClickEffect>
    requires ValidPath(page, target)
  {
    var chain := Chain(page, target);
    match Closest(chain)
    case None => Ok(Ignored)
    case Some(k) =>
      if k == |target| then Err(TypeError)
      else ClickIn(viewer, chain[k + 1], target[|target| - 1 - k])
  }

  /**
   * The rest of the handler once the clicked figure is found, `clickedGallery`
   * being its parent and `pos` its position among the parent's child nodes:
   * the loop counts the element nodes before the figure, and when it finds
   * the figure the viewer opens at that count.
   */
  function ClickIn(viewer: Path, clickedGallery: Node, pos: nat): Result<ClickEffect> {
    var childNodes := ChildNodes(clickedGallery);
    if pos < |childNodes| && childNodes[pos].Element? then
      AfterOpen(OpenPlan(viewer, IndexNumber(|ElementsOf(childNodes[..pos])|), Some(clickedGallery), false, false))
    else
      Ok(Handled(None))
  }

  /** `return false` after `openPhotoSwipe`, unless it threw. */
  function AfterOpen(open: Result<Option<LaunchRequest>>): Result<ClickEffect> {
    match open
    case Err(e) => Err(e)
    case Ok(launch) => Ok(Handled(launch))
  }

  /** The log entries a click adds. */
  function ClickLaunched(plan: Result<ClickEffect>): seq<LaunchRequest> {
    if plan.Ok? && plan.value.Handled? && plan.value.launch.Some? then [plan.value.launch.value] else []
  }

  /** What the handler returns: `Ok(None)` for `undefined`, `Ok(Some(false))` for `false`. */
  function ClickReturn(plan: Result<ClickEffect>): Result<Option<bool>> {
    match plan
    case Err(e) => Err(e)
    case Ok(Ignored) => Ok(None)
    case Ok(Handled(_)) => Ok(Some(false))
  }

  /**
   * `closest` finds the nearest figure: the node at `target` with its last
   * `k` steps removed is a figure and no node strictly between it and the
   * target is; when it finds none, no node from the target up to the root is
   * a figure.
   */
  lemma ClosestIsNearestFigure(page: Node, target: Path)
    requires ValidPath(page, target)
    ensures var found := Closest(Chain(page, target));
      found.Some? ==>
        && found.value <= |target|
        && ValidPath(page, target[..|target| - found.value])
        && IsFigure(NodeAt(page, target[..|target| - found.value]))
        && forall e :: |target| - found.value < e <= |target| ==>
             ValidPath(page, target[..e]) && !IsFigure(NodeAt(page, target[..e]))
    ensures Closest(Chain(page, target)).None? ==>
      forall e :: 0 <= e <= |target| ==> ValidPath(page, target[..e]) && !IsFigure(NodeAt(page, target[..e]))
  {
    var chain := Chain(page, target);
    var found := Closest(chain);
    ClosestIsFirst(chain);
    var bound := if found.Some? then found.value else |chain|;
    forall e | |target| - bound < e <= |target|
      ensures ValidPath(page, target[..e]) && !IsFigure(NodeAt(page, target[..e]))
    {
      ChainAt(page, target, |target| - e);
    }
    if found.Some? {
      ChainAt(page, target, found.value);
    }
  }

  /**
   * The click on child node `pos` of `gallery` is handled by opening the
   * viewer on the slides of `gallery` at index `pos` counted in element
   * siblings (the slide of that child), with the gallery's `data-pswp-uid`
   * and the default animation, or throws, exactly when those slides cannot
   * be read.
   */
  predicate ClickOpensOn(plan: Result<ClickEffect>, viewer: Path, gallery: Node, pos: nat)
    requires gallery.Element? && pos < |gallery.children|
  {
    && (plan.Err? <==> Slides(ChildNodes(gallery)).Err?)
    && (plan.Ok? ==>
          && plan.value.Handled? && plan.value.launch.Some?
          && var req := plan.value.launch.value;
          && req.viewer == viewer
          && Slides(ChildNodes(gallery)) == Ok(req.items)
          && req.index == |ElementsOf(gallery.children[..pos])|
          && 0 <= req.index < |req.items|
          && req.items[req.index].el == gallery.children[pos]
          && req.galleryUID == GetAttribute(gallery, UidAttribute)
          && req.showAnimationDuration.None?)
  }

  /**
   * A click below a figure that has a parent opens the viewer on the parent's
   * slides at the slide of that very figure (the chain's `k`-th node, the
   * nearest figure, by `ClosestIsNearestFigure`), with the parent's
   * `data-pswp-uid` and the default animation; it throws exactly when the
   * parent's slides cannot be read.
   */
  lemma ClickOpensClickedFigure(viewer: Path, page: Node, target: Path, k: nat)
    requires ValidPath(page, target)
    requires Closest(Chain(page, target)) == Some(k) && k < |target|
    ensures var parent, pos := Chain(page, target)[k + 1], target[|target| - 1 - k];
      parent.Element? && pos < |parent.children| && parent.children[pos] == Chain(page, target)[k]
    ensures ClickOpensOn(ClickPlan(viewer, page, target), viewer, Chain(page, target)[k + 1], target[|target| - 1 - k])
  {
    var chain := Chain(page, target);
    ChainLink(page, target, k + 1);
    ClickInOpens(viewer, chain[k + 1], target[|target| - 1 - k]);
  }

  /**
   * In a gallery, a click on one of its element children opens the viewer on
   * the gallery's slides at that child's slide: the sibling count the loop
   * finds is the child's place among the slides.
   */
  lemma ClickInOpens(viewer: Path, parent: Node, pos: nat)
    requires parent.Element? && pos < |parent.children| && parent.children[pos].Element?
    ensures ClickOpensOn(ClickIn(viewer, parent, pos), viewer, parent, pos)
  {
    ElementAtSiblingCount(parent.children, pos);
  }

  /** A click on a node with no figure at or above it is ignored. */
  lemma ClickOutsideFiguresIgnored(viewer: Path, page: Node, target: Path)
    requires ValidPath(page, target)
    requires forall e :: 0 <= e <= |target| ==> ValidPath(page, target[..e]) && !IsFigure(NodeAt(page, target[..e]))
    ensures ClickPlan(viewer, page, target) == Ok(Ignored)
  {
    var chain := Chain(page, target);
    forall j | 0 <= j < |chain| ensures !IsFigure(chain[j]) {
      ChainAt(page, target, j);
    }
  }

  /** When the nearest figure is the root of the page, reading its parent's `childNodes` throws. */
  lemma ClickOnRootFigureThrows(viewer: Path, page: Node, target: Path)
    requires ValidPath(page, target) && IsFigure(page)
    requires forall e :: 0 < e <= |target| ==> ValidPath(page, target[..e]) && !IsFigure(NodeAt(page, target[..e]))
    ensures ClickPlan(viewer, page, target) == Err(TypeError)
  {
    var chain := Chain(page, target);
    forall j | 0 <= j < |target| ensures !IsFigure(chain[j]) {
      ChainAt(page, target, j);
    }
    ClosestIsFirst(chain);
    assert Closest(chain) == Some(|target|);
  }

  // ---------------------------------------------------------------------------
  // setup: stamping and the deep link

  /** `container.querySelectorAll('figure')`, as paths from the root of the page, in document order. */
  function GalleryElements(page: Node, container: Path): (r: seq<Path>)
    requires ValidPath(page, container)
    ensures Distinct(r)
    ensures forall i :: 0 <= i < |r| ==> ValidPath(page, r[i]) && IsFigure(NodeAt(page, r[i]))
  {
    var r := Prefixed(container, QueryFigures(NodeAt(page, container)));
    AbsoluteFigures(page, container, r);
    r
  }

  /** Each path of `ps`, continued from `c`. */
  function Prefixed(c: Path, ps: seq<Path>): (r: seq<Path>)
    ensures |r| == |ps| && forall i :: 0 <= i < |ps| ==> r[i] == c + ps[i]
  {
    seq(|ps|, i requires 0 <= i < |ps| => c + ps[i])
  }

  lemma AbsoluteFigures(page: Node, container: Path, r: seq<Path>)
    requires ValidPath(page, container)
    requires r == Prefixed(container, QueryFigures(NodeAt(page, container)))
    ensures Distinct(r)
    ensures forall i :: 0 <= i < |r| ==> ValidPath(page, r[i]) && IsFigure(NodeAt(page, r[i]))
  {
    var relative := QueryFigures(NodeAt(page, container));
    QueryFiguresSound(NodeAt(page, container));
    forall i | 0 <= i < |r| ensures ValidPath(page, r[i]) && IsFigure(NodeAt(page, r[i])) {
      NodeAtConcat(page, container, relative[i]);
    }
    forall i, j | 0 <= i < j < |r| ensures r[i] != r[j] {
      assert r[i][|container|..] == relative[i];
      assert r[j][|container|..] == relative[j];
    }
  }

  /** The gallery elements are in document order: the numbering of `setup` and the `gid` lookup follow it. */
  lemma GalleryElementsInOrder(page: Node, container: Path)
    requires ValidPath(page, container)
    ensures InDocOrder(GalleryElements(page, container))
  {
    var relative := QueryFigures(NodeAt(page, container));
    var r := GalleryElements(page, container);
    QueryFiguresInOrder(NodeAt(page, container));
    forall i, j | 0 <= i < j < |r| ensures DocBefore(r[i], r[j]) {
      DocBeforePrefixed(container, relative[i], relative[j]);
    }
  }

  /** The gallery elements are exactly the figures strictly below the container. */
  lemma GalleryElementsExact(page: Node, container: Path, p: Path)
    requires ValidPath(page, container)
    ensures p in GalleryElements(page, container) <==>
      && |p| > |container| && p[..|container|] == container
      && ValidPath(page, p) && IsFigure(NodeAt(page, p))
  {
    if p in GalleryElements(page, container) {
      GalleryElementBelow(page, container, p);
    }
    if |p| > |container| && p[..|container|] == container && ValidPath(page, p) && IsFigure(NodeAt(page, p)) {
      FigureBelowListed(page, container, p);
    }
  }

  lemma GalleryElementBelow(page: Node, container: Path, p: Path)
    requires ValidPath(page, container) && p in GalleryElements(page, container)
    ensures |p| > |container| && p[..|container|] == container
  {
    var relative := QueryFigures(NodeAt(page, container));
    var figs := GalleryElements(page, container);
    var i :| 0 <= i < |figs| && figs[i] == p;
    QueryFiguresSound(NodeAt(page, container));
    assert relative[i] != [] && p == container + relative[i];
    assert p[..|container|] == container;
  }

  lemma FigureBelowListed(page: Node, container: Path, p: Path)
    requires ValidPath(page, container)
    requires |p| > |container| && p[..|container|] == container
    requires ValidPath(page, p) && IsFigure(NodeAt(page, p))
    ensures p in GalleryElements(page, container)
  {
    var n := NodeAt(page, container);
    var rest := p[|container|..];
    assert p == container + rest;
    NodeAtConcat(page, container, rest);
    QueryFiguresExact(n, rest);
    var relative := QueryFigures(n);
    var i :| 0 <= i < |relative| && relative[i] == rest;
    assert GalleryElements(page, container)[i] == p;
  }

  /** A page of the same shape has the same gallery elements. */
  lemma SameShapeGalleryElements(a: Node, b: Node, container: Path)
    requires SameShape(a, b) && ValidPath(b, container)
    ensures ValidPath(a, container) && GalleryElements(a, container) == GalleryElements(b, container)
  {
    SameShapePaths(a, b, container);
    SameShapeQueryFigures(NodeAt(a, container), NodeAt(b, container));
  }

  /** The page after the stamping loop has run over `ps`: the `i`-th gets `data-pswp-uid = i + 1`. */
  function StampAll(t: Node, ps: seq<Path>): (r: Node)
    requires forall i :: 0 <= i < |ps| ==> ValidPath(t, ps[i])
    ensures SameShape(r, t)
    ensures forall q :: ValidPath(t, q) ==> ValidPath(r, q)
    decreases |ps|
  {
    if ps == [] then
      SameShapeRefl(t);
      SameShapeValid(t, t);
      t
    else
      var n := |ps| - 1;
      var s := StampAll(t, ps[..n]);
      SameShapePaths(s, t, ps[n]);
      var r := SetAttrAt(s, ps[n], UidAttribute, NatToString(n + 1));
      SetAttrShape(s, ps[n], UidAttribute, NatToString(n + 1));
      SameShapeTrans(r, s, t);
      SameShapeValid(r, t);
      r
  }

  /** One more turn of the stamping loop: the next path of `ps` gets the next number. */
  lemma StampAllStep(t: Node, ps: seq<Path>, i: nat)
    requires forall j :: 0 <= j < |ps| ==> ValidPath(t, ps[j])
    requires i < |ps|
    ensures ValidPath(StampAll(t, ps[..i]), ps[i])
    ensures StampAll(t, ps[..i + 1]) == SetAttrAt(StampAll(t, ps[..i]), ps[i], UidAttribute, NatToString(i + 1))
  {
    assert ps[..i + 1][..i] == ps[..i];
  }

  /**
   * Stamping gives the `i`-th figure `data-pswp-uid = i + 1` on top of its
   * other attributes and leaves the attributes of every other node alone.
   */
  lemma {:induction false} StampAllUids(t: Node, ps: seq<Path>)
    requires forall i :: 0 <= i < |ps| ==> ValidPath(t, ps[i]) && NodeAt(t, ps[i]).Element?
    requires Distinct(ps)
    ensures forall i :: 0 <= i < |ps| ==>
      AttrsAt(StampAll(t, ps), ps[i]) == AttrsAt(t, ps[i])[UidAttribute := NatToString(i + 1)]
    ensures forall q :: ValidPath(t, q) && q !in ps ==> AttrsAt(StampAll(t, ps), q) == AttrsAt(t, q)
    decreases |ps|
  {
    if ps != [] {
      var n := |ps| - 1;
      var front, p := ps[..n], ps[n];
      var s := StampAll(t, front);
      StampAllUids(t, front);
      assert p !in front by {
        forall i | 0 <= i < n ensures front[i] != p {
          assert front[i] == ps[i];
        }
      }
      SameShapePaths(s, t, p);
      SetAttrSelf(s, p, UidAttribute, NatToString(n + 1));
      forall i | 0 <= i < n
        ensures AttrsAt(StampAll(t, ps), ps[i]) == AttrsAt(t, ps[i])[UidAttribute := NatToString(i + 1)]
      {
        assert ps[i] == front[i];
        SetAttrOther(s, p, ps[i], UidAttribute, NatToString(n + 1));
      }
      forall q | ValidPath(t, q) && q !in ps ensures AttrsAt(StampAll(t, ps), q) == AttrsAt(t, q) {
        assert q !in front && q != p;
        SetAttrOther(s, p, q, UidAttribute, NatToString(n + 1));
      }
    }
  }

  /** Stamping figures that already carry their numbers changes nothing. */
  lemma {:induction false} StampAllStable(u: Node, ps: seq<Path>)
    requires forall i :: 0 <= i < |ps| ==>
      && ValidPath(u, ps[i]) && NodeAt(u, ps[i]).Element?
      && UidAttribute in AttrsAt(u, ps[i]) && AttrsAt(u, ps[i])[UidAttribute] == NatToString(i + 1)
    ensures StampAll(u, ps) == u
    decreases |ps|
  {
    if ps != [] {
      var n := |ps| - 1;
      StampAllStable(u, ps[..n]);
      SetAttrUnchanged(u, ps[n], UidAttribute, NatToString(n + 1));
    }
  }

  /**
   * Running the stamping loop a second time (a second `setup()` on the same
   * container) finds the same figures and leaves the page as it is.
   */
  lemma StampTwice(page: Node, container: Path)
    requires ValidPath(page, container)
    ensures var figs := GalleryElements(page, container);
      var once := StampAll(page, figs);
      && GalleryElements(once, container) == figs
      && StampAll(once, figs) == once
  {
    var figs := GalleryElements(page, container);
    var once := StampAll(page, figs);
    SameShapeGalleryElements(once, page, container);
    StampAllUids(page, figs);
    forall i | 0 <= i < |figs| ensures NodeAt(once, figs[i]).Element? {
      SameShapePaths(once, page, figs[i]);
    }
    StampAllStable(once, figs);
  }

  /** `hashData[key]`: `None` when the key is absent (`undefined`). */
  function Lookup(hashData: map<string, HashValue>, key: string): Option<HashValue> {
    if key in hashData then Some(hashData[key]) else None
  }

  /** JavaScript truthiness of a property of the parsed hash: a non-empty text, or a number other than 0 and NaN. */
  predicate Truthy(v: Option<HashValue>) {
    match v
    case None => false
    case Some(Str(s)) => s != []
    case Some(Num(n)) => n.Some? && n.value != 0
  }

  /**
   * The deep-link part of `setup`: when both `pid` and `gid` are truthy, open
   * the viewer from the URL on figure number `gid` (counting from 1) of
   * `galleryElements` at picture `pid`, without animation; a `gid` out of
   * range gives an `undefined` gallery.
   */
  function DeepLinkPlan(viewer: Path, page: Node, galleryElements: seq<Path>, hash: string): Result<Option<LaunchRequest>>
    requires forall i :: 0 <= i < |galleryElements| ==> ValidPath(page, galleryElements[i])
  {
    var hashData := ParseHashSpec(hash);
    var pid, gid := Lookup(hashData, "pid"), Lookup(hashData, "gid");
    if Truthy(pid) && Truthy(gid) then
      OpenPlan(viewer, IndexText(pid.value.s), GalleryAt(page, galleryElements, gid.value.n.value), true, true)
    else Ok(None)
  }

  /** `DeepLinkPlan` for an already parsed hash. */
  lemma DeepLinkPlanOf(viewer: Path, page: Node, galleryElements: seq<Path>, hash: string, hashData: map<string, HashValue>)
    requires forall i :: 0 <= i < |galleryElements| ==> ValidPath(page, galleryElements[i])
    requires hashData == ParseHashSpec(hash)
    ensures var pid, gid := Lookup(hashData, "pid"), Lookup(hashData, "gid");
      && (Truthy(gid) ==> gid.value.Num?)
      && (Truthy(pid) ==> pid.value.Str?)
      && DeepLinkPlan(viewer, page, galleryElements, hash) ==
           if Truthy(pid) && Truthy(gid) then OpenPlan(viewer, IndexText(pid.value.s), GalleryAt(page, galleryElements, gid.value.n.value), true, true)
           else Ok(None)
  {
  }

  /** The gallery element number `gid` (counting from 1), or `None` (`undefined`) out of range. */
  function GalleryAt(page: Node, galleryElements: seq<Path>, gid: int): (r: Option<Node>)
    requires forall i :: 0 <= i < |galleryElements| ==> ValidPath(page, galleryElements[i])
    ensures r.Some? <==> 1 <= gid <= |galleryElements|
  {
    if 1 <= gid <= |galleryElements| then Some(NodeAt(page, galleryElements[gid - 1])) else None
  }

  /**
   * `#&pid=P&gid=G` on a stamped page, with `G` naming one of its figures,
   * opens the viewer on that figure's slides at index `P - 1`, without
   * animation, and with `galleryUID` equal to `G` itself (the number stamping
   * gave that figure); it throws exactly when the figure's slides cannot be
   * read.
   */
  lemma DeepLinkOpens(viewer: Path, original: Node, container: Path, pid: nat, gid: nat)
    requires ValidPath(original, container)
    requires 1 <= gid <= |GalleryElements(original, container)|
    ensures var figs := GalleryElements(original, container);
      var page := StampAll(original, figs);
      var gallery := NodeAt(page, figs[gid - 1]);
      var plan := DeepLinkPlan(viewer, page, figs, "#&pid=" + NatToString(pid) + "&gid=" + NatToString(gid));
      && (plan.Err? <==> Slides(ChildNodes(gallery)).Err?)
      && (plan.Ok? ==>
            && plan.value.Some?
            && var req := plan.value.value;
            && req.viewer == viewer
            && Slides(ChildNodes(gallery)) == Ok(req.items)
            && req.index == pid - 1
            && req.showAnimationDuration == Some(0)
            && req.galleryUID == Some(NatToString(gid)))
  {
    var figs := GalleryElements(original, container);
    var page := StampAll(original, figs);
    var gallery := NodeAt(page, figs[gid - 1]);
    DeepLinkCanonical(viewer, page, figs, pid, gid);
    StampedUid(original, figs, gid - 1);
    OpenFromUrlNumber(viewer, gallery, pid);
  }

  /** `#&pid=P&gid=G` with `G` at least 1 is `openPhotoSwipe(P, galleryElements[G - 1], true, true)`. */
  lemma DeepLinkCanonical(viewer: Path, page: Node, galleryElements: seq<Path>, pid: nat, gid: nat)
    requires forall i :: 0 <= i < |galleryElements| ==> ValidPath(page, galleryElements[i])
    requires 1 <= gid
    ensures DeepLinkPlan(viewer, page, galleryElements, "#&pid=" + NatToString(pid) + "&gid=" + NatToString(gid))
      == OpenPlan(viewer, IndexText(NatToString(pid)), GalleryAt(page, galleryElements, gid), true, true)
  {
    var hash := "#&pid=" + NatToString(pid) + "&gid=" + NatToString(gid);
    CanonicalDeepLink(pid, gid);
    DeepLinkPlanOf(viewer, page, galleryElements, hash, ParseHashSpec(hash));
  }

  /**
   * Opened from the URL with the decimal text of a number `P`, a gallery
   * element shows its slides at index `P - 1` without animation, tagged with
   * its `data-pswp-uid`, or throws exactly when its slides cannot be read.
   */
  lemma OpenFromUrlNumber(viewer: Path, gallery: Node, pid: nat)
    requires gallery.Element?
    ensures var plan := OpenPlan(viewer, IndexText(NatToString(pid)), Some(gallery), true, true);
      && (plan.Err? <==> Slides(ChildNodes(gallery)).Err?)
      && (plan.Ok? ==>
            && plan.value.Some?
            && var req := plan.value.value;
            && req.viewer == viewer
            && Slides(ChildNodes(gallery)) == Ok(req.items)
            && req.index == pid - 1
            && req.showAnimationDuration == Some(0)
            && req.galleryUID == GetAttribute(gallery, UidAttribute))
  {
    ParseIntOfNatToString(pid);
  }

  /** After stamping, the `i`-th figure's `data-pswp-uid` reads back as `i + 1`. */
  lemma StampedUid(original: Node, figs: seq<Path>, i: nat)
    requires forall j :: 0 <= j < |figs| ==> ValidPath(original, figs[j]) && IsFigure(NodeAt(original, figs[j]))
    requires Distinct(figs) && i < |figs|
    ensures NodeAt(StampAll(original, figs), figs[i]).Element?
    ensures GetAttribute(NodeAt(StampAll(original, figs), figs[i]), UidAttribute) == Some(NatToString(i + 1))
  {
    var page := StampAll(original, figs);
    StampAllUids(original, figs);
    SameShapePaths(page, original, figs[i]);
    assert AttrsAt(page, figs[i]) == AttrsAt(original, figs[i])[UidAttribute := NatToString(i + 1)];
  }

  /** A `gid` beyond the last figure makes the gallery `undefined`, and `openPhotoSwipe` throws. */
  lemma DeepLinkOutOfRangeThrows(viewer: Path, page: Node, galleryElements: seq<Path>, pid: nat, gid: nat)
    requires forall i :: 0 <= i < |galleryElements| ==> ValidPath(page, galleryElements[i])
    requires gid > |galleryElements|
    ensures DeepLinkPlan(viewer, page, galleryElements, "#&pid=" + NatToString(pid) + "&gid=" + NatToString(gid)) == Err(TypeError)
  {
    CanonicalDeepLink(pid, gid);
  }

  /** A hash in which no segment sets `key` (`pid` or `gid`) opens nothing: both must be present. */
  lemma DeepLinkNeedsBoth(viewer: Path, page: Node, galleryElements: seq<Path>, hash: string, key: string)
    requires forall i :: 0 <= i < |galleryElements| ==> ValidPath(page, galleryElements[i])
    requires key == "pid" || key == "gid"
    requires forall seg :: seg in Split(Fragment(hash), '&') ==> !SetsKey(seg, key)
    ensures DeepLinkPlan(viewer, page, galleryElements, hash) == Ok(None)
  {
    var segs := Split(Fragment(hash), '&');
    ParamsKeys(segs, key);
    var hashData := ParseHashSpec(hash);
    if |Fragment(hash)| >= 5 {
      assert hashData == ConvertGid(Params(segs));
    }
  }

  /**
   * `#&pid=P&gid=G` opens the viewer exactly when `P` is not empty and `G`
   * reads as a number other than 0; an empty `P`, an empty `G`, and a `G` that
   * reads as NaN or 0 open nothing.
   */
  lemma DeepLinkWellFormed(viewer: Path, page: Node, galleryElements: seq<Path>, pid: string, gid: string)
    requires forall i :: 0 <= i < |galleryElements| ==> ValidPath(page, galleryElements[i])
    requires '&' !in pid && '=' !in pid && '&' !in gid && '=' !in gid
    ensures var plan := DeepLinkPlan(viewer, page, galleryElements, "#&pid=" + pid + "&gid=" + gid);
      var g := ParseInt(gid);
      if pid != [] && gid != [] && g.Some? && g.value != 0 then
        plan == OpenPlan(viewer, IndexText(pid), GalleryAt(page, galleryElements, g.value), true, true)
      else
        plan == Ok(None)
  {
    var hash := "#&pid=" + pid + "&gid=" + gid;
    CanonicalHash(pid, gid);
    DeepLinkPlanOf(viewer, page, galleryElements, hash, ParseHashSpec(hash));
  }

  /** `#&pid=P&gid=0` opens nothing: the number 0 is falsy. */
  lemma DeepLinkGidZero(viewer: Path, page: Node, galleryElements: seq<Path>, pid: string)
    requires forall i :: 0 <= i < |galleryElements| ==> ValidPath(page, galleryElements[i])
    requires '&' !in pid && '=' !in pid
    ensures DeepLinkPlan(viewer, page, galleryElements, "#&pid=" + pid + "&gid=0") == Ok(None)
  {
    DeepLinkWellFormed(viewer, page, galleryElements, pid, "0");
    assert "#&pid=" + pid + "&gid=" + "0" == "#&pid=" + pid + "&gid=0";
    ParseIntOfNatToString(0);
    assert NatToString(0) == "0";
  }

  /**
   * A deep link into a figure written as thumbnail markup throws: `setup`
   * hands `openPhotoSwipe` the figure itself as the gallery, and a figure's
   * link and image are no slides.
   */
  lemma DeepLinkIntoThumbnailThrows(viewer: Path, page: Node, galleryElements: seq<Path>, pid: nat, gid: nat)
    requires forall i :: 0 <= i < |galleryElements| ==> ValidPath(page, galleryElements[i])
    requires 1 <= gid <= |galleryElements|
    requires var figure := NodeAt(page, galleryElements[gid - 1]);
      && figure.Element? && ElementsOf(figure.children) != []
      && var link := ElementsOf(figure.children)[0];
      && ElementsOf(link.children) != [] && "data-size" !in ElementsOf(link.children)[0].attrs
    ensures DeepLinkPlan(viewer, page, galleryElements, "#&pid=" + NatToString(pid) + "&gid=" + NatToString(gid)) == Err(TypeError)
  {
    CanonicalDeepLink(pid, gid);
    ThumbnailFigureIsNoGallery(NodeAt(page, galleryElements[gid - 1]));
  }

  /** The parsed object of `#&pid=P&gid=G` for numbers `P` and `G`. */
  lemma CanonicalDeepLink(pid: nat, gid: nat)
    ensures var hashData := ParseHashSpec("#&pid=" + NatToString(pid) + "&gid=" + NatToString(gid));
      Lookup(hashData, "pid") == Some(Str(NatToString(pid))) && Lookup(hashData, "gid") == Some(Num(Some(gid)))
  {
    var ps, gs := NatToString(pid), NatToString(gid);
    assert '&' !in ps && '=' !in ps && '&' !in gs && '=' !in gs by {
      assert forall i :: 0 <= i < |ps| ==> IsDigit(ps[i]);
      assert forall i :: 0 <= i < |gs| ==> IsDigit(gs[i]);
    }
    CanonicalHash(ps, gs);
    ParseIntOfNatToString(gid);
  }

  // ---------------------------------------------------------------------------
  // The manager

  class PhotoGalleryManager {
    /** The document, as a value; `setup` stamps attributes into it. */
    var page: Node
    /** `_galleryContainer` and `_viewerContainer`, as paths into the page. */
    const container: Path
    const viewer: Path
    /** The figures whose `onclick` is bound to `onThumbnailsClick`. */
    var registered: set<Path>
    /** Every viewer launched so far, oldest first. */
    var launches: seq<LaunchRequest>

    predicate Valid()
      reads this
    {
      ValidPath(page, container)
    }

    /** Stores the two containers; the source's constructor then calls `setup` (see `Create`). */
    constructor (document: Node, galleryContainer: Path, viewerContainer: Path)
      requires ValidPath(document, galleryContainer)
      ensures Valid()
      ensures page == document && container == galleryContainer && viewer == viewerContainer
      ensures registered == {} && launches == []
    {
      page := document;
      container := galleryContainer;
      viewer := viewerContainer;
      registered := {};
      launches := [];
    }

    /** `new PhotoGalleryManager(galleryContainer, viewerContainer)`: construct, then `setup()`. */
    static method Create(document: Node, galleryContainer: Path, viewerContainer: Path, hash: string)
      returns (m: PhotoGalleryManager, status: Result<()>)
      requires ValidPath(document, galleryContainer)
      ensures fresh(m) && m.Valid()
      ensures m.container == galleryContainer && m.viewer == viewerContainer
      ensures m.page == StampAll(document, GalleryElements(document, galleryContainer))
      ensures m.registered == set p | p in GalleryElements(document, galleryContainer)
      ensures m.launches == Launched(DeepLinkPlan(viewerContainer, m.page, GalleryElements(document, galleryContainer), hash))
      ensures status.Err? <==> DeepLinkPlan(viewerContainer, m.page, GalleryElements(document, galleryContainer), hash).Err?
    {
      m := new PhotoGalleryManager(document, galleryContainer, viewerContainer);
      status := m.Setup(hash);
    }

    /**
     * `setup()`: number every figure of the container from 1 in
     * `data-pswp-uid` and bind its click handler, then follow a deep link in
     * `hash` (the page URL's fragment).
     */
    method Setup(hash: string) returns (status: Result<()>)
      requires Valid()
      modifies this
      ensures Valid()
      ensures page == StampAll(old(page), GalleryElements(old(page), container))
      ensures registered == old(registered) + set p | p in GalleryElements(old(page), container)
      ensures launches == old(launches) + Launched(DeepLinkPlan(viewer, page, GalleryElements(old(page), container), hash))
      ensures status.Err? <==> DeepLinkPlan(viewer, page, GalleryElements(old(page), container), hash).Err?
    {
      var galleryElements := StampGalleries();

      var hashData := PhotoswipeParseHash(hash);
      var pid, gid := Lookup(hashData, "pid"), Lookup(hashData, "gid");
      DeepLinkPlanOf(viewer, page, galleryElements, hash, hashData);
      if Truthy(pid) && Truthy(gid) {
        var gallery := GalleryAt(page, galleryElements, gid.value.n.value);
        status := OpenPhotoSwipe(IndexText(pid.value.s), gallery, true, true);
      } else {
        status := Ok(());
      }
    }

    /**
     * The loop of `setup`: give every figure of the container, in document
     * order, `data-pswp-uid` = its number counting from 1, and register the
     * click handler on it.
     */
    method StampGalleries() returns (galleryElements: seq<Path>)
      requires Valid()
      modifies this`page, this`registered
      ensures galleryElements == GalleryElements(old(page), container)
      ensures page == StampAll(old(page), galleryElements)
      ensures registered == old(registered) + set p | p in galleryElements
    {
      galleryElements := GalleryElements(page, container);
      ghost var original := page;
      for i := 0 to |galleryElements|
        invariant page == StampAll(original, galleryElements[..i])
        invariant registered == old(registered) + set j | 0 <= j < i :: galleryElements[j]
      {
        StampAllStep(original, galleryElements, i);
        page := SetAttrAt(page, galleryElements[i], UidAttribute, NatToString(i + 1));
        registered := registered + {galleryElements[i]};
      }
      assert galleryElements[..|galleryElements|] == galleryElements;
      assert (set j | 0 <= j < |galleryElements| :: galleryElements[j]) == set p | p in galleryElements;
    }

    /** `onThumbnailsClick` for a click whose target is the node at `target`. */
    method OnThumbnailsClick(target: Path) returns (returned: Result<Option<bool>>)
      requires ValidPath(page, target)
      modifies this`launches
      ensures returned == ClickReturn(ClickPlan(viewer, page, target))
      ensures launches == old(launches) + ClickLaunched(ClickPlan(viewer, page, target))
    {
      var chain := Chain(page, target);
      var clickedListItem := Closest(chain);
      if clickedListItem.None? {
        return Ok(None);
      }
      var k := clickedListItem.value;
      if k == |target| {
        return Err(TypeError);
      }
      var clickedGallery := chain[k + 1];
      var childNodes := ChildNodes(clickedGallery);
      var index := SiblingIndex(childNodes, target[|target| - 1 - k]);
      if index.Some? {
        var status := OpenPhotoSwipe(IndexNumber(index.value), Some(clickedGallery), false, false);
        if status.Err? {
          return Err(TypeError);
        }
      }
      return Ok(Some(false));
    }

    /** `openPhotoSwipe(index, galleryElement, disableAnimation, fromURL)`. */
    method OpenPhotoSwipe(index: IndexArg, galleryElement: Option<Node>, disableAnimation: bool, fromURL: bool)
      returns (status: Result<()>)
      modifies this`launches
      ensures status.Err? <==> OpenPlan(viewer, index, galleryElement, disableAnimation, fromURL).Err?
      ensures launches == old(launches) + Launched(OpenPlan(viewer, index, galleryElement, disableAnimation, fromURL))
    {
      var items := ParseThumbnailElements(galleryElement);
      if items.Err? {
        return Err(TypeError);
      }
      var gallery := galleryElement.value;
      if !gallery.Element? {
        return Err(TypeError);
      }
      var galleryUID := GetAttribute(gallery, UidAttribute);
      var parsed := ParseIndex(index);
      var optionsIndex: Option<int> :=
        if parsed.None? then None else if fromURL then Some(parsed.value - 1) else Some(parsed.value);
      if optionsIndex.None? {
        return Ok(());
      }
      var showAnimationDuration := if disableAnimation then Some(0) else None;
      launches := launches + [LaunchRequest(viewer, items.value, galleryUID, optionsIndex.value, showAnimationDuration)];
      status := Ok(());
    }
  }
}
