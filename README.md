# PhotoGalleryManager, modelled in Dafny

A model of `PhotoGalleryManager`, the class that connects thumbnail markup to the
PhotoSwipe viewer. It covers:

- **`setup`.** It numbers every `<figure>` below the gallery container with
  `data-pswp-uid` (1, 2, …, in document order) and binds the click handler to
  each figure. Then it follows a deep link `#&pid=P&gid=G` in the URL fragment.
- **`onThumbnailsClick`.** It walks up from the clicked node to the nearest
  figure (`closest`). It counts the element nodes before that figure in its
  parent and opens the viewer there.
- **`parseThumbnailElements`.** It reads one slide per element child of a
  gallery node: `href`, the `WxH` of `data-size`, an optional caption and an
  optional thumbnail `src`.
- **`photoswipeParseHash`.** It reads the URL fragment into a key/value object
  and converts `gid` with `parseInt`.
- **`openPhotoSwipe`.** It reads the slides and the gallery's
  `data-pswp-uid`, resolves the index (`parseInt(index)`, minus 1 from a URL),
  gives up on NaN, and launches the viewer. The animation is off when asked.

Files, one Dafny module each:

- `js.dfy` (`Js`): the JavaScript pieces the class relies on.
  - `split`, with its inverse `Join`.
  - `parseInt(s, 10)`.
  - `String(n)` for whole numbers.
  - ASCII `toUpperCase`.
  - The `Option` and `Result` wrappers. `None` stands for `null`, `undefined`
    or NaN. `Err(TypeError)` stands for a thrown `TypeError`.
- `dom.dfy` (`Dom`): the page.
  - The page is a value tree of `Element(tag, attrs, children, innerHTML)` and
    `Text` nodes.
  - A node is named by its path from the root.
  - It provides `childNodes`, `children`, `getAttribute`, `setAttribute`,
    `querySelectorAll('figure')` and the `parentNode` chain.
- `deeplink.dfy` (`DeepLink`): `photoswipeParseHash`.
- `thumbnails.dfy` (`Thumbnails`): `parseThumbnailElements`.
- `gallery.dfy` (`Gallery`): `openPhotoSwipe`, `onThumbnailsClick`, `setup`,
  and the class itself.
  - The class keeps the page, the two container paths, the set of figures
    whose `onclick` is bound, and a log of viewer launches.
  - Its methods update these fields in place.
  - Each method is proved against a specification function:
    - `ClickPlan` for a click.
    - `OpenPlan` for `openPhotoSwipe`.
    - `StampAll` together with `DeepLinkPlan` for `setup`.
  - Lemmas prove what the source promises about those functions.

All source paths below are relative to the repository root.

## Model

| member | source | states |
|---|---|---|
| Js.ParseIntReads | photo-gallery/PhotoGalleryManager.js:115-116 | `parseInt(s, 10)` skips leading white space, takes an optional sign and the longest run of digits, and ignores what follows the digits |
| Js.ParseIntNaN | photo-gallery/PhotoGalleryManager.js:213-215 | with no digit after the white space and sign, `parseInt` gives NaN; after a sign this includes further white space (`"- 5"`) |
| Js.ParseIntSkipsWhiteSpace | photo-gallery/PhotoGalleryManager.js:115-116 | leading white space does not change what `parseInt` reads |
| Js.ParseIntOfNatToString | photo-gallery/PhotoGalleryManager.js:209 | the decimal text of a whole number reads back as that number |
| Js.NatToString | photo-gallery/PhotoGalleryManager.js:16 | the text `setAttribute` stores for `i + 1` is a non-empty run of digits |
| Js.Split | photo-gallery/PhotoGalleryManager.js:150-155 | `split(c)` gives at least one piece, and no piece holds the separator |
| Js.SplitConcat | photo-gallery/PhotoGalleryManager.js:150 | splitting `a + "&" + b` at `&` gives the pieces of `a` followed by those of `b` |
| Js.SplitAfterPiece | photo-gallery/PhotoGalleryManager.js:155 | a piece without the separator, then the separator, splits into that piece followed by the split of the rest |
| Js.SplitWithout | photo-gallery/PhotoGalleryManager.js:110 | text without the separator splits into itself alone |
| Js.JoinSplit | photo-gallery/PhotoGalleryManager.js:150 | joining the pieces of a split gives the text back |
| Js.SplitJoin | photo-gallery/PhotoGalleryManager.js:150 | splitting a join of separator-free pieces gives the pieces back |
| Js.AsciiUpper | photo-gallery/PhotoGalleryManager.js:47 | upper-casing keeps the length and maps each ASCII lower-case letter to its capital, leaving every other character alone |
| Js.AsciiUpperFigure | photo-gallery/PhotoGalleryManager.js:46-48 | a tag name upper-cases to `FIGURE` exactly when it spells `figure` in some mix of cases |
| Js.AsciiUpperIdempotent | photo-gallery/PhotoGalleryManager.js:47 | upper-casing twice is upper-casing once |
| Dom.ElementsOf | photo-gallery/PhotoGalleryManager.js:104-106 | the element nodes of a child list are elements and no more than the children |
| Dom.ElementsOfAppend | photo-gallery/PhotoGalleryManager.js:99-106 | the element nodes of two concatenated lists are those of each list, in order |
| Dom.ElementAtSiblingCount | photo-gallery/PhotoGalleryManager.js:62-72 | the number of element nodes before position `pos` is the position of `childNodes[pos]` among the element children |
| Dom.Chain | photo-gallery/PhotoGalleryManager.js:41-43 | the `parentNode` chain from a node has one entry per ancestor, starting at the node and ending at the root |
| Dom.ChainLink | photo-gallery/PhotoGalleryManager.js:41-56 | every chain entry after the first is an element whose child at the path's position is the previous entry |
| Dom.ChainAt | photo-gallery/PhotoGalleryManager.js:41-43 | the `j`-th chain entry is the node at the path with its last `j` steps removed |
| Dom.QueryFiguresSound | photo-gallery/PhotoGalleryManager.js:13 | `querySelectorAll('figure')` lists distinct paths to figure descendants |
| Dom.QueryFiguresExact | photo-gallery/PhotoGalleryManager.js:13 | `querySelectorAll('figure')` lists exactly the figure descendants |
| Dom.DocBeforeStrict | photo-gallery/PhotoGalleryManager.js:13 | document order (an ancestor first, then siblings by index) is irreflexive, asymmetric and transitive |
| Dom.DocBeforePrefixed | photo-gallery/PhotoGalleryManager.js:13 | two nodes below the same node keep their document order |
| Dom.FiguresFromInOrder | photo-gallery/PhotoGalleryManager.js:13 | the figures at and below a node are listed in document order |
| Dom.FiguresAmongInOrder | photo-gallery/PhotoGalleryManager.js:13 | the figures in a list of sibling subtrees are listed in document order |
| Dom.QueryFiguresInOrder | photo-gallery/PhotoGalleryManager.js:13 | `querySelectorAll('figure')` lists the figure descendants in document order |
| Dom.SetAttrSelf | photo-gallery/PhotoGalleryManager.js:16 | `setAttribute` sets the named attribute of the element and keeps its other attributes |
| Dom.SetAttrOther | photo-gallery/PhotoGalleryManager.js:16 | `setAttribute` leaves every other node's attributes alone |
| Dom.SetAttrShape | photo-gallery/PhotoGalleryManager.js:16 | `setAttribute` changes no tag, no node kind, no child count, no text and no `innerHTML`: only attributes |
| Dom.SetAttrUnchanged | photo-gallery/PhotoGalleryManager.js:16 | setting an attribute to the value it already has leaves the page as it is |
| DeepLink.ParseHashSpec | photo-gallery/PhotoGalleryManager.js:142-167 | every key except `gid` holds text; `gid` holds the empty text or a `parseInt` result |
| DeepLink.PhotoswipeParseHash | photo-gallery/PhotoGalleryManager.js:142-167 | the loop computes `ParseHashSpec(hash)`, and a fragment shorter than 5 characters gives `{}` |
| DeepLink.ParamsAreText | photo-gallery/PhotoGalleryManager.js:159 | before the `gid` conversion every value is text |
| DeepLink.SegmentSkipped | photo-gallery/PhotoGalleryManager.js:152-158 | a segment is skipped exactly when it holds no `=` (an empty one holds none) |
| DeepLink.SegmentOf | photo-gallery/PhotoGalleryManager.js:155-159 | `k=v`, optionally followed by `=…`, sets key `k` to `v` |
| DeepLink.SegmentParts | photo-gallery/PhotoGalleryManager.js:155-159 | conversely, a kept segment is its key, `=`, its value, then nothing or a further `=` |
| DeepLink.ParamsKeys | photo-gallery/PhotoGalleryManager.js:150-160 | a key is in the result exactly when some kept segment names it |
| DeepLink.ParamsLastWins | photo-gallery/PhotoGalleryManager.js:159 | a key keeps the value of the last segment that names it |
| DeepLink.ParamsSkip | photo-gallery/PhotoGalleryManager.js:152-158 | a skipped segment anywhere leaves the result as it would be without it |
| DeepLink.DoubleAmpersand | photo-gallery/PhotoGalleryManager.js:150-160 | `x&&y` parses as `x&y` |
| DeepLink.DoubleAmpersandSegments | photo-gallery/PhotoGalleryManager.js:143-150 | `x&&y` splits into the segments of `x`, an empty one and those of `y`; `x&y` into the same without the empty one |
| DeepLink.DoubleAmpersandExample | photo-gallery/PhotoGalleryManager.js:150-160 | `#&pid=3&&gid=1` parses as `#&pid=3&gid=1` |
| DeepLink.CanonicalHash | photo-gallery/PhotoGalleryManager.js:142-167 | `#&pid=P&gid=G` gives `pid = P` as text and `gid = parseInt(G)`, or the empty text when `G` is empty |
| DeepLink.CanonicalSegments | photo-gallery/PhotoGalleryManager.js:143-150 | the fragment of `#&pid=P&gid=G` splits into an empty segment, `pid=P` and `gid=G` |
| DeepLink.CanonicalParams | photo-gallery/PhotoGalleryManager.js:151-160 | those segments set `pid` and `gid` to their texts |
| Thumbnails.Slides | photo-gallery/PhotoGalleryManager.js:90-135 | one slide per element child, in order, each holding its figure, or a `TypeError` |
| Thumbnails.ParseThumbnailElements | photo-gallery/PhotoGalleryManager.js:90-135 | the loop computes `Slides` of the child nodes; an `undefined` gallery throws; the result has one slide per element child, in order |
| Thumbnails.SlidesSnoc | photo-gallery/PhotoGalleryManager.js:99-132 | one more child adds nothing when it is no element, and otherwise adds its slide or throws |
| Thumbnails.SlidesStep | photo-gallery/PhotoGalleryManager.js:99-132 | one turn of the loop extends the slides of the first `i` child nodes by those of child `i`, or throws |
| Thumbnails.SlidesOfSame | photo-gallery/PhotoGalleryManager.js:104-106 | child lists with the same element nodes give the same slides |
| Thumbnails.SlidesPrefixErr | photo-gallery/PhotoGalleryManager.js:108-110 | a child that throws makes the whole extraction throw, whatever follows it |
| Thumbnails.SlidesSkipText | photo-gallery/PhotoGalleryManager.js:104-106 | a text node between children contributes no slide |
| Thumbnails.SlideFields | photo-gallery/PhotoGalleryManager.js:108-131 | a slide is read exactly when the figure has an element child with `data-size`: `src` is its `href`, a caption exactly when there are two element children, a thumbnail source exactly when the link has an element child, that child's `src`, and `el` is the figure |
| Thumbnails.SlideSize | photo-gallery/PhotoGalleryManager.js:110-116 | `w` and `h` are `parseInt` of the pieces of `data-size` before and after its first `x` |
| Thumbnails.SlideSizeNumbers | photo-gallery/PhotoGalleryManager.js:110-116 | `data-size="WxH"` gives `w = W` and `h = H` |
| Thumbnails.SlideSizeWithoutX | photo-gallery/PhotoGalleryManager.js:110-116 | a `data-size` without `x` gives `w = parseInt` of the whole `data-size` and leaves `h` NaN |
| Thumbnails.ThumbnailFigureIsNoGallery | photo-gallery/PhotoGalleryManager.js:108-110 | a figure written as thumbnail markup, read as a gallery, throws |
| Gallery.ParseIndexNumber | photo-gallery/PhotoGalleryManager.js:209 | a number passed as `index` reads as `parseInt` of its decimal text |
| Gallery.OpenPlanOutcome | photo-gallery/PhotoGalleryManager.js:169-224 | it throws exactly when the gallery is `undefined`, its slides throw or it is no element; it opens nothing exactly when the index is NaN; a launch has the viewer container, index `parseInt(index) - 1` from a URL and `parseInt(index)` otherwise, the slides, the gallery's `data-pswp-uid`, and a duration of 0 exactly when animation is disabled |
| Gallery.OpenPlanFromUrl | photo-gallery/PhotoGalleryManager.js:193-210 | from a URL the same index gives the slide before the one it gives otherwise, and nothing else changes |
| Gallery.PhotoGalleryManager.OpenPhotoSwipe | photo-gallery/PhotoGalleryManager.js:169-224 | it throws exactly when `OpenPlan` does and logs exactly the launch `OpenPlan` describes |
| Gallery.Closest | photo-gallery/PhotoGalleryManager.js:41-48 | a node that `closest` finds is a figure on the chain |
| Gallery.ClosestIsFirst | photo-gallery/PhotoGalleryManager.js:41-48 | `closest` finds the first figure on the chain, and finds none only when the chain holds none |
| Gallery.ClosestIsNearestFigure | photo-gallery/PhotoGalleryManager.js:41-52 | on the page, that is the nearest figure at or above the clicked node |
| Gallery.SiblingIndex | photo-gallery/PhotoGalleryManager.js:55-72 | the loop finds an index exactly when the clicked node is an element child; the index is the number of element nodes before it, and the element child at that index is the clicked node |
| Gallery.PhotoGalleryManager.OnThumbnailsClick | photo-gallery/PhotoGalleryManager.js:34-81 | it returns and logs what `ClickPlan` describes |
| Gallery.ClickOpensClickedFigure | photo-gallery/PhotoGalleryManager.js:46-78 | below a figure with a parent, the click opens the parent's slides at index = the number of element siblings before the clicked figure (its slide), with the parent's `data-pswp-uid` and the default animation, and throws exactly when those slides throw |
| Gallery.ClickInOpens | photo-gallery/PhotoGalleryManager.js:55-78 | in a gallery, a click on element child `pos` opens the gallery's slides at index = the number of element nodes before `pos`, which is that child's slide |
| Gallery.ClickOutsideFiguresIgnored | photo-gallery/PhotoGalleryManager.js:46-52 | a click with no figure at or above it returns `undefined` and opens nothing |
| Gallery.ClickOnRootFigureThrows | photo-gallery/PhotoGalleryManager.js:55-57 | when the nearest figure is the root, reading its parent's `childNodes` throws |
| Gallery.GalleryElements | photo-gallery/PhotoGalleryManager.js:13 | the gallery elements are distinct paths to figures on the page |
| Gallery.GalleryElementsExact | photo-gallery/PhotoGalleryManager.js:13 | they are exactly the figures strictly below the container |
| Gallery.GalleryElementsInOrder | photo-gallery/PhotoGalleryManager.js:13-23 | they are in document order, the order that numbers them (line 16) and that `gid` indexes (line 23) |
| Gallery.SameShapeGalleryElements | photo-gallery/PhotoGalleryManager.js:13-16 | stamping attributes does not change which figures are found |
| Gallery.StampAll | photo-gallery/PhotoGalleryManager.js:15-16 | the stamped page differs from the original only in attributes (tags, text, `innerHTML` and children are kept), so every path stays valid |
| Gallery.StampAllStep | photo-gallery/PhotoGalleryManager.js:15-16 | one more turn of the loop stamps the next figure with the next number |
| Gallery.StampAllUids | photo-gallery/PhotoGalleryManager.js:15-16 | the `i`-th figure gets `data-pswp-uid = i + 1` and keeps its other attributes; every other node keeps its attributes |
| Gallery.StampAllStable | photo-gallery/PhotoGalleryManager.js:15-16 | stamping figures that already carry their numbers changes nothing |
| Gallery.StampTwice | photo-gallery/PhotoGalleryManager.js:2-18 | a second `setup` finds the same figures and leaves the page as it is |
| Gallery.StampedUid | photo-gallery/PhotoGalleryManager.js:16 | after stamping, `getAttribute('data-pswp-uid')` on the `i`-th figure reads `i + 1` |
| Gallery.PhotoGalleryManager.StampGalleries | photo-gallery/PhotoGalleryManager.js:13-18 | the loop stamps the page into `StampAll` of the gallery elements and binds every gallery element |
| Gallery.PhotoGalleryManager.Setup | photo-gallery/PhotoGalleryManager.js:11-25 | the page is stamped, every figure is bound, and the deep link logs and throws exactly as `DeepLinkPlan` describes |
| Gallery.PhotoGalleryManager.constructor | photo-gallery/PhotoGalleryManager.js:2-4 | it stores the two containers, with nothing bound and nothing launched |
| Gallery.PhotoGalleryManager.Create | photo-gallery/PhotoGalleryManager.js:2-6 | construction runs `setup` on the fresh manager |
| Gallery.DeepLinkPlanOf | photo-gallery/PhotoGalleryManager.js:21-24 | in a parsed hash, a truthy `gid` is a number and a truthy `pid` is text |
| Gallery.GalleryAt | photo-gallery/PhotoGalleryManager.js:23 | `galleryElements[gid - 1]` is defined exactly when `1 <= gid <= length` |
| Gallery.DeepLinkWellFormed | photo-gallery/PhotoGalleryManager.js:21-24 | `#&pid=P&gid=G` calls `openPhotoSwipe(P, galleryElements[G - 1], true, true)` exactly when `P` is non-empty and `G` reads as a number other than 0; an empty `P` or a NaN, 0 or empty `G` opens nothing. A `P` that reads as NaN still makes that call, which then opens nothing |
| Gallery.DeepLinkGidZero | photo-gallery/PhotoGalleryManager.js:22 | `gid=0` opens nothing |
| Gallery.DeepLinkNeedsBoth | photo-gallery/PhotoGalleryManager.js:22 | a hash that never sets `pid`, or never sets `gid`, opens nothing |
| Gallery.DeepLinkCanonical | photo-gallery/PhotoGalleryManager.js:21-23 | `#&pid=P&gid=G` with `G >= 1` is `openPhotoSwipe(P, galleryElements[G - 1], true, true)` |
| Gallery.CanonicalDeepLink | photo-gallery/PhotoGalleryManager.js:142-167 | `#&pid=P&gid=G` for numbers gives `pid = "P"` and `gid = G` |
| Gallery.OpenFromUrlNumber | photo-gallery/PhotoGalleryManager.js:174-223 | from a URL, the decimal text of `P` opens the gallery's slides at index `P - 1` without animation, tagged with its `data-pswp-uid`, and throws exactly when the slides throw |
| Gallery.DeepLinkOpens | photo-gallery/PhotoGalleryManager.js:11-24 | on a stamped page, `#&pid=P&gid=G` opens figure `G`'s slides at `P - 1`, without animation, with `galleryUID` equal to `G` itself |
| Gallery.DeepLinkOutOfRangeThrows | photo-gallery/PhotoGalleryManager.js:21-24 | a `gid` beyond the last figure hands over `undefined`, and `openPhotoSwipe` throws |
| Gallery.DeepLinkIntoThumbnailThrows | photo-gallery/PhotoGalleryManager.js:21-24 | a deep link into a figure written as thumbnail markup throws |

## Left out

- `getThumbBoundsFn` (lines 182-189) is left out. It reads layout geometry (`getBoundingClientRect`, the scroll offset) as floating-point values.
- The viewer is not modelled. `new PhotoSwipe(…)` and `init()` become one entry in the `launches` log, holding the viewer container, the slides and the options the code sets.
- `window.location.hash` is a parameter of `Setup` and `PhotoswipeParseHash`.
- The click event is a parameter of `OnThumbnailsClick`: the path of the node that was clicked. `window.event`, `preventDefault` and `returnValue` are left out.
- Binding `onclick` is recorded only as the set of bound figures. Event dispatch and bubbling are not modelled. Each click is one call to `OnThumbnailsClick` on the current page.
- The `galleryPIDs` branch (lines 195-203) is left out. `galleryPIDs` is never set in `options`, so the branch cannot run.
- `photo-gallery/component.js` and `photo-gallery-thumb/component.js` are not part of this model. They are framework glue. The first calls `setup()` a second time; `StampTwice` states what that does to the page. That second call also follows the deep link again, so in the page a deep link launches the viewer twice; the model describes one `setup` call at a time.
- `parseInt` works on unbounded integers. JavaScript numbers are doubles, so digit runs beyond 2^53 lose precision in the source but not here. Past about 1.8e308 `parseInt` gives `Infinity`, which is truthy and not NaN: a huge `pid` launches with index `Infinity` in the source and with a large whole number here.
- `toUpperCase` is modelled on ASCII letters only. JavaScript's full Unicode mapping also turns some other tag names into `FIGURE` (`fıgure` with a dotless i, U+0131, or `ﬁgure` with the ligature U+FB01). In the source `closest` (line 47) accepts such an element as a figure, while `querySelectorAll('figure')` does not; in the model neither does.
- `innerHTML` is an opaque text field of each element. It is read as a caption and is not updated when `setAttribute` changes an attribute below it.
- Attribute names are compared exactly, as the markup writes them.
- PhotoGalleryManager.constructor, PhotoGalleryManager.Create and PhotoGalleryManager.Setup require the gallery container to be a node of the page. `querySelector('.gallery')` (photo-gallery/component.js:37) can return null, and `setup` then throws a TypeError at line 13; that error path is not modelled.
- PhotoswipeParseHash: `hash.length` (line 146) counts UTF-16 code units, while the model counts characters. A fragment with characters beyond U+FFFF can pass the length test in the source and fail it here: `#a=` followed by U+1F600 and `b` gives `{a: …}` in JavaScript and `{}` in the model.
- Keys such as `__proto__` behave as ordinary keys of the parsed object here. In JavaScript they touch the object's prototype.
- Create: in JavaScript, an exception from `setup` inside the constructor propagates out of `new`, so no object is returned. `Create` returns the manager together with the status.
- The `index` argument of `openPhotoSwipe` is a number on a click and text from a URL. A number is read back directly instead of through its decimal text; `ParseIndexNumber` proves that both give the same value.
