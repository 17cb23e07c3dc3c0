/**
 * `parseThumbnailElements`: the slide objects PhotoSwipe receives, read from
 * the element children of a gallery node. Each child is expected to look like
 * `<figure><a href data-size="WxH"><img src></a><figcaption>…</figcaption></figure>`.
 */
module Thumbnails {
  import opened Js
  import opened Dom

  /**
   * One slide object. `src` and `msrc` are `getAttribute` results (`None` is
   * `null`); `w` and `h` are `parseInt` results (`None` is NaN); `title` and
   * `msrc` are `None` when the property is never set; `el` is the figure.
   */
  datatype Slide = Slide(
    src: Option<string>,
    w: Option<int>,
    h: Option<int>,
    title: Option<string>,
    msrc: Option<Option<string>>,
    el: Node)

  /**
   * The slide built from one element child. It throws a TypeError when the
   * child has no element child (the link is `undefined`) or when the link has
   * no `data-size` (`null.split`).
   */
  function SlideOf(figure: Node): Result<Slide>
    requires figure.Element?
  {
    var kids := ElementsOf(figure.children);
    if kids == [] then Err(TypeError)
    else
      var link := kids[0];
      match GetAttribute(link, "data-size")
      case None => Err(TypeError)
      case Some(dataSize) =>
        var size := Split(dataSize, 'x');
        var thumbs := ElementsOf(link.children);
        Ok(Slide(
          GetAttribute(link, "href"),
          ParseInt(size[0]),
          if |size| > 1 then ParseInt(size[1]) else None,
          if |kids| > 1 then Some(kids[1].innerHTML) else None,
          if |thumbs| > 0 then Some(GetAttribute(thumbs[0], "src")) else None,
          figure))
  }

  /** Reference definition: one slide per element node, in order, or a TypeError when any of them throws. */
  function Slides(nodes: seq<Node>): (r: Result<seq<Slide>>)
    ensures r.Err? ==> r.error == TypeError
    ensures r.Ok? ==> |r.value| == |ElementsOf(nodes)| && forall k :: 0 <= k < |r.value| ==> r.value[k].el == ElementsOf(nodes)[k]
  {
    var figures := ElementsOf(nodes);
    if forall k :: 0 <= k < |figures| ==> SlideOf(figures[k]).Ok? then
      Ok(seq(|figures|, k requires 0 <= k < |figures| => SlideOf(figures[k]).value))
    else Err(TypeError)
  }

  /**
   * The loop of the source: walk `el.childNodes`, skip non-elements, build and
   * push one slide per element. An `undefined` gallery throws at once.
   */
  method ParseThumbnailElements(el: Option<Node>) returns (r: Result<seq<Slide>>)
    ensures el.None? ==> r == Err(TypeError)
    ensures el.Some? ==> r == Slides(ChildNodes(el.value))
    ensures r.Ok? ==> el.Some? && |r.value| == |ElementsOf(ChildNodes(el.value))|
    ensures r.Ok? ==> forall k :: 0 <= k < |r.value| ==> r.value[k].el == ElementsOf(ChildNodes(el.value))[k]
  {
    if el.None? {
      return Err(TypeError);
    }
    var thumbElements := ChildNodes(el.value);
    var items: seq<Slide> := [];
    assert Slides(thumbElements[..0]) == Ok([]) by {
      assert thumbElements[..0] == [];
      assert Slides([]).value == [];
    }
    for i := 0 to |thumbElements|
      invariant Slides(thumbElements[..i]) == Ok(items)
    {
      var figureEl := thumbElements[i];
      SlidesStep(thumbElements, i);
      if !figureEl.Element? {
        continue;
      }
      var item := SlideOf(figureEl);
      if item.Err? {
        SlidesPrefixErr(thumbElements, i + 1);
        return Err(TypeError);
      }
      items := items + [item.value];
    }
    assert thumbElements[..|thumbElements|] == thumbElements;
    r := Ok(items);
  }

  /** One turn of the loop: the prefix grows by `nodes[i]`, as `SlidesSnoc` describes. */
  lemma SlidesStep(nodes: seq<Node>, i: nat)
    requires i < |nodes|
    ensures !nodes[i].Element? ==> Slides(nodes[..i + 1]) == Slides(nodes[..i])
    ensures nodes[i].Element? ==>
      Slides(nodes[..i + 1]) == (if Slides(nodes[..i]).Ok? && SlideOf(nodes[i]).Ok? then Ok(Slides(nodes[..i]).value + [SlideOf(nodes[i]).value]) else Err(TypeError))
  {
    assert nodes[..i + 1] == nodes[..i] + [nodes[i]];
    SlidesSnoc(nodes[..i], nodes[i]);
  }

  /** Appending one node to the child list: a non-element adds nothing, an element adds its slide or the error. */
  lemma SlidesSnoc(nodes: seq<Node>, n: Node)
    ensures !n.Element? ==> Slides(nodes + [n]) == Slides(nodes)
    ensures n.Element? ==>
      Slides(nodes + [n]) == (if Slides(nodes).Ok? && SlideOf(n).Ok? then Ok(Slides(nodes).value + [SlideOf(n).value]) else Err(TypeError))
  {
    assert (nodes + [n])[..|nodes|] == nodes;
    var before, after := ElementsOf(nodes), ElementsOf(nodes + [n]);
    if !n.Element? {
      assert after == before;
      SlidesOfSame(nodes + [n], nodes);
    } else {
      assert after == before + [n];
      if Slides(nodes).Ok? && SlideOf(n).Ok? {
        forall k | 0 <= k < |after| ensures SlideOf(after[k]).Ok? {
          if k < |before| {
            assert after[k] == before[k];
          }
        }
        var got, want := Slides(nodes + [n]).value, Slides(nodes).value + [SlideOf(n).value];
        assert |got| == |want|;
        forall k | 0 <= k < |got| ensures got[k] == want[k] {
          if k < |before| {
            assert after[k] == before[k];
          }
        }
        assert got == want;
      } else if Slides(nodes).Err? {
        var k :| 0 <= k < |before| && !SlideOf(before[k]).Ok?;
        assert after[k] == before[k];
      } else {
        assert after[|before|] == n;
      }
    }
  }

  /** Two child lists with the same element nodes give the same slides. */
  lemma SlidesOfSame(xs: seq<Node>, ys: seq<Node>)
    requires ElementsOf(xs) == ElementsOf(ys)
    ensures Slides(xs) == Slides(ys)
  {
  }

  /** A child that throws makes the whole extraction throw, whatever follows it. */
  lemma SlidesPrefixErr(nodes: seq<Node>, i: nat)
    requires i <= |nodes| && Slides(nodes[..i]).Err?
    ensures Slides(nodes) == Err(TypeError)
  {
    assert nodes == nodes[..i] + nodes[i..];
    ElementsOfAppend(nodes[..i], nodes[i..]);
    var before := ElementsOf(nodes[..i]);
    var k :| 0 <= k < |before| && !SlideOf(before[k]).Ok?;
    assert ElementsOf(nodes)[k] == before[k];
  }

  /** A node that is not an element contributes no slide: `[A, text, B]` gives the slides of `[A, B]`. */
  lemma SlidesSkipText(a: seq<Node>, data: string, b: seq<Node>)
    ensures Slides(a + [Text(data)] + b) == Slides(a + b)
  {
    ElementsOfAppend(a + [Text(data)], b);
    ElementsOfAppend(a, [Text(data)]);
    ElementsOfAppend(a, b);
    assert ElementsOf([Text(data)]) == [];
    assert ElementsOf(a + [Text(data)] + b) == ElementsOf(a + b);
  }

  /**
   * The fields of a slide come from the markup: `src` is the link's `href`,
   * a caption exactly when the figure has a second element child, a
   * thumbnail source exactly when the link has an element child, and `el` is
   * the figure itself.
   */
  lemma SlideFields(figure: Node)
    requires figure.Element?
    ensures var kids := ElementsOf(figure.children);
      SlideOf(figure).Ok? <==> kids != [] && kids[0].Element? && "data-size" in kids[0].attrs
    ensures var kids := ElementsOf(figure.children);
      SlideOf(figure).Ok? ==>
        var s := SlideOf(figure).value;
        && s.src == GetAttribute(kids[0], "href")
        && (s.title.Some? <==> |kids| >= 2)
        && (s.title.Some? ==> s.title.value == kids[1].innerHTML)
        && (s.msrc.Some? <==> ElementsOf(kids[0].children) != [])
        && (s.msrc.Some? ==> s.msrc.value == GetAttribute(ElementsOf(kids[0].children)[0], "src"))
        && s.el == figure
  {
  }

  /**
   * `w` and `h` are `parseInt` of the pieces of `data-size` before and after
   * its first `x`; a second `x` and what follows it are ignored.
   */
  lemma SlideSize(figure: Node, ws: string, hs: string, rest: string)
    requires figure.Element? && ElementsOf(figure.children) != []
    requires 'x' !in ws && 'x' !in hs && (rest == [] || rest[0] == 'x')
    requires GetAttribute(ElementsOf(figure.children)[0], "data-size") == Some(ws + "x" + hs + rest)
    ensures SlideOf(figure).Ok?
    ensures SlideOf(figure).value.w == ParseInt(ws) && SlideOf(figure).value.h == ParseInt(hs)
  {
    assert ws + "x" + hs + rest == ws + ['x'] + (hs + rest);
    SplitAfterPiece(ws, 'x', hs + rest);
    if rest == [] {
      assert hs + rest == hs;
      SplitWithout(hs, 'x');
    } else {
      assert hs + rest == hs + ['x'] + rest[1..];
      SplitAfterPiece(hs, 'x', rest[1..]);
    }
  }

  /** `data-size="WxH"` for numbers `W` and `H` gives `w == W` and `h == H`. */
  lemma SlideSizeNumbers(figure: Node, width: nat, height: nat)
    requires figure.Element? && ElementsOf(figure.children) != []
    requires GetAttribute(ElementsOf(figure.children)[0], "data-size") == Some(NatToString(width) + "x" + NatToString(height))
    ensures SlideOf(figure).Ok?
    ensures SlideOf(figure).value.w == Some(width) && SlideOf(figure).value.h == Some(height)
  {
    var ws, hs := NatToString(width), NatToString(height);
    assert 'x' !in ws && 'x' !in hs by {
      assert forall i :: 0 <= i < |ws| ==> IsDigit(ws[i]);
      assert forall i :: 0 <= i < |hs| ==> IsDigit(hs[i]);
    }
    assert ws + "x" + hs + [] == ws + "x" + hs;
    SlideSize(figure, ws, hs, []);
    ParseIntOfNatToString(width);
    ParseIntOfNatToString(height);
  }

  /** A size without `x` leaves the height NaN: `parseInt(undefined, 10)`. */
  lemma SlideSizeWithoutX(figure: Node)
    requires figure.Element? && ElementsOf(figure.children) != []
    requires var link := ElementsOf(figure.children)[0];
      "data-size" in link.attrs && 'x' !in link.attrs["data-size"]
    ensures SlideOf(figure).Ok? && SlideOf(figure).value.h == None
    ensures SlideOf(figure).value.w == ParseInt(ElementsOf(figure.children)[0].attrs["data-size"])
  {
    SplitWithout(ElementsOf(figure.children)[0].attrs["data-size"], 'x');
  }

  /**
   * A figure written as thumbnail markup (`<figure><a data-size><img></a>…`)
   * is no gallery: read as one, its link is taken for a figure, the image for
   * that figure's link, and the image has no `data-size`.
   */
  lemma ThumbnailFigureIsNoGallery(figure: Node)
    requires figure.Element? && ElementsOf(figure.children) != []
    requires var link := ElementsOf(figure.children)[0];
      ElementsOf(link.children) != [] && "data-size" !in ElementsOf(link.children)[0].attrs
    ensures Slides(figure.children) == Err(TypeError)
  {
  }
}
