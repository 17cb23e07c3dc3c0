/**
 * `photoswipeParseHash`: the URL fragment `#&pid=<picture>&gid=<gallery>` read
 * into an object. The fragment is a parameter here instead of being read from
 * `window.location.hash`.
 */
module DeepLink {
  import opened Js

  /** A property value of the parsed object: text, or the number `parseInt` made of `gid` (`None` is NaN). */
  datatype HashValue = Str(s: string) | Num(n: Option<int>)

  /** `location.hash.substring(1)`: the fragment without its `#`. */
  function Fragment(hash: string): string {
    if hash == [] then [] else hash[1..]
  }

  /** The key and value one `&`-separated segment sets, or `None` when the loop skips it. */
  function Segment(seg: string): Option<(string, string)>
  {
    if seg == [] then None
    else
      var pair := Split(seg, '=');
      if |pair| < 2 then None else Some((pair[0], pair[1]))
  }

  /** The `params` object after the loop has seen `segs`, in order: a later key overwrites an earlier one. */
  function Params(segs: seq<string>): map<string, HashValue>
  {
    if segs == [] then map[]
    else
      var m := Params(segs[..|segs| - 1]);
      match Segment(segs[|segs| - 1])
      case None => m
      case Some((k, v)) => m[k := Str(v)]
  }

  /** `if (params.gid) params.gid = parseInt(params.gid, 10)`: a non-empty `gid` becomes a number. */
  function ConvertGid(params: map<string, HashValue>): map<string, HashValue>
  {
    if "gid" in params && params["gid"].Str? && params["gid"].s != [] then
      params["gid" := Num(ParseInt(params["gid"].s))]
    else params
  }

  /** What `photoswipeParseHash` returns for the page URL's `hash`. */
  function ParseHashSpec(hash: string): (r: map<string, HashValue>)
    ensures forall k :: k in r && k != "gid" ==> r[k].Str?
    ensures "gid" in r ==> r["gid"] == Str([]) || r["gid"].Num?
  {
    var frag := Fragment(hash);
    if |frag| < 5 then map[] else
      var params := Params(Split(frag, '&'));
      ParamsAreText(Split(frag, '&'));
      ConvertGid(params)
  }

  lemma {:induction false} ParamsAreText(segs: seq<string>)
    ensures forall k :: k in Params(segs) ==> Params(segs)[k].Str?
  {
    if segs != [] {
      ParamsAreText(segs[..|segs| - 1]);
    }
  }

  /**
   * The parser as the source writes it: strip `#`, give up on a short
   * fragment, split on `&`, skip empty segments and segments without `=`,
   * store `key = value` (overwriting), then convert a non-empty `gid`.
   */
  method PhotoswipeParseHash(hash: string) returns (params: map<string, HashValue>)
    ensures params == ParseHashSpec(hash)
    ensures |hash| < 6 ==> params == map[]
  {
    var frag := if hash == [] then [] else hash[1..];
    params := map[];
    if |frag| < 5 {
      return;
    }
    var vars := Split(frag, '&');
    for i := 0 to |vars|
      invariant params == Params(vars[..i])
    {
      assert vars[..i + 1][..i] == vars[..i];
      if vars[i] == [] {
        continue;
      }
      var pair := Split(vars[i], '=');
      if |pair| < 2 {
        continue;
      }
      params := params[pair[0] := Str(pair[1])];
    }
    assert vars[..|vars|] == vars;
    if "gid" in params && params["gid"].Str? && params["gid"].s != [] {
      params := params["gid" := Num(ParseInt(params["gid"].s))];
    }
  }

  // ---------------------------------------------------------------------------
  // One segment

  /** A segment is skipped exactly when it holds no `=` (an empty segment holds none). */
  lemma SegmentSkipped(seg: string)
    ensures Segment(seg).None? <==> '=' !in seg
  {
    if '=' in seg {
      var i := FirstIndex(seg, '=');
      assert seg == seg[..i] + ['='] + seg[i + 1..];
      SplitAfterPiece(seg[..i], '=', seg[i + 1..]);
    } else {
      SplitWithout(seg, '=');
    }
  }

  /** The key runs up to the first `=`, the value up to the next `=`, and the rest is dropped. */
  lemma SegmentOf(k: string, v: string, rest: string)
    requires '=' !in k && '=' !in v
    requires rest == [] || rest[0] == '='
    ensures Segment(k + ['='] + v + rest) == Some((k, v))
  {
    var seg := k + ['='] + v + rest;
    assert seg == k + ['='] + (v + rest);
    SplitAfterPiece(k, '=', v + rest);
    if rest == [] {
      assert v + rest == v;
      SplitWithout(v, '=');
    } else {
      assert v + rest == v + ['='] + rest[1..];
      SplitAfterPiece(v, '=', rest[1..]);
    }
  }

  /** Conversely, a kept segment is its key, `=`, its value, and nothing or more `=`-pieces. */
  lemma SegmentParts(seg: string)
    requires Segment(seg).Some?
    ensures var (k, v) := Segment(seg).value;
      && '=' !in k && '=' !in v
      && |k| + 1 + |v| <= |seg|
      && seg[..|k| + 1 + |v|] == k + ['='] + v
      && (|k| + 1 + |v| == |seg| || seg[|k| + 1 + |v|] == '=')
  {
    var pair := Split(seg, '=');
    JoinSplit(seg, '=');
    var k, v := pair[0], pair[1];
    var tail := pair[1..];
    assert seg == k + ['='] + Join(tail, '=');
    if |tail| == 1 {
      assert seg == k + ['='] + v;
    } else {
      assert Join(tail, '=') == v + ['='] + Join(tail[1..], '=');
      assert seg == (k + ['='] + v) + (['='] + Join(tail[1..], '='));
    }
  }

  // ---------------------------------------------------------------------------
  // The loop over segments

  predicate SetsKey(seg: string, key: string) {
    Segment(seg).Some? && Segment(seg).value.0 == key
  }

  /** A key is present exactly when some kept segment names it. */
  lemma {:induction false} ParamsKeys(segs: seq<string>, key: string)
    ensures key in Params(segs) <==> exists i :: 0 <= i < |segs| && SetsKey(segs[i], key)
  {
    if segs != [] {
      var n := |segs| - 1;
      ParamsKeys(segs[..n], key);
      if key in Params(segs[..n]) {
        var i :| 0 <= i < n && SetsKey(segs[..n][i], key);
        assert SetsKey(segs[i], key);
      }
      if exists i :: 0 <= i < |segs| && SetsKey(segs[i], key) {
        var i :| 0 <= i < |segs| && SetsKey(segs[i], key);
        if i < n {
          assert SetsKey(segs[..n][i], key);
        }
      }
    }
  }

  /** The value kept for a key is the one from the last segment that names it. */
  lemma {:induction false} ParamsLastWins(segs: seq<string>, i: nat, key: string, value: string)
    requires i < |segs| && Segment(segs[i]) == Some((key, value))
    requires forall j :: i < j < |segs| ==> !SetsKey(segs[j], key)
    ensures key in Params(segs) && Params(segs)[key] == Str(value)
  {
    var n := |segs| - 1;
    if i < n {
      ParamsLastWins(segs[..n], i, key, value);
      assert !SetsKey(segs[n], key);
    }
  }

  /** A skipped segment anywhere leaves the parsed object as it would be without it. */
  lemma {:induction false} ParamsSkip(a: seq<string>, seg: string, b: seq<string>)
    requires Segment(seg).None?
    ensures Params(a + [seg] + b) == Params(a + b)
  {
    if b == [] {
      assert a + [seg] + b == a + [seg];
      assert (a + [seg])[..|a|] == a;
      assert a + b == a;
    } else {
      var b' := b[..|b| - 1];
      assert (a + [seg] + b)[..|a + [seg] + b| - 1] == a + [seg] + b';
      assert (a + b)[..|a + b| - 1] == a + b';
      ParamsSkip(a, seg, b');
    }
  }

  /**
   * An empty segment changes nothing: `x&&y` parses as `x&y`, provided
   * `x&y` is itself long enough (5 characters) to be parsed at all.
   */
  lemma DoubleAmpersand(x: string, y: string)
    requires |x| + 1 + |y| >= 5
    ensures ParseHashSpec("#" + x + "&&" + y) == ParseHashSpec("#" + x + "&" + y)
  {
    DoubleAmpersandSegments(x, y);
    ParamsSkip(Split(x, '&'), [], Split(y, '&'));
  }

  /** `x&&y` splits into the segments of `x`, an empty one, and those of `y`; `x&y` into the same without the empty one. */
  lemma DoubleAmpersandSegments(x: string, y: string)
    ensures Fragment("#" + x + "&&" + y) == x + "&&" + y && Fragment("#" + x + "&" + y) == x + "&" + y
    ensures Split(x + "&&" + y, '&') == Split(x, '&') + [[]] + Split(y, '&')
    ensures Split(x + "&" + y, '&') == Split(x, '&') + Split(y, '&')
  {
    var long, short := x + "&&" + y, x + "&" + y;
    assert Fragment("#" + x + "&&" + y) == long;
    assert Fragment("#" + x + "&" + y) == short;
    assert long == x + ['&'] + ([] + ['&'] + y);
    SplitConcat(x, '&', [] + ['&'] + y);
    SplitConcat([], '&', y);
    assert [] + ['&'] + y == ['&'] + y;
    assert short == x + ['&'] + y;
    SplitConcat(x, '&', y);
  }

  /** The example of the page's deep links: `#&pid=3&&gid=1` parses as `#&pid=3&gid=1`. */
  lemma DoubleAmpersandExample()
    ensures ParseHashSpec("#&pid=3&&gid=1") == ParseHashSpec("#&pid=3&gid=1")
  {
    DoubleAmpersand("&pid=3", "gid=1");
    assert "#" + "&pid=3" + "&&" + "gid=1" == "#&pid=3&&gid=1";
    assert "#" + "&pid=3" + "&" + "gid=1" == "#&pid=3&gid=1";
  }

  /**
   * A well-formed deep link `#&pid=P&gid=G` gives `pid` as the text `P` and
   * `gid` as `parseInt(G, 10)` (or the empty text when `G` is empty).
   */
  lemma CanonicalHash(pid: string, gid: string)
    requires '&' !in pid && '=' !in pid && '&' !in gid && '=' !in gid
    ensures ParseHashSpec("#&pid=" + pid + "&gid=" + gid)
      == map["pid" := Str(pid), "gid" := if gid == [] then Str(gid) else Num(ParseInt(gid))]
  {
    CanonicalSegments(pid, gid);
    CanonicalParams(pid, gid);
  }

  /** The fragment of `#&pid=P&gid=G` splits at `&` into an empty segment, `pid=P` and `gid=G`. */
  lemma CanonicalSegments(pid: string, gid: string)
    requires '&' !in pid && '=' !in pid && '&' !in gid && '=' !in gid
    ensures Split(Fragment("#&pid=" + pid + "&gid=" + gid), '&') == [[], "pid=" + pid, "gid=" + gid]
  {
    var p, g := "pid=" + pid, "gid=" + gid;
    var frag := "&pid=" + pid + "&gid=" + gid;
    assert Fragment("#&pid=" + pid + "&gid=" + gid) == frag;
    assert frag == [] + ['&'] + (p + ['&'] + g);
    SplitAfterPiece([], '&', p + ['&'] + g);
    assert '&' !in p by {
      assert p == ['p', 'i', 'd', '='] + pid;
    }
    assert '&' !in g by {
      assert g == ['g', 'i', 'd', '='] + gid;
    }
    SplitAfterPiece(p, '&', g);
    SplitWithout(g, '&');
  }

  /** The segments of a well-formed deep link set `pid` and `gid` to their texts. */
  lemma CanonicalParams(pid: string, gid: string)
    requires '=' !in pid && '=' !in gid
    ensures Params([[], "pid=" + pid, "gid=" + gid]) == map["pid" := Str(pid), "gid" := Str(gid)]
  {
    var segs := [[], "pid=" + pid, "gid=" + gid];
    assert "pid=" + pid == "pid" + ['='] + pid + [];
    SegmentOf("pid", pid, []);
    assert "gid=" + gid == "gid" + ['='] + gid + [];
    SegmentOf("gid", gid, []);
    assert segs[..2][..1] == [[]];
    assert Params(segs[..1]) == map[];
    assert Params(segs[..2]) == map["pid" := Str(pid)];
  }
}
