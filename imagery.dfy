/** The gallery page (static/js/imagery.js): the HTML escaping of captions,
    the category filter over the gallery items, and the lightbox that steps
    through the items visible when it was opened.  The DOM is reduced to
    the state these handlers read and write: the items' `hidden` classes,
    the closure variables `visibleItems` and `currentIndex`, whether the
    lightbox is open, the figure it shows and its two arrows' visibility. */
module Imagery {
  import opened Common

  // ---------------------------------------------------------------------------
  // escapeHtml

  /** `s.replace(/c/g, rep)` for a single-character pattern. */
  function ReplaceAll(s: string, c: char, rep: string): (r: string)
    ensures c !in s ==> r == s
  {
    if s == [] then []
    else (if s[0] == c then rep else [s[0]]) + ReplaceAll(s[1..], c, rep)
  }

  /** `escapeHtml(str)`: four global replacements, `&` first. */
  function EscapeHtml(s: string): string {
    ReplaceAll(ReplaceAll(ReplaceAll(ReplaceAll(s, '&', "&amp;"), '<', "&lt;"), '>', "&gt;"), '"', "&quot;")
  }

  /** The entity one character escapes to. */
  function EscapeChar(c: char): string {
    match c
    case '&' => "&amp;"
    case '<' => "&lt;"
    case '>' => "&gt;"
    case '"' => "&quot;"
    case _ => [c]
  }

  /** Escaping character by character. */
  function EscapeEach(s: string): string {
    if s == [] then [] else EscapeChar(s[0]) + EscapeEach(s[1..])
  }

  lemma {:induction false} ReplaceAllAppend(a: string, b: string, c: char, rep: string)
    ensures ReplaceAll(a + b, c, rep) == ReplaceAll(a, c, rep) + ReplaceAll(b, c, rep)
  {
    if a == [] {
      assert a + b == b;
    } else {
      assert (a + b)[0] == a[0] && (a + b)[1..] == a[1..] + b;
      ReplaceAllAppend(a[1..], b, c, rep);
    }
  }

  lemma EscapeHtmlAppend(a: string, b: string)
    ensures EscapeHtml(a + b) == EscapeHtml(a) + EscapeHtml(b)
  {
    var a1 := ReplaceAll(a, '&', "&amp;");
    var b1 := ReplaceAll(b, '&', "&amp;");
    ReplaceAllAppend(a, b, '&', "&amp;");
    var a2 := ReplaceAll(a1, '<', "&lt;");
    var b2 := ReplaceAll(b1, '<', "&lt;");
    ReplaceAllAppend(a1, b1, '<', "&lt;");
    var a3 := ReplaceAll(a2, '>', "&gt;");
    var b3 := ReplaceAll(b2, '>', "&gt;");
    ReplaceAllAppend(a2, b2, '>', "&gt;");
    ReplaceAllAppend(a3, b3, '"', "&quot;");
  }

  lemma ReplaceAllOne(c: char, d: char, rep: string)
    ensures ReplaceAll([c], d, rep) == if c == d then rep else [c]
  {
    assert [c][1..] == [];
  }

  /** On one character the chain gives that character's entity: the
      entities introduced by a step contain none of the characters the
      later steps replace. */
  lemma EscapeHtmlChar(c: char)
    ensures EscapeHtml([c]) == EscapeChar(c)
  {
    if c == '&' {
      EscapeAmp();
    } else if c == '<' {
      EscapeLt();
    } else if c == '>' {
      EscapeGt();
    } else if c == '"' {
      EscapeQuot();
    } else {
      EscapePlain(c);
    }
  }

  lemma EscapeAmp()
    ensures EscapeHtml("&") == "&amp;"
  {
    ReplaceAllOne('&', '&', "&amp;");
    assert '<' !in "&amp;" && '>' !in "&amp;" && '"' !in "&amp;";
  }

  lemma EscapeLt()
    ensures EscapeHtml("<") == "&lt;"
  {
    ReplaceAllOne('<', '&', "&amp;");
    ReplaceAllOne('<', '<', "&lt;");
    assert '>' !in "&lt;" && '"' !in "&lt;";
  }

  lemma EscapeGt()
    ensures EscapeHtml(">") == "&gt;"
  {
    ReplaceAllOne('>', '&', "&amp;");
    ReplaceAllOne('>', '<', "&lt;");
    ReplaceAllOne('>', '>', "&gt;");
    assert '"' !in "&gt;";
  }

  lemma EscapeQuot()
    ensures EscapeHtml("\"") == "&quot;"
  {
    ReplaceAllOne('"', '&', "&amp;");
    ReplaceAllOne('"', '<', "&lt;");
    ReplaceAllOne('"', '>', "&gt;");
    ReplaceAllOne('"', '"', "&quot;");
  }

  lemma EscapePlain(c: char)
    requires c !in {'&', '<', '>', '"'}
    ensures EscapeHtml([c]) == [c]
  {
    ReplaceAllOne(c, '&', "&amp;");
    ReplaceAllOne(c, '<', "&lt;");
    ReplaceAllOne(c, '>', "&gt;");
    ReplaceAllOne(c, '"', "&quot;");
  }

  /** The replacement chain equals escaping each character once: no entity
      produced by an earlier step is escaped again. */
  lemma {:induction false} EscapeHtmlIsPerChar(s: string)
    ensures EscapeHtml(s) == EscapeEach(s)
  {
    if s != [] {
      assert s == [s[0]] + s[1..];
      EscapeHtmlAppend([s[0]], s[1..]);
      EscapeHtmlChar(s[0]);
      EscapeHtmlIsPerChar(s[1..]);
    }
  }

  /** The escaped text has no `<`, `>` or `"`, and characters other than the
      four special ones, `'` included, pass through unchanged. */
  lemma {:induction false} EscapeEachSafe(s: string)
    ensures forall i :: 0 <= i < |EscapeEach(s)| ==> EscapeEach(s)[i] !in {'<', '>', '"'}
    ensures (forall i :: 0 <= i < |s| ==> s[i] !in {'&', '<', '>', '"'}) ==> EscapeEach(s) == s
  {
    if s != [] {
      EscapeEachSafe(s[1..]);
      var e := EscapeChar(s[0]);
      assert forall i :: 0 <= i < |e| ==> e[i] !in {'<', '>', '"'};
      var r := EscapeEach(s);
      forall i | 0 <= i < |r| ensures r[i] !in {'<', '>', '"'} {
        if i >= |e| {
          assert r[i] == EscapeEach(s[1..])[i - |e|];
        }
      }
    }
  }

  lemma EscapeHtmlSafe(s: string)
    ensures forall i :: 0 <= i < |EscapeHtml(s)| ==> EscapeHtml(s)[i] !in {'<', '>', '"'}
    ensures (forall i :: 0 <= i < |s| ==> s[i] !in {'&', '<', '>', '"'}) ==> EscapeHtml(s) == s
  {
    EscapeHtmlIsPerChar(s);
    EscapeEachSafe(s);
  }

  /** Decoding the four entities back to their characters. */
  function Unescape(t: string): string
    decreases |t|
  {
    if t == [] then []
    else if StartsWith(t, "&amp;") then "&" + Unescape(t[5..])
    else if StartsWith(t, "&lt;") then "<" + Unescape(t[4..])
    else if StartsWith(t, "&gt;") then ">" + Unescape(t[4..])
    else if StartsWith(t, "&quot;") then "\"" + Unescape(t[6..])
    else [t[0]] + Unescape(t[1..])
  }

  lemma UnescapeAmp(rest: string)
    ensures Unescape("&amp;" + rest) == "&" + Unescape(rest)
  {
    var t := "&amp;" + rest;
    assert t[..5] == "&amp;" && t[5..] == rest;
  }

  lemma UnescapeLt(rest: string)
    ensures Unescape("&lt;" + rest) == "<" + Unescape(rest)
  {
    var t := "&lt;" + rest;
    assert t[1] == 'l';
    assert t[..4] == "&lt;" && t[4..] == rest;
  }

  lemma UnescapeGt(rest: string)
    ensures Unescape("&gt;" + rest) == ">" + Unescape(rest)
  {
    var t := "&gt;" + rest;
    assert t[1] == 'g';
    assert t[..4] == "&gt;" && t[4..] == rest;
  }

  lemma UnescapeQuot(rest: string)
    ensures Unescape("&quot;" + rest) == "\"" + Unescape(rest)
  {
    var t := "&quot;" + rest;
    assert t[1] == 'q';
    assert t[..6] == "&quot;" && t[6..] == rest;
  }

  lemma UnescapeChar(c: char, rest: string)
    ensures Unescape(EscapeChar(c) + rest) == [c] + Unescape(rest)
  {
    match c
    case '&' => UnescapeAmp(rest);
    case '<' => UnescapeLt(rest);
    case '>' => UnescapeGt(rest);
    case '"' => UnescapeQuot(rest);
    case _ => UnescapePlain(c, rest);
  }

  lemma UnescapePlain(c: char, rest: string)
    requires c != '&'
    ensures Unescape([c] + rest) == [c] + Unescape(rest)
  {
    var t := [c] + rest;
    assert t[0] == c && t[1..] == rest;
    assert !StartsWith(t, "&amp;") && !StartsWith(t, "&lt;");
    assert !StartsWith(t, "&gt;") && !StartsWith(t, "&quot;");
  }

  /** Escaping loses nothing: the entities decode back to the input, even
      when the input already held entity text such as `&lt;`. */
  lemma {:induction false} EscapeHtmlRoundTrip(s: string)
    ensures Unescape(EscapeHtml(s)) == s
  {
    EscapeHtmlIsPerChar(s);
    EscapeEachRoundTrip(s);
  }

  lemma {:induction false} EscapeEachRoundTrip(s: string)
    ensures Unescape(EscapeEach(s)) == s
  {
    if s != [] {
      UnescapeChar(s[0], EscapeEach(s[1..]));
      EscapeEachRoundTrip(s[1..]);
      assert s == [s[0]] + s[1..];
    }
  }

  // ---------------------------------------------------------------------------
  // The gallery and its lightbox

  /** A gallery item as `buildItem` tags it. */
  datatype Figure = Figure(category: string, src: string, title: string, caption: string)

  /** `applyFilter`'s test for one item. */
  predicate Matches(filter: string, category: string) {
    filter == "all" || category == filter
  }

  /** `getVisibleItems()`: the positions of the items without the `hidden`
      class, in document order. */
  function VisibleOf(hidden: seq<bool>): seq<nat> {
    if hidden == [] then []
    else VisibleOf(hidden[..|hidden| - 1]) + (if hidden[|hidden| - 1] then [] else [|hidden| - 1])
  }

  /** The last step of `VisibleOf`, with the prefix's positions unchanged. */
  lemma VisibleOfSnoc(hidden: seq<bool>)
    requires hidden != []
    ensures var init := hidden[..|hidden| - 1];
      && VisibleOf(hidden) == VisibleOf(init) + (if hidden[|hidden| - 1] then [] else [|hidden| - 1])
      && (forall i :: 0 <= i < |init| ==> init[i] == hidden[i])
  {
  }

  /** Only items without the `hidden` class are collected. */
  lemma {:induction false} VisibleOfSound(hidden: seq<bool>)
    ensures forall k :: 0 <= k < |VisibleOf(hidden)| ==> VisibleOf(hidden)[k] < |hidden|
    ensures forall k :: 0 <= k < |VisibleOf(hidden)| ==> !hidden[VisibleOf(hidden)[k]]
  {
    if hidden != [] {
      var init := hidden[..|hidden| - 1];
      VisibleOfSnoc(hidden);
      VisibleOfSound(init);
      var w := VisibleOf(init);
      var v := VisibleOf(hidden);
      forall k | 0 <= k < |v| ensures v[k] < |hidden| && !hidden[v[k]] {
        if k < |w| {
          assert v[k] == w[k];
          assert init[w[k]] == hidden[w[k]];
        }
      }
    }
  }

  /** Every item without the `hidden` class is collected. */
  lemma {:induction false} VisibleOfComplete(hidden: seq<bool>)
    ensures forall i :: 0 <= i < |hidden| && !hidden[i] ==> i in VisibleOf(hidden)
  {
    if hidden != [] {
      var init := hidden[..|hidden| - 1];
      VisibleOfSnoc(hidden);
      VisibleOfComplete(init);
      var w := VisibleOf(init);
      var v := VisibleOf(hidden);
      forall i | 0 <= i < |hidden| && !hidden[i] ensures i in v {
        if i < |init| {
          var k :| 0 <= k < |w| && w[k] == i;
          assert v[k] == i;
        } else {
          assert v[|v| - 1] == i;
        }
      }
    }
  }

  /** The collection keeps document order. */
  lemma {:induction false} VisibleOfOrdered(hidden: seq<bool>)
    ensures forall j, k :: 0 <= j < k < |VisibleOf(hidden)| ==> VisibleOf(hidden)[j] < VisibleOf(hidden)[k]
  {
    if hidden != [] {
      var init := hidden[..|hidden| - 1];
      VisibleOfSnoc(hidden);
      VisibleOfOrdered(init);
      VisibleOfSound(init);
      var w := VisibleOf(init);
      var v := VisibleOf(hidden);
      forall j, k | 0 <= j < k < |v| ensures v[j] < v[k] {
        assert v[j] == w[j];
        if k < |w| {
          assert v[k] == w[k];
        }
      }
    }
  }

  /** `visibleItems.indexOf(fig)`. */
  function IndexOf(s: seq<nat>, x: nat): (k: int)
    ensures -1 <= k < |s|
    ensures k >= 0 ==> s[k] == x
  {
    if s == [] then -1
    else if s[0] == x then 0
    else
      var k := IndexOf(s[1..], x);
      if k == -1 then -1 else k + 1
  }

  /** `indexOf` finds the first occurrence, and -1 exactly when there is
      none. */
  lemma {:induction false} IndexOfSpec(s: seq<nat>, x: nat)
    ensures var k := IndexOf(s, x);
      k >= 0 ==> forall j :: 0 <= j < k ==> s[j] != x
    ensures IndexOf(s, x) == -1 <==> x !in s
  {
    if s != [] && s[0] != x {
      IndexOfSpec(s[1..], x);
      assert x in s <==> x in s[1..];
    }
  }

  /** A clicked item is found among the visible ones exactly when it is
      not hidden. */
  lemma VisibleIndex(hidden: seq<bool>, fig: nat)
    requires fig < |hidden|
    ensures IndexOf(VisibleOf(hidden), fig) == -1 <==> hidden[fig]
  {
    var v := VisibleOf(hidden);
    VisibleOfSound(hidden);
    VisibleOfComplete(hidden);
    IndexOfSpec(v, fig);
    if IndexOf(v, fig) != -1 {
      assert v[IndexOf(v, fig)] == fig;
    }
  }

  /** The TypeError `showAt(-1)` raises when the clicked item is hidden. */
  datatype GalleryError = NotVisible

  class Gallery {
    const figures: seq<Figure>
    const hidden: array<bool>
    var activeFilter: string
    var visibleItems: seq<nat>
    var currentIndex: int
    var open: bool
    var shown: Option<Figure>
    var prevVisible: bool
    var nextVisible: bool

    ghost predicate Valid()
      reads this, hidden
    {
      && hidden.Length == |figures|
      && (forall k :: 0 <= k < |visibleItems| ==> visibleItems[k] < |figures|)
      && -1 <= currentIndex <= |visibleItems|
    }

    /** The lightbox shows item `currentIndex` of `visibleItems`, with each
        arrow visible exactly when there is an item on its side. */
    ghost predicate Showing()
      reads this, hidden
    {
      && Valid()
      && 0 <= currentIndex < |visibleItems|
      && shown == Some(figures[visibleItems[currentIndex]])
      && prevVisible == (currentIndex > 0)
      && nextVisible == (currentIndex < |visibleItems| - 1)
    }

    /** The gallery once the fetched images are built: no item is hidden,
        the filter is `all`, the lightbox is closed. */
    constructor (figures: seq<Figure>)
      ensures Valid() && this.figures == figures
      ensures forall i :: 0 <= i < hidden.Length ==> !hidden[i]
      ensures activeFilter == "all" && visibleItems == [] && currentIndex == 0 && !open && shown == None
    {
      this.figures := figures;
      hidden := new bool[|figures|](_ => false);
      activeFilter := "all";
      visibleItems := [];
      currentIndex := 0;
      open := false;
      shown := None;
      prevVisible := true;
      nextVisible := true;
    }

    /** `applyFilter(filter)`: an item is hidden exactly when the filter is
        not `all` and differs from the item's category.  The lightbox's
        `visibleItems` is not recomputed. */
    method ApplyFilter(filter: string)
      requires Valid()
      modifies this, hidden
      ensures Valid() && activeFilter == filter
      ensures forall i :: 0 <= i < hidden.Length ==>
        (hidden[i] <==> filter != "all" && figures[i].category != filter)
      ensures visibleItems == old(visibleItems) && currentIndex == old(currentIndex)
      ensures open == old(open) && shown == old(shown)
      ensures prevVisible == old(prevVisible) && nextVisible == old(nextVisible)
    {
      activeFilter := filter;
      for i := 0 to hidden.Length
        modifies hidden
        invariant forall j :: 0 <= j < i ==> (hidden[j] <==> !Matches(filter, figures[j].category))
      {
        var match_ := Matches(filter, figures[i].category);
        hidden[i] := !match_;
      }
    }

    /** `showAt(idx)`. */
    method ShowAt(idx: int)
      requires Valid() && 0 <= idx < |visibleItems|
      modifies this
      ensures visibleItems == old(visibleItems) && currentIndex == old(currentIndex)
      ensures open == old(open) && activeFilter == old(activeFilter)
      ensures Valid() && shown == Some(figures[visibleItems[idx]])
      ensures prevVisible == (idx > 0) && nextVisible == (idx < |visibleItems| - 1)
    {
      shown := Some(figures[visibleItems[idx]]);
      prevVisible := idx > 0;
      nextVisible := idx < |visibleItems| - 1;
    }

    /** `openLightbox(fig)` for the item at position `fig`: the visible
        items are collected, and the lightbox opens on the clicked one.  A
        hidden item is not among them, so `showAt(-1)` throws before the
        lightbox opens. */
    method OpenLightbox(fig: nat) returns (r: Result<nat, GalleryError>)
      requires Valid() && fig < |figures|
      modifies this
      ensures Valid()
      ensures visibleItems == VisibleOf(hidden[..])
      ensures currentIndex == IndexOf(visibleItems, fig)
      ensures r.Failure? <==> hidden[fig]
      ensures r.Success? ==> open && r.value == currentIndex && Showing()
      ensures r.Failure? ==> open == old(open) && shown == old(shown) && currentIndex == -1
    {
      var hs := hidden[..];
      var v := VisibleOf(hs);
      var k := IndexOf(v, fig);
      assert hs[fig] == hidden[fig];
      VisibleIndex(hs, fig);
      VisibleOfSound(hs);
      visibleItems := v;
      currentIndex := k;
      if k == -1 {
        r := Failure(NotVisible);
      } else {
        ShowAt(k);
        open := true;
        r := Success(k);
      }
    }

    /** `closeLightbox()`. */
    method CloseLightbox()
      modifies this
      ensures !open
      ensures visibleItems == old(visibleItems) && currentIndex == old(currentIndex) && shown == old(shown)
      ensures activeFilter == old(activeFilter)
      ensures prevVisible == old(prevVisible) && nextVisible == old(nextVisible)
    {
      open := false;
    }

    /** The previous-arrow click handler. */
    method Prev()
      requires Valid()
      modifies this
      ensures Valid() && visibleItems == old(visibleItems) && open == old(open)
      ensures old(currentIndex) > 0 ==> currentIndex == old(currentIndex) - 1 && Showing()
      ensures old(currentIndex) <= 0 ==> currentIndex == old(currentIndex) && shown == old(shown)
      ensures 0 <= old(currentIndex) < |visibleItems| ==> 0 <= currentIndex < |visibleItems|
    {
      if currentIndex > 0 {
        currentIndex := currentIndex - 1;
        ShowAt(currentIndex);
      }
    }

    /** The next-arrow click handler. */
    method Next()
      requires Valid()
      modifies this
      ensures Valid() && visibleItems == old(visibleItems) && open == old(open)
      ensures old(currentIndex) < |visibleItems| - 1 ==> currentIndex == old(currentIndex) + 1 && Showing()
      ensures old(currentIndex) >= |visibleItems| - 1 ==> currentIndex == old(currentIndex) && shown == old(shown)
      ensures 0 <= old(currentIndex) < |visibleItems| ==> 0 <= currentIndex < |visibleItems|
    {
      if currentIndex < |visibleItems| - 1 {
        currentIndex := currentIndex + 1;
        ShowAt(currentIndex);
      }
    }

    /** The `keydown` handler: ignored while the lightbox is closed;
        Escape closes it, the arrow keys step like the arrows. */
    method KeyDown(key: string)
      requires Valid()
      modifies this
      ensures Valid() && visibleItems == old(visibleItems)
      ensures !old(open) ==> currentIndex == old(currentIndex) && shown == old(shown) && !open
      ensures old(open) && key == "Escape" ==> !open && currentIndex == old(currentIndex)
      ensures old(open) && key == "ArrowLeft" && old(currentIndex) > 0 ==>
        open && currentIndex == old(currentIndex) - 1 && Showing()
      ensures old(open) && key == "ArrowRight" && old(currentIndex) < |visibleItems| - 1 ==>
        open && currentIndex == old(currentIndex) + 1 && Showing()
      ensures 0 <= old(currentIndex) < |visibleItems| ==> 0 <= currentIndex < |visibleItems|
      ensures activeFilter == old(activeFilter)
      ensures old(open) && key != "Escape" ==> open
      ensures !(old(open) && ((key == "ArrowLeft" && old(currentIndex) > 0)
                              || (key == "ArrowRight" && old(currentIndex) < |visibleItems| - 1))) ==>
        && currentIndex == old(currentIndex) && shown == old(shown)
        && prevVisible == old(prevVisible) && nextVisible == old(nextVisible)
    {
      if !open {
        return;
      }
      if key == "Escape" {
        CloseLightbox();
      }
      if key == "ArrowLeft" && currentIndex > 0 {
        currentIndex := currentIndex - 1;
        ShowAt(currentIndex);
      }
      if key == "ArrowRight" && currentIndex < |visibleItems| - 1 {
        currentIndex := currentIndex + 1;
        ShowAt(currentIndex);
      }
    }
  }

  /** Once the lightbox is showing an item, every sequence of key presses
      keeps its position on an item of `visibleItems`. */
  method NavigationStaysInRange(g: Gallery, keys: seq<string>)
    requires g.Showing() && g.open
    modifies g
    ensures g.Valid() && 0 <= g.currentIndex < |g.visibleItems|
    ensures g.visibleItems == old(g.visibleItems)
  {
    for i := 0 to |keys|
      invariant g.Valid() && 0 <= g.currentIndex < |g.visibleItems|
      invariant g.visibleItems == old(g.visibleItems)
    {
      g.KeyDown(keys[i]);
    }
  }
}
