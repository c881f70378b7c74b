/** The site-wide navigation bar (static/js/nav.js): on page load every
    link whose `href` matches the current path gets the `active` class.
    A link is reduced to its `href` attribute and whether it carries the
    class. */
module Nav {
  import opened Common

  /** An `<a>` of `.site-nav`: `getAttribute('href')` is None when the
      attribute is missing. */
  datatype Link = Link(href: Option<string>, active: bool)

  /** The per-link decision of `activateNav`: a missing or empty `href` is
      skipped; `/` matches only the root path; any other `href` matches
      every path that starts with it. */
  predicate ShouldActivate(href: Option<string>, path: string) {
    match href
    case None => false
    case Some(h) =>
      if h == "" then false
      else if h == "/" then path == "/"
      else StartsWith(path, h)
  }

  /** `link.classList.add('active')` when the link matches. */
  function Marked(l: Link, path: string): Link {
    if ShouldActivate(l.href, path) then l.(active := true) else l
  }

  /** `activateNav()` over the links in document order. */
  method ActivateNav(links: array<Link>, path: string)
    modifies links
    ensures forall i :: 0 <= i < links.Length ==> links[i] == Marked(old(links[i]), path)
    ensures forall i :: 0 <= i < links.Length ==>
      links[i].href == old(links[i].href) &&
      (links[i].active <==> old(links[i].active) || ShouldActivate(links[i].href, path))
  {
    for i := 0 to links.Length
      invariant forall j :: 0 <= j < i ==> links[j] == Marked(old(links[j]), path)
      invariant forall j :: i <= j < links.Length ==> links[j] == old(links[j])
    {
      var href := links[i].href;
      if ShouldActivate(href, path) {
        links[i] := links[i].(active := true);
      }
    }
  }

  /** The root link is active exactly on the root path. */
  lemma RootOnlyOnRoot(path: string)
    ensures ShouldActivate(Some("/"), path) <==> path == "/"
  {
  }

  /** Any other non-empty `href` is a prefix rule. */
  lemma PrefixRule(h: string, path: string)
    requires h != "" && h != "/"
    ensures ShouldActivate(Some(h), path) <==> |h| <= |path| && path[..|h|] == h
  {
  }

  /** Links without an `href`, or with an empty one, are never activated. */
  lemma MissingHrefSkipped(l: Link, path: string)
    requires l.href == None || l.href == Some("")
    ensures Marked(l, path) == l
  {
  }

  /** Marking only adds the class: a link already active stays active, the
      `href` is untouched, and marking twice is marking once. */
  lemma MarkedOnlyAdds(l: Link, path: string)
    ensures l.active ==> Marked(l, path).active
    ensures Marked(l, path).href == l.href
    ensures Marked(Marked(l, path), path) == Marked(l, path)
  {
  }

  /** The prefix rule does not stop at path segments, so several links can
      be active at once: on `/radio/live` both `/radio` and `/r` match,
      while `/` does not. */
  lemma SeveralActive()
    ensures ShouldActivate(Some("/radio"), "/radio/live")
    ensures ShouldActivate(Some("/r"), "/radio/live")
    ensures !ShouldActivate(Some("/"), "/radio/live")
  {
    assert "/radio/live"[..6] == "/radio";
    assert "/radio/live"[..2] == "/r";
  }
}
