/**
 * What a series-menu link does on arrival at the works page: the fragment holds
 * a series slug, which the page looks up as a work id.
 */
module MenuTargets {
  import opened Options
  import opened Catalog
  import Slug
  import Uri
  import SeriesMenu
  import Gallery

  /** The fragment the menu link for `name` puts in the address bar. */
  function LinkFragment(name: string): (h: string)
    ensures SeriesMenu.MenuLink(name).href == SeriesMenu.WorksPage + h
    ensures Gallery.FragmentId(h) == Some(Slug.Slugify(name))
  {
    var href := SeriesMenu.MenuLink(name).href;
    var rest := href[|SeriesMenu.WorksPage| + 1..];
    SplitAfterPrefix(href, SeriesMenu.WorksPage);
    Gallery.FragmentDropsFirstHash(rest);
    "#" + rest
  }

  /** A string that starts with `p + "#"` is `p`, then `#`, then the rest. */
  lemma SplitAfterPrefix(s: string, p: string)
    requires |s| > |p| && s[..|p| + 1] == p + "#"
    ensures s == p + ("#" + s[|p| + 1..])
  {
    assert s == s[..|p| + 1] + s[|p| + 1..];
  }

  /**
   * Opening the works page from a menu link selects the first work whose id is
   * the series slug; when no id equals it, the first work of the catalog.
   */
  lemma MenuLinkOpens(works: seq<Work>, name: string)
    requires works != []
    ensures var r := Gallery.InitialIndex(works, LinkFragment(name));
      r.Some? &&
      (if exists k :: 0 <= k < |works| && works[k].id == Slug.Slugify(name)
       then works[r.value].id == Slug.Slugify(name) &&
            forall k :: 0 <= k < r.value ==> works[k].id != Slug.Slugify(name)
       else r.value == 0)
  {
  }

  /**
   * Following a menu link while the works page is open changes the selection
   * only when some work id equals the series slug.
   */
  lemma MenuLinkWhileOpen(works: seq<Work>, name: string)
    ensures Gallery.HandlerTarget(works, LinkFragment(name)).Some? <==>
      exists k :: 0 <= k < |works| && works[k].id == Slug.Slugify(name)
  {
  }

  /** Reopening the page on the fragment it wrote shows the same work, when ids are unique. */
  method Reopen(p: Gallery.Page, k: nat) returns (q: Gallery.Page)
    requires p.Valid() && k < |p.works| && p.Shows(p.works[k]) && UniqueIds(p.works)
    ensures q.works == p.works && q.Valid() && q.Shows(p.works[k]) && q.listening
  {
    Gallery.CanonicalHashReselects(p.works, k);
    q := new Gallery.Page(p.works, p.hash);
    q.Init();
  }
}
