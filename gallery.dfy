/**
 * The selection state of the works page (assets/js/works.js): the hero image,
 * the caption texts, one thumbnail button per work with its `active` class,
 * and the URL fragment that `setWork` keeps as a shareable deep link.
 */
module Gallery {
  import opened Options
  import opened Catalog
  import JsText
  import Uri
  import UriRoundTrip

  /** One button of the thumbnail strip: its `data-id`, its image, and the `active` class. */
  datatype Thumb = Thumb(id: string, src: string, alt: string, active: bool)

  /** The button the build loop appends for `w`: its `data-id`, its image and its alt text. */
  function ThumbOf(w: Work, active: bool): (t: Thumb)
    ensures t.id == w.id && t.src == w.thumb && t.active == active
    ensures t.alt == w.title + " thumbnail"
  {
    Thumb(w.id, w.thumb, w.title + " thumbnail", active)
  }

  /** How `${w.year}` renders: the year, or `undefined` where the work has none. */
  function YearText(year: Option<string>): string {
    match year
    case Some(y) => y
    case None => "undefined"
  }

  /** The work id a fragment names: the fragment without its first `#`, percent-decoded; None where decoding throws. */
  function FragmentId(hash: string): (r: Option<string>)
    ensures '#' !in hash ==> r == Uri.Decode(hash)
  {
    Uri.Decode(JsText.RemoveFirst(hash, '#'))
  }

  /** The lookup of a work by id, as an index: the first work whose id is exactly `id`. */
  function FindById(works: seq<Work>, id: string): (r: Option<nat>)
    ensures r.Some? ==> r.value < |works| && works[r.value].id == id
    ensures r.Some? ==> forall k :: 0 <= k < r.value ==> works[k].id != id
    ensures r.None? <==> forall k :: 0 <= k < |works| ==> works[k].id != id
  {
    if works == [] then None
    else if works[0].id == id then Some(0)
    else
      match FindById(works[1..], id)
      case None => None
      case Some(k) => Some(k + 1)
  }

  /**
   * The work the page opens on: the first whose id is the decoded fragment, else the first work.
   * None where there is nothing to show: decoding throws, or the catalog is empty.
   */
  function InitialIndex(works: seq<Work>, hash: string): (r: Option<nat>)
    ensures r.None? <==> works == [] || FragmentId(hash).None?
    ensures r.Some? ==> r.value < |works|
    ensures r.Some? && works[r.value].id != FragmentId(hash).value ==>
      r.value == 0 && forall k :: 0 <= k < |works| ==> works[k].id != FragmentId(hash).value
    ensures r.Some? && works[r.value].id == FragmentId(hash).value ==>
      forall k :: 0 <= k < r.value ==> works[k].id != FragmentId(hash).value
  {
    if works == [] then None
    else
      match FragmentId(hash)
      case None => None
      case Some(id) =>
        match FindById(works, id)
        case Some(k) => Some(k)
        case None => Some(0)
  }

  /** The work the `hashchange` handler selects: only an exact id match, never a fallback. */
  function HandlerTarget(works: seq<Work>, hash: string): (r: Option<nat>)
    ensures r.Some? ==> FragmentId(hash).Some? && r.value < |works| && works[r.value].id == FragmentId(hash).value
    ensures r.Some? ==> forall k :: 0 <= k < r.value ==> works[k].id != FragmentId(hash).value
    ensures r.None? <==> FragmentId(hash).None? || forall k :: 0 <= k < |works| ==> works[k].id != FragmentId(hash).value
  {
    match FragmentId(hash)
    case None => None
    case Some(id) => FindById(works, id)
  }

  /** Only the first `#` is dropped before decoding; later ones belong to the id. */
  lemma FragmentDropsFirstHash(s: string)
    ensures FragmentId("#" + s) == Uri.Decode(s)
    ensures '%' !in s ==> FragmentId("#" + s) == Some(s)
  {
    assert JsText.IndexOf("#" + s, '#') == 0;
    assert JsText.RemoveFirst("#" + s, '#') == s;
    if '%' !in s {
      UriRoundTrip.DecodePlain(s);
    }
  }

  /** A fragment with no `#` and no escape is the id itself. */
  lemma FragmentWithoutHash(s: string)
    requires '%' !in s && '#' !in s
    ensures FragmentId(s) == Some(s)
  {
    UriRoundTrip.DecodePlain(s);
  }

  /** The fragment `setWork` writes decodes back to the id it was written for. */
  lemma CanonicalFragment(id: string)
    ensures FragmentId("#" + Uri.Encode(id)) == Some(id)
  {
    var e := Uri.Encode(id);
    assert JsText.IndexOf("#" + e, '#') == 0;
    assert JsText.RemoveFirst("#" + e, '#') == e;
    UriRoundTrip.DecodeEncode(id);
  }

  /**
   * Reloading or re-entering the fragment written for `works[k]` selects the first
   * work with the same id, which is `works[k]` itself when ids are unique.
   */
  lemma CanonicalHashReselects(works: seq<Work>, k: nat)
    requires k < |works|
    ensures var h := "#" + Uri.Encode(works[k].id);
      InitialIndex(works, h) == HandlerTarget(works, h) &&
      HandlerTarget(works, h).Some? &&
      HandlerTarget(works, h).value <= k &&
      works[HandlerTarget(works, h).value].id == works[k].id
    ensures UniqueIds(works) ==> HandlerTarget(works, "#" + Uri.Encode(works[k].id)) == Some(k)
  {
    var id := works[k].id;
    var h := "#" + Uri.Encode(id);
    CanonicalFragment(id);
    var r := FindById(works, id);
    assert r.Some? && r.value <= k;
    assert HandlerTarget(works, h) == r;
    assert InitialIndex(works, h) == r;
  }

  /** A decodable fragment followed by a stray `%` cannot be decoded: the page neither selects nor falls back. */
  lemma TruncatedEscapeSelectsNothing(works: seq<Work>, s: string)
    requires Uri.Decode(s).Some?
    ensures InitialIndex(works, "#" + s + "%") == None
    ensures HandlerTarget(works, "#" + s + "%") == None
  {
    var h := "#" + s + "%";
    assert JsText.IndexOf(h, '#') == 0;
    assert JsText.RemoveFirst(h, '#') == s + "%";
    UriRoundTrip.BadEscapeFails(s, "%");
  }

  /** The page: the catalog it was built for, the strip of buttons, and the texts it shows. */
  class Page {
    const works: seq<Work>
    const strip: array<Thumb>
    var heroSrc: string
    var heroAlt: string
    var titleText: string
    var mediumText: string
    var sizeText: string
    /** `location.hash`, which `history.replaceState` rewrites. */
    var hash: string
    /** Whether the `hashchange` listener was registered, which only happens when initialisation ran through. */
    var listening: bool

    /** The strip holds one button per work, in catalog order. */
    ghost predicate Valid()
      reads this, strip
    {
      strip.Length == |works| &&
      forall k :: 0 <= k < |works| ==> strip[k] == ThumbOf(works[k], strip[k].active)
    }

    /** Everything `setWork(w)` writes. */
    ghost predicate Shows(w: Work)
      reads this, strip
    {
      heroSrc == w.image && heroAlt == w.title &&
      titleText == w.title + ", " + YearText(w.year) &&
      mediumText == w.medium && sizeText == w.size &&
      hash == "#" + Uri.Encode(w.id) &&
      forall k :: 0 <= k < strip.Length ==> strip[k].active == (strip[k].id == w.id)
    }

    /** Nothing the page shows has changed, the fragment included. */
    twostate predicate ViewUnchanged()
      reads this, strip
    {
      heroSrc == old(heroSrc) && heroAlt == old(heroAlt) && titleText == old(titleText) &&
      mediumText == old(mediumText) && sizeText == old(sizeText) && hash == old(hash) &&
      strip[..] == old(strip[..])
    }

    /** The page before the script's first selection, with the strip built: one inactive button per work. */
    constructor (works: seq<Work>, hash: string)
      ensures this.works == works && this.hash == hash && !listening
      ensures heroSrc == "" && heroAlt == "" && titleText == "" && mediumText == "" && sizeText == ""
      ensures fresh(strip) && Valid()
      ensures forall k :: 0 <= k < strip.Length ==> !strip[k].active
    {
      this.works := works;
      this.hash := hash;
      heroSrc, heroAlt, titleText, mediumText, sizeText := "", "", "", "", "";
      listening := false;
      strip := new Thumb[|works|];
      new;
      var k := 0;
      while k < |works|
        invariant 0 <= k <= |works|
        invariant forall j :: 0 <= j < k ==> strip[j] == ThumbOf(works[j], false)
        modifies strip
      {
        strip[k] := ThumbOf(works[k], false);
        k := k + 1;
      }
    }

    /** `setWork(w)`: show `w`, mark exactly the buttons with its id active, write its fragment. */
    method SetWork(w: Work)
      requires Valid()
      modifies this, strip
      ensures Valid() && Shows(w)
      ensures forall k :: 0 <= k < |works| ==> strip[k] == ThumbOf(works[k], works[k].id == w.id)
      ensures listening == old(listening)
    {
      heroSrc := w.image;
      heroAlt := w.title;
      titleText := w.title + ", " + YearText(w.year);
      mediumText := w.medium;
      sizeText := w.size;
      var k := 0;
      while k < strip.Length
        invariant 0 <= k <= strip.Length
        invariant Valid()
        invariant forall j :: 0 <= j < k ==> strip[j].active == (strip[j].id == w.id)
        modifies strip
      {
        strip[k] := strip[k].(active := strip[k].id == w.id);
        k := k + 1;
      }
      hash := "#" + Uri.Encode(w.id);
    }

    /** The click listener of button `i`. */
    method Click(i: nat)
      requires Valid() && i < |works|
      modifies this, strip
      ensures Valid() && Shows(works[i]) && listening == old(listening)
    {
      SetWork(works[i]);
    }

    /**
     * The initialisation: select from the fragment and register the `hashchange`
     * listener. Where decoding throws, or `setWork(works[0])` throws on an empty
     * catalog, the script stops there: nothing changes and no listener is registered.
     */
    method Init()
      requires Valid()
      modifies this, strip
      ensures Valid()
      ensures InitialIndex(works, old(hash)).Some? ==> Shows(works[InitialIndex(works, old(hash)).value]) && listening
      ensures InitialIndex(works, old(hash)).None? ==> ViewUnchanged() && listening == old(listening)
    {
      var initial := InitialIndex(works, hash);
      if initial.Some? {
        SetWork(works[initial.value]);
        listening := true;
      }
    }

    /** The `hashchange` listener: select only on an exact id match; otherwise leave the page as it is. */
    method OnHashChange()
      requires Valid()
      modifies this, strip
      ensures Valid() && listening == old(listening)
      ensures HandlerTarget(works, old(hash)).Some? ==> Shows(works[HandlerTarget(works, old(hash)).value])
      ensures HandlerTarget(works, old(hash)).None? ==> ViewUnchanged()
    {
      var target := HandlerTarget(works, hash);
      if target.Some? {
        SetWork(works[target.value]);
      }
    }

    /**
     * The browser moves to fragment `h`. Only when the fragment actually changes does
     * it fire `hashchange`, which the listener handles if it is registered.
     */
    method Navigate(h: string)
      requires Valid()
      modifies this, strip
      ensures Valid() && listening == old(listening)
      ensures h == old(hash) ==> ViewUnchanged()
      ensures h != old(hash) && old(listening) && HandlerTarget(works, h).Some? ==> Shows(works[HandlerTarget(works, h).value])
      ensures !(h != old(hash) && old(listening) && HandlerTarget(works, h).Some?) ==>
        hash == h && heroSrc == old(heroSrc) && heroAlt == old(heroAlt) && titleText == old(titleText) &&
        mediumText == old(mediumText) && sizeText == old(sizeText) && strip[..] == old(strip[..])
    {
      if h != hash {
        hash := h;
        if listening {
          OnHashChange();
        }
      }
    }
  }

  /** With unique ids, a page showing a work of its catalog has exactly one active button. */
  lemma ExactlyOneActive(p: Page, k: nat)
    requires p.Valid() && k < |p.works| && p.Shows(p.works[k]) && UniqueIds(p.works)
    ensures p.strip[k].active
    ensures forall j :: 0 <= j < p.strip.Length && p.strip[j].active ==> j == k
  {
  }
}
