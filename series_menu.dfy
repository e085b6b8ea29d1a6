/**
 * `buildSeriesMenu` from assets/js/series-menu.js: one label per work (its
 * trimmed series name, or `Unsorted`), the distinct labels in order of first
 * appearance, sorted in place with `Unsorted` forced last, and one
 * `works.html#<slug>` link per label.
 */
module SeriesMenu {
  import opened Options
  import opened Catalog
  import JsText
  import Slug
  import Uri
  import UriRoundTrip

  const Unsorted: string := "Unsorted"

  /** The page every menu link points at. */
  const WorksPage: string := "works.html"

  /** The menu label of one work: its series name with the white space at both ends removed, or `Unsorted` when the series is missing or blank. */
  function SeriesLabel(w: Work): (r: string)
    ensures r != [] && !JsText.IsSpace(r[0]) && !JsText.IsSpace(r[|r| - 1])
    ensures w.series.Some? && JsText.Trim(w.series.value) != [] ==> r == JsText.Trim(w.series.value)
    ensures w.series.None? || JsText.Trim(w.series.value) == [] ==> r == Unsorted
  {
    match w.series
    case Some(s) => if JsText.Trim(s) != [] then JsText.Trim(s) else Unsorted
    case None => Unsorted
  }

  /** `works.map(...)`: the label of every work, in catalog order. */
  function Labels(works: seq<Work>): (r: seq<string>)
    ensures |r| == |works| && forall i :: 0 <= i < |works| ==> r[i] == SeriesLabel(works[i])
  {
    seq(|works|, i requires 0 <= i < |works| => SeriesLabel(works[i]))
  }

  predicate NoDuplicates(s: seq<string>) {
    forall i, j :: 0 <= i < j < |s| ==> s[i] != s[j]
  }

  /** `[...new Set(xs)]`: each distinct element once, in the order it first appears. */
  function Dedupe(xs: seq<string>): (r: seq<string>)
    ensures NoDuplicates(r)
    ensures forall x :: x in r <==> x in xs
  {
    if xs == [] then []
    else
      var init := xs[..|xs| - 1];
      var d := Dedupe(init);
      var x := xs[|xs| - 1];
      assert xs == init + [x];
      if x in d then d else d + [x]
  }

  /** The position of the first `x` in `xs`. */
  function FirstIndex(xs: seq<string>, x: string): (k: nat)
    requires x in xs
    ensures k < |xs| && xs[k] == x
    ensures forall j :: 0 <= j < k ==> xs[j] != x
  {
    if xs[0] == x then 0 else 1 + FirstIndex(xs[1..], x)
  }

  lemma {:induction false} FirstIndexInPrefix(xs: seq<string>, n: nat, x: string)
    requires n <= |xs| && x in xs[..n]
    ensures FirstIndex(xs, x) == FirstIndex(xs[..n], x)
  {
    var k := FirstIndex(xs[..n], x);
    assert xs[k] == x;
  }

  /** The deduplicated list keeps first-occurrence order. */
  lemma {:induction false} DedupeKeepsFirstOccurrenceOrder(xs: seq<string>)
    ensures forall i, j :: 0 <= i < j < |Dedupe(xs)| ==> FirstIndex(xs, Dedupe(xs)[i]) < FirstIndex(xs, Dedupe(xs)[j])
  {
    if xs != [] {
      var n := |xs| - 1;
      var init := xs[..n];
      var d := Dedupe(init);
      var x := xs[n];
      DedupeKeepsFirstOccurrenceOrder(init);
      assert xs == init + [x];
      forall y | y in d
        ensures FirstIndex(xs, y) == FirstIndex(init, y) < n
      {
        FirstIndexInPrefix(xs, n, y);
      }
      if x !in d {
        assert FirstIndex(xs, x) == n;
      }
    }
  }

  /** `localeCompare(b, 'ko') <= 0` is taken as any total preorder `leq`. */
  ghost predicate TotalPreorder(leq: (string, string) -> bool) {
    (forall a, b :: leq(a, b) || leq(b, a)) &&
    (forall a, b, c :: leq(a, b) && leq(b, c) ==> leq(a, c))
  }

  /** The menu's comparator, as "a may stay before b": `Unsorted` after everything, the rest by `leq`. */
  predicate MenuOrder(leq: (string, string) -> bool, a: string, b: string): (r: bool)
    ensures a == Unsorted && b != Unsorted ==> !r
    ensures a != Unsorted && b == Unsorted ==> r
    ensures a != Unsorted && b != Unsorted ==> (r <==> leq(a, b))
  {
    b == Unsorted || (a != Unsorted && leq(a, b))
  }

  ghost predicate Sorted(leq: (string, string) -> bool, s: seq<string>) {
    forall i, j :: 0 <= i < j < |s| ==> MenuOrder(leq, s[i], s[j])
  }

  lemma MenuOrderTotal(leq: (string, string) -> bool, a: string, b: string)
    requires TotalPreorder(leq)
    ensures MenuOrder(leq, a, b) || MenuOrder(leq, b, a)
  {
  }

  lemma MenuOrderTransitive(leq: (string, string) -> bool, a: string, b: string, c: string)
    requires TotalPreorder(leq)
    requires MenuOrder(leq, a, b) && MenuOrder(leq, b, c)
    ensures MenuOrder(leq, a, c)
  {
  }

  /** The first `n` elements of `a` are in menu order. */
  ghost predicate SortedPrefix(leq: (string, string) -> bool, a: array<string>, n: int)
    requires 0 <= n <= a.Length
    reads a
  {
    forall k, l :: 0 <= k < l < n ==> MenuOrder(leq, a[k], a[l])
  }

  /** `unique.sort(...)`, in place: an insertion sort by the menu comparator. */
  method SortLabels(a: array<string>, leq: (string, string) -> bool)
    requires TotalPreorder(leq)
    modifies a
    ensures Sorted(leq, a[..])
    ensures multiset(a[..]) == old(multiset(a[..]))
  {
    var i := 0;
    while i < a.Length
      invariant 0 <= i <= a.Length
      invariant SortedPrefix(leq, a, i)
      invariant multiset(a[..]) == old(multiset(a[..]))
    {
      InsertLast(a, i, leq);
      i := i + 1;
    }
  }

  /** One step of the insertion sort: move `a[i]` down into the sorted prefix `a[..i]`. */
  method InsertLast(a: array<string>, i: int, leq: (string, string) -> bool)
    requires TotalPreorder(leq)
    requires 0 <= i < a.Length && SortedPrefix(leq, a, i)
    modifies a
    ensures SortedPrefix(leq, a, i + 1)
    ensures multiset(a[..]) == old(multiset(a[..]))
    ensures a[i + 1..] == old(a[i + 1..])
  {
    var j := i;
    while j > 0 && !MenuOrder(leq, a[j - 1], a[j])
      invariant 0 <= j <= i
      invariant forall k, l :: 0 <= k < l <= i && k != j && l != j ==> MenuOrder(leq, a[k], a[l])
      invariant forall l :: j < l <= i ==> MenuOrder(leq, a[j], a[l])
      invariant multiset(a[..]) == old(multiset(a[..]))
      invariant forall k :: i < k < a.Length ==> a[k] == old(a[k])
    {
      MenuOrderTotal(leq, a[j - 1], a[j]);
      SwapDown(a, j);
      j := j - 1;
    }
    if j > 0 {
      forall k | 0 <= k < j - 1
        ensures MenuOrder(leq, a[k], a[j])
      {
        MenuOrderTransitive(leq, a[k], a[j - 1], a[j]);
      }
    }
  }

  /** Exchange `a[j - 1]` and `a[j]`, leaving every other element in place. */
  method SwapDown(a: array<string>, j: int)
    requires 0 < j < a.Length
    modifies a
    ensures a[j - 1] == old(a[j]) && a[j] == old(a[j - 1])
    ensures forall k :: 0 <= k < a.Length && k != j - 1 && k != j ==> a[k] == old(a[k])
    ensures multiset(a[..]) == old(multiset(a[..]))
  {
    a[j - 1], a[j] := a[j], a[j - 1];
  }

  /** With no repeats, a sorted list has `Unsorted` at its end and nowhere else. */
  lemma UnsortedLast(leq: (string, string) -> bool, s: seq<string>)
    requires Sorted(leq, s) && NoDuplicates(s)
    ensures Unsorted in s ==> s[|s| - 1] == Unsorted
    ensures forall i :: 0 <= i < |s| - 1 ==> s[i] != Unsorted
  {
    if Unsorted in s {
      var k :| 0 <= k < |s| && s[k] == Unsorted;
      if k < |s| - 1 {
        assert MenuOrder(leq, s[k], s[|s| - 1]);
      }
    }
  }

  /** A permutation of a list without repeats has none either. */
  lemma {:induction false} PermutationKeepsNoDuplicates(s: seq<string>, t: seq<string>)
    requires multiset(s) == multiset(t) && NoDuplicates(t)
    ensures NoDuplicates(s)
  {
    forall i, j | 0 <= i < j < |s|
      ensures s[i] != s[j]
    {
      if s[i] == s[j] {
        var x := s[i];
        assert s == s[..j] + [x] + s[j + 1..];
        assert x in s[..j];
        assert multiset(s)[x] >= 2;
        CountAtMostOne(t, x);
        assert false;
      }
    }
  }

  lemma {:induction false} CountAtMostOne(t: seq<string>, x: string)
    requires NoDuplicates(t)
    ensures multiset(t)[x] <= 1
  {
    if t != [] {
      CountAtMostOne(t[1..], x);
      assert t == [t[0]] + t[1..];
      if t[0] == x {
        assert x !in t[1..];
      }
    }
  }

  /** One menu entry: its target and its text. */
  datatype Link = Link(href: string, text: string)

  /** The menu entry for a label: its text is the label, and it points at the works page with the percent-encoded slug of the label as fragment. */
  function MenuLink(name: string): (l: Link)
    ensures l.text == name
    ensures |l.href| > |WorksPage| && l.href[..|WorksPage| + 1] == WorksPage + "#"
    ensures Uri.Decode(l.href[|WorksPage| + 1..]) == Some(Slug.Slugify(name))
  {
    var e := Uri.Encode(Slug.Slugify(name));
    assert (WorksPage + "#" + e)[|WorksPage| + 1..] == e;
    UriRoundTrip.DecodeEncode(Slug.Slugify(name));
    Link(WorksPage + "#" + Uri.Encode(Slug.Slugify(name)), name)
  }

  function LabelsOf(links: seq<Link>): (r: seq<string>)
    ensures |r| == |links| && forall i :: 0 <= i < |links| ==> r[i] == links[i].text
  {
    seq(|links|, i requires 0 <= i < |links| => links[i].text)
  }

  /** One link per name, in the given order. */
  function MenuLinks(names: seq<string>): (r: seq<Link>)
    ensures forall i :: 0 <= i < |r| ==> r[i] == MenuLink(r[i].text)
    ensures LabelsOf(r) == names
  {
    seq(|names|, i requires 0 <= i < |names| => MenuLink(names[i]))
  }

  /** A rearrangement of the distinct labels has exactly the catalog's labels, each once. */
  lemma PermutedLabels(works: seq<Work>, sorted: seq<string>)
    requires multiset(sorted) == multiset(Dedupe(Labels(works)))
    ensures forall name :: name in sorted <==> name in Labels(works)
    ensures NoDuplicates(sorted)
  {
    var unique := Dedupe(Labels(works));
    PermutationKeepsNoDuplicates(sorted, unique);
    assert forall name :: name in sorted <==> name in multiset(unique);
  }

  /** The menu `buildSeriesMenu` renders for a catalog, given the collation `leq`. */
  method BuildSeriesMenu(works: seq<Work>, leq: (string, string) -> bool) returns (links: seq<Link>)
    requires TotalPreorder(leq)
    ensures forall i :: 0 <= i < |links| ==> links[i] == MenuLink(links[i].text)
    ensures multiset(LabelsOf(links)) == multiset(Dedupe(Labels(works)))
    ensures forall name :: name in LabelsOf(links) <==> name in Labels(works)
    ensures NoDuplicates(LabelsOf(links))
    ensures Sorted(leq, LabelsOf(links))
    ensures Unsorted in LabelsOf(links) ==> links[|links| - 1].text == Unsorted
  {
    var unique := Dedupe(Labels(works));
    var a := new string[|unique|](i requires 0 <= i < |unique| => unique[i]);
    assert a[..] == unique;
    SortLabels(a, leq);
    var sorted := a[..];
    PermutedLabels(works, sorted);
    UnsortedLast(leq, sorted);
    links := MenuLinks(sorted);
  }
}
