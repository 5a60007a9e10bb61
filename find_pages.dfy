/** The page-slice script: it flattens the navigation tree and writes the
    pages between 11% and 15% of the list, one `docs/`-prefixed path per line,
    to `pages_to_fill.txt`. */
module FindPages {
  import opened NavTree

  /** `get_pages` of this script: lists and dictionary values are flattened
      alike, and only string leaves ending in `.md` are kept. */
  function GetPages(nav: Nav): (pages: seq<string>)
    ensures AllMd(pages)
    decreases nav
  {
    match nav
    case List(items) => PagesOfItems(items)
    case Dict(entries) => PagesOfDict(nav, 0)
    case Str(s) => if EndsWithMd(s) then [s] else []
    case Other => []
  }

  /** `for item in nav: pages.extend(get_pages(item))` */
  function PagesOfItems(items: seq<Nav>): (pages: seq<string>)
    ensures AllMd(pages)
    decreases items
  {
    if items == [] then [] else GetPages(items[0]) + PagesOfItems(items[1..])
  }

  /** `for key, value in nav.items(): pages.extend(get_pages(value))`, from
      entry `from` on. */
  function PagesOfDict(d: Nav, from: nat): (pages: seq<string>)
    requires d.Dict? && from <= |d.entries|
    ensures AllMd(pages)
    decreases d, |d.entries| - from
  {
    if from == |d.entries| then []
    else
      assert d.entries[from] in d.entries;
      GetPages(d.entries[from].1) + PagesOfDict(d, from + 1)
  }

  /** Flattening keeps exactly the `.md` leaves of a pre-order traversal. */
  lemma {:induction false} PagesAreMdLeaves(nav: Nav)
    ensures GetPages(nav) == FilterMd(AllLeaves(nav))
    decreases nav
  {
    match nav
    case List(items) => ItemPagesAreMdLeaves(items);
    case Dict(entries) => DictPagesAreMdLeaves(nav, 0);
    case Str(s) =>
    case Other =>
  }

  lemma {:induction false} ItemPagesAreMdLeaves(items: seq<Nav>)
    ensures PagesOfItems(items) == FilterMd(LeavesOfItems(items))
    decreases items
  {
    if items != [] {
      PagesAreMdLeaves(items[0]);
      ItemPagesAreMdLeaves(items[1..]);
      FilterMdAppend(AllLeaves(items[0]), LeavesOfItems(items[1..]));
    }
  }

  lemma {:induction false} DictPagesAreMdLeaves(d: Nav, from: nat)
    requires d.Dict? && from <= |d.entries|
    ensures PagesOfDict(d, from) == FilterMd(LeavesOfDict(d, from))
    decreases d, |d.entries| - from
  {
    if from < |d.entries| {
      assert d.entries[from] in d.entries;
      PagesAreMdLeaves(d.entries[from].1);
      DictPagesAreMdLeaves(d, from + 1);
      FilterMdAppend(AllLeaves(d.entries[from].1), LeavesOfDict(d, from + 1));
    }
  }

  /** A string is a page exactly when it is a leaf of the tree ending in `.md`. */
  lemma PageMembership(nav: Nav, s: string)
    ensures s in GetPages(nav) <==> s in AllLeaves(nav) && EndsWithMd(s)
  {
    PagesAreMdLeaves(nav);
  }

  /** `int(total * 0.11)`, in integer arithmetic. */
  function SliceStart(total: nat): (start: nat) {
    total * 11 / 100
  }

  /** `int(total * 0.15)`, in integer arithmetic. */
  function SliceEnd(total: nat): (end: nat) {
    total * 15 / 100
  }

  /** The start never passes the end, and for a non-empty list the end is a
      valid index, so the inclusive range stays inside the list. */
  lemma SliceBounds(total: nat)
    ensures SliceStart(total) <= SliceEnd(total)
    ensures total >= 1 ==> SliceEnd(total) <= total - 1
  {
  }

  /** The line written for one page: `f"docs/{page}\n"`. */
  function OutputLine(page: string): (line: string) {
    "docs/" + page + "\n"
  }

  /** The script's top level: flatten the tree, compute the inclusive index
      range and write one line per index. `ok` is false when the loop reads
      past the end of the page list (Python's IndexError); the output file has
      already been opened then, so it is left with the lines written so far. */
  method WritePagesToFill(nav: Nav) returns (lines: seq<string>, ok: bool)
    ensures ok <==> |GetPages(nav)| > 0
    ensures !ok ==> lines == []
    ensures ok ==> |lines| == SliceEnd(|GetPages(nav)|) - SliceStart(|GetPages(nav)|) + 1
    ensures ok ==> forall k :: 0 <= k < |lines| ==>
      lines[k] == OutputLine(GetPages(nav)[SliceStart(|GetPages(nav)|) + k])
    ensures forall line :: line in lines ==>
      exists j :: SliceStart(|GetPages(nav)|) <= j <= SliceEnd(|GetPages(nav)|) &&
        j < |GetPages(nav)| && line == OutputLine(GetPages(nav)[j])
  {
    var allPages := GetPages(nav);
    var total := |allPages|;
    var start := SliceStart(total);
    var end := SliceEnd(total);
    SliceBounds(total);
    lines, ok := [], true;
    var i := start;
    while i <= end
      invariant start <= i <= end + 1
      invariant |lines| == i - start
      invariant lines == [] || i <= total
      invariant forall k :: 0 <= k < |lines| ==> lines[k] == OutputLine(allPages[start + k])
    {
      if i >= total {
        ok := false;
        break;
      }
      lines := lines + [OutputLine(allPages[i])];
      i := i + 1;
    }
    forall line | line in lines
      ensures exists j :: start <= j <= end && j < total && line == OutputLine(allPages[j])
    {
      var k :| 0 <= k < |lines| && lines[k] == line;
      assert start <= start + k <= end && start + k < total;
    }
  }

  /** The same script with the end of the range clamped to the last index, so
      that an empty page list writes nothing instead of failing. */
  method WritePagesToFillClamped(nav: Nav) returns (lines: seq<string>)
    ensures |GetPages(nav)| == 0 ==> lines == []
    ensures |GetPages(nav)| > 0 ==>
      |lines| == SliceEnd(|GetPages(nav)|) - SliceStart(|GetPages(nav)|) + 1
    ensures forall k :: 0 <= k < |lines| ==>
      SliceStart(|GetPages(nav)|) + k < |GetPages(nav)| &&
      lines[k] == OutputLine(GetPages(nav)[SliceStart(|GetPages(nav)|) + k])
  {
    var allPages := GetPages(nav);
    var total := |allPages|;
    var start := SliceStart(total);
    var end := if SliceEnd(total) < total then SliceEnd(total) else total - 1;
    SliceBounds(total);
    lines := [];
    var i := start;
    while i <= end
      invariant start <= i <= end + 1 || (total == 0 && i == 0)
      invariant i <= total
      invariant |lines| == i - start
      invariant forall k :: 0 <= k < |lines| ==> lines[k] == OutputLine(allPages[start + k])
    {
      lines := lines + [OutputLine(allPages[i])];
      i := i + 1;
    }
  }
}
