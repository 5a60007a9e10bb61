/** The navigation tree of an MkDocs configuration (the value of its `nav` key),
    as the YAML loader hands it over: lists, dictionaries in insertion order,
    strings, and anything else (numbers, booleans, null). */
module NavTree {

  datatype Nav =
    | List(items: seq<Nav>)
    | Dict(entries: seq<(string, Nav)>)
    | Str(s: string)
    | Other

  /** Python's `s.endswith('.md')`. */
  predicate EndsWithMd(s: string) {
    |s| >= 3 && s[|s| - 3..] == ".md"
  }

  predicate AllMd(pages: seq<string>) {
    forall i :: 0 <= i < |pages| ==> EndsWithMd(pages[i])
  }

  /** Every string leaf of the tree, in pre-order, left to right; dictionary
      keys are labels and are not leaves. This is the reference traversal that
      both flatteners are proved against. */
  function AllLeaves(nav: Nav): (leaves: seq<string>)
    decreases nav
  {
    match nav
    case List(items) => LeavesOfItems(items)
    case Dict(entries) => LeavesOfDict(nav, 0)
    case Str(s) => [s]
    case Other => []
  }

  function LeavesOfItems(items: seq<Nav>): (leaves: seq<string>)
    decreases items
  {
    if items == [] then [] else AllLeaves(items[0]) + LeavesOfItems(items[1..])
  }

  /** The leaves of the values of dictionary `d` from entry `from` on. */
  function LeavesOfDict(d: Nav, from: nat): (leaves: seq<string>)
    requires d.Dict? && from <= |d.entries|
    decreases d, |d.entries| - from
  {
    if from == |d.entries| then []
    else
      assert d.entries[from] in d.entries;
      AllLeaves(d.entries[from].1) + LeavesOfDict(d, from + 1)
  }

  /** Keeps the `.md` strings of a sequence, in order. */
  function FilterMd(ss: seq<string>): (r: seq<string>)
    ensures AllMd(r)
    ensures forall s :: s in r <==> s in ss && EndsWithMd(s)
  {
    if ss == [] then []
    else if EndsWithMd(ss[0]) then [ss[0]] + FilterMd(ss[1..])
    else FilterMd(ss[1..])
  }

  lemma {:induction false} FilterMdAppend(a: seq<string>, b: seq<string>)
    ensures FilterMd(a + b) == FilterMd(a) + FilterMd(b)
  {
    if a != [] {
      var ab := a + b;
      assert ab[0] == a[0] && ab[1..] == a[1..] + b;
      FilterMdAppend(a[1..], b);
      if EndsWithMd(a[0]) {
        calc {
          FilterMd(ab);
          [a[0]] + FilterMd(a[1..] + b);
          [a[0]] + (FilterMd(a[1..]) + FilterMd(b));
          ([a[0]] + FilterMd(a[1..])) + FilterMd(b);
        }
      } else {
        calc {
          FilterMd(ab);
          FilterMd(a[1..] + b);
        }
      }
    } else {
      assert a + b == b;
    }
  }

  /** The values of a dictionary, in insertion order, without their keys. */
  function Values(entries: seq<(string, Nav)>): (vs: seq<Nav>)
    ensures |vs| == |entries|
    ensures forall i :: 0 <= i < |entries| ==> vs[i] == entries[i].1
  {
    if entries == [] then [] else [entries[0].1] + Values(entries[1..])
  }
}
