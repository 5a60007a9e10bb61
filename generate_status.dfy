/** The status script: it flattens the navigation tree, classifies every page
    as completed or pending from its text, and builds the status list that it
    writes to `pages_status.json`. */
module GenerateStatus {
  import opened NavTree
  import opened TextScan
  import FindPages

  /** `get_pages` of this script: a dictionary value that is a string is
      checked for `.md` on the spot; any other value is flattened recursively. */
  function GetPages(nav: Nav): (pages: seq<string>)
    ensures AllMd(pages)
    decreases nav
  {
    match nav
    case List(items) => PagesOfItems(items)
    case Dict(entries) => PagesOfDict(nav, 0)
    case Str(s) => if EndsWithMd(s) then [s] else []
    case Other => []
  }

  function PagesOfItems(items: seq<Nav>): (pages: seq<string>)
    ensures AllMd(pages)
    decreases items
  {
    if items == [] then [] else GetPages(items[0]) + PagesOfItems(items[1..])
  }

  /** The pages of the values of dictionary `d` from entry `from` on. */
  function PagesOfDict(d: Nav, from: nat): (pages: seq<string>)
    requires d.Dict? && from <= |d.entries|
    ensures AllMd(pages)
    decreases d, |d.entries| - from
  {
    if from == |d.entries| then []
    else
      var value := d.entries[from].1;
      assert d.entries[from] in d.entries;
      var here := match value
        case Str(s) => if EndsWithMd(s) then [s] else []
        case _ => GetPages(value);
      here + PagesOfDict(d, from + 1)
  }

  /** The two scripts flatten every tree alike: testing a string value on the
      spot gives what recursing into it gives. */
  lemma {:induction false} SameAsFindPages(nav: Nav)
    ensures GetPages(nav) == FindPages.GetPages(nav)
    decreases nav
  {
    match nav
    case List(items) => SameItemPages(items);
    case Dict(entries) => SameDictPages(nav, 0);
    case Str(s) =>
    case Other =>
  }

  lemma {:induction false} SameItemPages(items: seq<Nav>)
    ensures PagesOfItems(items) == FindPages.PagesOfItems(items)
    decreases items
  {
    if items != [] {
      SameAsFindPages(items[0]);
      SameItemPages(items[1..]);
    }
  }

  lemma {:induction false} SameDictPages(d: Nav, from: nat)
    requires d.Dict? && from <= |d.entries|
    ensures PagesOfDict(d, from) == FindPages.PagesOfDict(d, from)
    decreases d, |d.entries| - from
  {
    if from < |d.entries| {
      assert d.entries[from] in d.entries;
      var value := d.entries[from].1;
      if !value.Str? {
        SameAsFindPages(value);
      }
      SameDictPages(d, from + 1);
    }
  }

  /** Flattening keeps exactly the `.md` leaves of a pre-order traversal, so
      every page ends in `.md`, nothing else is kept and order is preserved. */
  lemma PagesAreMdLeaves(nav: Nav)
    ensures GetPages(nav) == FilterMd(AllLeaves(nav))
  {
    SameAsFindPages(nav);
    FindPages.PagesAreMdLeaves(nav);
  }

  /** A list flattens to the in-order concatenation of its parts. */
  lemma {:induction false} ListConcat(a: seq<Nav>, b: seq<Nav>)
    ensures GetPages(List(a + b)) == GetPages(List(a)) + GetPages(List(b))
  {
    if a == [] {
      assert a + b == b;
    } else {
      assert (a + b)[0] == a[0] && (a + b)[1..] == a[1..] + b;
      ListConcat(a[1..], b);
    }
  }

  lemma {:induction false} DictFromIsListOfValues(d: Nav, from: nat)
    requires d.Dict? && from <= |d.entries|
    ensures PagesOfDict(d, from) == PagesOfItems(Values(d.entries)[from..])
    decreases |d.entries| - from
  {
    var vs := Values(d.entries);
    if from < |d.entries| {
      DictFromIsListOfValues(d, from + 1);
      assert vs[from..][0] == d.entries[from].1 && vs[from..][1..] == vs[from + 1..];
    }
  }

  /** Keys are discarded: a dictionary flattens like the list of its values,
      in insertion order. */
  lemma DictIsListOfValues(entries: seq<(string, Nav)>)
    ensures GetPages(Dict(entries)) == GetPages(List(Values(entries)))
  {
    DictFromIsListOfValues(Dict(entries), 0);
    assert Values(entries)[0..] == Values(entries);
  }

  /** Each dictionary value contributes its own pages at its own position,
      whatever its key. */
  lemma DictValueInPlace(a: seq<(string, Nav)>, key: string, value: Nav, b: seq<(string, Nav)>)
    ensures GetPages(Dict(a + [(key, value)] + b)) ==
      GetPages(Dict(a)) + GetPages(value) + GetPages(Dict(b))
  {
    var entries := a + [(key, value)] + b;
    assert Values(entries) == Values(a) + [value] + Values(b);
    DictIsListOfValues(entries);
    DictIsListOfValues(a);
    DictIsListOfValues(b);
    ListConcat(Values(a) + [value], Values(b));
    ListConcat(Values(a), [value]);
    assert GetPages(List([value])) == GetPages(value) by {
      assert [value][0] == value && [value][1..] == [];
      assert PagesOfItems([value]) == GetPages(value) + PagesOfItems([]);
    }
  }

  /** A string value is kept exactly when it ends in `.md`. */
  lemma DictStringValue(a: seq<(string, Nav)>, key: string, s: string, b: seq<(string, Nav)>)
    ensures GetPages(Dict(a + [(key, Str(s))] + b)) ==
      GetPages(Dict(a)) + (if EndsWithMd(s) then [s] else []) + GetPages(Dict(b))
  {
    DictValueInPlace(a, key, Str(s), b);
  }

  /** What the script learns about one page file: it does not exist, reading
      or decoding it raised, or its text. */
  datatype PageFile = Missing | Unreadable | Text(content: string)

  /** POSIX `os.path.join('docs', page)`: an absolute page path replaces the
      root. */
  function DocPath(page: string): (path: string)
    ensures |page| > 0 && page[0] == '/' ==> path == page
    ensures !(|page| > 0 && page[0] == '/') ==> |path| >= 5 && path[..5] == "docs/" && path[5..] == page
  {
    if |page| > 0 && page[0] == '/' then page else "docs/" + page
  }

  /** The completion rule: substantial text with code or structure, or very
      long text. */
  predicate IsCompleted(wordCount: nat, hasCode: bool, hasStructure: bool) {
    (wordCount > 100 && (hasCode || hasStructure)) || wordCount > 300
  }

  /** `analyze_page`: a missing or unreadable file is pending; otherwise the
      text is measured and the rule applied. */
  function AnalyzePage(file: PageFile): (completed: bool)
    ensures !file.Text? ==> !completed
    ensures file.Text? && WordCount(file.content) <= 100 ==> !completed
    ensures file.Text? && WordCount(file.content) > 300 ==> completed
    ensures file.Text? && 100 < WordCount(file.content) <= 300 ==>
      (completed <==> ContainsFence(file.content) || HeaderCount(file.content) >= 2)
  {
    match file
    case Missing => false
    case Unreadable => false
    case Text(content) =>
      var wordCount := WordCount(content);
      var hasCode := ContainsFence(content);
      var hasStructure := HeaderCount(content) >= 2;
      IsCompleted(wordCount, hasCode, hasStructure)
  }

  /** Plain prose of `n` words is completed exactly above 300 words: 300 words
      are pending and 301 are completed. */
  lemma PlainTextCompletedAbove300(n: nat)
    ensures AnalyzePage(Text(Repeat("word ", n))) <==> n > 300
  {
    var content := Repeat("word ", n);
    RepeatedWordCount("word", n);
    assert "word" + " " == "word ";
    assert WordCount(content) == n;
    RepeatAvoids("word ", n, '`');
    FenceNeedsBacktick(content);
    assert !ContainsFence(content);
    RepeatAvoids("word ", n, '\n');
    RepeatAvoids("word ", n, '#');
    NoHeadersWithoutHash(content);
    assert HeaderCount(content) == 0;
  }

  /** With one fence marker, `n` words are completed exactly above 100 words:
      101 words and a single marker are completed. */
  lemma FencedTextCompletedAbove100(n: nat)
    ensures AnalyzePage(Text(Repeat("word ", n) + "```")) <==> n > 100
  {
    var prose := Repeat("word ", n);
    var content := prose + "```";
    RepeatedWordCount("word", n);
    assert "word" + " " == "word ";
    if n > 0 {
      assert prose == Repeat("word ", n - 1) + "word ";
      assert prose[|prose| - 1] == ' ';
    }
    WordsAppend(prose, "```");
    WordsOfSeparators("```");
    assert WordCount(content) == n;
    FenceAnywhere(prose, "");
    assert prose + "```" + "" == content;
    assert ContainsFence(content);
  }

  /** A `## ` heading line with the given title. */
  function Heading(title: string): (line: string) {
    "## " + title + "\n"
  }

  /** Two header lines give structure: a page made of two one-word `## `
      headings and `n` words of prose is completed exactly when its 2 + `n`
      words exceed 100. */
  lemma TwoHeadingsCompletedAbove98(t1: string, t2: string, n: nat)
    requires t1 != [] && AllWordChars(t1) && t2 != [] && AllWordChars(t2)
    ensures AnalyzePage(Text(Heading(t1) + Heading(t2) + Repeat("word ", n))) <==> n > 98
  {
    var prose := Repeat("word ", n);
    TwoHeadingsCount(t1, t2, prose, n);
    RepeatedWordCount("word", n);
    assert "word" + " " == "word ";
    HeadingWords(t1);
    HeadingWords(t2);
    var h1, h2 := Heading(t1), Heading(t2);
    assert h1[|h1| - 1] == '\n' && h2[|h2| - 1] == '\n';
    WordsAppend(h1, h2);
    WordsAppend(h1 + h2, prose);
  }

  /** A heading holds the words of its title. */
  lemma HeadingWords(title: string)
    requires title != [] && AllWordChars(title)
    ensures Words(Heading(title)) == [title]
  {
    var hash := "## ";
    assert NoWordChars(hash) by {
      assert forall i :: 0 <= i < 3 ==> hash[i] == '#' || hash[i] == ' ';
    }
    WordsOfSeparators(hash);
    WordsOfRunAndSeparator(title, '\n');
    WordsAppend(hash, title + "\n");
    assert hash + title + "\n" == hash + (title + "\n");
  }

  lemma TwoHeadingsCount(t1: string, t2: string, prose: string, n: nat)
    requires '\n' !in t1 && '\n' !in t2
    requires prose == Repeat("word ", n)
    ensures HeaderCount(Heading(t1) + Heading(t2) + prose) == 2
  {
    RepeatAvoids("word ", n, '\n');
    RepeatAvoids("word ", n, '#');
    var l1, l2 := "## " + t1, "## " + t2;
    assert '\n' !in l1 && '\n' !in l2;
    var lines := [l1, l2, prose];
    assert JoinLines(lines) == Heading(t1) + Heading(t2) + prose by {
      assert lines[1..] == [l2, prose] && lines[1..][1..] == [prose];
      assert JoinLines(lines[1..][1..]) == prose;
    }
    assert !IsHeaderLine(prose) by {
      if IsHeaderLine(prose) {
        HeaderLineStartsWithHash(prose);
      }
    }
    assert IsHeaderLine(l1) && IsHeaderLine(l2) by {
      assert l1[..3] == "## " && l2[..3] == "## ";
    }
    assert CountHeaderLines(lines) == 2 by {
      assert [prose][1..] == [];
      assert CountHeaderLines([prose]) == 0;
      assert [l2, prose][1..] == [prose];
      assert CountHeaderLines([l2, prose]) == 1;
      assert lines[1..] == [l2, prose];
    }
    HeaderCountOfLines(lines);
  }

  /** One entry of the status list. */
  datatype StatusRecord = StatusRecord(id: nat, path: string, completed: bool, status: string)

  /** `"completed" if is_completed else "pending"` */
  function StatusLabel(completed: bool): (status: string)
    ensures status == "completed" <==> completed
    ensures status == "pending" <==> !completed
  {
    if completed then "completed" else "pending"
  }

  /** `main` without the YAML load and the JSON dump: one record per page, in
      flattening order. `files` says what reading each path gives. */
  method GenerateStatusDb(nav: Nav, files: string -> PageFile) returns (statusDb: seq<StatusRecord>)
    ensures |statusDb| == |GetPages(nav)|
    ensures forall i :: 0 <= i < |statusDb| ==>
      statusDb[i].id == i && statusDb[i].path == GetPages(nav)[i]
    ensures forall i :: 0 <= i < |statusDb| ==>
      statusDb[i].completed == AnalyzePage(files(DocPath(GetPages(nav)[i])))
    ensures forall i :: 0 <= i < |statusDb| ==>
      (statusDb[i].status == "completed" <==> statusDb[i].completed) &&
      (statusDb[i].status == "pending" <==> !statusDb[i].completed)
  {
    var allPages := GetPages(nav);
    statusDb := [];
    var i := 0;
    while i < |allPages|
      invariant i <= |allPages| && |statusDb| == i
      invariant forall j :: 0 <= j < i ==>
        statusDb[j] == StatusRecord(j, allPages[j], AnalyzePage(files(DocPath(allPages[j]))),
                                    StatusLabel(AnalyzePage(files(DocPath(allPages[j])))))
    {
      var pagePath := allPages[i];
      var fullPath := DocPath(pagePath);
      var isCompleted := AnalyzePage(files(fullPath));
      statusDb := statusDb + [StatusRecord(i, pagePath, isCompleted, StatusLabel(isCompleted))];
      i := i + 1;
    }
  }
}
