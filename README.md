# Navigation flattening and page-status heuristics of an MkDocs study guide

This project models the two helper scripts of a documentation site built with
MkDocs. Both read the site's navigation tree, which is the `nav` value of
`mkdocs.yml`, and flatten it into the ordered list of page paths.

- `find_pages.py` writes the pages at 11% to 15% of that list to
  `pages_to_fill.txt`. Each page is one `docs/`-prefixed line, and both ends of
  the index range are included.
- `generate_status.py` reads every page's text and calls the page completed or
  pending by a word-count, code-fence and header heuristic. It then builds one
  status record per page.

The Dafny model has four modules:

- `NavTree` (`nav.dfy`): the navigation tree as a datatype, with `List`,
  `Dict` (a sequence of key/value pairs in insertion order), `Str` and
  `Other` (numbers, booleans, null). It also holds a reference traversal,
  `AllLeaves`, which lists every string leaf in pre-order, and `FilterMd`.
- `FindPages` (`find_pages.dfy`): the uniformly recursive `get_pages`, and
  the slice computation with its output loop as a method.
- `TextScan` (`text_scan.dfy`): the three text measures, as functions that
  stand in for the regular expressions and the substring test. These are the
  word tokens of `\w+`, the fence test `'```' in content`, and the multi-line
  header pattern `^#{2,4} `. Line starts are modelled as the pieces of
  `split('\n')`, with a proved round trip against `'\n'.join`.
- `GenerateStatus` (`generate_status.dfy`): the second `get_pages`, which tests
  a string value of a dictionary on the spot. It is proved equal to the first
  on every tree. The module also holds `analyze_page` over a `PageFile` value
  (missing, unreadable, or its text) and the record-building loop of `main`
  as a method.

The file system is a parameter. `GenerateStatusDb` takes a function `files`
that says what reading each path gives. The POSIX `os.path.join('docs', p)`
is modelled as written: an absolute `p` replaces the root.

`int(total * 0.11)` and `int(total * 0.15)` are modelled as `total * 11 / 100`
and `total * 15 / 100` in integer arithmetic. The two agree for every page
count below 2^48, by the following argument:

- The stored doubles differ from 0.11 and 0.15 by a relative error below
  2^-54.
- When the exact product is an integer N, that error is less than half a unit
  in the last place of N, so the product rounds to N itself.
- Otherwise the exact product `11 * total / 100` is at least 1/100 away from
  the nearest integer, and `15 * total / 100` is at least 1/20 away.
- The computed product differs from the exact one by less than
  `total * 0.15 * 2^-52`. Below 2^48 pages that is under 1/100, so truncation
  gives the same integer.

The agreement does not extend to every count a double holds exactly: at
`total = 2040249881418709` the float product truncates to one more than
`total * 11 / 100`. This argument is not part of the proofs.

## Model

| member | source | states |
|---|---|---|
| FindPages.GetPages | find_pages.py:7-18 | every page in the result ends in `.md` |
| FindPages.PagesAreMdLeaves | find_pages.py:7-18 | flattening equals keeping the `.md` strings of a pre-order, left-to-right walk over all string leaves; dictionary keys are never leaves, and non-string, non-container values contribute nothing |
| FindPages.PageMembership | find_pages.py:15-17 | a string is in the page list exactly when it is a leaf of the tree and ends in `.md` |
| FindPages.SliceBounds | find_pages.py:21-23 | the start index `SliceStart` (`int(total * 0.11)`) never passes the end index `SliceEnd` (`int(total * 0.15)`), and for a non-empty list the end index is at most `total - 1` |
| FindPages.WritePagesToFill | find_pages.py:20-27 | the script fails exactly when the page list is empty (index 0 is read from an empty list) and then writes nothing; otherwise it writes `end - start + 1` lines, and line `k` is `"docs/" + page[start + k] + "\n"` in ascending order (`OutputLine`); every written line comes from an index in `start..end` |
| FindPages.WritePagesToFillClamped | find_pages.py:23-27 | with `end` clamped to `total - 1`, an empty list writes nothing and a non-empty list writes the same lines as the script |
| GenerateStatus.GetPages | generate_status.py:7-22 | every page in the result ends in `.md` |
| GenerateStatus.SameAsFindPages | generate_status.py:12-18 | testing a string dictionary value on the spot gives the same page list as the other script's uniform recursion, on every tree |
| GenerateStatus.PagesAreMdLeaves | generate_status.py:7-22 | flattening equals keeping the `.md` strings of the pre-order walk over all string leaves |
| GenerateStatus.ListConcat | generate_status.py:9-11 | a list flattens to the in-order concatenation of the flattenings of its parts |
| GenerateStatus.DictIsListOfValues | generate_status.py:12-18 | keys are discarded: a dictionary flattens like the list of its values in insertion order |
| GenerateStatus.DictValueInPlace | generate_status.py:13-18 | each dictionary value contributes its own pages at its own position, whatever its key |
| GenerateStatus.DictStringValue | generate_status.py:14-16 | a string value of a dictionary contributes itself exactly when it ends in `.md`, at its position |
| GenerateStatus.DocPath | generate_status.py:63 | a relative page path gets the `docs/` prefix; an absolute one replaces the root |
| GenerateStatus.AnalyzePage | generate_status.py:24-52 | a missing or unreadable file is pending; otherwise at most 100 words is pending, more than 300 words is completed, and between the two the page is completed exactly when it has a fence or at least two header lines (the rule `IsCompleted`) |
| GenerateStatus.PlainTextCompletedAbove300 | generate_status.py:34-47 | prose of `n` words with no fence and no header is completed exactly when `n > 300`, so 300 words are pending and 301 completed |
| GenerateStatus.FencedTextCompletedAbove100 | generate_status.py:38-47 | `n` words followed by a single fence marker are completed exactly when `n > 100` |
| GenerateStatus.TwoHeadingsCompletedAbove98 | generate_status.py:41-47 | two `## ` heading lines and `n` words of prose (2 + `n` words in all) are completed exactly when `n > 98` |
| GenerateStatus.HeadingWords | generate_status.py:34 | a `## ` heading line holds exactly the words of its title |
| GenerateStatus.StatusLabel | generate_status.py:70 | the status is `"completed"` exactly when the page is completed, and `"pending"` exactly when it is not |
| GenerateStatus.GenerateStatusDb | generate_status.py:59-71 | one record per flattened page; record `i` has `id = i`, `path = all_pages[i]`, `completed` from analysing `docs/` joined with the path, and `status` is `"completed"` exactly when `completed` holds |
| TextScan.WordRun | generate_status.py:34 | the run of word characters at the front of a text is maximal: every character in it is a word character, and the one after it is not |
| TextScan.Words | generate_status.py:34 | every token is non-empty and made only of word characters |
| TextScan.WordsOfSeparators | generate_status.py:34 | a text without word characters holds no word |
| TextScan.WordsOfOneRun | generate_status.py:34 | a non-empty run of word characters is one single word |
| TextScan.WordsOfRunAndSeparator | generate_status.py:34 | a word followed by one separator is one word |
| TextScan.WordsAppend | generate_status.py:34-35 | tokens never span a separator: a text ending in a separator, followed by any text, tokenises the two parts apart |
| TextScan.RepeatedWordCount | generate_status.py:34-35 | `n` copies of a word, each followed by a space, count `n` words (`WordCount`, the number of `Words`) |
| TextScan.ContainsFence | generate_status.py:38 | the fence test holds exactly when "```" occurs at some position of the text |
| TextScan.FenceAnywhere | generate_status.py:38 | one fence marker anywhere in the text is enough |
| TextScan.FenceNeedsBacktick | generate_status.py:38 | a text without a backtick has no fence |
| TextScan.SplitLines | generate_status.py:41 | the text splits into at least one line, and no line holds a newline |
| TextScan.JoinSplit | generate_status.py:41 | joining the lines of a text with newlines gives the text back |
| TextScan.SplitJoin | generate_status.py:41 | splitting lines joined with newlines gives the lines back, so the lines are exactly the stretches that start at a multi-line `^` |
| TextScan.SplitOneLine | generate_status.py:41 | a text without a newline is one line |
| TextScan.HeaderLineByHashRun | generate_status.py:41 | a line is a header exactly when its whole run of `#` has length 2 to 4 and a space follows it, so `# ` and `##### ` lines do not count |
| TextScan.HeaderLineStartsWithHash | generate_status.py:41 | a header line starts with `#` |
| TextScan.NoHeadersWithoutHash | generate_status.py:41-42 | one line without `#` holds no header |
| TextScan.HeaderCountOfLines | generate_status.py:41-42 | the header count `HeaderCount` of a text assembled from lines is the number of its lines satisfying `IsHeaderLine` |

## Left out

- Loading YAML and looking up the `nav` key (find_pages.py:4-5, generate_status.py:56-59) are left out. They are calls into a foreign library, so the model takes the `Nav` value as its input.
- The file system and text decoding are left out. `os.path.exists`, `io.open` and UTF-8 decoding become the `PageFile` value that `files` returns. The text is the decoded content after Python's newline translation.
- Writing `pages_to_fill.txt` and the JSON dump with `indent=4` (generate_status.py:73-74) are left out, as are all `print` diagnostics. The model returns the lines and the record list instead.
- The top-level `try`/`except` of `main` (generate_status.py:55, 78-79) is left out. It guards the whole of `main`. The configuration load and the output write are left out too, `analyze_page` catches its own errors, and the only way `get_pages` raises is the recursion limit described below.
- TextScan.IsWordChar: Python's `\w` also matches non-ASCII letters and digits. The model accepts only ASCII letters, digits and `_`, so word counts of non-ASCII text are not modelled.
- FindPages.SliceStart and FindPages.SliceEnd: these use integer arithmetic in place of the float products. The argument above that the two agree is not proved.
- A cyclic navigation structure is not modelled, because a datatype value cannot contain itself.
- FindPages.GetPages and GenerateStatus.GetPages recurse without a depth bound. In Python a tree nested past the interpreter's recursion limit raises `RecursionError`: `find_pages.py` then crashes, and `generate_status.py` reports the failure in its `try`/`except` and writes nothing. The model does not capture that limit.

## Findings

| source | as written | input that shows it | evidently intended | confidence | as-written member | corrected member |
|---|---|---|---|---|---|---|
| find_pages.py:21-27 | `range(start, end + 1)` with `start = end = 0` reads `all_pages[0]` when the page list is empty, raising IndexError after the output file was opened | a navigation tree with no `.md` page, such as `nav: []` | an empty list writes an empty `pages_to_fill.txt` | medium; not executed | FindPages.WritePagesToFill | FindPages.WritePagesToFillClamped |
