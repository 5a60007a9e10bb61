/** The three text measures of the completeness heuristic, written as
    functions over a page's decoded text in place of the regular expressions
    `\w+` and `^#{2,4} ` (multi-line mode) and the substring test for a fence. */
module TextScan {

  /** `\w`, restricted to ASCII letters, digits and the underscore. */
  predicate IsWordChar(c: char) {
    ('a' <= c <= 'z') || ('A' <= c <= 'Z') || ('0' <= c <= '9') || c == '_'
  }

  predicate AllWordChars(s: string) {
    forall i :: 0 <= i < |s| ==> IsWordChar(s[i])
  }

  predicate NoWordChars(s: string) {
    forall i :: 0 <= i < |s| ==> !IsWordChar(s[i])
  }

  /** Length of the run of word characters at the front of `s`: the run is
      maximal, so it stops at the end of `s` or at a non-word character. */
  function WordRun(s: string): (n: nat)
    ensures n <= |s|
    ensures AllWordChars(s[..n])
    ensures n < |s| ==> !IsWordChar(s[n])
  {
    if s == [] || !IsWordChar(s[0]) then 0
    else
      var n := 1 + WordRun(s[1..]);
      assert s[..n] == [s[0]] + s[1..][..n - 1];
      n
  }

  /** `re.findall(r'\w+', s)`: the maximal runs of word characters, in order.
      Its own contract only says what a token looks like; its value on every
      text is fixed by four lemmas together: `WordsOfSeparators` (no word
      character, no token), `WordsOfOneRun` (one run, one token),
      `WordsOfRunAndSeparator` and `WordsAppend` (tokens never span a
      separator). */
  function Words(s: string): (ws: seq<string>)
    ensures forall i :: 0 <= i < |ws| ==> ws[i] != [] && AllWordChars(ws[i])
    decreases |s|
  {
    if s == [] then []
    else if !IsWordChar(s[0]) then Words(s[1..])
    else
      var n := WordRun(s);
      [s[..n]] + Words(s[n..])
  }

  function WordCount(s: string): (count: nat) {
    |Words(s)|
  }

  /** A text made only of separators holds no word. */
  lemma {:induction false} WordsOfSeparators(s: string)
    requires NoWordChars(s)
    ensures Words(s) == []
  {
    if s != [] {
      WordsOfSeparators(s[1..]);
    }
  }

  /** A run of word characters is one word, however long. */
  lemma WordsOfOneRun(s: string)
    requires s != [] && AllWordChars(s)
    ensures Words(s) == [s]
  {
    var n := WordRun(s);
    assert n == |s|;
    assert s[..n] == s && s[n..] == [];
  }

  lemma WordRunAppend(a: string, b: string)
    requires a != [] && !IsWordChar(a[|a| - 1])
    ensures WordRun(a + b) == WordRun(a) < |a|
  {
    var n := WordRun(a);
    var m := WordRun(a + b);
    assert n < |a|;
    assert (a + b)[n] == a[n];
    assert forall i :: 0 <= i < n ==> (a + b)[i] == a[..n][i];
  }

  /** Words never span a separator: tokenising a text that ends with a
      separator, followed by anything, tokenises the two parts apart. */
  lemma {:induction false} WordsAppend(a: string, b: string)
    requires a == [] || !IsWordChar(a[|a| - 1])
    ensures Words(a + b) == Words(a) + Words(b)
    decreases |a|
  {
    if a == [] {
      assert a + b == b;
    } else if !IsWordChar(a[0]) {
      assert (a + b)[1..] == a[1..] + b;
      WordsAppend(a[1..], b);
    } else {
      WordRunAppend(a, b);
      var n := WordRun(a);
      assert (a + b)[..n] == a[..n];
      assert (a + b)[n..] == a[n..] + b;
      WordsAppend(a[n..], b);
    }
  }

  predicate FenceAt(s: string, i: int) {
    0 <= i && i + 3 <= |s| && s[i..i + 3] == "```"
  }

  /** `'```' in s`: the fence marker occurs somewhere in the text. */
  function ContainsFence(s: string): (found: bool)
    ensures found <==> exists i :: FenceAt(s, i)
  {
    if |s| < 3 then false
    else if s[..3] == "```" then
      assert FenceAt(s, 0);
      true
    else
      var rest := ContainsFence(s[1..]);
      assert forall i :: FenceAt(s, i) <==> i >= 1 && FenceAt(s[1..], i - 1) by {
        forall i
          ensures FenceAt(s, i) <==> i >= 1 && FenceAt(s[1..], i - 1)
        {
          if 1 <= i && i + 3 <= |s| {
            assert s[i..i + 3] == s[1..][i - 1..i + 2];
          }
        }
      }
      assert rest ==> exists i :: FenceAt(s, i) by {
        if rest {
          var j :| FenceAt(s[1..], j);
          assert FenceAt(s, j + 1);
        }
      }
      rest
  }

  /** One fence marker anywhere in the text is enough. */
  lemma FenceAnywhere(before: string, after: string)
    ensures ContainsFence(before + "```" + after)
  {
    var s := before + "```" + after;
    assert s[|before|..|before| + 3] == "```";
    assert FenceAt(s, |before|);
  }

  lemma FenceNeedsBacktick(s: string)
    ensures ContainsFence(s) ==> '`' in s
  {
    if ContainsFence(s) {
      var i :| FenceAt(s, i);
      assert s[i] == s[i..i + 3][0];
    }
  }

  /** `s.split('\n')`: the pieces between newlines, so that piece k begins
      exactly where a multi-line `^` can match for the k-th time (at the start
      of the text or right after a newline). */
  function SplitLines(s: string): (lines: seq<string>)
    ensures |lines| >= 1
    ensures forall i :: 0 <= i < |lines| ==> '\n' !in lines[i]
  {
    if s == [] then [""]
    else
      var rest := SplitLines(s[1..]);
      if s[0] == '\n' then [""] + rest
      else [[s[0]] + rest[0]] + rest[1..]
  }

  /** `'\n'.join(lines)`, the inverse of `SplitLines`. */
  function JoinLines(lines: seq<string>): (s: string)
    requires |lines| >= 1
  {
    if |lines| == 1 then lines[0] else lines[0] + "\n" + JoinLines(lines[1..])
  }

  lemma {:induction false} JoinPrepend(c: char, lines: seq<string>)
    requires |lines| >= 1
    ensures JoinLines([[c] + lines[0]] + lines[1..]) == [c] + JoinLines(lines)
  {
  }

  lemma {:induction false} JoinSplit(s: string)
    ensures JoinLines(SplitLines(s)) == s
  {
    if s != [] {
      var rest := SplitLines(s[1..]);
      JoinSplit(s[1..]);
      if s[0] == '\n' {
        assert ([""] + rest)[1..] == rest;
        assert s == [s[0]] + s[1..];
      } else {
        JoinPrepend(s[0], rest);
        assert s == [s[0]] + s[1..];
      }
    }
  }

  lemma {:induction false} SplitJoin(lines: seq<string>)
    requires |lines| >= 1
    requires forall i :: 0 <= i < |lines| ==> '\n' !in lines[i]
    ensures SplitLines(JoinLines(lines)) == lines
    decreases |lines|, |lines[0]|
  {
    if lines[0] == [] {
      if |lines| == 1 {
      } else {
        var s := JoinLines(lines);
        assert s == "\n" + JoinLines(lines[1..]);
        assert s[1..] == JoinLines(lines[1..]);
        SplitJoin(lines[1..]);
      }
    } else {
      var c := lines[0][0];
      var shorter := [lines[0][1..]] + lines[1..];
      assert shorter[1..] == lines[1..];
      assert lines[0] == [c] + lines[0][1..];
      assert [[c] + shorter[0]] + shorter[1..] == lines;
      JoinPrepend(c, shorter);
      var s := JoinLines(lines);
      assert s[0] == c && s[1..] == JoinLines(shorter);
      SplitJoin(shorter);
    }
  }

  lemma {:induction false} SplitOneLine(s: string)
    requires '\n' !in s
    ensures SplitLines(s) == [s]
  {
    if s != [] {
      SplitOneLine(s[1..]);
      assert s == [s[0]] + s[1..];
    }
  }

  /** `^#{2,4} ` at the start of one line: two, three or four `#` and a space. */
  predicate IsHeaderLine(line: string) {
    || (|line| >= 3 && line[..3] == "## ")
    || (|line| >= 4 && line[..4] == "### ")
    || (|line| >= 5 && line[..5] == "#### ")
  }

  /** Length of the run of `#` at the front of a line. */
  function HashRun(line: string): (n: nat)
    ensures n <= |line|
    ensures forall i :: 0 <= i < n ==> line[i] == '#'
    ensures n < |line| ==> line[n] != '#'
  {
    if line == [] || line[0] != '#' then 0 else 1 + HashRun(line[1..])
  }

  /** The pattern backtracks over the `#` run but cannot stop inside it: a
      line is a header exactly when its whole `#` run has length 2 to 4 and a
      space follows it. So `# ` and `##### ` lines do not count. */
  lemma HeaderLineByHashRun(line: string)
    ensures IsHeaderLine(line) <==>
      (var n := HashRun(line); 2 <= n <= 4 && n < |line| && line[n] == ' ')
  {
    var n := HashRun(line);
    if 2 <= n <= 4 && n < |line| && line[n] == ' ' {
      ShortRunIsHeader(line, n);
    }
    if IsHeaderLine(line) {
      HeaderHasShortRun(line);
    }
  }

  lemma ShortRunIsHeader(line: string, n: nat)
    requires 2 <= n <= 4 && n < |line| && line[n] == ' '
    requires forall i :: 0 <= i < n ==> line[i] == '#'
    ensures IsHeaderLine(line)
  {
  }

  lemma HeaderHasShortRun(line: string)
    requires IsHeaderLine(line)
    ensures var n := HashRun(line); 2 <= n <= 4 && n < |line| && line[n] == ' '
  {
    if |line| >= 3 && line[..3] == "## " {
      assert line[0] == line[..3][0] && line[1] == line[..3][1] && line[2] == line[..3][2];
    } else if |line| >= 4 && line[..4] == "### " {
      assert line[0] == line[..4][0] && line[1] == line[..4][1];
      assert line[2] == line[..4][2] && line[3] == line[..4][3];
    } else {
      assert line[0] == line[..5][0] && line[1] == line[..5][1] && line[2] == line[..5][2];
      assert line[3] == line[..5][3] && line[4] == line[..5][4];
    }
  }

  function CountHeaderLines(lines: seq<string>): (n: nat)
    ensures n <= |lines|
  {
    if lines == [] then 0
    else (if IsHeaderLine(lines[0]) then 1 else 0) + CountHeaderLines(lines[1..])
  }

  /** `len(re.findall(r'^#{2,4} ', s, re.MULTILINE))`. */
  function HeaderCount(s: string): (count: nat) {
    CountHeaderLines(SplitLines(s))
  }

  /** Counting headers in a text assembled from lines counts its header lines. */
  lemma HeaderCountOfLines(lines: seq<string>)
    requires |lines| >= 1
    requires forall i :: 0 <= i < |lines| ==> '\n' !in lines[i]
    ensures HeaderCount(JoinLines(lines)) == CountHeaderLines(lines)
  {
    SplitJoin(lines);
  }

  /** `n` copies of `t`, one after the other. */
  function Repeat(t: string, n: nat): (r: string) {
    if n == 0 then [] else Repeat(t, n - 1) + t
  }

  lemma {:induction false} RepeatAvoids(t: string, n: nat, c: char)
    requires c !in t
    ensures c !in Repeat(t, n)
  {
    if n > 0 {
      RepeatAvoids(t, n - 1, c);
    }
  }

  lemma WordsOfRunAndSeparator(w: string, sep: char)
    requires w != [] && AllWordChars(w) && !IsWordChar(sep)
    ensures Words(w + [sep]) == [w]
  {
    var s := w + [sep];
    assert forall i :: 0 <= i < |w| ==> s[i] == w[i];
    assert s[|w|] == sep;
    var n := WordRun(s);
    assert n == |w|;
    assert s[..n] == w;
    assert s[n..] == [sep];
    WordsOfSeparators([sep]);
  }

  /** A text of `n` copies of one word, each followed by a space, counts `n`
      words. */
  lemma {:induction false} RepeatedWordCount(w: string, n: nat)
    requires w != [] && AllWordChars(w)
    ensures WordCount(Repeat(w + " ", n)) == n
  {
    if n > 0 {
      var before := Repeat(w + " ", n - 1);
      RepeatedWordCount(w, n - 1);
      if n > 1 {
        assert before == Repeat(w + " ", n - 2) + (w + " ");
      }
      WordsAppend(before, w + " ");
      WordsOfRunAndSeparator(w, ' ');
    }
  }

  lemma HeaderLineStartsWithHash(line: string)
    requires IsHeaderLine(line)
    ensures line[0] == '#'
  {
  }

  /** A single line without `#` holds no header. */
  lemma NoHeadersWithoutHash(s: string)
    requires '\n' !in s && '#' !in s
    ensures HeaderCount(s) == 0
  {
    SplitOneLine(s);
    if IsHeaderLine(s) {
      HeaderLineStartsWithHash(s);
    }
  }
}
