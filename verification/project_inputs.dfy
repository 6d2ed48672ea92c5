/** The code generator's inputs (main.py): the `key=value` / `key: value`
    params file, the list of tasks, and the extension chosen for the language.
    Files are passed in as their text (`None` when the file does not exist). */
module ProjectInputs {
  import opened Wrappers
  import opened Strings
  import LastWins

  /** A line as `readlines()` yields it: non-empty, with `\n` at most at its end. */
  predicate IsLine(l: string) {
    l != [] && '\n' !in l[..|l| - 1]
  }

  /** `file.readlines()`: the text cut after every `\n`; only the last line
      may lack one. */
  function ReadLines(text: string): seq<string>
    decreases |text|
  {
    if text == [] then []
    else
      var e := LineEnd(text);
      [text[..e]] + ReadLines(text[e..])
  }

  /** Where the first line of non-empty text ends: just after its first
      `\n`, or at the end of the text when there is none. */
  function LineEnd(text: string): (e: nat)
    requires text != []
    ensures 0 < e <= |text|
    ensures '\n' !in text[..e - 1]
    ensures e < |text| ==> text[e - 1] == '\n'
  {
    var i := IndexOfChar(text, '\n');
    if i < 0 then
      assert text[..|text| - 1] <= text;
      |text|
    else i + 1
  }

  /** The lines glue back to the text. */
  lemma {:induction false} ReadLinesConcat(text: string)
    ensures Concat(ReadLines(text)) == text
    decreases |text|
  {
    if text != [] {
      var e := LineEnd(text);
      ReadLinesConcat(text[e..]);
      ConcatCons(text[..e], ReadLines(text[e..]));
      assert text == text[..e] + text[e..];
    }
  }

  /** Gluing a first piece in front of the others. */
  lemma ConcatCons(h: string, rest: seq<string>)
    ensures Concat([h] + rest) == h + Concat(rest)
  {
    assert ([h] + rest)[1..] == rest;
  }

  /** Each line holds `\n` at most at its end, and every line but the last
      ends with one. */
  lemma {:induction false} ReadLinesAreLines(text: string)
    ensures forall i :: 0 <= i < |ReadLines(text)| ==> IsLine(ReadLines(text)[i])
    ensures forall i :: 0 <= i < |ReadLines(text)| - 1 ==> EndsLine(ReadLines(text)[i]) && ReadLines(text)[i] != []
    decreases |text|
  {
    if text != [] {
      var e := LineEnd(text);
      var h := text[..e];
      assert IsLine(h) by {
        assert h[..e - 1] == text[..e - 1];
      }
      ReadLinesAreLines(text[e..]);
      assert ReadLines(text[e..]) != [] ==> EndsLine(h) by {
        if e == |text| {
          assert text[e..] == [];
        }
      }
      LinesCons(h, ReadLines(text[e..]));
    }
  }

  /** A first line, ending with `\n` when more follow, in front of
      well-formed lines. */
  lemma LinesCons(h: string, rest: seq<string>)
    requires IsLine(h) && (rest != [] ==> EndsLine(h))
    requires forall i :: 0 <= i < |rest| ==> IsLine(rest[i])
    requires forall i :: 0 <= i < |rest| - 1 ==> EndsLine(rest[i]) && rest[i] != []
    ensures forall i :: 0 <= i < |[h] + rest| ==> IsLine(([h] + rest)[i])
    ensures forall i :: 0 <= i < |[h] + rest| - 1 ==> EndsLine(([h] + rest)[i]) && ([h] + rest)[i] != []
  {
    var lines := [h] + rest;
    forall j | 0 <= j < |lines|
      ensures IsLine(lines[j]) && (j < |lines| - 1 ==> EndsLine(lines[j]) && lines[j] != [])
    {
      if j > 0 {
        assert lines[j] == rest[j - 1];
      }
    }
  }

  /** The lines glue back to the text, each holds `\n` at most at its end,
      and every line but the last ends with one. */
  lemma ReadLinesShape(text: string)
    ensures Concat(ReadLines(text)) == text
    ensures forall i :: 0 <= i < |ReadLines(text)| ==> IsLine(ReadLines(text)[i])
    ensures forall i :: 0 <= i < |ReadLines(text)| - 1 ==> EndsLine(ReadLines(text)[i]) && ReadLines(text)[i] != []
  {
    ReadLinesConcat(text);
    ReadLinesAreLines(text);
  }

  /** Text that is empty or ends a line. */
  predicate EndsLine(text: string) {
    text == [] || text[|text| - 1] == '\n'
  }

  /** Text that ends a line has its first line end at its first `\n`,
      whatever follows it. */
  lemma LineEndBeforeSuffix(a: string, b: string)
    requires a != [] && EndsLine(a)
    ensures LineEnd(a + b) == LineEnd(a)
  {
    assert a[|a| - 1] == '\n';
    IndexBeforeSuffix(a, b, '\n');
  }

  /** Reading text that ends a line, then more text, reads the lines of each. */
  lemma {:induction false} ReadLinesAppend(a: string, b: string)
    requires EndsLine(a)
    ensures ReadLines(a + b) == ReadLines(a) + ReadLines(b)
    decreases |a|
  {
    if a == [] {
      assert a + b == b;
    } else {
      var e := LineEnd(a);
      LineEndBeforeSuffix(a, b);
      assert (a + b)[..e] == a[..e];
      assert (a + b)[e..] == a[e..] + b;
      assert EndsLine(a[e..]);
      ReadLinesAppend(a[e..], b);
      ConcatAssoc([a[..e]], ReadLines(a[e..]), ReadLines(b));
    }
  }

  /** A single line ending in `\n` reads as itself. */
  lemma ReadOneLine(l: string)
    requires l != [] && '\n' !in l[..|l| - 1] && l[|l| - 1] == '\n'
    ensures ReadLines(l) == [l]
  {
    IndexOfCharIs(l, '\n', |l| - 1);
    assert LineEnd(l) == |l|;
    assert l[..|l|] == l && l[|l|..] == [];
  }

  // ---------------------------------------------------------------------------
  // The params file (main.py:35-51)

  /** A non-space character survives stripping. */
  lemma StripKeepsChar(s: string, c: char)
    requires c in s && !IsSpace(c)
    ensures c in Strip(s)
  {
    var pre, post := StripParts(s);
    var i :| 0 <= i < |s| && s[i] == c;
    if |pre| <= i < |pre| + |Strip(s)| {
      assert Strip(s)[i - |pre|] == c;
    }
  }

  /** `t.split(c, 1)` unpacked into two stripped halves. */
  function SplitAtFirst(t: string, c: char): (r: (string, string))
    requires c in t
    ensures IsStripped(r.0) && IsStripped(r.1) && c !in r.0
  {
    var i := IndexOfChar(t, c);
    StripStaysInside(t[..i], c);
    Halves(t, i)
  }

  /** The text before and after position `i`, each stripped. */
  function Halves(t: string, i: nat): (string, string)
    requires i < |t|
  {
    (Strip(t[..i]), Strip(t[i + 1..]))
  }

  /** Stripping adds no character. */
  lemma StripStaysInside(s: string, c: char)
    requires c !in s
    ensures c !in Strip(s)
  {
    var pre, post := StripParts(s);
  }

  /** One line of the params file (main.py:44-49): a line holding `=` is
      split at its first `=`, otherwise a line holding `:` at its first `:`,
      after stripping the line; both halves are stripped. Other lines are
      ignored. */
  function ParamOf(line: string): (r: Option<(string, string)>)
    ensures r.Some? <==> '=' in line || ':' in line
    ensures r.Some? ==> IsStripped(r.value.0) && IsStripped(r.value.1) && '=' !in r.value.0
  {
    if '=' in line then
      StripKeepsChar(line, '=');
      Some(SplitAtFirst(Strip(line), '='))
    else if ':' in line then
      StripKeepsChar(line, ':');
      StripStaysInside(line, '=');
      var r := SplitAtFirst(Strip(line), ':');
      assert '=' !in r.0 by {
        var t := Strip(line);
        var i := IndexOfChar(t, ':');
        assert t[..i] <= t;
        StripStaysInside(t[..i], '=');
      }
      Some(r)
    else None
  }

  /** The reading without the outer strip: the halves of the raw line around
      its first `c`, each stripped. */
  function RawSplit(line: string, c: char): (string, string)
    requires c in line
  {
    Halves(line, IndexOfChar(line, c))
  }

  lemma IndexOfCharIs(s: string, c: char, k: int)
    requires 0 <= k < |s| && s[k] == c && c !in s[..k]
    ensures IndexOfChar(s, c) == k
  {
    forall i | 0 <= i < k
      ensures s[i] != c
    {
      assert s[..k][i] == s[i];
    }
  }

  /** Leading whitespace only shifts where a non-space character is first found. */
  lemma IndexAfterSpace(pre: string, t: string, c: char)
    requires AllSpace(pre) && !IsSpace(c) && c in t
    ensures IndexOfChar(pre + t, c) == |pre| + IndexOfChar(t, c)
  {
    var j := IndexOfChar(t, c);
    forall i | 0 <= i < |pre|
      ensures pre[i] != c
    {
      assert IsSpace(pre[i]);
    }
    assert (pre + t)[..|pre| + j] == pre + t[..j];
    IndexOfCharIs(pre + t, c, |pre| + j);
  }

  /** Text after the first occurrence does not move it. */
  lemma IndexBeforeSuffix(t: string, q: string, c: char)
    requires c in t
    ensures IndexOfChar(t + q, c) == IndexOfChar(t, c)
  {
    var j := IndexOfChar(t, c);
    assert (t + q)[..j] == t[..j];
    IndexOfCharIs(t + q, c, j);
  }

  /** Where the raw line `pre + r + post` is cut at its first `c`. */
  lemma CutAround(line: string, pre: string, r: string, post: string, c: char, i: int, j: int)
    requires line == pre + r + post
    requires AllSpace(pre) && !IsSpace(c) && c in r
    requires i == IndexOfChar(line, c) && j == IndexOfChar(r, c)
    ensures i == |pre| + j
    ensures line[..i] == pre + r[..j]
    ensures line[i + 1..] == r[j + 1..] + post
  {
    assert i == |pre| + j by {
      assert line == pre + (r + post);
      IndexBeforeSuffix(r, post, c);
      IndexAfterSpace(pre, r + post, c);
    }
    SliceAround(line, pre, r, post, i, j);
  }

  /** Cutting `pre + r + post` at position `j` of `r`. */
  lemma SliceAround(line: string, pre: string, r: string, post: string, i: nat, j: nat)
    requires line == pre + r + post && j < |r| && i == |pre| + j
    ensures line[..i] == pre + r[..j]
    ensures line[i + 1..] == r[j + 1..] + post
  {
    assert line[..i] == pre + r[..j];
    assert line[i + 1..] == r[j + 1..] + post;
  }

  /** Stripping the line first changes neither half (main.py:45, 48): the
      source's `line.strip().split(c, 1)` with stripped halves is
      `RawSplit`. */
  lemma StripThenSplit(line: string, c: char)
    requires c in line && !IsSpace(c)
    ensures c in Strip(line)
    ensures SplitAtFirst(Strip(line), c) == RawSplit(line, c)
  {
    StripKeepsChar(line, c);
    var pre, post := StripParts(line);
    var r := Strip(line);
    var j := IndexOfChar(r, c);
    var i := IndexOfChar(line, c);
    assert SplitAtFirst(r, c) == Halves(r, j);
    assert RawSplit(line, c) == Halves(line, i);
    HalvesAround(line, pre, r, post, c, i, j);
  }

  /** Whitespace around `r` changes neither stripped half around its first `c`. */
  lemma HalvesAround(line: string, pre: string, r: string, post: string, c: char, i: int, j: int)
    requires line == pre + r + post && AllSpace(pre) && AllSpace(post)
    requires !IsSpace(c) && c in r
    requires i == IndexOfChar(line, c) && j == IndexOfChar(r, c)
    ensures 0 <= i < |line| && 0 <= j < |r|
    ensures Halves(line, i) == Halves(r, j)
  {
    CutAround(line, pre, r, post, c, i, j);
    StripAfter(pre, r[..j]);
    StripBefore(r[j + 1..], post);
  }

  /** The reading of a params line, as `RawSplit` at the first `=` or else
      the first `:`. */
  lemma ParamOfIsRawSplit(line: string)
    ensures '=' in line ==> ParamOf(line) == Some(RawSplit(line, '='))
    ensures '=' !in line && ':' in line ==> ParamOf(line) == Some(RawSplit(line, ':'))
    ensures '=' !in line && ':' !in line ==> ParamOf(line) == None
  {
    if '=' in line {
      StripThenSplit(line, '=');
    } else if ':' in line {
      StripThenSplit(line, ':');
    }
  }

  /** The (key, value) pairs of the lines, in file order. */
  function ParamPairs(lines: seq<string>): seq<(string, string)>
    decreases |lines|
  {
    if lines == [] then []
    else
      LinePairs(lines[0]) + ParamPairs(lines[1..])
  }

  /** The pair one line contributes, if any. */
  function LinePairs(line: string): seq<(string, string)> {
    match ParamOf(line)
    case Some(p) => [p]
    case None => []
  }

  datatype InputError = FileNotFound

  /** `read_params_file` (main.py:35-51): a missing file raises
      `FileNotFoundError`; otherwise every pair is assigned in file order, so
      a later line overwrites an earlier one with the same key. */
  function ReadParamsFile(file: Option<string>): (r: Result<map<string, string>, InputError>)
    ensures r.Err? <==> file.None?
    ensures r.Ok? ==> forall k :: k in r.value ==> IsStripped(k) && '=' !in k && IsStripped(r.value[k])
  {
    match file
    case None => Err(FileNotFound)
    case Some(text) =>
      var ps := ParamPairs(ReadLines(text));
      ParamPairsWellShaped(ReadLines(text));
      AssignKeepsShape(map[], ps);
      Ok(LastWins.Assign(map[], ps))
  }

  /** A key and value as the params reader stores them. */
  predicate WellShaped(k: string, v: string) {
    IsStripped(k) && '=' !in k && IsStripped(v)
  }

  lemma {:induction false} ParamPairsWellShaped(lines: seq<string>)
    ensures forall i :: 0 <= i < |ParamPairs(lines)| ==> WellShaped(ParamPairs(lines)[i].0, ParamPairs(lines)[i].1)
    decreases |lines|
  {
    if lines != [] {
      ParamPairsWellShaped(lines[1..]);
    }
  }

  lemma {:induction false} AssignKeepsShape(m: map<string, string>, ps: seq<(string, string)>)
    requires forall k :: k in m ==> WellShaped(k, m[k])
    requires forall i :: 0 <= i < |ps| ==> WellShaped(ps[i].0, ps[i].1)
    ensures forall k :: k in LastWins.Assign(m, ps) ==> WellShaped(k, LastWins.Assign(m, ps)[k])
    decreases |ps|
  {
    if ps != [] {
      assert WellShaped(ps[0].0, ps[0].1);
      AssignKeepsShape(m[ps[0].0 := ps[0].1], ps[1..]);
    }
  }

  /** The raw line `k=w` with no `=` in `k` is cut right after `k`. */
  lemma RawSplitAfterKey(k: string, w: string)
    requires '=' !in k
    ensures '=' in k + "=" + w
    ensures RawSplit(k + "=" + w, '=') == (Strip(k), Strip(w))
  {
    var line := k + "=" + w;
    assert line[..|k|] == k;
    assert line[|k|] == '=';
    assert IndexOfChar(line, '=') == |k| by {
      IndexOfCharIs(line, '=', |k|);
    }
    assert line[|k| + 1..] == w;
    assert RawSplit(line, '=') == Halves(line, |k|);
  }

  lemma ParamOfKeyLine(k: string, w: string)
    requires '=' !in k
    ensures ParamOf(k + "=" + w) == Some((Strip(k), Strip(w)))
  {
    RawSplitAfterKey(k, w);
    ParamOfIsRawSplit(k + "=" + w);
  }

  /** A `key=value` line reads as the stripped key and the stripped value,
      whatever the value holds. */
  lemma ParamLineRoundTrip(k: string, v: string)
    requires '=' !in k
    ensures ParamOf(k + "=" + v + "\n") == Some((Strip(k), Strip(v)))
  {
    var w := v + "\n";
    var line := k + "=" + v + "\n";
    assert line == k + "=" + w;
    ParamOfKeyLine(k, w);
    assert Strip(w) == Strip(v) by {
      assert AllSpace("\n") by { assert IsSpace('\n'); }
      StripBefore(v, "\n");
    }
  }

  lemma {:induction false} ParamPairsAppend(xs: seq<string>, ys: seq<string>)
    ensures ParamPairs(xs + ys) == ParamPairs(xs) + ParamPairs(ys)
    decreases |xs|
  {
    if xs == [] {
      assert xs + ys == ys;
      assert ParamPairs(xs) == [];
    } else {
      var h := LinePairs(xs[0]);
      assert ParamPairs(xs + ys) == h + ParamPairs(xs[1..] + ys) by {
        ConsOfConcat(xs, ys);
      }
      assert ParamPairs(xs[1..] + ys) == ParamPairs(xs[1..]) + ParamPairs(ys) by {
        ParamPairsAppend(xs[1..], ys);
      }
      assert ParamPairs(xs) == h + ParamPairs(xs[1..]);
      ConcatAssoc(h, ParamPairs(xs[1..]), ParamPairs(ys));
    }
  }

  /** The last line of a params file sets its key, whatever came before:
      `params[key] = value` overwrites. */
  lemma ParamsLastLineWins(text: string, k: string, v: string)
    requires EndsLine(text)
    requires '=' !in k && '\n' !in k && '\n' !in v
    ensures var r := ReadParamsFile(Some(text + (k + "=" + v + "\n")));
            r.Ok? && Strip(k) in r.value && r.value[Strip(k)] == Strip(v)
  {
    var line := k + "=" + v + "\n";
    assert ReadLines(line) == [line] by {
      assert line[..|line| - 1] == k + "=" + v;
      ReadOneLine(line);
    }
    ReadLinesAppend(text, line);
    var lines := ReadLines(text);
    ParamPairsAppend(lines, [line]);
    ParamLineRoundTrip(k, v);
    assert ParamPairs([line]) == [(Strip(k), Strip(v))];
    LastWins.AssignConcat(map[], ParamPairs(lines), [(Strip(k), Strip(v))]);
    LastWins.AssignSingle(LastWins.Assign(map[], ParamPairs(lines)), (Strip(k), Strip(v)));
  }

  // ---------------------------------------------------------------------------
  // The list of tasks (main.py:53-73)

  /** The stripped non-blank lines, in order (main.py:61-65). */
  function Tasks(lines: seq<string>): (ts: seq<string>)
    decreases |lines|
    ensures forall i :: 0 <= i < |ts| ==> ts[i] != [] && IsStripped(ts[i])
  {
    if lines == [] then []
    else (if Strip(lines[0]) != [] then [Strip(lines[0])] else []) + Tasks(lines[1..])
  }

  /** `read_tasks_file` (main.py:53-73): a missing file is created empty, so
      it reads as empty text; the result is the stripped lines joined by `\n`,
      which is itself stripped. */
  function ReadTasksFile(file: Option<string>): (r: string)
    ensures file.None? ==> r == ""
    ensures IsStripped(r)
  {
    var ts := Tasks(ReadLines(file.GetOr("")));
    JoinEnds(ts, "\n");
    Join(ts, "\n")
  }

  /** A stripped line holds no `\n`: the line has one at most at its end, and
      stripping removes it. */
  lemma StrippedLineHasNoNewline(l: string)
    requires IsLine(l)
    ensures '\n' !in Strip(l)
  {
    var pre, post := StripParts(l);
  }

  lemma {:induction false} TasksHaveNoNewline(lines: seq<string>)
    requires forall i :: 0 <= i < |lines| ==> IsLine(lines[i])
    ensures forall i :: 0 <= i < |Tasks(lines)| ==> '\n' !in Tasks(lines)[i]
    decreases |lines|
  {
    if lines != [] {
      StrippedLineHasNoNewline(lines[0]);
      TasksHaveNoNewline(lines[1..]);
    }
  }

  /** The joined text has no blank line: splitting it at `\n` gives back the
      tasks, each stripped and non-empty, in file order; it is empty exactly
      when the file has no non-blank line. */
  lemma TaskTextLines(file: Option<string>)
    ensures ReadTasksFile(file) == "" <==> Tasks(ReadLines(file.GetOr(""))) == []
    ensures Tasks(ReadLines(file.GetOr(""))) != [] ==>
              Split(ReadTasksFile(file), "\n") == Tasks(ReadLines(file.GetOr("")))
  {
    var ts := Tasks(ReadLines(file.GetOr("")));
    ReadLinesShape(file.GetOr(""));
    TasksHaveNoNewline(ReadLines(file.GetOr("")));
    if ts != [] {
      SplitJoin(ts, '\n');
      assert ts[0] != [];
      if |ts| > 1 {
        assert |Join(ts, "\n")| >= |ts[0]|;
      }
    }
  }

  // ---------------------------------------------------------------------------
  // The file extension (main.py:161-165)

  /** `{'python': 'py', 'java': 'java', 'perl': 'pl'}.get(language, 'txt')`. */
  function Extension(language: string): (e: string)
    ensures e in {"py", "java", "pl", "txt"}
    ensures e == "py" <==> language == "python"
    ensures e == "java" <==> language == "java"
    ensures e == "pl" <==> language == "perl"
  {
    if language == "python" then "py"
    else if language == "java" then "java"
    else if language == "perl" then "pl"
    else "txt"
  }

  /** The language-to-extension dictionary written at main.py:161-165. */
  const LanguageExtensions: map<string, string> := map["python" := "py", "java" := "java", "perl" := "pl"]

  /** `Extension` is the dictionary lookup with `txt` as its default: only the
      dictionary's keys, compared exactly (so differently cased names miss),
      get their own extension. */
  lemma ExtensionFallback(language: string)
    ensures Extension(language) == if language in LanguageExtensions then LanguageExtensions[language] else "txt"
    ensures Extension(language) != "txt" <==> language in LanguageExtensions
  {
  }
}
