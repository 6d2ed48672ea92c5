/** The marker-block parser of the code generator (main.py, `parse_llm_response`).

    An LLM reply carries files between markers such as
    `<<<CODE START: app.py>>> ... <<<CODE END: app.py>>>`. The parser repeatedly
    takes the earliest start marker, derives the end marker from a four-character
    slice after `<<<`, searches that end marker from the start of the remaining
    text, cuts a section and slices the file name and content out of it, and
    drops everything up to three characters past the end marker.

    Two quirks of the program survive in this model on purpose:
    - the slice after `<<<DOC START:` is `"DOC "` (with a space), so the end
      marker searched for is `<<<DOC  END:` and the `DOC` branch never fires;
    - the end marker is searched from index 0, so one that occurs before the
      start marker yields a section too short to split, which raises. */
module ResponseParser {
  import opened Wrappers
  import opened Strings
  import LastWins

  /** The three block kinds a reply may hold. */
  datatype Kind = Code | Doc | File

  /** The word the LLM writes after `<<<`. */
  function KindName(k: Kind): string {
    match k
    case Code => "CODE"
    case Doc => "DOC"
    case File => "FILE"
  }

  /** The start markers the parser looks for (main.py:87). */
  function StartMarker(k: Kind): string {
    "<<<" + KindName(k) + " START:"
  }

  /** The four characters `response[start+3:start+7]` yields after the start
      marker of kind `k` (main.py:93). */
  function SlicedTag(k: Kind): string {
    match k
    case Code => "CODE"
    case Doc => "DOC "
    case File => "FILE"
  }

  /** The end marker built from a sliced tag (main.py:94). */
  function EndMarker(tag: string): string {
    "<<<" + tag + " END:"
  }

  /** Some start marker begins at index `i` of `s`. */
  predicate StartsBlockAt(s: string, i: int) {
    OccursAt(s, StartMarker(Code), i) || OccursAt(s, StartMarker(Doc), i)
    || OccursAt(s, StartMarker(File), i)
  }

  /** The smaller of two `find` results, where -1 means "absent". */
  function MinFound(a: int, b: int): (r: int)
    ensures r == a || r == b
    ensures r < 0 <==> a < 0 && b < 0
    ensures a >= 0 ==> 0 <= r <= a
    ensures b >= 0 ==> 0 <= r <= b
  {
    if a < 0 then b else if b < 0 then a else if a <= b then a else b
  }

  /** `min(response.find(m) for m in start_markers if m in response, default=-1)`
      (main.py:88), written as the source writes it. */
  function MinOfFinds(s: string): (r: int)
    ensures r == -1 || (0 <= r < |s| && StartsBlockAt(s, r))
  {
    MinFound(MinFound(Find(s, StartMarker(Code)), Find(s, StartMarker(Doc))), Find(s, StartMarker(File)))
  }

  /** The first index at or after `i` where a start marker begins, or -1. */
  function StartFrom(s: string, i: nat): (r: int)
    decreases |s| - i
    ensures r == -1 || i <= r < |s|
  {
    if i >= |s| then -1 else if StartsBlockAt(s, i) then i else StartFrom(s, i + 1)
  }

  /** The index of the leftmost start marker of any kind, or -1; the loop
      uses this scan, which `EarliestStartIsMinOfFinds` shows equal to the
      source's minimum over three `find`s. */
  function EarliestStart(s: string): (r: int)
    ensures r == -1 || (0 <= r < |s| && StartsBlockAt(s, r))
  {
    StartFromSpec(s, 0);
    StartFrom(s, 0)
  }

  lemma {:induction false} StartFromSpec(s: string, i: nat)
    decreases |s| - i
    ensures StartFrom(s, i) >= 0 ==> StartsBlockAt(s, StartFrom(s, i))
    ensures forall k :: i <= k && (StartFrom(s, i) == -1 || k < StartFrom(s, i)) ==> !StartsBlockAt(s, k)
  {
    if i < |s| && !StartsBlockAt(s, i) {
      StartFromSpec(s, i + 1);
    }
  }

  /** The earliest start is a start marker with none before it, and -1
      exactly when the text holds no start marker at all. */
  lemma EarliestStartSpec(s: string)
    ensures EarliestStart(s) >= 0 ==> StartsBlockAt(s, EarliestStart(s))
    ensures forall i :: 0 <= i && (EarliestStart(s) == -1 || i < EarliestStart(s)) ==> !StartsBlockAt(s, i)
  {
    StartFromSpec(s, 0);
  }

  /** The minimum of the three `find`s has the same two properties. */
  lemma MinOfFindsSpec(s: string)
    ensures MinOfFinds(s) == -1 || (0 <= MinOfFinds(s) && StartsBlockAt(s, MinOfFinds(s)))
    ensures forall i :: 0 <= i && (MinOfFinds(s) == -1 || i < MinOfFinds(s)) ==> !StartsBlockAt(s, i)
  {
  }

  /** The scan finds exactly what the source's `min` over `find`s finds. */
  lemma EarliestStartIsMinOfFinds(s: string)
    ensures EarliestStart(s) == MinOfFinds(s)
  {
    EarliestStartSpec(s);
    MinOfFindsSpec(s);
    var a := EarliestStart(s);
    var b := MinOfFinds(s);
    if a >= 0 && b >= 0 {
      assert !(a < b) && !(b < a);
    }
  }

  /** The tag slice taken at a start index. */
  function TagAt(s: string, start: nat): string {
    Slice(s, start + 3, start + 7)
  }

  /** One extracted block: its sliced tag, stripped file name and stripped content. */
  datatype Block = Block(tag: string, filename: string, content: string)

  /** The `IndexError`s the slicing can raise: `section.split('<<<')[1]`
      (main.py:101) and `section.split('>>>', 1)[1]` (main.py:102). */
  datatype ParseError = NoFilenamePiece | NoContentDelimiter

  /** The outcome of one pass of the `while` body: stop (`break`), raise, or
      continue with a block and the remaining text. */
  datatype StepResult = Halt | Raise(error: ParseError) | Advance(block: Block, rest: string)

  lemma TagOfStart(s: string, start: nat, k: Kind)
    requires OccursAt(s, StartMarker(k), start)
    ensures TagAt(s, start) == SlicedTag(k)
  {
    var m := StartMarker(k);
    assert |m| >= 13 by {
      assert |KindName(k)| >= 3;
    }
    assert m[3..7] == SlicedTag(k) by {
      match k
      case Code => assert m[3..7] == "CODE";
      case Doc => assert m[3..7] == "DOC ";
      case File => assert m[3..7] == "FILE";
    }
    assert s[start..start + |m|] == m;
    forall i | 0 <= i < 4
      ensures s[start + 3..start + 7][i] == m[3..7][i]
    {
      assert s[start + 3 + i] == s[start..start + |m|][3 + i];
    }
  }

  /** The tag sliced at a start marker is one of the three sliced tags; all
      have four characters, so every end marker has twelve. */
  lemma StartTags(s: string, start: nat)
    requires StartsBlockAt(s, start)
    ensures TagAt(s, start) == SlicedTag(Code) || TagAt(s, start) == SlicedTag(Doc)
            || TagAt(s, start) == SlicedTag(File)
  {
    if OccursAt(s, StartMarker(Code), start) {
      TagOfStart(s, start, Code);
    } else if OccursAt(s, StartMarker(Doc), start) {
      TagOfStart(s, start, Doc);
    } else {
      TagOfStart(s, start, File);
    }
  }

  lemma StartTagLength(s: string, start: nat)
    requires StartsBlockAt(s, start)
    ensures |TagAt(s, start)| == 4 && |EndMarker(TagAt(s, start))| == 12
  {
    StartTags(s, start);
  }

  /** Slicing one section into a block (main.py:100-102): the file name is the
      text between the first two `<<<`, cut at the first `>>>`, with
      `"<tag> START: "` removed; the content lies between the first `>>>` and
      the last `<<<`. Both are stripped. */
  function Cut(section: string, tag: string, rest: string): (st: StepResult)
    ensures st.Advance? ==> st.rest == rest && st.block.tag == tag
    ensures st.Advance? ==> IsStripped(st.block.filename) && IsStripped(st.block.content)
    ensures st.Raise? <==> !Contains(section, "<<<") || !Contains(section, ">>>")
    ensures !st.Halt?
  {
    var pieces := Split(section, "<<<");
    if |pieces| < 2 then Raise(NoFilenamePiece)
    else
      var filename := Strip(Replace(Split(pieces[1], ">>>")[0], tag + " START: ", ""));
      match SplitOnce(section, ">>>")
      case None => Raise(NoContentDelimiter)
      case Some((_, after)) =>
        var content := Strip(BeforeLast(after, "<<<"));
        Advance(Block(tag, filename, content), rest)
  }

  /** A section holding both delimiters is cut into its name and content. */
  lemma CutUnfold(section: string, tag: string, rest: string)
    requires Contains(section, "<<<") && Contains(section, ">>>")
    ensures Cut(section, tag, rest)
            == Advance(Block(tag, Strip(Replace(Split(Split(section, "<<<")[1], ">>>")[0], tag + " START: ", "")),
                             Strip(BeforeLast(SplitOnce(section, ">>>").value.1, "<<<"))), rest)
  {
  }

  /** One iteration of the loop body (main.py:87-112). A pass that continues
      drops the end marker and three more characters, at least 15 in all. */
  function Step(s: string): (st: StepResult)
    ensures st.Advance? ==> st.rest == [] || |st.rest| + 15 <= |s|
    ensures st.Advance? ==> |st.block.tag| == 4
    ensures st.Advance? ==> IsStripped(st.block.filename) && IsStripped(st.block.content)
  {
    var start := EarliestStart(s);
    if start < 0 then Halt
    else
      EarliestStartSpec(s);
      StartTagLength(s, start);
      var tag := TagAt(s, start);
      var endMarker := EndMarker(tag);
      var endIndex := Find(s, endMarker);
      if endIndex < 0 then Halt
      else Cut(Slice(s, start, endIndex + |endMarker| + 3), tag, Drop(s, endIndex + |endMarker| + 3))
  }

  /** The loop stops (`break`) when no start marker is left (main.py:89-90)
      or when the derived end marker is missing (main.py:96-97). */
  lemma StepHalts(s: string)
    requires EarliestStart(s) < 0 || Find(s, EndMarker(TagAt(s, EarliestStart(s)))) < 0
    ensures Step(s) == Halt
  {
  }

  /** The three dictionaries the parser returns. */
  datatype Extracted = Extracted(code: map<string, string>, doc: map<string, string>, file: map<string, string>)

  const NoBlocks := Extracted(map[], map[], map[])

  /** `if content:` and the tag dispatch (main.py:104-110). The `DOC` branch
      compares against the three-letter word, which no sliced tag equals. */
  function Store(acc: Extracted, b: Block): (r: Extracted)
    ensures b.content == [] ==> r == acc
    ensures r.code != acc.code ==> b.tag == "CODE" && r.code == acc.code[b.filename := b.content] && r.doc == acc.doc && r.file == acc.file
    ensures r.doc != acc.doc ==> b.tag == "DOC" && r.doc == acc.doc[b.filename := b.content] && r.code == acc.code && r.file == acc.file
    ensures r.file != acc.file ==> b.tag == "FILE" && r.file == acc.file[b.filename := b.content] && r.code == acc.code && r.doc == acc.doc
  {
    if b.content == [] then acc
    else if b.tag == "CODE" then acc.(code := acc.code[b.filename := b.content])
    else if b.tag == "DOC" then acc.(doc := acc.doc[b.filename := b.content])
    else if b.tag == "FILE" then acc.(file := acc.file[b.filename := b.content])
    else acc
  }

  /** Storing a block never touches the doc map and never removes a key. */
  lemma StoreKeepsDoc(acc: Extracted, b: Block)
    requires |b.tag| == 4
    ensures Store(acc, b).doc == acc.doc
    ensures acc.code.Keys <= Store(acc, b).code.Keys && acc.file.Keys <= Store(acc, b).file.Keys
  {
    assert b.tag != "DOC" by {
      assert |b.tag| == 4;
    }
  }

  /** The `while response:` loop (main.py:86-112); it ends because every pass
      that continues drops at least one character. */
  function ParseLoop(s: string, acc: Extracted): (r: Result<Extracted, ParseError>)
    decreases |s|
    ensures r.Ok? ==> r.value.doc == acc.doc
    ensures r.Ok? ==> acc.code.Keys <= r.value.code.Keys && acc.file.Keys <= r.value.file.Keys
  {
    if s == [] then Ok(acc)
    else
      match Step(s)
      case Halt => Ok(acc)
      case Raise(e) => Err(e)
      case Advance(b, rest) =>
        StoreKeepsDoc(acc, b);
        ParseLoop(rest, Store(acc, b))
  }

  /** `parse_llm_response(response, language)`; `language` is unused. */
  function ParseLlmResponse(response: string, language: string): (r: Result<Extracted, ParseError>)
    ensures r.Ok? ==> r.value.doc == map[]
  {
    ParseLoop(response, NoBlocks)
  }
}
