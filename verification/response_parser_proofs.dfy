/** Properties of the marker-block parser: what a well-formed reply yields,
    which replies stop or break the parser, and how repeated blocks combine. */
module ResponseParserProofs {
  import opened Wrappers
  import opened Strings
  import opened ResponseParser

  /** The opening line of a block, `<<<KIND START: name>>>`. */
  function OpenText(k: Kind, name: string): string {
    StartMarker(k) + " " + name + ">>>"
  }

  /** `<<<KIND END: name>>>`. */
  function CloseText(k: Kind, name: string): string {
    EndMarker(KindName(k)) + " " + name + ">>>"
  }

  /** A complete block, `<<<KIND START: name>>>body<<<KIND END: name>>>`. */
  function BlockText(k: Kind, name: string, body: string): string {
    OpenText(k, name) + body + CloseText(k, name)
  }

  /** Text with no angle brackets cannot contain or fake a marker. */
  predicate NoAngles(s: string) {
    '<' !in s && '>' !in s
  }

  /** A body that does not hold its own block's end marker `<<<KIND END:`;
      any other text, markers and angle brackets included, may appear in it. */
  predicate BodyFree(k: Kind, body: string) {
    !Contains(body, EndMarker(KindName(k)))
  }

  /** Text `j` in front of `x` that neither holds a marker nor completes one
      with the characters after it: `j` holds no `<` at all, or it holds no
      `<<<` and `x` opens with `<<<`. */
  predicate Detached(j: string, x: string) {
    '<' !in j || (!Contains(j, "<<<") && OccursAt(x, "<<<", 0))
  }

  /** No marker (`<<<` and then a character other than `<`) begins inside
      detached leading text. */
  lemma LeadFree(j: string, x: string, pat: string)
    requires Detached(j, x)
    requires |pat| > 3 && pat[..3] == "<<<" && pat[3] != '<'
    ensures forall i :: 0 <= i < |j| ==> !OccursAt(j + x, pat, i)
  {
    var s := j + x;
    assert pat[0] == pat[..3][0];
    forall i | 0 <= i < |j|
      ensures !OccursAt(s, pat, i)
    {
      if j[i] != '<' {
        NotOccursAt(s, pat, i, 0);
      } else if i + 3 <= |j| {
        assert !OccursAt(j, "<<<", i);
        assert j[i..i + 3] == [j[i], j[i + 1], j[i + 2]];
        assert pat[1] == pat[..3][1] && pat[2] == pat[..3][2];
        if j[i + 1] != '<' {
          NotOccursAt(s, pat, i, 1);
        } else {
          NotOccursAt(s, pat, i, 2);
        }
      } else {
        assert x[1] == x[..3][1] && x[2] == x[..3][2];
        assert s[i + 3] == x[i + 3 - |j|];
        NotOccursAt(s, pat, i, 3);
      }
    }
  }

  lemma KindFacts(k: Kind)
    ensures NoAngles(KindName(k)) && ':' !in KindName(k) && |KindName(k)| >= 3
    ensures NoAngles(SlicedTag(k)) && |SlicedTag(k)| == 4
    ensures k != Doc ==> SlicedTag(k) == KindName(k)
    ensures '<' !in StartMarker(k)[3..] && '>' !in StartMarker(k)
    ensures StartMarker(k)[..3] == "<<<" && StartMarker(k)[0] == '<'
    ensures |StartMarker(k)| == |KindName(k)| + 10
  {
    match k
    case Code =>
    case Doc =>
    case File =>
  }

  /** One continuing pass, named by its parts. */
  lemma StepUnfold(s: string, start: nat, tag: string, endIndex: int)
    requires start == EarliestStart(s) && tag == TagAt(s, start)
    requires endIndex == Find(s, EndMarker(tag)) && endIndex >= 0
    ensures Step(s) == Cut(Slice(s, start, endIndex + 15), tag, Drop(s, endIndex + 15))
  {
    assert |EndMarker(tag)| == 12 by {
      EarliestStartSpec(s);
      StartTagLength(s, start);
    }
    StepBody(s, start, tag, endIndex, endIndex + 15);
  }

  /** The same, with the cut position as the body of `Step` computes it. */
  lemma StepBody(s: string, start: nat, tag: string, endIndex: int, cut: nat)
    requires start == EarliestStart(s) && tag == TagAt(s, start)
    requires endIndex == Find(s, EndMarker(tag)) && endIndex >= 0
    requires cut == Find(s, EndMarker(TagAt(s, EarliestStart(s)))) + |EndMarker(TagAt(s, EarliestStart(s)))| + 3
    ensures Step(s) == Cut(Slice(s, start, cut), tag, Drop(s, cut))
  {
  }

  /** Detached leading text cannot hold a start marker, so the earliest
      start is found at the same place, shifted. */
  lemma EarliestStartShift(j: string, x: string)
    requires Detached(j, x)
    ensures EarliestStart(j + x) == if EarliestStart(x) < 0 then -1 else |j| + EarliestStart(x)
  {
    EarliestStartIsMinOfFinds(j + x);
    EarliestStartIsMinOfFinds(x);
    StartShift(j, x, Code);
    StartShift(j, x, Doc);
    StartShift(j, x, File);
  }

  /** One start marker is found behind detached leading text where it is
      found in the text alone, shifted. */
  lemma StartShift(j: string, x: string, k: Kind)
    requires Detached(j, x)
    ensures Find(j + x, StartMarker(k)) == if Find(x, StartMarker(k)) < 0 then -1 else |j| + Find(x, StartMarker(k))
  {
    KindFacts(k);
    assert StartMarker(k)[3] == KindName(k)[0];
    LeadFree(j, x, StartMarker(k));
    FindPastPrefix(j, x, StartMarker(k));
  }

  /** Detached prose in front of the blocks does not change one pass of the loop. */
  lemma StepIgnoresLeadingText(j: string, x: string)
    requires Detached(j, x)
    ensures Step(j + x) == Step(x)
  {
    var start := EarliestStart(x);
    assert EarliestStart(j + x) == if start < 0 then -1 else |j| + start by {
      EarliestStartShift(j, x);
    }
    if start < 0 {
      StepHalts(x);
      StepHalts(j + x);
    } else {
      StepFoundIgnoresLeadingText(j, x, start);
    }
  }

  /** The same, once a start marker has been found in `x`. */
  lemma StepFoundIgnoresLeadingText(j: string, x: string, start: nat)
    requires Detached(j, x) && start == EarliestStart(x)
    requires EarliestStart(j + x) == |j| + start
    ensures Step(j + x) == Step(x)
  {
    var tag := TagAt(x, start);
    var endIndex := Find(x, EndMarker(tag));
    if endIndex < 0 {
      HaltsIgnoresLeadingText(j, x, start, tag);
    } else {
      CutIgnoresLeadingText(j, x, start, tag, endIndex);
    }
  }

  /** The same, when the derived end marker is missing. */
  lemma HaltsIgnoresLeadingText(j: string, x: string, start: nat, tag: string)
    requires Detached(j, x) && start == EarliestStart(x) && tag == TagAt(x, start)
    requires EarliestStart(j + x) == |j| + start
    requires Find(x, EndMarker(tag)) < 0
    ensures Step(j + x) == Step(x)
  {
    var start' := |j| + start;
    LeadingTextShift(j, x, start, tag, Find(x, EndMarker(tag)), start', |j| + Find(x, EndMarker(tag)));
    HaltTransfer(j + x, x, start', start, tag);
  }

  /** The same, when the derived end marker is found. */
  lemma CutIgnoresLeadingText(j: string, x: string, start: nat, tag: string, endIndex: nat)
    requires Detached(j, x) && start == EarliestStart(x) && tag == TagAt(x, start)
    requires EarliestStart(j + x) == |j| + start
    requires endIndex == Find(x, EndMarker(tag))
    ensures Step(j + x) == Step(x)
  {
    var cut := endIndex + 15;
    var start', endIndex', cut' := |j| + start, |j| + endIndex, |j| + cut;
    LeadingTextShift(j, x, start, tag, endIndex, start', endIndex');
    CutShift(j, x, start, cut, start', cut');
    StepTransfer(j + x, x, start', start, tag, endIndex', endIndex, cut', cut);
  }

  /** Behind detached prose, the tag and the end marker of a pass are
      those of the text alone, shifted. */
  lemma LeadingTextShift(j: string, x: string, start: nat, tag: string, endIndex: int, start': nat, endIndex': int)
    requires Detached(j, x) && start == EarliestStart(x)
    requires tag == TagAt(x, start) && endIndex == Find(x, EndMarker(tag))
    requires start' == |j| + start && endIndex' == |j| + endIndex
    ensures TagAt(j + x, start') == tag
    ensures Find(j + x, EndMarker(tag)) == if endIndex < 0 then -1 else endIndex'
  {
    SliceShift(j, x, start + 3, start + 7);
    EarliestStartSpec(x);
    StartTags(x, start);
    EndMarkerShift(j, x, tag);
  }

  /** Behind detached prose, the end marker of a sliced tag is found where
      it is found in the text alone, shifted. */
  lemma EndMarkerShift(j: string, x: string, tag: string)
    requires Detached(j, x)
    requires tag == SlicedTag(Code) || tag == SlicedTag(Doc) || tag == SlicedTag(File)
    ensures Find(j + x, EndMarker(tag)) == if Find(x, EndMarker(tag)) < 0 then -1 else |j| + Find(x, EndMarker(tag))
  {
    var em := EndMarker(tag);
    assert em[..3] == "<<<" && em[3] == tag[0];
    LeadFree(j, x, em);
    FindPastPrefix(j, x, em);
  }

  /** Behind prose, the section and the remainder of a cut are those of the text alone. */
  lemma CutShift(j: string, x: string, start: nat, cut: nat, start': nat, cut': nat)
    requires start' == |j| + start && cut' == |j| + cut
    ensures Slice(j + x, start', cut') == Slice(x, start, cut)
    ensures Drop(j + x, cut') == Drop(x, cut)
  {
    SliceShift(j, x, start, cut);
    SliceShift(j, x, cut, 0);
  }

  /** Two texts in which the derived end marker is missing both stop. */
  lemma HaltTransfer(s: string, x: string, start': nat, start: nat, tag: string)
    requires start == EarliestStart(x) && tag == TagAt(x, start)
    requires start' == EarliestStart(s) && tag == TagAt(s, start')
    requires Find(x, EndMarker(tag)) < 0 && Find(s, EndMarker(tag)) < 0
    ensures Step(s) == Step(x)
  {
    StepHalts(x);
    StepHalts(s);
  }

  /** Two texts whose passes find the same tag and cut the same section and
      remainder take the same step. */
  lemma StepTransfer(s: string, x: string, start': nat, start: nat, tag: string, endIndex': nat, endIndex: nat, cut': nat, cut: nat)
    requires start == EarliestStart(x) && tag == TagAt(x, start)
    requires start' == EarliestStart(s) && tag == TagAt(s, start')
    requires endIndex == Find(x, EndMarker(tag)) && endIndex' == Find(s, EndMarker(tag))
    requires cut == endIndex + 15 && cut' == endIndex' + 15
    requires Slice(s, start', cut') == Slice(x, start, cut)
    requires Drop(s, cut') == Drop(x, cut)
    ensures Step(s) == Step(x)
  {
    StepUnfold(x, start, tag, endIndex);
    StepUnfold(s, start', tag, endIndex');
  }

  /** Detached prose in front of the blocks does not change the result. */
  lemma {:induction false} ParseIgnoresLeadingText(j: string, x: string, acc: Extracted)
    requires Detached(j, x)
    ensures ParseLoop(j + x, acc) == ParseLoop(x, acc)
  {
    StepIgnoresLeadingText(j, x);
    if x == [] {
      assert j + x == j;
      assert EarliestStart(x) == -1;
    }
  }

  /** A reply without any `<<<` extracts nothing and raises nothing. */
  lemma ParseOfPlainText(t: string, acc: Extracted)
    requires !Contains(t, "<<<")
    ensures ParseLoop(t, acc) == Ok(acc)
  {
    forall i | 0 <= i
      ensures !StartsBlockAt(t, i)
    {
      assert !OccursAt(t, "<<<", i);
      MarkerNeedsOpening(t, i, Code);
      MarkerNeedsOpening(t, i, Doc);
      MarkerNeedsOpening(t, i, File);
    }
    EarliestStartSpec(t);
    if t != [] {
      StepHalts(t);
    }
  }

  /** A start marker begins with `<<<`. */
  lemma MarkerNeedsOpening(t: string, i: int, k: Kind)
    requires !OccursAt(t, "<<<", i)
    ensures !OccursAt(t, StartMarker(k), i)
  {
    KindFacts(k);
    if 0 <= i && i + |StartMarker(k)| <= |t| {
      assert t[i..i + 3] == t[i..i + |StartMarker(k)|][..3];
    }
  }

  /** The text of a block between its leading `<<<` and its end marker. */
  function Inner(k: Kind, name: string, body: string): string {
    KindName(k) + " START:" + " " + name + ">>>" + body
  }

  lemma BlockShape(k: Kind, f: string, c: string, rest: string)
    ensures BlockText(k, f, c) + rest == "<<<" + Inner(k, f, c) + EndMarker(KindName(k)) + (" " + f + ">>>") + rest
    ensures BlockText(k, f, c) + rest == StartMarker(k) + (" " + f + ">>>" + c + CloseText(k, f) + rest)
  {
  }

  /** The end marker of a CODE or FILE block is found where that block's
      closing text begins, whatever its body holds besides that marker. */
  lemma FindEndOfBlock(k: Kind, f: string, c: string, rest: string)
    requires k != Doc && '<' !in f && BodyFree(k, c)
    ensures Find(BlockText(k, f, c) + rest, EndMarker(SlicedTag(k))) == 3 + |Inner(k, f, c)|
  {
    var em := EndMarker(KindName(k));
    var t := " " + f + ">>>" + rest;
    BlockAfterOpening(k, f, c, t, rest);
    FindPastOpening(k, f, c + (em + t));
    MarkerAfterText(c, em, t);
  }

  /** A body that holds its end marker is cut there, before the block's own
      closing text: the parser's end index falls inside the body. */
  lemma FindEndInsideBody(k: Kind, f: string, c1: string, c2: string, rest: string)
    requires k != Doc && '<' !in f && BodyFree(k, c1)
    ensures var c := c1 + EndMarker(KindName(k)) + c2;
            Find(BlockText(k, f, c) + rest, EndMarker(SlicedTag(k))) == |OpenText(k, f)| + |c1| < 3 + |Inner(k, f, c)|
  {
    var em := EndMarker(KindName(k));
    var t := c2 + CloseText(k, f) + rest;
    BodyAfterOpening(k, f, c1, c2, t, rest);
    FindPastOpening(k, f, c1 + (em + t));
    MarkerAfterText(c1, em, t);
  }

  /** A CODE or FILE block split after its body. */
  lemma BlockAfterOpening(k: Kind, f: string, c: string, t: string, rest: string)
    requires k != Doc && t == " " + f + ">>>" + rest
    ensures BlockText(k, f, c) + rest == OpenText(k, f) + (c + (EndMarker(KindName(k)) + t))
    ensures SlicedTag(k) == KindName(k) && |OpenText(k, f)| + |c| == 3 + |Inner(k, f, c)|
  {
    KindFacts(k);
  }

  /** A CODE or FILE block split after the text before its body's end marker. */
  lemma BodyAfterOpening(k: Kind, f: string, c1: string, c2: string, t: string, rest: string)
    requires k != Doc && t == c2 + CloseText(k, f) + rest
    ensures var c := c1 + EndMarker(KindName(k)) + c2;
            BlockText(k, f, c) + rest == OpenText(k, f) + (c1 + (EndMarker(KindName(k)) + t))
            && SlicedTag(k) == KindName(k) && |OpenText(k, f)| + |c1| < 3 + |Inner(k, f, c)|
  {
    KindFacts(k);
  }

  /** The end marker of a block's kind does not begin inside its opening text. */
  lemma FindPastOpening(k: Kind, f: string, after: string)
    requires k != Doc && '<' !in f
    ensures Find(OpenText(k, f) + after, EndMarker(KindName(k)))
            == if Find(after, EndMarker(KindName(k))) < 0 then -1 else |OpenText(k, f)| + Find(after, EndMarker(KindName(k)))
    ensures EndMarker(KindName(k))[..3] == "<<<" && '<' !in EndMarker(KindName(k))[3..]
  {
    KindFacts(k);
    var em := EndMarker(KindName(k));
    var opening := OpenText(k, f);
    var s := opening + after;
    assert '<' !in opening[3..] by {
      assert opening[3..] == StartMarker(k)[3..] + " " + f + ">>>";
    }
    forall i | 0 <= i < |opening|
      ensures !OccursAt(s, em, i)
    {
      if i == 0 {
        assert s[|KindName(k)| + 4] == opening[|KindName(k)| + 4];
        NotOccursAt(s, em, 0, |KindName(k)| + 4);
      } else if i < 3 {
        NotOccursAt(s, em, i, 3 - i);
      } else {
        assert s[i] == opening[3..][i - 3];
        NotOccursAt(s, em, i, 0);
      }
    }
    FindPastPrefix(opening, after, em);
  }

  /** What remains of a block's closing text after the parser's cut: the
      cut falls three characters past the end marker. */
  function BlockTail(name: string): string {
    (" " + name + ">>>")[3..]
  }

  /** The section the parser cuts from a well-formed block: from its start
      to three characters past its end marker. */
  function Section(k: Kind, f: string, c: string): string {
    "<<<" + Inner(k, f, c) + EndMarker(KindName(k)) + (" " + f + ">>>")[..3]
  }

  /** A reply that opens with a block starts there, with that block's tag. */
  lemma BlockStart(k: Kind, f: string, c: string, rest: string)
    ensures EarliestStart(BlockText(k, f, c) + rest) == 0
    ensures TagAt(BlockText(k, f, c) + rest, 0) == SlicedTag(k)
  {
    var s := BlockText(k, f, c) + rest;
    BlockShape(k, f, c, rest);
    OccursAtFront(StartMarker(k), " " + f + ">>>" + c + CloseText(k, f) + rest);
    assert StartsBlockAt(s, 0);
    TagOfStart(s, 0, k);
  }

  /** The parser's cut through a well-formed block yields its section and tail. */
  lemma BlockCut(k: Kind, f: string, c: string, rest: string)
    requires k != Doc
    ensures Slice(BlockText(k, f, c) + rest, 0, 3 + |Inner(k, f, c)| + 15) == Section(k, f, c)
    ensures Drop(BlockText(k, f, c) + rest, 3 + |Inner(k, f, c)| + 15) == BlockTail(f) + rest
  {
    KindFacts(k);
    var s := BlockText(k, f, c) + rest;
    var t := " " + f + ">>>";
    BlockShape(k, f, c, rest);
    assert s == Section(k, f, c) + (t[3..] + rest);
    assert |Section(k, f, c)| == 3 + |Inner(k, f, c)| + 15;
    assert s[..|Section(k, f, c)|] == Section(k, f, c);
    SliceShift(Section(k, f, c), t[3..] + rest, 0, 0);
  }

  lemma StepCutsSection(k: Kind, f: string, c: string, rest: string)
    requires k != Doc && '<' !in f && BodyFree(k, c)
    ensures Step(BlockText(k, f, c) + rest) == Cut(Section(k, f, c), SlicedTag(k), BlockTail(f) + rest)
  {
    var s := BlockText(k, f, c) + rest;
    var endIndex := 3 + |Inner(k, f, c)|;
    assert EarliestStart(s) == 0 && TagAt(s, 0) == SlicedTag(k) by {
      BlockStart(k, f, c, rest);
    }
    assert Find(s, EndMarker(SlicedTag(k))) == endIndex by {
      FindEndOfBlock(k, f, c, rest);
    }
    assert Slice(s, 0, endIndex + 15) == Section(k, f, c) && Drop(s, endIndex + 15) == BlockTail(f) + rest by {
      BlockCut(k, f, c, rest);
    }
    StepUnfold(s, 0, SlicedTag(k), endIndex);
  }

  /** The start marker followed by the file name, as the parser sees it. */
  function Named(k: Kind, f: string): string {
    KindName(k) + " START:" + " " + f
  }

  /** The piece after a section's first `<<<`, cut at its first `>>>`, is the
      start marker's word and the name, whatever the body holds. */
  lemma SectionName(k: Kind, f: string, c: string)
    requires NoAngles(f)
    ensures Contains(Section(k, f, c), "<<<")
    ensures Split(Split(Section(k, f, c), "<<<")[1], ">>>")[0] == Named(k, f)
  {
    var named := Named(k, f);
    var y := SectionRest(k, f, c);
    var x := (named + ">>>") + y;
    assert Section(k, f, c) == "" + "<<<" + x by {
      SectionAfterMarker(k, f, c);
    }
    assert Contains(Section(k, f, c), "<<<") && Split(Section(k, f, c), "<<<")[1] == Split(x, "<<<")[0] by {
      SplitAtFree("", "<<<", x);
    }
    assert NoAngles(named) && '<' !in named + ">>>" by {
      NamedFree(k, f);
    }
    assert Split(x, "<<<")[0] == named + ">>>" + Split(y, "<<<")[0] by {
      FirstPieceAfterFree(named + ">>>", y, "<<<");
    }
    SplitAtFree(named, ">>>", Split(y, "<<<")[0]);
  }

  /** What follows the file name's `>>>` in a section. */
  function SectionRest(k: Kind, f: string, c: string): string {
    c + EndMarker(KindName(k)) + (" " + f + ">>>")[..3]
  }

  lemma SectionAfterMarker(k: Kind, f: string, c: string)
    ensures Section(k, f, c) == "" + "<<<" + ((Named(k, f) + ">>>") + SectionRest(k, f, c))
  {
  }

  lemma NamedFree(k: Kind, f: string)
    requires NoAngles(f)
    ensures NoAngles(Named(k, f)) && '<' !in Named(k, f) + ">>>"
  {
    KindFacts(k);
  }

  /** Removing `"<tag> START: "` leaves the name, which cannot hold that text again. */
  lemma NamedUnprefixed(k: Kind, f: string)
    requires k != Doc && ':' !in f
    ensures Replace(Named(k, f), SlicedTag(k) + " START: ", "") == f
  {
    KindFacts(k);
    var target := SlicedTag(k) + " START: ";
    assert Split(Named(k, f), target) == ["", f] by {
      assert Named(k, f) == "" + target + f;
      SplitAtFree("", target, f);
      AbsentChar(f, target, |target| - 2);
      SplitAlone(f, target);
    }
    assert Join(["", f], "") == f;
  }

  /** Cutting at the last `<<<` of text ending in `<<<` and bracket-free text. */
  lemma BeforeLastMarker(a: string, w: string)
    requires '<' !in w
    ensures BeforeLast(a + "<<<" + w, "<<<") == a
  {
    var b := "<<<" + w;
    OccursAtFront("<<<", w);
    forall i | 0 < i
      ensures !OccursAt(b, "<<<", i)
    {
      if i < 3 && w != [] {
        NotOccursAt(b, "<<<", i, 3 - i);
      } else if i + 3 <= |b| {
        NotOccursAt(b, "<<<", i, 0);
      }
    }
    assert a + "<<<" + w == a + b;
    BeforeLastOf(a, b, "<<<");
  }

  /** Text free of `<` after an opening free of `>`: the content is what lies
      between the first `>>>` and the `<<<` that follows it. */
  lemma ContentBetween(opening: string, c: string, w: string)
    requires '>' !in opening && '<' !in w
    ensures SplitOnce(opening + ">>>" + c + "<<<" + w, ">>>") == Some((opening, c + "<<<" + w))
    ensures BeforeLast(c + "<<<" + w, "<<<") == c
  {
    assert opening + ">>>" + c + "<<<" + w == opening + ">>>" + (c + "<<<" + w);
    SplitAtFree(opening, ">>>", c + "<<<" + w);
    BeforeLastMarker(c, w);
  }

  /** The last three characters the cut keeps hold no `<`. */
  lemma KeptTailFree(f: string)
    requires '<' !in f
    ensures '<' !in (" " + f + ">>>")[..3]
  {
    var t := " " + f + ">>>";
    forall i | 0 <= i < 3
      ensures t[..3][i] != '<'
    {
      assert t[..3][i] == t[i];
      if 0 < i <= |f| {
        assert t[i] == f[i - 1];
      }
    }
  }

  /** What follows the `<<<` of a section's end marker. */
  function EndWord(k: Kind, f: string): string {
    KindName(k) + " END:" + (" " + f + ">>>")[..3]
  }

  lemma SectionShape(k: Kind, f: string, c: string)
    ensures Section(k, f, c) == (StartMarker(k) + " " + f) + ">>>" + c + "<<<" + EndWord(k, f)
    ensures c + EndMarker(KindName(k)) + (" " + f + ">>>")[..3] == c + "<<<" + EndWord(k, f)
  {
  }

  /** The content sliced from a section is the written body, whatever it holds. */
  lemma SectionContent(k: Kind, f: string, c: string)
    requires NoAngles(f)
    ensures Contains(Section(k, f, c), ">>>")
    ensures SplitOnce(Section(k, f, c), ">>>") == Some((StartMarker(k) + " " + f,
              c + EndMarker(KindName(k)) + (" " + f + ">>>")[..3]))
    ensures BeforeLast(c + EndMarker(KindName(k)) + (" " + f + ">>>")[..3], "<<<") == c
  {
    KindFacts(k);
    KeptTailFree(f);
    SectionShape(k, f, c);
    ContentBetween(StartMarker(k) + " " + f, c, EndWord(k, f));
  }

  /** One pass over a CODE or FILE block (followed by anything) whose body
      does not hold its end marker extracts that block, stripped, and
      continues after the cut. */
  lemma StepOnBlock(k: Kind, f: string, c: string, rest: string)
    requires k != Doc && NoAngles(f) && ':' !in f && BodyFree(k, c)
    ensures Step(BlockText(k, f, c) + rest)
            == Advance(Block(SlicedTag(k), Strip(f), Strip(c)), BlockTail(f) + rest)
  {
    StepCutsSection(k, f, c, rest);
    SectionName(k, f, c);
    NamedUnprefixed(k, f);
    SectionContent(k, f, c);
    CutUnfold(Section(k, f, c), SlicedTag(k), BlockTail(f) + rest);
  }
}
