/** When the parser stops early or raises: no start marker, a block whose end
    marker (as the parser derives it) is missing, which covers every DOC
    block and every block closed by another kind's end marker, and an end
    marker that precedes its start marker. */
module ParserStops {
  import opened Wrappers
  import opened Strings
  import opened ResponseParser
  import opened ResponseParserProofs

  /** A reply holding none of the three start markers yields nothing and
      does not raise (main.py:88-90). */
  lemma NoStartMarkerNothing(s: string, acc: Extracted)
    requires !Contains(s, StartMarker(Code)) && !Contains(s, StartMarker(Doc)) && !Contains(s, StartMarker(File))
    ensures ParseLoop(s, acc) == Ok(acc)
  {
    EarliestStartIsMinOfFinds(s);
    StepHalts(s);
  }

  /** A reply whose earliest start marker is of kind `k` and which lacks the
      end marker derived from it stops: nothing more is extracted
      (main.py:93-98). */
  lemma MissingEndMarkerStops(s: string, k: Kind, acc: Extracted)
    requires EarliestStart(s) >= 0 && OccursAt(s, StartMarker(k), EarliestStart(s))
    requires !Contains(s, EndMarker(SlicedTag(k)))
    ensures ParseLoop(s, acc) == Ok(acc)
  {
    TagOfStart(s, EarliestStart(s), k);
    StepHalts(s);
  }

  /** Where a marker occurs, a marker differing from it at index `j` does not. */
  lemma MarkersDiffer(s: string, m1: string, m2: string, i: int, j: int)
    requires OccursAt(s, m1, i) && 0 <= j < |m1| && j < |m2| && m1[j] != m2[j]
    ensures !OccursAt(s, m2, i)
  {
    assert s[i + j] == s[i..i + |m1|][j];
  }

  /** Where a start marker occurs, the end marker derived from it does not:
      `START` is not `END`, and for DOC the derived marker has two spaces. */
  lemma StartIsNotEnd(s: string, k: Kind, i: int)
    requires OccursAt(s, StartMarker(k), i)
    ensures !OccursAt(s, EndMarker(SlicedTag(k)), i)
  {
    match k
    case Code => MarkersDiffer(s, StartMarker(k), EndMarker(SlicedTag(k)), i, 8);
    case Doc => MarkersDiffer(s, StartMarker(k), EndMarker(SlicedTag(k)), i, 7);
    case File => MarkersDiffer(s, StartMarker(k), EndMarker(SlicedTag(k)), i, 8);
  }

  /** Where the end marker of kind `k2` occurs, the marker the parser derives
      for kind `k1` does not, when the kinds differ or `k1` is DOC. */
  lemma EndIsNotDerivedEnd(s: string, k1: Kind, k2: Kind, i: int)
    requires k2 != k1 || k1 == Doc
    requires OccursAt(s, EndMarker(KindName(k2)), i)
    ensures !OccursAt(s, EndMarker(SlicedTag(k1)), i)
  {
    if k2 == k1 {
      MarkersDiffer(s, EndMarker(KindName(k2)), EndMarker(SlicedTag(k1)), i, 7);
    } else {
      MarkersDiffer(s, EndMarker(KindName(k2)), EndMarker(SlicedTag(k1)), i, 3);
    }
  }

  /** A marker starting with `<<<` occurs neither one nor two characters
      before a character other than `<` that sits at `p + 3`. */
  lemma NotJustAfterOpening(s: string, pat: string, p: nat)
    requires |pat| > 3 && pat[..3] == "<<<"
    requires p + 3 < |s| && s[p + 3] != '<'
    ensures !OccursAt(s, pat, p + 1) && !OccursAt(s, pat, p + 2)
  {
    assert pat[1] == '<' && pat[2] == '<';
    if p + 1 + |pat| <= |s| {
      NotOccursAt(s, pat, p + 1, 2);
    }
    if p + 2 + |pat| <= |s| {
      NotOccursAt(s, pat, p + 2, 1);
    }
  }

  /** The character at offset `j` of an occurrence. */
  lemma MarkerChar(s: string, m: string, i: int, j: int)
    requires OccursAt(s, m, i) && 0 <= j < |m|
    ensures s[i + j] == m[j]
  {
    assert s[i + j] == s[i..i + |m|][j];
  }

  /** A marker starting with `<` occurs nowhere in a run free of `<`. */
  lemma NotInFreeRun(s: string, pat: string, lo: int, hi: int)
    requires |pat| > 0 && pat[0] == '<' && 0 <= lo <= hi <= |s|
    requires forall i :: lo <= i < hi ==> s[i] != '<'
    ensures forall i :: lo <= i < hi ==> !OccursAt(s, pat, i)
  {
    forall i | lo <= i < hi
      ensures !OccursAt(s, pat, i)
    {
      NotOccursAt(s, pat, i, 0);
    }
  }

  /** The text of a block opened with kind `k1` and closed with kind `k2`. */
  function MixedBlock(k1: Kind, k2: Kind, f: string, c: string): string {
    OpenText(k1, f) + c + CloseText(k2, f)
  }

  lemma MixedBlockOpens(k1: Kind, k2: Kind, f: string, c: string, rest: string)
    ensures OccursAt(MixedBlock(k1, k2, f, c) + rest, StartMarker(k1), 0)
  {
    var m := StartMarker(k1);
    assert OccursAt(m, m, 0);
    OccursExtends(m, " ", m, 0);
    OccursExtends(m + " ", f, m, 0);
    OccursExtends(m + " " + f, ">>>", m, 0);
    OccursExtends(OpenText(k1, f), c, m, 0);
    OccursExtends(OpenText(k1, f) + c, CloseText(k2, f), m, 0);
    OccursExtends(MixedBlock(k1, k2, f, c), rest, m, 0);
  }

  /** From a start marker of kind `k1` up to the next `<`, the end marker
      derived from `k1` does not occur. */
  lemma NoEndInOpening(s: string, k1: Kind, n: nat)
    requires OccursAt(s, StartMarker(k1), 0) && 3 < n <= |s|
    requires forall i :: 3 <= i < n ==> s[i] != '<'
    ensures forall i :: 0 <= i < n ==> !OccursAt(s, EndMarker(SlicedTag(k1)), i)
  {
    var em := EndMarker(SlicedTag(k1));
    assert em[..3] == "<<<" && |em| == 12 && em[0] == '<' by {
      KindFacts(k1);
    }
    StartIsNotEnd(s, k1, 0);
    assert s[3] != '<' by {
      KindFacts(k1);
      MarkerChar(s, StartMarker(k1), 0, 3);
    }
    NotJustAfterOpening(s, em, 0);
    NotInFreeRun(s, em, 3, n);
    forall i | 0 <= i < n
      ensures !OccursAt(s, em, i)
    {
      if i >= 3 {
        assert 3 <= i < n;
      }
    }
  }

  /** From an end marker of kind `k2` up to the next `<`, the end marker
      derived from `k1` does not occur, when the kinds differ or `k1` is DOC. */
  lemma NoEndInClosing(s: string, k1: Kind, k2: Kind, p: nat, n: nat)
    requires k2 != k1 || k1 == Doc
    requires OccursAt(s, EndMarker(KindName(k2)), p) && p + 3 < n <= |s|
    requires forall i :: p + 3 <= i < n ==> s[i] != '<'
    ensures forall i :: p <= i < n ==> !OccursAt(s, EndMarker(SlicedTag(k1)), i)
  {
    var em := EndMarker(SlicedTag(k1));
    assert em[..3] == "<<<" && |em| == 12 && em[0] == '<' by {
      KindFacts(k1);
    }
    EndIsNotDerivedEnd(s, k1, k2, p);
    assert s[p + 3] != '<' by {
      KindFacts(k2);
      MarkerChar(s, EndMarker(KindName(k2)), p, 3);
    }
    NotJustAfterOpening(s, em, p);
    NotInFreeRun(s, em, p + 3, n);
    forall i | p <= i < n
      ensures !OccursAt(s, em, i)
    {
      if i >= p + 3 {
        assert p + 3 <= i < n;
      }
    }
  }

  /** After its leading `<<<`, an opening marker holds no `<`. */
  lemma OpeningFree(k1: Kind, f: string)
    requires '<' !in f
    ensures |OpenText(k1, f)| > 3
    ensures forall j :: 3 <= j < |OpenText(k1, f)| ==> OpenText(k1, f)[j] != '<'
  {
    KindFacts(k1);
    var w := KindName(k1) + " START:" + " " + f + ">>>";
    assert OpenText(k1, f) == "<<<" + w;
    assert '<' !in w;
  }

  /** After its leading `<<<`, a closing marker holds no `<`. */
  lemma ClosingFree(k2: Kind, f: string)
    requires '<' !in f
    ensures |CloseText(k2, f)| > 3
    ensures forall j :: 3 <= j < |CloseText(k2, f)| ==> CloseText(k2, f)[j] != '<'
  {
    KindFacts(k2);
    var w := KindName(k2) + " END:" + " " + f + ">>>";
    assert CloseText(k2, f) == "<<<" + w;
    assert '<' !in w;
  }

  /** A closing marker starts with the end marker of its kind. */
  lemma ClosingOpensWithEnd(k2: Kind, f: string)
    ensures OccursAt(CloseText(k2, f), EndMarker(KindName(k2)), 0)
  {
    var m := EndMarker(KindName(k2));
    assert OccursAt(m, m, 0);
    OccursExtends(m, " ", m, 0);
    OccursExtends(m + " ", f, m, 0);
    OccursExtends(m + " " + f, ">>>", m, 0);
  }

  /** The end marker the parser derives is `<<<` followed by no further `<`. */
  lemma DerivedEndOpens(k: Kind)
    ensures var em := EndMarker(SlicedTag(k));
            |em| > 3 && em[..3] == "<<<" && '<' !in em[3..]
  {
    KindFacts(k);
    var em := EndMarker(SlicedTag(k));
    assert em[3..] == SlicedTag(k) + " END:";
  }

  /** From a closing marker to its end, the end marker derived from `k1`
      does not begin, when the kinds differ or `k1` is DOC. */
  lemma NoEndInCloseText(k1: Kind, k2: Kind, f: string, rest: string)
    requires k2 != k1 || k1 == Doc
    requires '<' !in f
    ensures forall i :: 0 <= i < |CloseText(k2, f)| ==>
              !OccursAt(CloseText(k2, f) + rest, EndMarker(SlicedTag(k1)), i)
  {
    var x := CloseText(k2, f) + rest;
    ClosingOpensWithEnd(k2, f);
    OccursExtends(CloseText(k2, f), rest, EndMarker(KindName(k2)), 0);
    ClosingFree(k2, f);
    assert forall i :: 3 <= i < |CloseText(k2, f)| ==> x[i] != '<' by {
      forall i | 3 <= i < |CloseText(k2, f)|
        ensures x[i] != '<'
      {
        assert x[i] == CloseText(k2, f)[i];
      }
    }
    NoEndInClosing(x, k1, k2, 0, |CloseText(k2, f)|);
  }

  /** Behind a body free of it, the end marker derived from `k1` begins
      neither in the body nor in the closing marker that follows. */
  lemma NoEndInBodyAndClose(k1: Kind, k2: Kind, f: string, c: string, rest: string)
    requires k2 != k1 || k1 == Doc
    requires '<' !in f && !Contains(c, EndMarker(SlicedTag(k1)))
    ensures forall i :: 0 <= i < |c| + |CloseText(k2, f)| ==>
              !OccursAt(c + (CloseText(k2, f) + rest), EndMarker(SlicedTag(k1)), i)
  {
    var em := EndMarker(SlicedTag(k1));
    var x := CloseText(k2, f) + rest;
    NoEndInCloseText(k1, k2, f, rest);
    DerivedEndOpens(k1);
    assert x[..3] == "<<<" by {
      KindFacts(k2);
      assert x[..3] == CloseText(k2, f)[..3];
    }
    NoMarkerAcross(c, em, x);
    forall i | |c| <= i < |c| + |CloseText(k2, f)|
      ensures !OccursAt(c + x, em, i)
    {
      OccursAtShift(c, x, em, i - |c|);
    }
  }

  /** With a name free of `<`, the end marker derived from `k1` begins nowhere
      inside the opening marker, whatever follows it. */
  lemma NoEndInOpenText(k1: Kind, f: string, y: string)
    requires '<' !in f
    ensures forall i :: 0 <= i < |OpenText(k1, f)| ==>
              !OccursAt(OpenText(k1, f) + y, EndMarker(SlicedTag(k1)), i)
  {
    var o := OpenText(k1, f);
    var s := o + y;
    var m := StartMarker(k1);
    assert OccursAt(m, m, 0);
    OccursExtends(m, " ", m, 0);
    OccursExtends(m + " ", f, m, 0);
    OccursExtends(m + " " + f, ">>>", m, 0);
    OccursExtends(o, y, m, 0);
    OpeningFree(k1, f);
    forall i | 3 <= i < |o|
      ensures s[i] != '<'
    {
      assert s[i] == o[i];
    }
    NoEndInOpening(s, k1, |o|);
  }

  /** Inside a block that opens with DOC, or whose closing marker is of
      another kind than its opening marker, and whose name holds no `<`, the
      end marker derived from `k1` occurs nowhere, whatever the body holds
      besides that marker. */
  lemma MixedBlockHasNoEnd(k1: Kind, k2: Kind, f: string, c: string, rest: string)
    requires k2 != k1 || k1 == Doc
    requires '<' !in f && !Contains(c, EndMarker(SlicedTag(k1)))
    ensures forall i :: 0 <= i < |MixedBlock(k1, k2, f, c)| ==>
              !OccursAt(MixedBlock(k1, k2, f, c) + rest, EndMarker(SlicedTag(k1)), i)
  {
    var em := EndMarker(SlicedTag(k1));
    var o := OpenText(k1, f);
    var y := c + (CloseText(k2, f) + rest);
    assert MixedBlock(k1, k2, f, c) + rest == o + y;
    NoEndInBodyAndClose(k1, k2, f, c, rest);
    NoEndInOpenText(k1, f, y);
    forall i | |o| <= i < |MixedBlock(k1, k2, f, c)|
      ensures !OccursAt(o + y, em, i)
    {
      OccursAtShift(o, y, em, i - |o|);
    }
  }

  /** A block whose closing marker is not the one the parser derives from its
      opening marker stops the parser when the rest of the reply lacks that
      marker too: every DOC block (the derived marker is `<<<DOC  END:`), and a
      CODE or FILE block closed with another kind's end marker. The name must
      hold no `<` and the body must not hold the derived marker; a body that
      holds it is cut there instead. Nothing of the block or of what follows
      it is extracted. */
  lemma MismatchedBlockStops(k1: Kind, k2: Kind, f: string, c: string, rest: string, acc: Extracted)
    requires k2 != k1 || k1 == Doc
    requires '<' !in f && !Contains(c, EndMarker(SlicedTag(k1)))
    requires !Contains(rest, EndMarker(SlicedTag(k1)))
    ensures ParseLoop(MixedBlock(k1, k2, f, c) + rest, acc) == Ok(acc)
  {
    var s := MixedBlock(k1, k2, f, c) + rest;
    var em := EndMarker(SlicedTag(k1));
    assert EarliestStart(s) == 0 && OccursAt(s, StartMarker(k1), 0) by {
      MixedBlockOpens(k1, k2, f, c, rest);
      assert StartsBlockAt(s, 0);
    }
    assert !Contains(s, em) by {
      MixedBlockHasNoEnd(k1, k2, f, c, rest);
      FindPastPrefix(MixedBlock(k1, k2, f, c), rest, em);
    }
    MissingEndMarkerStops(s, k1, acc);
  }

  /** A DOC block, `<<<DOC START: name>>>body<<<DOC END: name>>>`, whose name
      holds no `<` and whose body does not hold `<<<DOC  END:`, ends the parse. */
  lemma DocBlockStopsParsing(f: string, c: string, rest: string, acc: Extracted)
    requires '<' !in f && !Contains(c, EndMarker(SlicedTag(Doc)))
    requires !Contains(rest, EndMarker(SlicedTag(Doc)))
    ensures ParseLoop(BlockText(Doc, f, c) + rest, acc) == Ok(acc)
  {
    MismatchedBlockStops(Doc, Doc, f, c, rest, acc);
  }

  /** A start marker begins with `<<<`. */
  lemma StartOpens(s: string, i: int)
    requires StartsBlockAt(s, i)
    ensures 0 <= i && i + 13 <= |s| && s[i] == '<' && s[i + 1] == '<' && s[i + 2] == '<'
  {
    var k := if OccursAt(s, StartMarker(Code), i) then Code
             else if OccursAt(s, StartMarker(Doc), i) then Doc else File;
    KindFacts(k);
    MarkerChar(s, StartMarker(k), i, 0);
    MarkerChar(s, StartMarker(k), i, 1);
    MarkerChar(s, StartMarker(k), i, 2);
  }

  /** An end marker found before a start marker ends before it: its letters
      cannot hold the start marker's `<<<`. */
  lemma EndBeforeStartGap(s: string, start: int, e: int, em: string)
    requires StartsBlockAt(s, start)
    requires OccursAt(s, em, e) && e < start
    requires |em| == 12 && forall j :: 3 <= j < 12 ==> em[j] != '<'
    ensures e + 12 <= start
  {
    StartOpens(s, start);
    var d := start - e;
    if d < 3 {
      MarkerChar(s, em, e, 3);
      assert false;
    } else if d < 12 {
      MarkerChar(s, em, e, d);
      assert false;
    }
  }

  /** The end marker derived at a start marker holds `<` only in its `<<<`. */
  lemma DerivedEndShape(s: string, start: int)
    requires StartsBlockAt(s, start)
    ensures |EndMarker(TagAt(s, start))| == 12
    ensures forall j :: 3 <= j < 12 ==> EndMarker(TagAt(s, start))[j] != '<'
  {
    StartTags(s, start);
    var em := EndMarker(TagAt(s, start));
    assert em == "<<<" + TagAt(s, start) + " END:";
    assert '<' !in TagAt(s, start) + " END:";
    forall j | 3 <= j < 12
      ensures em[j] != '<'
    {
      assert em[j] == (TagAt(s, start) + " END:")[j - 3];
    }
  }

  /** The section cut from a start marker to fifteen characters past an end
      marker found before it is at most `<<<`: it lacks `>>>`. */
  lemma ShortSection(s: string, start: int, e: int)
    requires StartsBlockAt(s, start) && 0 <= e && e + 12 <= start
    ensures !Contains(Slice(s, start, e + 15), ">>>")
    ensures e + 15 <= start ==> Slice(s, start, e + 15) == []
  {
    StartOpens(s, start);
    var section := Slice(s, start, e + 15);
    assert |section| <= 3;
    forall j | 0 <= j < |section|
      ensures section[j] == '<'
    {
      assert section[j] == s[start + j];
    }
    AbsentChar(section, ">>>", 0);
  }

  /** An end marker written before its start marker makes the pass raise
      (main.py:95-102): the section is at most `<<<`, so it lacks `>>>`; when
      the end marker lies fifteen or more characters before the start, the
      section is empty and `split('<<<')[1]` is the failing index. */
  lemma EndBeforeStartRaises(s: string, acc: Extracted)
    requires EarliestStart(s) >= 0
    requires 0 <= Find(s, EndMarker(TagAt(s, EarliestStart(s)))) < EarliestStart(s)
    ensures Step(s).Raise?
    ensures Find(s, EndMarker(TagAt(s, EarliestStart(s)))) + 15 <= EarliestStart(s) ==> Step(s) == Raise(NoFilenamePiece)
    ensures ParseLoop(s, acc) == Err(Step(s).error)
  {
    var start := EarliestStart(s);
    var tag := TagAt(s, start);
    var e := Find(s, EndMarker(tag));
    assert StartsBlockAt(s, start) by {
      EarliestStartSpec(s);
    }
    DerivedEndShape(s, start);
    EndBeforeStartGap(s, start, e, EndMarker(tag));
    ShortSection(s, start, e);
    StepUnfold(s, start, tag, e);
    if e + 15 <= start {
      AbsentChar([], "<<<", 0);
    }
  }
}
