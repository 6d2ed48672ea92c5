/** What the parser makes of whole replies: a reply of well-formed CODE and
    FILE blocks, with prose between them, yields exactly those blocks, the
    last one per file name winning; replies whose first block is a DOC block
    or has a mismatched end marker stop the parser; an end marker written
    before the start marker makes it raise. */
module ParsedReplies {
  import opened Wrappers
  import opened Strings
  import opened ResponseParser
  import opened ResponseParserProofs
  import LastWins

  /** The text the parser's cut leaves of a block's closing line holds no `<`. */
  lemma BlockTailFree(f: string)
    requires '<' !in f
    ensures '<' !in BlockTail(f)
  {
    var t := " " + f + ">>>";
    forall i | 0 <= i < |BlockTail(f)|
      ensures BlockTail(f)[i] != '<'
    {
      assert BlockTail(f)[i] == t[i + 3];
      if i + 3 <= |f| {
        assert t[i + 3] == f[i + 2];
      }
    }
  }

  /** The block the parser extracts from `<<<KIND START: f>>>c<<<KIND END: f>>>`. */
  function Extract(k: Kind, f: string, c: string): Block {
    Block(SlicedTag(k), Strip(f), Strip(c))
  }

  /** Parsing a reply that opens with a CODE or FILE block, whose body does
      not hold its end marker, stores that block and parses the rest. */
  lemma ParseBlock(k: Kind, f: string, c: string, rest: string, acc: Extracted)
    requires k != Doc && NoAngles(f) && ':' !in f && BodyFree(k, c)
    ensures ParseLoop(BlockText(k, f, c) + rest, acc) == ParseLoop(rest, Store(acc, Extract(k, f, c)))
  {
    var s := BlockText(k, f, c) + rest;
    assert s[0] == '<';
    StepOnBlock(k, f, c, rest);
    BlockTailFree(f);
    ParseIgnoresLeadingText(BlockTail(f), rest, Store(acc, Extract(k, f, c)));
  }

  /** One block of a reply together with the prose the LLM wrote before it. */
  datatype Item = Item(prose: string, kind: Kind, name: string, body: string)

  /** A CODE or FILE block `<<<KIND START: name>>>body<<<KIND END: name>>>`
      after prose that holds no `<<<`; the name holds no angle brackets and
      no `:`, and the body does not hold `<<<KIND END:` of its own kind. */
  predicate WellFormed(it: Item) {
    !Contains(it.prose, "<<<") && it.kind != Doc && NoAngles(it.name) && ':' !in it.name
    && BodyFree(it.kind, it.body)
  }

  /** The reply text of a sequence of items. */
  function Render(items: seq<Item>): string
    decreases |items|
  {
    if items == [] then []
    else items[0].prose + BlockText(items[0].kind, items[0].name, items[0].body) + Render(items[1..])
  }

  /** The maps after storing the items' blocks in order. */
  function StoreAll(acc: Extracted, items: seq<Item>): Extracted
    decreases |items|
  {
    if items == [] then acc
    else StoreAll(Store(acc, Extract(items[0].kind, items[0].name, items[0].body)), items[1..])
  }

  /** Parsing well-formed items followed by prose without `<<<` extracts
      every block, in order, and never raises. */
  lemma {:induction false} ParseReply(items: seq<Item>, tail: string, acc: Extracted)
    requires forall i :: 0 <= i < |items| ==> WellFormed(items[i])
    requires !Contains(tail, "<<<")
    ensures ParseLoop(Render(items) + tail, acc) == Ok(StoreAll(acc, items))
    decreases |items|
  {
    if items == [] {
      assert Render(items) + tail == tail;
      ParseOfPlainText(tail, acc);
    } else {
      var it := items[0];
      var more := Render(items[1..]) + tail;
      RenderCons(items, tail);
      ParseItem(it, more, acc);
      ParseReply(items[1..], tail, Store(acc, Extract(it.kind, it.name, it.body)));
    }
  }

  lemma RenderCons(items: seq<Item>, tail: string)
    requires items != []
    ensures Render(items) + tail
            == items[0].prose + (BlockText(items[0].kind, items[0].name, items[0].body) + (Render(items[1..]) + tail))
  {
  }

  /** One well-formed item in front of more text: its block is stored and
      parsing goes on with the text after it. */
  lemma ParseItem(it: Item, more: string, acc: Extracted)
    requires WellFormed(it)
    ensures ParseLoop(it.prose + (BlockText(it.kind, it.name, it.body) + more), acc)
            == ParseLoop(more, Store(acc, Extract(it.kind, it.name, it.body)))
  {
    var block := BlockText(it.kind, it.name, it.body);
    assert OccursAt(block + more, "<<<", 0) by {
      assert (block + more)[..3] == OpenText(it.kind, it.name)[..3];
    }
    ParseIgnoresLeadingText(it.prose, block + more, acc);
    ParseBlock(it.kind, it.name, it.body, more, acc);
  }

  /** The (name, content) assignment one item of kind `k` makes: none when
      its kind differs or its stripped content is empty (`if content:`). */
  function PairOf(it: Item, k: Kind): seq<(string, string)> {
    if it.kind == k && Strip(it.body) != [] then [(Strip(it.name), Strip(it.body))] else []
  }

  /** The assignments the items of kind `k` make, in reply order. */
  function Pairs(items: seq<Item>, k: Kind): seq<(string, string)>
    decreases |items|
  {
    if items == [] then [] else PairOf(items[0], k) + Pairs(items[1..], k)
  }

  /** Storing one CODE or FILE block assigns its pair to the matching dictionary. */
  lemma StoreIsAssign(acc: Extracted, it: Item)
    requires it.kind != Doc
    ensures Store(acc, Extract(it.kind, it.name, it.body))
            == Extracted(LastWins.Assign(acc.code, PairOf(it, Code)), acc.doc,
                         LastWins.Assign(acc.file, PairOf(it, File)))
  {
    var b := Extract(it.kind, it.name, it.body);
    LastWins.AssignNone(acc.code);
    LastWins.AssignNone(acc.file);
    if b.content != [] {
      var p := (b.filename, b.content);
      if it.kind == Code {
        assert b.tag == "CODE" && PairOf(it, Code) == [p] && PairOf(it, File) == [];
        LastWins.AssignSingle(acc.code, p);
      } else {
        assert b.tag == "FILE" && PairOf(it, File) == [p] && PairOf(it, Code) == [];
        LastWins.AssignSingle(acc.file, p);
      }
    }
  }

  /** Storing the blocks of CODE and FILE items is assigning their pairs,
      kind by kind, to the matching dictionary. */
  lemma {:induction false} StoreAllIsAssign(acc: Extracted, items: seq<Item>)
    requires forall i :: 0 <= i < |items| ==> items[i].kind != Doc
    ensures StoreAll(acc, items)
            == Extracted(LastWins.Assign(acc.code, Pairs(items, Code)), acc.doc,
                         LastWins.Assign(acc.file, Pairs(items, File)))
    decreases |items|
  {
    if items != [] {
      var it := items[0];
      var acc' := Store(acc, Extract(it.kind, it.name, it.body));
      assert it.kind != Doc;
      StoreIsAssign(acc, it);
      StoreAllIsAssign(acc', items[1..]);
      LastWins.AssignConcat(acc.code, PairOf(it, Code), Pairs(items[1..], Code));
      LastWins.AssignConcat(acc.file, PairOf(it, File), Pairs(items[1..], File));
    }
  }

  /** The whole round trip: a reply of well-formed CODE and FILE blocks, with
      prose between them, yields the dictionaries filled by assigning each
      block's stripped name and content in reply order; the DOC dictionary is
      empty. */
  lemma ParseWellFormedReply(items: seq<Item>, tail: string, language: string)
    requires forall i :: 0 <= i < |items| ==> WellFormed(items[i])
    requires !Contains(tail, "<<<")
    ensures ParseLlmResponse(Render(items) + tail, language)
            == Ok(Extracted(LastWins.Assign(map[], Pairs(items, Code)), map[],
                            LastWins.Assign(map[], Pairs(items, File))))
  {
    ParseReply(items, tail, NoBlocks);
    StoreAllIsAssign(NoBlocks, items);
  }

  /** The dictionary of a reply's extraction that holds blocks of kind `k`. */
  function MapOf(e: Extracted, k: Kind): map<string, string> {
    match k
    case Code => e.code
    case Doc => e.doc
    case File => e.file
  }

  /** A later block with the same kind and file name overwrites an earlier one. */
  lemma LaterBlockOverwrites(k: Kind, f: string, c1: string, c2: string, language: string)
    requires k != Doc && NoAngles(f) && ':' !in f && BodyFree(k, c1) && BodyFree(k, c2)
    requires !AllSpace(c2)
    ensures var r := ParseLlmResponse(BlockText(k, f, c1) + BlockText(k, f, c2), language);
            r.Ok? && Strip(f) in MapOf(r.value, k) && MapOf(r.value, k)[Strip(f)] == Strip(c2)
  {
    var b1 := BlockText(k, f, c1);
    var b2 := BlockText(k, f, c2);
    var acc1 := Store(NoBlocks, Extract(k, f, c1));
    assert ParseLlmResponse(b1 + b2, language) == Ok(Store(acc1, Extract(k, f, c2))) by {
      assert ParseLoop(b1 + b2, NoBlocks) == ParseLoop(b2, acc1) by {
        ParseBlock(k, f, c1, b2, NoBlocks);
      }
      assert ParseLoop(b2, acc1) == Ok(Store(acc1, Extract(k, f, c2))) by {
        assert b2 + "" == b2;
        ParseBlock(k, f, c2, "", acc1);
      }
    }
    StoreContent(acc1, k, f, c2);
  }

  /** Storing a CODE or FILE block with content sets its name in the matching dictionary. */
  lemma StoreContent(acc: Extracted, k: Kind, f: string, c: string)
    requires k != Doc && !AllSpace(c)
    ensures MapOf(Store(acc, Extract(k, f, c)), k) == MapOf(acc, k)[Strip(f) := Strip(c)]
  {
    var b := Extract(k, f, c);
    assert b.content != [];
    if k == Code {
      assert b.tag == "CODE";
    } else {
      assert b.tag == "FILE";
      assert b.tag != "CODE" && b.tag != "DOC";
    }
  }

  /** Whitespace-only content adds nothing (`if content:`). */
  lemma BlankBodyAddsNothing(k: Kind, f: string, c: string, rest: string, acc: Extracted)
    requires k != Doc && NoAngles(f) && ':' !in f && BodyFree(k, c)
    requires AllSpace(c)
    ensures ParseLoop(BlockText(k, f, c) + rest, acc) == ParseLoop(rest, acc)
  {
    ParseBlock(k, f, c, rest, acc);
  }

  /** A reply of one CODE or FILE block whose body does not hold its end marker. */
  lemma ParseSingleBlock(k: Kind, f: string, c: string, language: string)
    requires k != Doc && NoAngles(f) && ':' !in f && BodyFree(k, c)
    ensures ParseLlmResponse(BlockText(k, f, c), language) == Ok(Store(NoBlocks, Extract(k, f, c)))
  {
    assert BlockText(k, f, c) + "" == BlockText(k, f, c);
    ParseBlock(k, f, c, "", NoBlocks);
  }

  lemma ExampleNamesPlain()
    ensures NoAngles("a.py") && ':' !in "a.py" && BodyFree(Code, "content")
  {
  }

  lemma ExampleOpen()
    ensures OpenText(Code, "a.py") == "<<<CODE START: a.py>>>"
  {
  }

  lemma ExampleClose()
    ensures CloseText(Code, "a.py") == "<<<CODE END: a.py>>>"
  {
  }

  /** A CODE or FILE block whose name and content are already stripped is
      stored as written. */
  lemma StoreStripped(k: Kind, f: string, c: string)
    requires k != Doc && IsStripped(f) && IsStripped(c) && c != []
    ensures Store(NoBlocks, Extract(k, f, c))
            == if k == Code then Extracted(map[f := c], map[], map[]) else Extracted(map[], map[], map[f := c])
  {
    StripStripped(f);
    StripStripped(c);
    assert k == File ==> SlicedTag(k) != "CODE";
  }

  lemma ExampleStore()
    ensures Store(NoBlocks, Extract(Code, "a.py", "content")) == Extracted(map["a.py" := "content"], map[], map[])
  {
    var f, c := "a.py", "content";
    assert IsStripped(f) && IsStripped(c);
    StoreStripped(Code, f, c);
  }

  /** The reply `<<<CODE START: a.py>>>content<<<CODE END: a.py>>>` yields the
      code dictionary `{"a.py": "content"}` and two empty ones. */
  lemma SingleCodeBlockExample(reply: string, language: string)
    requires reply == "<<<CODE START: a.py>>>" + "content" + "<<<CODE END: a.py>>>"
    ensures ParseLlmResponse(reply, language) == Ok(Extracted(map["a.py" := "content"], map[], map[]))
  {
    ExampleOpen();
    ExampleClose();
    ExampleNamesPlain();
    ParseSingleBlock(Code, "a.py", "content", language);
    ExampleStore();
  }
}
