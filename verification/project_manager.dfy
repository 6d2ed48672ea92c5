/** The project-folder rules of project_manager.py: the bundle of source
    and text files sent along with a prompt, and the code-history backup.
    A folder listing is a sequence of entries; file contents are read
    beforehand, so no file I/O is modelled. */
module ProjectManager {
  import opened Wrappers
  import opened Strings

  /** `s.endswith(suffix)`. */
  predicate EndsWith(s: string, suffix: string) {
    |suffix| <= |s| && s[|s| - |suffix|..] == suffix
  }

  /** Names the backup scan treats as code (project_manager.py:107). */
  predicate IsCodeName(name: string) {
    EndsWith(name, ".py") || EndsWith(name, ".java") || EndsWith(name, ".pl")
  }

  /** Names the bundle takes (project_manager.py:43): code and `.txt`. */
  predicate IsBundledName(name: string) {
    IsCodeName(name) || EndsWith(name, ".txt")
  }

  /** A name ending in a suffix ends in the suffix's last character. */
  lemma LastOfSuffix(s: string, suffix: string)
    ensures EndsWith(s, suffix) && suffix != [] ==> s[|s| - 1] == suffix[|suffix| - 1]
  {
    if EndsWith(s, suffix) && suffix != [] {
      assert s[|s| - 1] == s[|s| - |suffix|..][|suffix| - 1];
    }
  }

  /** A `.txt` name is never a code name. */
  lemma TextIsNotCode(name: string)
    requires EndsWith(name, ".txt")
    ensures !IsCodeName(name) && IsBundledName(name)
  {
    LastOfSuffix(name, ".txt");
    LastOfSuffix(name, ".py");
    LastOfSuffix(name, ".java");
    LastOfSuffix(name, ".pl");
  }

  // ---------------------------------------------------------------------
  // The bundle (upload_project_code_and_docs)
  // ---------------------------------------------------------------------

  /** One entry of `os.listdir`: its name, whether it is a regular file,
      and what reading it gives. */
  datatype Entry = Entry(name: string, isFile: bool, content: string)

  /** Whether an entry contributes to the bundle (project_manager.py:43-45). */
  predicate Bundled(e: Entry) {
    IsBundledName(e.name) && e.isFile
  }

  /** The text one contributing entry adds (project_manager.py:48). */
  function Section(e: Entry): string {
    "\n\n---\n\nFile: " + e.name + "\n\n" + e.content + "\n\n"
  }

  /** The contributing entries, in listing order. */
  function Keep(entries: seq<Entry>): (r: seq<Entry>)
    ensures |r| <= |entries|
    ensures forall e :: e in r <==> e in entries && Bundled(e)
  {
    if entries == [] then []
    else if Bundled(entries[0]) then [entries[0]] + Keep(entries[1..])
    else Keep(entries[1..])
  }

  /** The sections of the given entries, in order. */
  function Sections(entries: seq<Entry>): (r: seq<string>)
    ensures |r| == |entries|
    ensures forall i :: 0 <= i < |entries| ==> r[i] == Section(entries[i])
  {
    if entries == [] then [] else [Section(entries[0])] + Sections(entries[1..])
  }

  /** Reference definition of the bundle: the sections of the contributing
      entries, glued together in listing order. Each contributes at least its
      frame, the 17 characters around its name and content. */
  function Bundle(entries: seq<Entry>): (r: string)
    ensures |r| >= 17 * |Keep(entries)|
  {
    SectionsLength(Keep(entries));
    Concat(Sections(Keep(entries)))
  }

  lemma {:induction false} SectionsLength(entries: seq<Entry>)
    ensures |Concat(Sections(entries))| >= 17 * |entries|
    decreases |entries|
  {
    if entries != [] {
      SectionsLength(entries[1..]);
      assert Sections(entries)[1..] == Sections(entries[1..]);
      assert |Section(entries[0])| >= 17;
    }
  }

  lemma {:induction false} KeepAppend(a: seq<Entry>, b: seq<Entry>)
    ensures Keep(a + b) == Keep(a) + Keep(b)
    decreases |a|
  {
    if a != [] {
      ConsOfConcat(a, b);
      KeepAppend(a[1..], b);
      if Bundled(a[0]) {
        assert Keep(a + b) == [a[0]] + Keep(a[1..] + b);
        ConcatAssoc([a[0]], Keep(a[1..]), Keep(b));
      } else {
        assert Keep(a + b) == Keep(a[1..] + b);
      }
    } else {
      assert a + b == b;
    }
  }

  lemma {:induction false} SectionsAppend(a: seq<Entry>, b: seq<Entry>)
    ensures Sections(a + b) == Sections(a) + Sections(b)
    decreases |a|
  {
    if a != [] {
      ConsOfConcat(a, b);
      SectionsAppend(a[1..], b);
      ConcatAssoc([Section(a[0])], Sections(a[1..]), Sections(b));
    }
  }

  lemma {:induction false} ConcatAppend(a: seq<string>, b: seq<string>)
    ensures Concat(a + b) == Concat(a) + Concat(b)
    decreases |a|
  {
    if a != [] {
      ConsOfConcat(a, b);
      ConcatAppend(a[1..], b);
      assert Concat(a + b) == a[0] + Concat(a[1..] + b);
      ConcatAssoc(a[0], Concat(a[1..]), Concat(b));
    } else {
      assert a + b == b;
    }
  }

  /** The bundle of two listings is the bundle of the first followed by
      that of the second. */
  lemma BundleAppend(a: seq<Entry>, b: seq<Entry>)
    ensures Bundle(a + b) == Bundle(a) + Bundle(b)
  {
    KeepAppend(a, b);
    SectionsAppend(Keep(a), Keep(b));
    ConcatAppend(Sections(Keep(a)), Sections(Keep(b)));
  }

  /** A single entry adds its section exactly when it contributes. */
  lemma BundleOne(e: Entry)
    ensures Bundle([e]) == if Bundled(e) then Section(e) else ""
  {
    assert [e][1..] == [];
    if Bundled(e) {
      assert Concat([Section(e)]) == Section(e) + Concat([]);
    }
  }

  /** `upload_project_code_and_docs` (project_manager.py:39-50): the loop of
      the source over the listing. The prompt and the language are not
      used. */
  method UploadProjectCodeAndDocs(entries: seq<Entry>, prompt: string, language: string) returns (bundle: string)
    ensures bundle == Bundle(entries)
  {
    bundle := "";
    for i := 0 to |entries|
      invariant bundle == Bundle(entries[..i])
    {
      var e := entries[i];
      if IsBundledName(e.name) {
        if e.isFile {
          bundle := bundle + Section(e);
        }
      }
      assert entries[..i + 1] == entries[..i] + [e];
      BundleAppend(entries[..i], [e]);
      BundleOne(e);
    }
    assert entries[..|entries|] == entries;
  }

  /** The bundle is empty exactly when no entry contributes; otherwise it
      starts with the first contributing entry's section. */
  lemma BundleEmpty(entries: seq<Entry>)
    ensures Bundle(entries) == "" <==> forall i :: 0 <= i < |entries| ==> !Bundled(entries[i])
    ensures Keep(entries) != [] ==> Bundle(entries) == Section(Keep(entries)[0]) + Bundle(Keep(entries)[1..])
  {
    var kept := Keep(entries);
    if kept != [] {
      assert kept[0] in entries && Bundled(kept[0]);
      assert |Section(kept[0])| > 0;
      assert Keep(kept) == kept by {
        KeepOfKept(kept);
      }
      assert Keep(kept[1..]) == kept[1..] by {
        KeepOfKept(kept[1..]);
      }
    } else {
      forall i | 0 <= i < |entries|
        ensures !Bundled(entries[i])
      {
        assert entries[i] !in kept;
      }
    }
  }

  lemma {:induction false} KeepOfKept(entries: seq<Entry>)
    requires forall i :: 0 <= i < |entries| ==> Bundled(entries[i])
    ensures Keep(entries) == entries
    decreases |entries|
  {
    if entries != [] {
      KeepOfKept(entries[1..]);
    }
  }

  // ---------------------------------------------------------------------
  // The backup (create_code_history_backup)
  // ---------------------------------------------------------------------

  /** A folder tree: files with their contents, and named sub-folders. */
  datatype Node = File(name: string, content: string) | Dir(name: string, children: seq<Node>)

  /** A file found by `os.walk`: the folders from the walked folder down to
      it, its name and its content. */
  datatype Found = Found(dirs: seq<string>, name: string, content: string)

  /** The backup folder's name (project_manager.py:120, 126). */
  const History: string := "code_history"

  /** Files found inside the folder `d`. */
  function Under(d: string, fs: seq<Found>): (r: seq<Found>)
    ensures |r| == |fs|
    ensures forall i :: 0 <= i < |fs| ==> r[i] == Found([d] + fs[i].dirs, fs[i].name, fs[i].content)
  {
    if fs == [] then [] else [Found([d] + fs[0].dirs, fs[0].name, fs[0].content)] + Under(d, fs[1..])
  }

  /** Every file at any depth, as the existence scan walks them
      (project_manager.py:105-106): nothing is pruned. The files found at the
      top are exactly the top-level files. */
  function Walk(nodes: seq<Node>): (r: seq<Found>)
    decreases nodes
    ensures forall i :: 0 <= i < |nodes| && nodes[i].File? ==> Found([], nodes[i].name, nodes[i].content) in r
    ensures forall f :: f in r && f.dirs == [] ==> File(f.name, f.content) in nodes
  {
    if nodes == [] then []
    else
      var here := match nodes[0]
        case File(n, c) => [Found([], n, c)]
        case Dir(d, kids) => Under(d, Walk(kids));
      here + Walk(nodes[1..])
  }

  /** The scan of project_manager.py:104-111: a code file anywhere in the
      tree, old backups included; a top-level code file is always found. */
  function HasCode(nodes: seq<Node>): (b: bool)
    decreases nodes
    ensures (exists i :: 0 <= i < |nodes| && nodes[i].File? && IsCodeName(nodes[i].name)) ==> b
  {
    if nodes == [] then false
    else
      match nodes[0]
      case File(n, _) => IsCodeName(n) || HasCode(nodes[1..])
      case Dir(_, kids) => HasCode(kids) || HasCode(nodes[1..])
  }

  /** The files the copy walk reaches (project_manager.py:124-134): every
      folder named `code_history`, at any depth, is pruned before the walk
      descends into it. Files keep their folder path, which never passes
      through `code_history`; the top-level files are all copied. */
  function Copies(nodes: seq<Node>): (r: seq<Found>)
    decreases nodes
    ensures forall f :: f in r ==> History !in f.dirs
    ensures forall i :: 0 <= i < |nodes| && nodes[i].File? ==> Found([], nodes[i].name, nodes[i].content) in r
    ensures forall f :: f in r && f.dirs == [] ==> File(f.name, f.content) in nodes
  {
    if nodes == [] then []
    else
      var here := match nodes[0]
        case File(n, c) => [Found([], n, c)]
        case Dir(d, kids) => if d == History then [] else Under(d, Copies(kids));
      here + Copies(nodes[1..])
  }

  /** The files of a walk whose path passes through no `code_history`. */
  function Unpruned(fs: seq<Found>): (r: seq<Found>)
    ensures forall f :: f in r <==> f in fs && History !in f.dirs
  {
    if fs == [] then []
    else if History !in fs[0].dirs then [fs[0]] + Unpruned(fs[1..])
    else Unpruned(fs[1..])
  }

  lemma {:induction false} UnprunedAppend(a: seq<Found>, b: seq<Found>)
    ensures Unpruned(a + b) == Unpruned(a) + Unpruned(b)
    decreases |a|
  {
    if a != [] {
      ConsOfConcat(a, b);
      UnprunedAppend(a[1..], b);
      if History !in a[0].dirs {
        assert Unpruned(a + b) == [a[0]] + Unpruned(a[1..] + b);
        ConcatAssoc([a[0]], Unpruned(a[1..]), Unpruned(b));
      } else {
        assert Unpruned(a + b) == Unpruned(a[1..] + b);
      }
    } else {
      assert a + b == b;
    }
  }

  lemma {:induction false} UnprunedUnder(d: string, fs: seq<Found>)
    ensures Unpruned(Under(d, fs)) == if d == History then [] else Under(d, Unpruned(fs))
    decreases |fs|
  {
    if fs != [] {
      UnprunedUnder(d, fs[1..]);
      assert Under(d, fs)[1..] == Under(d, fs[1..]);
      assert History in ([d] + fs[0].dirs) <==> d == History || History in fs[0].dirs;
    }
  }

  /** The copy walk copies exactly the files of the full walk whose path
      passes through no `code_history`, in the same order. Both follow the
      order of the nodes, not the files-before-folders order of `os.walk`;
      no result depends on the order. */
  lemma {:induction false} CopiesArePruned(nodes: seq<Node>)
    ensures Copies(nodes) == Unpruned(Walk(nodes))
    decreases nodes
  {
    if nodes != [] {
      CopiesArePruned(nodes[1..]);
      match nodes[0]
      case File(n, c) =>
        UnprunedAppend([Found([], n, c)], Walk(nodes[1..]));
        assert Unpruned([Found([], n, c)]) == [Found([], n, c)];
      case Dir(d, kids) =>
        CopiesArePruned(kids);
        UnprunedAppend(Under(d, Walk(kids)), Walk(nodes[1..]));
        UnprunedUnder(d, Walk(kids));
    }
  }

  /** The scan finds a code file exactly when the full walk holds one. */
  lemma {:induction false} HasCodeIsWalk(nodes: seq<Node>)
    ensures HasCode(nodes) <==> exists i :: 0 <= i < |Walk(nodes)| && IsCodeName(Walk(nodes)[i].name)
    decreases nodes
  {
    if nodes != [] {
      HasCodeIsWalk(nodes[1..]);
      var rest := Walk(nodes[1..]);
      var here := match nodes[0]
        case File(n, c) => [Found([], n, c)]
        case Dir(d, kids) => Under(d, Walk(kids));
      assert Walk(nodes) == here + rest;
      AnyCodeAppend(here, rest);
      match nodes[0]
      case File(n, c) =>
        assert AnyCode(here) <==> IsCodeName(n) by {
          assert here[0].name == n;
        }
      case Dir(d, kids) =>
        assert HasCode(nodes) == (HasCode(kids) || HasCode(nodes[1..]));
        HasCodeIsWalk(kids);
        AnyCodeUnder(d, Walk(kids));
        assert AnyCode(Walk(kids)) == HasCode(kids);
    }
  }

  /** Some file found has a code name. */
  predicate AnyCode(fs: seq<Found>) {
    exists i :: 0 <= i < |fs| && IsCodeName(fs[i].name)
  }

  lemma AnyCodeAppend(a: seq<Found>, b: seq<Found>)
    ensures AnyCode(a + b) <==> AnyCode(a) || AnyCode(b)
  {
    if AnyCode(a + b) {
      var i :| 0 <= i < |a + b| && IsCodeName((a + b)[i].name);
      if i < |a| {
        assert (a + b)[i] == a[i];
      } else {
        assert (a + b)[i] == b[i - |a|];
      }
    }
    if AnyCode(a) {
      var i :| 0 <= i < |a| && IsCodeName(a[i].name);
      assert (a + b)[i] == a[i];
    }
    if AnyCode(b) {
      var i :| 0 <= i < |b| && IsCodeName(b[i].name);
      assert (a + b)[|a| + i] == b[i];
    }
  }

  lemma AnyCodeUnder(d: string, fs: seq<Found>)
    ensures AnyCode(Under(d, fs)) <==> AnyCode(fs)
  {
    var u := Under(d, fs);
    if AnyCode(u) {
      var i :| 0 <= i < |u| && IsCodeName(u[i].name);
      assert u[i].name == fs[i].name;
    }
    if AnyCode(fs) {
      var i :| 0 <= i < |fs| && IsCodeName(fs[i].name);
      assert u[i].name == fs[i].name;
    }
  }

  /** `create_code_history_backup` (project_manager.py:100-136): `None` when
      the scan finds no code file; otherwise the copies it makes, each under
      `code_history/<timestamp>` at the path it had in the project. The
      timestamp is a parameter. */
  function CreateCodeHistoryBackup(project: seq<Node>, timestamp: string): (r: Option<seq<Found>>)
    ensures r.Some? <==> exists i :: 0 <= i < |Walk(project)| && IsCodeName(Walk(project)[i].name)
    ensures r.Some? ==> r.value == Under(History, Under(timestamp, Unpruned(Walk(project))))
  {
    HasCodeIsWalk(project);
    CopiesArePruned(project);
    if !HasCode(project) then None
    else Some(Under(History, Under(timestamp, Copies(project))))
  }

  /** Text files alone never trigger a backup. */
  lemma TextOnlyNoBackup(project: seq<Node>, timestamp: string)
    requires forall i :: 0 <= i < |Walk(project)| ==> EndsWith(Walk(project)[i].name, ".txt")
    ensures CreateCodeHistoryBackup(project, timestamp).None?
  {
    forall i | 0 <= i < |Walk(project)|
      ensures !IsCodeName(Walk(project)[i].name)
    {
      TextIsNotCode(Walk(project)[i].name);
    }
  }

  /** Code kept only inside an old backup still triggers a new backup, yet
      none of the old backup is copied into it. */
  lemma OldBackupTriggers(kids: seq<Node>, rest: seq<Node>, timestamp: string)
    requires HasCode(kids)
    ensures var project := [Dir(History, kids)] + rest;
            CreateCodeHistoryBackup(project, timestamp)
            == Some(Under(History, Under(timestamp, Copies(rest))))
  {
    var project := [Dir(History, kids)] + rest;
    assert project[0] == Dir(History, kids) && project[1..] == rest;
    assert HasCode(project);
    assert Copies(project) == Copies(rest) by {
      assert Copies(project) == [] + Copies(rest);
    }
  }
}
