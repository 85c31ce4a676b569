/**
 The build plugin that cuts the dashboard into the shell, the public pages and
 the console, and lists the files each kind of page preloads.
 */
module RouteChunks {
  import opened Graph

  datatype ModuleInfo = ModuleInfo(isEntry: bool, imported: seq<string>, dynamicallyImported: seq<string>)
  type Modules = map<string, ModuleInfo>

  function StaticEdges(modules: Modules): Edges {
    map id | id in modules :: modules[id].imported
  }

  function AllEdges(modules: Modules): Edges {
    map id | id in modules :: modules[id].imported + modules[id].dynamicallyImported
  }

  function Elements(s: seq<string>): set<string> {
    set x | x in s
  }

  /** The worklist: pops from the end, may hold a module many times. */
  method Reach(modules: Modules, roots: seq<string>) returns (seen: set<string>)
    ensures seen == ReachSet(StaticEdges(modules), Elements(roots), {})
    ensures forall r :: r in roots ==> r in seen
    ensures forall n, m :: n in seen && n in modules && m in modules[n].imported ==> m in seen
    ensures forall n :: n in seen ==> n in roots || exists b :: b in seen && b in modules && n in modules[b].imported
  {
    ghost var e, start := StaticEdges(modules), Elements(roots);
    seen := {};
    var queue := roots;
    forall n | n in queue
      ensures Reachable(e, start, {}, n)
    {
      ReachRoot(e, start, {}, n);
    }
    while queue != []
      invariant forall n :: n in queue || n in seen ==> n in Universe(e, start) && Reachable(e, start, {}, n)
      invariant forall n :: n in start ==> n in queue || n in seen
      invariant forall n, m :: n in seen && m in Next(e, n) ==> m in queue || m in seen
      decreases Universe(e, start) - seen, |queue|
    {
      var id := queue[|queue| - 1];
      ghost var before := queue;
      assert before == before[..|queue| - 1] + [id];
      queue := queue[..|queue| - 1];
      if id !in seen {
        seen := seen + {id};
        var more := if id in modules then modules[id].imported else [];
        forall m | m in more
          ensures Reachable(e, start, {}, m) && m in Universe(e, start)
        {
          ReachStep(e, start, {}, id, m);
        }
        queue := queue + more;
      }
    }
    IsReachSet(e, start, {}, seen);
    forall n | n in seen && n in modules
      ensures Next(e, n) == modules[n].imported
    {
    }
    forall n | n in seen && n !in roots
      ensures exists b :: b in seen && b in modules && n in modules[b].imported
    {
      var b := LastLink(e, start, {}, n);
      assert b in seen && b in modules && n in modules[b].imported;
    }
  }

  // ---------------------------------------------------------- the partition

  /** A module imports another statically. */
  predicate Imports(modules: Modules, n: string, m: string) {
    n in modules && m in modules[n].imported
  }

  /** Some listed module imports `t` dynamically. */
  ghost predicate DynamicTarget(modules: Modules, ids: seq<string>, t: string) {
    exists id :: id in ids && id in modules && t in modules[id].dynamicallyImported
  }

  function Entries(modules: Modules, ids: seq<string>): set<string> {
    set id | id in ids && id in modules && modules[id].isEntry
  }

  /** What the shell's own script needs. */
  ghost function Initial(modules: Modules, ids: seq<string>): set<string> {
    ReachSet(StaticEdges(modules), Entries(modules, ids), {})
  }

  /** The dynamic imports that start a group: those the shell does not already hold. */
  ghost function GroupRoots(modules: Modules, ids: seq<string>, isPublic: string -> bool, public: bool): set<string> {
    set id, target | id in ids && id in modules && target in modules[id].dynamicallyImported
                     && target !in Initial(modules, ids) && isPublic(target) == public :: target
  }

  ghost function Reached(modules: Modules, ids: seq<string>, isPublic: string -> bool, public: bool): set<string> {
    ReachSet(StaticEdges(modules), GroupRoots(modules, ids, isPublic, public), {})
  }

  ghost function Common(modules: Modules, ids: seq<string>, isPublic: string -> bool): set<string> {
    Initial(modules, ids) + Reached(modules, ids, isPublic, true) * Reached(modules, ids, isPublic, false)
  }

  ghost function Only(modules: Modules, ids: seq<string>, isPublic: string -> bool, public: bool): set<string> {
    Reached(modules, ids, isPublic, public) - Initial(modules, ids) - Reached(modules, ids, isPublic, !public)
  }

  class Plugin {
    var common: set<string>
    var onlyPublic: set<string>
    var onlyConsole: set<string>

    constructor ()
      ensures common == {} && onlyPublic == {} && onlyConsole == {}
    {
      common, onlyPublic, onlyConsole := {}, {}, {};
    }

    /** `isPublic` stands for the route-file pattern that marks a public page's module. */
    method BuildEnd(modules: Modules, ids: seq<string>, isPublic: string -> bool)
      modifies this
      ensures common == old(common) + Common(modules, ids, isPublic)
      ensures onlyPublic == old(onlyPublic) + Only(modules, ids, isPublic, true)
      ensures onlyConsole == old(onlyConsole) + Only(modules, ids, isPublic, false)
      ensures forall id :: id in ids && id in modules && modules[id].isEntry ==> id in common
      ensures forall t :: DynamicTarget(modules, ids, t) && t !in common ==> t in (if isPublic(t) then onlyPublic else onlyConsole)
    {
      PiecesHoldEntriesAndTargets(modules, ids, isPublic);
      var entries := EntryIds(modules, ids);
      var initial := Reach(modules, entries);
      var publicRoots, consoleRoots := SortTargets(modules, ids, isPublic, initial);
      var public := Reach(modules, publicRoots);
      var console := Reach(modules, consoleRoots);
      Classify(initial, public, console);
    }

    method Classify(initial: set<string>, public: set<string>, console: set<string>)
      modifies this
      ensures common == old(common) + (initial + public * console)
      ensures onlyPublic == old(onlyPublic) + (public - initial - console)
      ensures onlyConsole == old(onlyConsole) + (console - initial - public)
    {
      common := common + initial;
      var rest := public;
      while rest != {}
        invariant rest <= public && onlyConsole == old(onlyConsole)
        invariant common == old(common) + initial + (public - rest) * console
        invariant onlyPublic == old(onlyPublic) + (public - rest - initial - console)
        decreases rest
      {
        var id :| id in rest;
        rest := rest - {id};
        if id !in initial {
          if id in console {
            common := common + {id};
          } else {
            onlyPublic := onlyPublic + {id};
          }
        }
      }
      rest := console;
      while rest != {}
        invariant rest <= console
        invariant common == old(common) + initial + public * console
        invariant onlyPublic == old(onlyPublic) + (public - initial - console)
        invariant onlyConsole == old(onlyConsole) + (console - rest - initial - public)
        decreases rest
      {
        var id :| id in rest;
        rest := rest - {id};
        if id !in initial && id !in public {
          onlyConsole := onlyConsole + {id};
        }
      }
    }
  }

  method EntryIds(modules: Modules, ids: seq<string>) returns (entries: seq<string>)
    ensures Elements(entries) == Entries(modules, ids)
  {
    entries := [];
    for i := 0 to |ids|
      invariant forall id :: id in entries <==> id in Entries(modules, ids[..i])
    {
      assert ids[..i + 1] == ids[..i] + [ids[i]];
      if ids[i] in modules && modules[ids[i]].isEntry {
        entries := entries + [ids[i]];
      }
    }
    assert ids[..|ids|] == ids;
  }

  method SortTargets(modules: Modules, ids: seq<string>, isPublic: string -> bool, initial: set<string>)
    returns (public: seq<string>, console: seq<string>)
    requires initial == Initial(modules, ids)
    ensures Elements(public) == GroupRoots(modules, ids, isPublic, true)
    ensures Elements(console) == GroupRoots(modules, ids, isPublic, false)
  {
    public, console := [], [];
    for i := 0 to |ids|
      invariant forall t :: t in public <==> t !in initial && isPublic(t) && Targeted(modules, ids, i, t)
      invariant forall t :: t in console <==> t !in initial && !isPublic(t) && Targeted(modules, ids, i, t)
    {
      var targets := if ids[i] in modules then modules[ids[i]].dynamicallyImported else [];
      for j := 0 to |targets|
        invariant forall t :: t in public <==>
                    t !in initial && isPublic(t) && (Targeted(modules, ids, i, t) || t in targets[..j])
        invariant forall t :: t in console <==>
                    t !in initial && !isPublic(t) && (Targeted(modules, ids, i, t) || t in targets[..j])
      {
        assert targets[..j + 1] == targets[..j] + [targets[j]];
        if targets[j] !in initial {
          if isPublic(targets[j]) {
            public := public + [targets[j]];
          } else {
            console := console + [targets[j]];
          }
        }
      }
      assert targets[..|targets|] == targets;
      assert forall t :: Targeted(modules, ids, i + 1, t) <==> Targeted(modules, ids, i, t) || t in targets;
    }
    assert forall t :: Targeted(modules, ids, |ids|, t) <==>
                       exists id :: id in ids && id in modules && t in modules[id].dynamicallyImported;
  }

  ghost predicate Targeted(modules: Modules, ids: seq<string>, k: nat, t: string)
    requires k <= |ids|
  {
    exists i :: 0 <= i < k && ids[i] in modules && t in modules[ids[i]].dynamicallyImported
  }

  /** Entries are in the shell; a dynamic import is there too or in the group its own name asks for. */
  lemma PiecesHoldEntriesAndTargets(modules: Modules, ids: seq<string>, isPublic: string -> bool)
    ensures Entries(modules, ids) <= Common(modules, ids, isPublic)
    ensures forall t :: DynamicTarget(modules, ids, t) && t !in Common(modules, ids, isPublic) ==>
              t in Only(modules, ids, isPublic, isPublic(t))
  {
    ReachSetIsClosed(StaticEdges(modules), Entries(modules, ids), {});
    ReachSetIsClosed(StaticEdges(modules), GroupRoots(modules, ids, isPublic, true), {});
    ReachSetIsClosed(StaticEdges(modules), GroupRoots(modules, ids, isPublic, false), {});
    forall t | DynamicTarget(modules, ids, t) && t !in Common(modules, ids, isPublic)
      ensures t in Only(modules, ids, isPublic, isPublic(t))
    {
      assert t in GroupRoots(modules, ids, isPublic, isPublic(t));
    }
  }

  /** A module of a group is a dynamic import of that group or is imported by another module of it. */
  lemma OnlyComesFromItsGroup(modules: Modules, ids: seq<string>, isPublic: string -> bool, public: bool, n: string)
    requires n in Only(modules, ids, isPublic, public)
    ensures || (DynamicTarget(modules, ids, n) && isPublic(n) == public)
            || exists b :: b in Only(modules, ids, isPublic, public) && Imports(modules, b, n)
  {
    var e, roots := StaticEdges(modules), GroupRoots(modules, ids, isPublic, public);
    if n !in roots {
      var b := LastLink(e, roots, {}, n);
      ReachSetIsClosed(e, Entries(modules, ids), {});
      ReachSetIsClosed(e, GroupRoots(modules, ids, isPublic, !public), {});
      assert Imports(modules, b, n) && n in Next(e, b);
      assert b in Only(modules, ids, isPublic, public);
    }
  }

  /** The three pieces never overlap, and static imports leave a group only for the shell. */
  lemma PartitionLaws(modules: Modules, ids: seq<string>, isPublic: string -> bool)
    ensures var common, public, console :=
        Common(modules, ids, isPublic), Only(modules, ids, isPublic, true), Only(modules, ids, isPublic, false);
      && common !! public && common !! console && public !! console
      && (forall n, m :: n in common && Imports(modules, n, m) ==> m in common)
      && (forall n, m :: n in public && Imports(modules, n, m) ==> m in common || m in public)
      && (forall n, m :: n in console && Imports(modules, n, m) ==> m in common || m in console)
  {
    assert forall n, m :: Imports(modules, n, m) ==> m in Next(StaticEdges(modules), n);
    ReachSetIsClosed(StaticEdges(modules), Entries(modules, ids), {});
    ReachSetIsClosed(StaticEdges(modules), GroupRoots(modules, ids, isPublic, true), {});
    ReachSetIsClosed(StaticEdges(modules), GroupRoots(modules, ids, isPublic, false), {});
  }

  lemma PiecesClosedUnderAllImports(modules: Modules, ids: seq<string>, isPublic: string -> bool, all: set<string>)
    requires modules.Keys <= Elements(ids)
    requires all == Initial(modules, ids) + Reached(modules, ids, isPublic, true) + Reached(modules, ids, isPublic, false)
    ensures Closed(AllEdges(modules), {}, all)
  {
    ReachSetIsClosed(StaticEdges(modules), Entries(modules, ids), {});
    ReachSetIsClosed(StaticEdges(modules), GroupRoots(modules, ids, isPublic, true), {});
    ReachSetIsClosed(StaticEdges(modules), GroupRoots(modules, ids, isPublic, false), {});
    forall n, m | n in all && m in Next(AllEdges(modules), n)
      ensures m in all
    {
      if m !in Next(StaticEdges(modules), n) && m !in Initial(modules, ids) {
        assert n in ids && m in modules[n].dynamicallyImported;
        assert m in GroupRoots(modules, ids, isPublic, isPublic(m));
      }
    }
  }

  /** A module imports another, statically or dynamically. */
  predicate Loads(modules: Modules, n: string, m: string) {
    n in modules && (m in modules[n].imported || m in modules[n].dynamicallyImported)
  }

  ghost function Pieces(modules: Modules, ids: seq<string>, isPublic: string -> bool): set<string> {
    Common(modules, ids, isPublic) + Only(modules, ids, isPublic, true) + Only(modules, ids, isPublic, false)
  }

  /** Every module the application can load, statically or dynamically, is in one of the pieces. */
  lemma PartitionCovers(modules: Modules, ids: seq<string>, isPublic: string -> bool)
    requires modules.Keys <= Elements(ids)
    ensures ReachSet(AllEdges(modules), Entries(modules, ids), {}) <= Pieces(modules, ids, isPublic)
    ensures forall n, m :: n in Pieces(modules, ids, isPublic) && Loads(modules, n, m) ==> m in Pieces(modules, ids, isPublic)
  {
    var all := Initial(modules, ids) + Reached(modules, ids, isPublic, true) + Reached(modules, ids, isPublic, false);
    assert Pieces(modules, ids, isPublic) == all;
    PiecesClosedUnderAllImports(modules, ids, isPublic, all);
    EntriesReached(modules, ids);
    ReachSetIsLeast(AllEdges(modules), Entries(modules, ids), {}, all);
    assert forall n, m :: Loads(modules, n, m) ==> m in Next(AllEdges(modules), n);
  }

  lemma EntriesReached(modules: Modules, ids: seq<string>)
    ensures Entries(modules, ids) <= Initial(modules, ids)
  {
    ReachSetIsClosed(StaticEdges(modules), Entries(modules, ids), {});
  }

  // ---------------------------------------------------------- preload lists

  datatype Chunk = Chunk(fileName: string, name: string, isEntry: bool, imports: seq<string>)

  function ImportsOf(chunks: seq<Chunk>, fileName: string): seq<string> {
    if chunks == [] then []
    else if chunks[0].fileName == fileName then chunks[0].imports
    else ImportsOf(chunks[1..], fileName)
  }

  function ChunkEdges(chunks: seq<Chunk>): Edges {
    map f | f in (set c | c in chunks :: c.fileName) :: ImportsOf(chunks, f)
  }

  /** What the shell has loaded: the first entry chunk and its imports. */
  function Loaded(chunks: seq<Chunk>): set<string> {
    if chunks == [] then {}
    else if chunks[0].isEntry then {chunks[0].fileName} + Elements(chunks[0].imports)
    else Loaded(chunks[1..])
  }

  function GroupFiles(chunks: seq<Chunk>, group: string): set<string> {
    set c | c in chunks && c.name == group :: c.fileName
  }

  function Link(fileName: string): string {
    "/" + fileName
  }

  lemma LinkInjective(f: string, g: string)
    requires Link(f) == Link(g)
    ensures f == g
  {
    assert f == Link(f)[1..] && g == Link(g)[1..];
  }

  lemma {:induction false} NoChunkNoImports(chunks: seq<Chunk>, fileName: string)
    requires forall c :: c in chunks ==> c.fileName != fileName
    ensures ImportsOf(chunks, fileName) == []
  {
    if chunks != [] {
      NoChunkNoImports(chunks[1..], fileName);
    }
  }

  lemma ChunkEdgesNext(chunks: seq<Chunk>, fileName: string)
    ensures Next(ChunkEdges(chunks), fileName) == ImportsOf(chunks, fileName)
  {
    if fileName !in ChunkEdges(chunks) {
      NoChunkNoImports(chunks, fileName);
    }
  }

  /** The first chunk marked as an entry. */
  ghost predicate FirstEntry(chunks: seq<Chunk>, i: int) {
    0 <= i < |chunks| && chunks[i].isEntry && forall j :: 0 <= j < i ==> !chunks[j].isEntry
  }

  /** The first chunk of a file name. */
  ghost predicate FirstNamed(chunks: seq<Chunk>, i: int, fileName: string) {
    0 <= i < |chunks| && chunks[i].fileName == fileName && forall j :: 0 <= j < i ==> chunks[j].fileName != fileName
  }

  /** The shell is, or imports, the file. */
  ghost predicate ShellHas(chunks: seq<Chunk>, fileName: string) {
    exists i :: FirstEntry(chunks, i) && (fileName == chunks[i].fileName || fileName in chunks[i].imports)
  }

  /** The first chunk of that file name imports `m`. */
  ghost predicate ChunkImports(chunks: seq<Chunk>, fileName: string, m: string) {
    exists i :: FirstNamed(chunks, i, fileName) && m in chunks[i].imports
  }

  lemma {:induction false} LoadedIff(chunks: seq<Chunk>, fileName: string)
    ensures fileName in Loaded(chunks) <==> ShellHas(chunks, fileName)
  {
    if chunks != [] {
      var rest := chunks[1..];
      LoadedIff(rest, fileName);
      if i :| FirstEntry(chunks, i) && (fileName == chunks[i].fileName || fileName in chunks[i].imports) {
        assert i > 0 ==> FirstEntry(rest, i - 1) && rest[i - 1] == chunks[i];
      }
      if chunks[0].isEntry {
        assert FirstEntry(chunks, 0);
      } else if i :| FirstEntry(rest, i) && (fileName == rest[i].fileName || fileName in rest[i].imports) {
        assert FirstEntry(chunks, i + 1) && rest[i] == chunks[i + 1];
      }
    }
  }

  lemma {:induction false} ImportsOfIff(chunks: seq<Chunk>, fileName: string, m: string)
    ensures m in ImportsOf(chunks, fileName) <==> ChunkImports(chunks, fileName, m)
  {
    if chunks != [] {
      var rest := chunks[1..];
      ImportsOfIff(rest, fileName, m);
      if i :| FirstNamed(chunks, i, fileName) && m in chunks[i].imports {
        assert i > 0 ==> FirstNamed(rest, i - 1, fileName) && rest[i - 1] == chunks[i];
      }
      if chunks[0].fileName == fileName {
        assert FirstNamed(chunks, 0, fileName);
      } else if i :| FirstNamed(rest, i, fileName) && m in rest[i].imports {
        assert FirstNamed(chunks, i + 1, fileName) && rest[i] == chunks[i + 1];
      }
    }
  }

  /** The walk that fills one group's preload list. */
  class Preload {
    const chunks: seq<Chunk>
    const loaded: set<string>
    var out: seq<string>
    ghost var files: seq<string>

    ghost predicate Valid()
      reads this
    {
      && |out| == |files| && (forall i :: 0 <= i < |files| ==> out[i] == Link(files[i]))
      && forall i, j :: 0 <= i < j < |files| ==> files[i] != files[j]
    }

    constructor (chunks: seq<Chunk>, loaded: set<string>)
      ensures Valid() && out == [] && files == [] && this.chunks == chunks && this.loaded == loaded
    {
      this.chunks, this.loaded, out, files := chunks, loaded, [], [];
    }

    /** Each listed file's imports are listed or loaded, from index `k` on. */
    ghost predicate ClosedFrom(k: nat)
      reads this
    {
      forall i, m :: k <= i < |files| && m in Next(ChunkEdges(chunks), files[i]) ==> m in loaded || m in files
    }

    /** What one visit or more may do to the list: append closed, reachable files. */
    twostate predicate Extended(roots: set<string>)
      reads this
    {
      && Valid() && old(files) <= files && (forall f :: f in old(files) ==> f in files)
      && ClosedFrom(|old(files)|)
      && forall i :: |old(files)| <= i < |files| ==> Reachable(ChunkEdges(chunks), roots, loaded, files[i])
    }

    ghost function Unlisted(roots: set<string>): set<string>
      reads this
    {
      Universe(ChunkEdges(chunks), roots) - Elements(files)
    }

    /** A file the walk may be sent to. */
    ghost predicate Target(fileName: string, roots: set<string>) {
      && fileName in Universe(ChunkEdges(chunks), roots)
      && (fileName in loaded || Reachable(ChunkEdges(chunks), roots, loaded, fileName))
    }

    method Visit(fileName: string, ghost roots: set<string>)
      requires Valid() && Target(fileName, roots)
      modifies this
      ensures Extended(roots) && (fileName in loaded || fileName in files)
      decreases Unlisted(roots), 0
    {
      ListedIff(fileName);
      if fileName in loaded || Link(fileName) in out {
        return;
      }
      out := out + [Link(fileName)];
      files := files + [fileName];
      var imports := ImportsOf(chunks, fileName);
      forall m | m in imports
        ensures Target(m, roots)
      {
        ImportIsTarget(fileName, m, roots);
      }
      ChunkEdgesNext(chunks, fileName);
      assert fileName in old(Unlisted(roots)) && fileName !in Unlisted(roots);
      assert Elements(old(files)) <= Elements(files);
      VisitAll(imports, roots);
    }

    method VisitAll(imports: seq<string>, ghost roots: set<string>)
      requires Valid() && forall m :: m in imports ==> Target(m, roots)
      modifies this
      ensures Extended(roots) && forall m :: m in imports ==> m in loaded || m in files
      decreases Unlisted(roots), 1
    {
      for i := 0 to |imports|
        invariant Extended(roots)
        invariant forall m :: m in imports[..i] ==> m in loaded || m in files
      {
        assert imports[..i + 1] == imports[..i] + [imports[i]];
        Visit(imports[i], roots);
      }
      assert imports[..|imports|] == imports;
    }

    lemma ListedIff(fileName: string)
      requires Valid()
      ensures Link(fileName) in out <==> fileName in files
    {
      if Link(fileName) in out {
        var i :| 0 <= i < |out| && out[i] == Link(fileName);
        LinkInjective(files[i], fileName);
      }
      if fileName in files {
        var i :| 0 <= i < |files| && files[i] == fileName;
        assert out[i] == Link(fileName);
      }
    }

    lemma ImportIsTarget(fileName: string, m: string, roots: set<string>)
      requires Reachable(ChunkEdges(chunks), roots, loaded, fileName) && m in ImportsOf(chunks, fileName)
      ensures Target(m, roots)
    {
      ChunkEdgesNext(chunks, fileName);
      NextInUniverse(ChunkEdges(chunks), roots, fileName, m);
      if m !in loaded {
        ReachStep(ChunkEdges(chunks), roots, loaded, fileName, m);
      }
    }
  }

  /** The files to preload: the reachable ones the shell does not have. */
  ghost function Preloaded(chunks: seq<Chunk>, group: string): set<string> {
    ReachSet(ChunkEdges(chunks), GroupFiles(chunks, group), Loaded(chunks))
  }

  /** What a group preloads, told from the chunks: nothing of the shell, all its own and what those import, and no more. */
  lemma PreloadedLaws(chunks: seq<Chunk>, group: string)
    ensures var files := Preloaded(chunks, group);
      && (forall f :: f in files ==> !ShellHas(chunks, f))
      && (forall c :: c in chunks && c.name == group ==> c.fileName in files || ShellHas(chunks, c.fileName))
      && (forall f, m :: f in files && ChunkImports(chunks, f, m) ==> m in files || ShellHas(chunks, m))
      && (forall m :: m in files ==>
            || (exists c :: c in chunks && c.name == group && c.fileName == m)
            || (exists f :: f in files && ChunkImports(chunks, f, m)))
  {
    var e, roots, loaded, files := ChunkEdges(chunks), GroupFiles(chunks, group), Loaded(chunks), Preloaded(chunks, group);
    ReachSetIsClosed(e, roots, loaded);
    forall f
      ensures f in loaded <==> ShellHas(chunks, f)
    {
      LoadedIff(chunks, f);
    }
    forall f, m
      ensures m in Next(e, f) <==> ChunkImports(chunks, f, m)
    {
      ChunkEdgesNext(chunks, f);
      ImportsOfIff(chunks, f, m);
    }
    forall c | c in chunks && c.name == group
      ensures c.fileName in files || ShellHas(chunks, c.fileName)
    {
      assert c.fileName in roots;
    }
    forall m | m in files && m !in roots
      ensures exists f :: f in files && ChunkImports(chunks, f, m)
    {
      var f := LastLink(e, roots, loaded, m);
      assert f in files && ChunkImports(chunks, f, m);
    }
  }

  /** A group's chunk files and everything they import that the shell has not, each once. */
  method Files(chunks: seq<Chunk>, group: string) returns (out: seq<string>)
    ensures forall i, j :: 0 <= i < j < |out| ==> out[i] != out[j]
    ensures forall s :: s in out <==> exists f :: f in Preloaded(chunks, group) && s == "/" + f
    ensures forall f :: "/" + f in out ==> !ShellHas(chunks, f)
    ensures forall f, m :: "/" + f in out && ChunkImports(chunks, f, m) ==> "/" + m in out || ShellHas(chunks, m)
  {
    ghost var e, roots := ChunkEdges(chunks), GroupFiles(chunks, group);
    var walk := new Preload(chunks, Loaded(chunks));
    for i := 0 to |chunks|
      invariant walk.Valid() && walk.chunks == chunks && walk.loaded == Loaded(chunks)
      invariant walk.ClosedFrom(0)
      invariant forall j :: 0 <= j < |walk.files| ==> Reachable(e, roots, Loaded(chunks), walk.files[j])
      invariant forall j :: 0 <= j < i && chunks[j].name == group ==>
                  chunks[j].fileName in Loaded(chunks) || chunks[j].fileName in walk.files
    {
      if chunks[i].name == group {
        if chunks[i].fileName !in Loaded(chunks) {
          ReachRoot(e, roots, Loaded(chunks), chunks[i].fileName);
        }
        walk.Visit(chunks[i].fileName, roots);
      }
    }
    IsReachSet(e, roots, Loaded(chunks), Elements(walk.files));
    PreloadedLaws(chunks, group);
    out := walk.out;
    forall i, j | 0 <= i < j < |out|
      ensures out[i] != out[j]
    {
      if out[i] == out[j] {
        LinkInjective(walk.files[i], walk.files[j]);
      }
    }
    forall f
      ensures "/" + f in out <==> f in Preloaded(chunks, group)
    {
      walk.ListedIff(f);
    }
  }
}
