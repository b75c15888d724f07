/** Collecting registration routines from dissector sources, with a cache kept from run to run. */
module SymbolCache {
  import opened Wrappers

  const VERSION_KEY := "_VERSION"

  /** What one of the six patterns finds in a line. */
  type Matcher = (nat, string) -> Option<string>

  datatype Symbols = Symbols(proto: seq<string>, handoff: seq<string>, wtap: seq<string>) {
    function Plus(other: Symbols): Symbols {
      Symbols(proto + other.proto, handoff + other.handoff, wtap + other.wtap)
    }
  }

  const EMPTY := Symbols([], [], [])

  datatype File = File(mtime: int, lines: seq<string>)

  /** The files that can be opened. */
  type Disk = map<string, File>

  /** The cache dictionary: the version under its own key, and an entry for each file. */
  datatype CacheValue = Version(text: string) | Entry(mtime: int, symbols: Symbols)

  type Cache = map<string, CacheValue>

  /** The cache file. */
  datatype Stored = Unreadable | Pickle(cache: Cache)

  datatype Outcome = Collected(symbols: Symbols) | Crashed

  lemma PlusEmpty(a: Symbols)
    ensures a.Plus(EMPTY) == a == EMPTY.Plus(a)
  {}

  lemma PlusAssociates(a: Symbols, b: Symbols, c: Symbols)
    ensures a.Plus(b).Plus(c) == a.Plus(b.Plus(c))
  {}

  // ---------- scanning without a cache ----------

  /** The table of patterns: two for each kind of symbol. */
  function One(pattern: nat, symbol: string): Symbols {
    if pattern < 2 then Symbols([symbol], [], [])
    else if pattern < 4 then Symbols([], [symbol], [])
    else Symbols([], [], [symbol])
  }

  /** What the first `patterns` patterns find in a line. */
  function LineSymbols(m: Matcher, line: string, patterns: nat): Symbols {
    if patterns == 0 then EMPTY
    else
      var before := LineSymbols(m, line, patterns - 1);
      match m(patterns - 1, line)
      case None => before
      case Some(symbol) => before.Plus(One(patterns - 1, symbol))
  }

  function Scan(m: Matcher, lines: seq<string>): Symbols {
    if lines == [] then EMPTY
    else Scan(m, lines[..|lines| - 1]).Plus(LineSymbols(m, lines[|lines| - 1], 6))
  }

  /** What a pattern finds, as a list. */
  function Found(o: Option<string>): seq<string> {
    if o.Some? then [o.value] else []
  }

  /** The first two patterns find protocols, the next two handoffs and the last two wiretaps, each at most one in a
      line. */
  lemma PatternTable(m: Matcher, line: string)
    ensures LineSymbols(m, line, 6).proto == Found(m(0, line)) + Found(m(1, line))
    ensures LineSymbols(m, line, 6).handoff == Found(m(2, line)) + Found(m(3, line))
    ensures LineSymbols(m, line, 6).wtap == Found(m(4, line)) + Found(m(5, line))
  {
    var l2, l4 := LineSymbols(m, line, 2), LineSymbols(m, line, 4);
    assert LineSymbols(m, line, 1) == Symbols(Found(m(0, line)), [], []);
    assert l2 == Symbols(Found(m(0, line)) + Found(m(1, line)), [], []);
    assert LineSymbols(m, line, 3) == Symbols(l2.proto, Found(m(2, line)), []);
    assert l4 == Symbols(l2.proto, Found(m(2, line)) + Found(m(3, line)), []);
    assert LineSymbols(m, line, 5) == Symbols(l4.proto, l4.handoff, Found(m(4, line)));
  }

  /** Lines are taken from first to last. */
  lemma {:induction false} ScanConcat(m: Matcher, a: seq<string>, b: seq<string>)
    ensures Scan(m, a + b) == Scan(m, a).Plus(Scan(m, b))
  {
    if b == [] {
      assert a + b == a;
      PlusEmpty(Scan(m, a));
    } else {
      var n := |b| - 1;
      ScanConcat(m, a, b[..n]);
      assert (a + b)[..|a + b| - 1] == a + b[..n];
      PlusAssociates(Scan(m, a), Scan(m, b[..n]), LineSymbols(m, b[n], 6));
    }
  }

  function ScanAll(m: Matcher, disk: Disk, files: seq<string>): Symbols
    requires forall f :: f in files ==> f in disk
  {
    if files == [] then EMPTY
    else ScanAll(m, disk, files[..|files| - 1]).Plus(Scan(m, disk[files[|files| - 1]].lines))
  }

  function Uncached(m: Matcher, disk: Disk, files: seq<string>): Outcome {
    if forall f :: f in files ==> f in disk then Collected(ScanAll(m, disk, files)) else Crashed
  }

  // ---------- what the script does ----------

  /** What has been collected, and the cache as it has become; None if this kind of output has no cache. */
  datatype Work = Work(regs: Symbols, cache: Option<Cache>)

  predicate IsOfVersion(stored: Stored, version: string) {
    stored.Pickle? && VERSION_KEY in stored.cache && stored.cache[VERSION_KEY] == Version(version)
  }

  /** Opening the cache: anything but a cache of this version counts as none. */
  function Opened(useCache: bool, stored: Stored, version: string): Option<Cache> {
    if !useCache then None
    else if IsOfVersion(stored, version) then Some(stored.cache)
    else Some(map[VERSION_KEY := Version(version)])
  }

  /** The cache answers for this state of the file. */
  predicate Hit(cache: Option<Cache>, name: string, mtime: int) {
    cache.Some? && name in cache.value && cache.value[name].Entry? && cache.value[name].mtime == mtime
  }

  /** The symbols found by a scan are collected, and become the file's entry. */
  function Scanned(w: Work, name: string, mtime: int, found: Symbols): Work {
    Work(w.regs.Plus(found), if w.cache.Some? then Some(w.cache.value[name := Entry(mtime, found)]) else None)
  }

  /** One file: None if it is missing, or if what the cache has under its name is a version. */
  function CollectOne(m: Matcher, disk: Disk, w: Work, name: string): Option<Work> {
    if name !in disk || (w.cache.Some? && name in w.cache.value && w.cache.value[name].Version?) then None
    else if Hit(w.cache, name, disk[name].mtime) then Some(w.(regs := w.regs.Plus(w.cache.value[name].symbols)))
    else Some(Scanned(w, name, disk[name].mtime, Scan(m, disk[name].lines)))
  }

  function CollectAll(m: Matcher, disk: Disk, w: Work, files: seq<string>): Option<Work> {
    if files == [] then Some(w)
    else
      var before := CollectAll(m, disk, w, files[..|files| - 1]);
      if before.None? then None else CollectOne(m, disk, before.value, files[|files| - 1])
  }

  /** A run: what it collects, and the cache file it leaves. */
  function Run(useCache: bool, stored: Stored, version: string, m: Matcher, disk: Disk, files: seq<string>)
    : (Outcome, Stored)
  {
    match CollectAll(m, disk, Work(EMPTY, Opened(useCache, stored, version)), files)
    case None => (Crashed, stored)
    case Some(w) => (Collected(w.regs), if w.cache.Some? then Pickle(w.cache.value) else stored)
  }

  // ---------- many runs ----------

  /** A build: what is on the disk by then, and how the script is run. The cache file may have been lost. */
  datatype Build = Build(disk: Disk, files: seq<string>, version: string, useCache: bool, cacheLost: bool)

  /** What each of a sequence of builds collects, and the cache file after the last. */
  function Builds(builds: seq<Build>, grammar: string -> Matcher): (h: (seq<Outcome>, Stored))
    ensures |h.0| == |builds|
  {
    if builds == [] then ([], Unreadable)
    else
      var (results, stored) := Builds(builds[..|builds| - 1], grammar);
      var b := builds[|builds| - 1];
      var (r, stored') := Run(b.useCache, if b.cacheLost then Unreadable else stored, b.version,
                              grammar(b.version), b.disk, b.files);
      (results + [r], stored')
  }

  // ---------- the script ----------

  class Script {
    var regs: Symbols
    /** None when the kind of output has no cache. */
    var cache: Option<Cache>

    ghost function State(): Work
      reads this
    {
      Work(regs, cache)
    }

    constructor (useCache: bool, stored: Stored, version: string)
      ensures State() == Work(EMPTY, Opened(useCache, stored, version))
    {
      regs := EMPTY;
      if !useCache {
        cache := None;
      } else if IsOfVersion(stored, version) {
        cache := Some(stored.cache);
      } else {
        cache := Some(map[VERSION_KEY := Version(version)]);
      }
    }

    /** One symbol goes to its list, and to the same list of the cache entry. */
    method Add(name: string, pattern: nat, symbol: string)
      requires cache.Some? ==> name in cache.value && cache.value[name].Entry?
      modifies this
      ensures regs == old(regs).Plus(One(pattern, symbol))
      ensures old(cache) == None ==> cache == None
      ensures old(cache).Some? ==>
                var e := old(cache).value[name];
                cache == Some(old(cache).value[name := Entry(e.mtime, e.symbols.Plus(One(pattern, symbol)))])
    {
      regs := regs.Plus(One(pattern, symbol));
      if cache.Some? {
        var e := cache.value[name];
        cache := Some(cache.value[name := e.(symbols := e.symbols.Plus(One(pattern, symbol)))]);
      }
    }

    /** All six patterns on one line; a file with no entry yet has one by now. */
    method ScanLine(m: Matcher, line: string, name: string, mtime: int, ghost was: Work, ghost found: Symbols)
      requires State() == Scanned(was, name, mtime, found)
      modifies this
      ensures State() == Scanned(was, name, mtime, found.Plus(LineSymbols(m, line, 6)))
    {
      PlusEmpty(found);
      for k := 0 to 6
        invariant State() == Scanned(was, name, mtime, found.Plus(LineSymbols(m, line, k)))
      {
        var hit := m(k, line);
        if hit.Some? {
          PlusAssociates(was.regs, found.Plus(LineSymbols(m, line, k)), One(k, hit.value));
          PlusAssociates(found, LineSymbols(m, line, k), One(k, hit.value));
          Add(name, k, hit.value);
          assert LineSymbols(m, line, k + 1) == LineSymbols(m, line, k).Plus(One(k, hit.value));
          if was.cache.Some? {
            var e := Entry(mtime, found.Plus(LineSymbols(m, line, k)));
            var e' := Entry(mtime, found.Plus(LineSymbols(m, line, k + 1)));
            assert was.cache.value[name := e][name := e'] == was.cache.value[name := e'];
          }
        }
      }
    }

    /** The scan of one file that the cache does not answer for. */
    method ScanFile(m: Matcher, name: string, file: File)
      modifies this
      ensures State() == Scanned(old(State()), name, file.mtime, Scan(m, file.lines))
    {
      ghost var was := State();
      PlusEmpty(regs);
      if cache.Some? {
        cache := Some(cache.value[name := Entry(file.mtime, EMPTY)]);
      }
      for i := 0 to |file.lines|
        invariant State() == Scanned(was, name, file.mtime, Scan(m, file.lines[..i]))
      {
        assert file.lines[..i + 1][..i] == file.lines[..i];
        ScanLine(m, file.lines[i], name, file.mtime, was, Scan(m, file.lines[..i]));
      }
      assert file.lines[..|file.lines|] == file.lines;
    }

    /** One round of the file loop. */
    method Collect(m: Matcher, disk: Disk, name: string) returns (ok: bool)
      modifies this
      ensures CollectOne(m, disk, old(State()), name) == if ok then Some(State()) else None
    {
      if name !in disk {
        return false;
      }
      var file := disk[name];
      if cache.Some? && |cache.value| > 0 && name in cache.value {
        if cache.value[name].Version? {
          return false;
        }
        if file.mtime == cache.value[name].mtime {
          regs := regs.Plus(cache.value[name].symbols);
          return true;
        }
      }
      ScanFile(m, name, file);
      return true;
    }
  }

  /** A crash ends the run. */
  lemma {:induction false} CrashesFor(m: Matcher, disk: Disk, w: Work, files: seq<string>, n: nat)
    requires n <= |files| && CollectAll(m, disk, w, files[..n]) == None
    ensures CollectAll(m, disk, w, files) == None
    decreases |files|
  {
    if n < |files| {
      assert files[..|files| - 1][..n] == files[..n];
      CrashesFor(m, disk, w, files[..|files| - 1], n);
    } else {
      assert files[..n] == files;
    }
  }

  /** One run of the script. */
  method RunScript(useCache: bool, stored: Stored, version: string, m: Matcher, disk: Disk, files: seq<string>)
    returns (r: Outcome, stored': Stored)
    ensures (r, stored') == Run(useCache, stored, version, m, disk, files)
  {
    var script := new Script(useCache, stored, version);
    ghost var start := script.State();
    for i := 0 to |files|
      invariant CollectAll(m, disk, start, files[..i]) == Some(script.State())
    {
      assert files[..i + 1][..i] == files[..i];
      var ok := script.Collect(m, disk, files[i]);
      if !ok {
        CrashesFor(m, disk, start, files, i + 1);
        return Crashed, stored;
      }
    }
    assert files[..|files|] == files;
    stored' := if script.cache.Some? then Pickle(script.cache.value) else stored;
    r := Collected(script.regs);
  }

  /** Any sequence of builds, with edits, lost caches and new versions of the script between them. */
  method RunBuilds(builds: seq<Build>, grammar: string -> Matcher) returns (results: seq<Outcome>)
    ensures results == Builds(builds, grammar).0
  {
    var stored := Unreadable;
    results := [];
    for i := 0 to |builds|
      invariant (results, stored) == Builds(builds[..i], grammar)
    {
      assert builds[..i + 1][..i] == builds[..i];
      var b := builds[i];
      if b.cacheLost {
        stored := Unreadable;
      }
      var r: Outcome;
      r, stored := RunScript(b.useCache, stored, b.version, grammar(b.version), b.disk, b.files);
      results := results + [r];
    }
    assert builds[..|builds|] == builds;
  }

  // ---------- soundness of a cache ----------

  /** All the states in which files have been seen. */
  type History = set<(string, File)>

  /** A modification time stands for what a scan of the file finds. */
  ghost predicate Tells(m: Matcher, seen: History) {
    forall a, b :: a in seen && b in seen && a.0 == b.0 != VERSION_KEY && a.1.mtime == b.1.mtime ==>
                     Scan(m, a.1.lines) == Scan(m, b.1.lines)
  }

  /** That holds for every version of the script; `grammar` says what each of them matches. */
  ghost predicate TimesTell(grammar: string -> Matcher, seen: History) {
    forall version: string :: Tells(grammar(version), seen)
  }

  /** The entry comes from a file that has been seen. */
  ghost predicate SoundEntry(name: string, e: CacheValue, m: Matcher, seen: History) {
    e.Entry? && exists file :: (name, file) in seen && file.mtime == e.mtime && e.symbols == Scan(m, file.lines)
  }

  ghost predicate Sound(cache: Cache, m: Matcher, seen: History) {
    && VERSION_KEY in cache && cache[VERSION_KEY].Version?
    && forall name :: name in cache && name != VERSION_KEY ==> SoundEntry(name, cache[name], m, seen)
  }

  ghost predicate SoundFile(stored: Stored, grammar: string -> Matcher, seen: History) {
    stored.Pickle? && VERSION_KEY in stored.cache && stored.cache[VERSION_KEY].Version? ==>
      Sound(stored.cache, grammar(stored.cache[VERSION_KEY].text), seen)
  }

  ghost predicate Covers(seen: History, disk: Disk) {
    forall name :: name in disk ==> (name, disk[name]) in seen
  }

  /** A sound cache of this version, if there is one. */
  ghost predicate SoundWork(w: Work, m: Matcher, version: string, seen: History) {
    w.cache.Some? ==> Sound(w.cache.value, m, seen) && w.cache.value[VERSION_KEY] == Version(version)
  }

  /** One file with a sound cache: what a scan finds is collected, and the cache stays sound. */
  lemma CollectOneIsScan(m: Matcher, version: string, disk: Disk, w: Work, name: string, seen: History)
    requires SoundWork(w, m, version, seen) && Tells(m, seen) && Covers(seen, disk)
    ensures CollectOne(m, disk, w, name).Some? <==> name in disk && (w.cache.Some? ==> name != VERSION_KEY)
    ensures var next := CollectOne(m, disk, w, name);
            next.Some? ==> next.value.regs == w.regs.Plus(Scan(m, disk[name].lines))
                           && SoundWork(next.value, m, version, seen) && next.value.cache.Some? == w.cache.Some?
  {
    if name in disk {
      assert (name, disk[name]) in seen;
      if Hit(w.cache, name, disk[name].mtime) && name != VERSION_KEY {
        var e := w.cache.value[name];
        var file :| (name, file) in seen && file.mtime == e.mtime && e.symbols == Scan(m, file.lines);
      }
    }
  }

  ghost predicate AllThere(disk: Disk, files: seq<string>) {
    forall f :: f in files ==> f in disk
  }

  lemma {:induction false} CollectAllIsScan(m: Matcher, version: string, disk: Disk, w: Work, files: seq<string>,
                                            seen: History)
    requires w.regs == EMPTY && SoundWork(w, m, version, seen) && Tells(m, seen) && Covers(seen, disk)
    ensures CollectAll(m, disk, w, files).Some? <==> AllThere(disk, files) && (w.cache.Some? ==> VERSION_KEY !in files)
    ensures var last := CollectAll(m, disk, w, files);
            last.Some? ==> last.value.regs == ScanAll(m, disk, files)
                           && SoundWork(last.value, m, version, seen) && last.value.cache.Some? == w.cache.Some?
  {
    if files != [] {
      var init, f := files[..|files| - 1], files[|files| - 1];
      assert files == init + [f];
      CollectAllIsScan(m, version, disk, w, init, seen);
      var before := CollectAll(m, disk, w, init);
      if before.Some? {
        CollectOneIsScan(m, version, disk, before.value, f, seen);
      }
    }
  }

  /** One run with a sound cache file collects what a run without one does, unless a file is named like the
      version's key: then it crashes. Either way it leaves a sound cache file. */
  lemma RunIsUncached(useCache: bool, stored: Stored, version: string, grammar: string -> Matcher, disk: Disk,
                      files: seq<string>, seen: History)
    requires SoundFile(stored, grammar, seen) && Tells(grammar(version), seen) && Covers(seen, disk)
    ensures var (r, stored') := Run(useCache, stored, version, grammar(version), disk, files);
            && SoundFile(stored', grammar, seen)
            && r == if useCache && VERSION_KEY in files then Crashed else Uncached(grammar(version), disk, files)
  {
    CollectAllIsScan(grammar(version), version, disk, Work(EMPTY, Opened(useCache, stored, version)), files, seen);
  }

  // ---------- histories of runs ----------

  /** The builds find only such states of files. */
  ghost predicate OnlySeen(builds: seq<Build>, seen: History) {
    forall b :: b in builds ==> Covers(seen, b.disk)
  }

  function WithoutCache(b: Build, grammar: string -> Matcher): Outcome {
    Uncached(grammar(b.version), b.disk, b.files)
  }

  predicate NamesKey(b: Build) {
    b.useCache && VERSION_KEY in b.files
  }

  /** If modification times tell, each build collects what it would without a cache, or crashes on the key. */
  lemma {:induction false} BuildsAreUncached(builds: seq<Build>, grammar: string -> Matcher, seen: History)
    requires TimesTell(grammar, seen) && OnlySeen(builds, seen)
    ensures SoundFile(Builds(builds, grammar).1, grammar, seen)
    ensures forall i :: 0 <= i < |builds| ==>
              Builds(builds, grammar).0[i] == if NamesKey(builds[i]) then Crashed else WithoutCache(builds[i], grammar)
  {
    if builds != [] {
      var init, b := builds[..|builds| - 1], builds[|builds| - 1];
      BuildsAreUncached(init, grammar, seen);
      var stored := if b.cacheLost then Unreadable else Builds(init, grammar).1;
      assert b in builds && Tells(grammar(b.version), seen);
      hide Run, SoundFile, Uncached, Tells;
      RunIsUncached(b.useCache, stored, b.version, grammar, b.disk, b.files, seen);
    }
  }

  /** In such a history, a build differs from one without a cache exactly when it names the key and all its
      files are there. */
  lemma CacheIsHarmless(builds: seq<Build>, grammar: string -> Matcher, seen: History, i: nat)
    requires TimesTell(grammar, seen) && OnlySeen(builds, seen) && i < |builds|
    ensures Builds(builds, grammar).0[i] == WithoutCache(builds[i], grammar)
       <==> !NamesKey(builds[i]) || exists f :: f in builds[i].files && f !in builds[i].disk
  {
    BuildsAreUncached(builds, grammar, seen);
  }

  /** The build of one file, with a cache. */
  function BuildOf(name: string, file: File, version: string): Build {
    Build(map[name := file], [name], version, true, false)
  }

  lemma UncachedFile(m: Matcher, disk: Disk, name: string)
    requires name in disk
    ensures Uncached(m, disk, [name]) == Collected(Scan(m, disk[name].lines))
  {
    assert [name][..0] == [];
    assert ScanAll(m, disk, [name]) == ScanAll(m, disk, []).Plus(Scan(m, disk[name].lines));
    PlusEmpty(Scan(m, disk[name].lines));
  }

  lemma OneFile(m: Matcher, disk: Disk, w: Work, name: string)
    ensures CollectAll(m, disk, w, [name]) == CollectOne(m, disk, w, name)
  {
    hide CollectOne;
    assert [name][..0] == [];
  }

  /** An edit that keeps the modification time goes unnoticed: the next build collects again what the one
      before it found. */
  lemma StaleEntry(name: string, before: File, after: File, version: string, grammar: string -> Matcher)
    requires name != VERSION_KEY && before.mtime == after.mtime
    ensures var builds := [BuildOf(name, before, version), BuildOf(name, after, version)];
            var stale := Builds(builds, grammar).0[1];
            && stale == Collected(Scan(grammar(version), before.lines))
            && (stale == WithoutCache(builds[1], grammar)
                <==> Scan(grammar(version), before.lines) == Scan(grammar(version), after.lines))
  {
    var m := grammar(version);
    var first, second := BuildOf(name, before, version), BuildOf(name, after, version);
    assert [first, second][..1] == [first] && [first][..0] == [];
    OneFile(m, first.disk, Work(EMPTY, Opened(true, Unreadable, version)), name);
    var cache := map[VERSION_KEY := Version(version)][name := Entry(before.mtime, Scan(m, before.lines))];
    PlusEmpty(Scan(m, before.lines));
    assert Builds([first], grammar).1 == Pickle(cache);
    OneFile(m, second.disk, Work(EMPTY, Some(cache)), name);
    assert Builds([first, second], grammar).0[1] == Collected(Scan(m, before.lines));
    UncachedFile(m, second.disk, name);
  }

  /** No sequence of builds that finds only such states of files is told anything wrong by its cache. */
  ghost predicate CacheIsSafe(grammar: string -> Matcher, seen: History) {
    forall builds, i :: OnlySeen(builds, seen) && 0 <= i < |builds| && !NamesKey(builds[i]) ==>
                          Builds(builds, grammar).0[i] == WithoutCache(builds[i], grammar)
  }

  /** That is so exactly when a modification time stands for what a scan finds. */
  lemma SafeIffTimesTell(grammar: string -> Matcher, seen: History)
    ensures CacheIsSafe(grammar, seen) <==> TimesTell(grammar, seen)
  {
    if TimesTell(grammar, seen) {
      forall builds, i | OnlySeen(builds, seen) && 0 <= i < |builds| && !NamesKey(builds[i])
        ensures Builds(builds, grammar).0[i] == WithoutCache(builds[i], grammar)
      {
        BuildsAreUncached(builds, grammar, seen);
      }
    }
    if CacheIsSafe(grammar, seen) {
      forall version: string, a, b |
        a in seen && b in seen && a.0 == b.0 != VERSION_KEY && a.1.mtime == b.1.mtime
        ensures Scan(grammar(version), a.1.lines) == Scan(grammar(version), b.1.lines)
      {
        hide Builds, WithoutCache, Scan;
        StaleEntry(a.0, a.1, b.1, version, grammar);
        var builds := [BuildOf(a.0, a.1, version), BuildOf(b.0, b.1, version)];
        assert OnlySeen(builds, seen) && !NamesKey(builds[1]);
      }
    }
  }

  lemma {:induction false} FirstPatternOnly(m: Matcher, line: string, patterns: nat)
    requires forall k, l :: m(k, l) == if k == 0 then Some(l) else None
    requires patterns > 0
    ensures LineSymbols(m, line, patterns) == Symbols([line], [], [])
  {
    if patterns > 1 {
      FirstPatternOnly(m, line, patterns - 1);
    }
  }

  lemma WholeLineFound(m: Matcher, line: string)
    requires forall k, l :: m(k, l) == if k == 0 then Some(l) else None
    ensures Scan(m, [line]) == Symbols([line], [], [])
  {
    FirstPatternOnly(m, line, 6);
    assert Scan(m, [line][..0]) == EMPTY;
    PlusEmpty(LineSymbols(m, line, 6));
  }

  lemma ScansDiffer(m: Matcher)
    requires forall k, l :: m(k, l) == if k == 0 then Some(l) else None
    ensures Scan(m, ["a"]) != Scan(m, ["b"])
  {
    WholeLineFound(m, "a");
    WholeLineFound(m, "b");
    hide Scan;
    assert "a"[0] != "b"[0];
  }

  /** A script that finds whole lines, and an edit that is not noticed. */
  lemma TimesNeedNotTell(grammar: string -> Matcher)
    requires forall version: string, k, l :: grammar(version)(k, l) == if k == 0 then Some(l) else None
    ensures var seen := {("f", File(1, ["a"])), ("f", File(1, ["b"]))};
            !TimesTell(grammar, seen) && !CacheIsSafe(grammar, seen)
  {
    var a, b := ("f", File(1, ["a"])), ("f", File(1, ["b"]));
    ScansDiffer(grammar(""));
    SafeIffTimesTell(grammar, {a, b});
    hide Scan, CacheIsSafe;
    assert "f" != VERSION_KEY by {
      assert |"f"| != |VERSION_KEY|;
    }
    assert !Tells(grammar(""), {a, b});
  }
}
