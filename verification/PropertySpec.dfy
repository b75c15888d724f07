/** The property tree as a prefix-closed map from token paths to entries. */
module PropertySpec {
  import opened Wrappers
  import opened PropertyPaths

  /** A node: its property, and the names of its children in the order they were added. */
  datatype Entry<+P> = Entry(prop: Option<P>, kids: seq<string>)

  type State<P> = map<Path, Entry<P>>

  /** What a call returns or throws. */
  datatype Outcome<+R> =
    | Done(value: R)
    | PathNotFound
    | CannotUproot
    | KeyNotFound
    | AlreadyExists
    | Uninitialized

  ghost predicate NoDup<T(!new)>(s: seq<T>) {
    forall i, j :: 0 <= i < j < |s| ==> s[i] != s[j]
  }

  predicate IsNamePath(path: Path) {
    "" !in path
  }

  /** The parent of a path other than the root. */
  function Up(path: Path): Path
    requires path != []
  {
    path[..|path| - 1]
  }

  function Last(path: Path): string
    requires path != []
  {
    path[|path| - 1]
  }

  lemma UpAndLast(p: Path, n: string)
    ensures Up(p + [n]) == p && Last(p + [n]) == n
    ensures p != [] ==> p == Up(p) + [Last(p)]
  {}

  lemma TakeStep<T>(s: seq<T>, i: nat)
    requires i < |s|
    ensures s[..i + 1] == s[..i] + [s[i]]
  {}

  ghost predicate ParentsPresent<P(!new)>(st: State<P>) {
    forall p {:trigger Up(p)} :: p in st && p != [] ==> Up(p) in st && Last(p) in st[Up(p)].kids
  }

  ghost predicate KidsPresent<P(!new)>(st: State<P>) {
    forall p, n :: p in st && n in st[p].kids ==> p + [n] in st
  }

  ghost predicate KidsDistinct<P(!new)>(st: State<P>) {
    forall p :: p in st ==> NoDup(st[p].kids) && "" !in st[p].kids
  }

  /** Rooted and prefix closed; each node lists exactly its children, each once, none nameless. */
  ghost predicate WellFormed<P(!new)>(st: State<P>) {
    [] in st && ParentsPresent(st) && KidsPresent(st) && KidsDistinct(st)
  }

  lemma {:induction false} PrefixClosed<P(!new)>(st: State<P>, p: Path, i: nat)
    requires WellFormed(st) && p in st && i <= |p|
    ensures p[..i] in st
    decreases |p|
  {
    if i < |p| {
      PrefixClosed(st, Up(p), i);
      assert Up(p)[..i] == p[..i];
    } else {
      assert p[..i] == p;
    }
  }

  /** A node lists a name exactly when the child is there. */
  lemma KidKnown<P(!new)>(st: State<P>, p: Path, name: string)
    requires WellFormed(st) && p in st
    ensures name in st[p].kids <==> p + [name] in st
    ensures NoDup(st[p].kids) && "" !in st[p].kids
  {
    UpAndLast(p, name);
  }

  // ---------- the operations ----------

  function Prefixes(path: Path): set<Path> {
    set i | 0 <= i <= |path| :: path[..i]
  }

  /** The entry at p once every missing node on the way to path has been added. */
  function Grown<P>(st: State<P>, path: Path, p: Path): Entry<P> {
    var was := if p in st then st[p] else Entry(None, []);
    if p < path && path[..|p| + 1] !in st then was.(kids := was.kids + [path[|p|]]) else was
  }

  function Ensure<P>(st: State<P>, path: Path): State<P> {
    map p | p in st.Keys + Prefixes(path) :: Grown(st, path, p)
  }

  function Create<P>(st: State<P>, path: Path, prop: P): (State<P>, Outcome<()>) {
    if path in st && st[path].prop.Some? then (st, AlreadyExists)
    else (Ensure(st, path)[path := Grown(st, path, path).(prop := Some(prop))], Done(()))
  }

  function Without(s: seq<string>, name: string): seq<string> {
    if s == [] then []
    else (if s[0] == name then [] else [s[0]]) + Without(s[1..], name)
  }

  /** The tree without path and everything below it. */
  function Pruned<P>(st: State<P>, path: Path): State<P>
    requires path != []
  {
    map p | p in st && !(path <= p) ::
      if p == Up(path) then st[p].(kids := Without(st[p].kids, Last(path))) else st[p]
  }

  /** `slash` tells whether the path was written with a trailing slash, or empty. */
  function Remove<P>(st: State<P>, path: Path, slash: bool): (State<P>, Outcome<()>) {
    if path !in st then (st, PathNotFound)
    else if path == [] then (st, CannotUproot)
    else if slash then (st, KeyNotFound)
    else (Pruned(st, path), Done(()))
  }

  function List<P>(st: State<P>, path: Path): Outcome<seq<string>> {
    if path in st then Done(st[path].kids) else PathNotFound
  }

  function Access<P>(st: State<P>, path: Path): Outcome<P> {
    if path !in st then PathNotFound
    else if st[path].prop == None then Uninitialized
    else Done(st[path].prop.value)
  }

  // ---------- growing ----------

  lemma InPrefixes(path: Path, p: Path)
    ensures p in Prefixes(path) <==> p <= path
  {
    if p <= path {
      assert p == path[..|p|];
    }
  }

  /** A path already present grows nothing. */
  lemma EnsurePresent<P(!new)>(st: State<P>, path: Path)
    requires WellFormed(st) && path in st
    ensures Ensure(st, path) == st
  {
    forall p | p in st.Keys + Prefixes(path) ensures p in st && Grown(st, path, p) == st[p] {
      InPrefixes(path, p);
      if p <= path {
        PrefixClosed(st, path, |p|);
        assert path[..|p|] == p;
      }
      if p < path {
        PrefixClosed(st, path, |p| + 1);
      }
    }
    assert Ensure(st, path).Keys == st.Keys;
  }

  /** The tree e with an empty node under p, last in its list. */
  function WithChild<P>(e: State<P>, p: Path, n: string): State<P>
    requires p in e
  {
    e[p := e[p].(kids := e[p].kids + [n])][p + [n] := Entry(None, [])]
  }

  lemma PrefixOfLonger(path: Path, name: string, p: Path)
    ensures p <= path + [name] <==> p <= path || p == path + [name]
    ensures p < path + [name] <==> p <= path
  {
    var long := path + [name];
    if p <= path {
      assert path == long[..|path|];
    }
    if p <= long && |p| <= |path| {
      assert p == long[..|p|] == path[..|p|];
    }
  }

  /** Growing one name further adds that child to the end of its parent's list. */
  lemma EnsureStep<P(!new)>(st: State<P>, path: Path, name: string)
    requires WellFormed(st)
    ensures path in Ensure(st, path)
    ensures path + [name] in Ensure(st, path) <==> path + [name] in st
    ensures var e := Ensure(st, path);
            Ensure(st, path + [name]) ==
            if path + [name] in st then e
            else WithChild(e, path, name)
  {
    var e, long := Ensure(st, path), path + [name];
    InPrefixes(path, path);
    InPrefixes(path, long);
    if long in st {
      assert Up(long) == path;
      EnsurePresent(st, path);
      EnsurePresent(st, long);
    } else {
      var target := WithChild(e, path, name);
      forall p ensures p in Ensure(st, long) <==> p in target {
        InPrefixes(path, p);
        InPrefixes(long, p);
        PrefixOfLonger(path, name, p);
      }
      forall p | p in Ensure(st, long) ensures Ensure(st, long)[p] == target[p] {
        PrefixOfLonger(path, name, p);
        if p < path {
          assert long[..|p| + 1] == path[..|p| + 1];
        } else if p == path {
          assert long[..|p| + 1] == long;
        }
      }
    }
  }

  lemma AddChildParents<P(!new)>(e: State<P>, p: Path, n: string)
    requires ParentsPresent(e) && p in e && p + [n] !in e
    ensures ParentsPresent(WithChild(e, p, n))
  {
    var t := WithChild(e, p, n);
    forall q {:trigger Up(q)} | q in t && q != [] ensures Up(q) in t && Last(q) in t[Up(q)].kids {
      UpAndLast(p, n);
      if q != p + [n] {
        assert Up(q) in e && Last(q) in e[Up(q)].kids;
      }
    }
  }

  lemma AddChildKids<P(!new)>(e: State<P>, p: Path, n: string)
    requires KidsPresent(e) && p in e && p + [n] !in e
    ensures KidsPresent(WithChild(e, p, n))
  {
    var t := WithChild(e, p, n);
    forall q, m | q in t && m in t[q].kids ensures q + [m] in t {
      if q != p + [n] && !(q == p && m == n) {
        assert m in e[q].kids;
      }
    }
  }

  lemma AddChild<P(!new)>(e: State<P>, p: Path, n: string)
    requires WellFormed(e) && p in e && p + [n] !in e && n != ""
    ensures WellFormed(WithChild(e, p, n))
  {
    AddChildParents(e, p, n);
    AddChildKids(e, p, n);
    assert n !in e[p].kids;
  }

  /** Creation keeps the tree well formed, whether it succeeds or fails. */
  lemma {:induction false} EnsureKeepsWellFormed<P(!new)>(st: State<P>, path: Path)
    requires WellFormed(st) && IsNamePath(path)
    ensures WellFormed(Ensure(st, path))
    decreases |path|
  {
    if path == [] {
      EnsurePresent(st, path);
    } else {
      var p, n := Up(path), Last(path);
      assert path == p + [n];
      EnsureKeepsWellFormed(st, p);
      EnsureStep(st, p, n);
      if path !in st {
        AddChild(Ensure(st, p), p, n);
      }
    }
  }

  lemma CreateKeepsWellFormed<P(!new)>(st: State<P>, path: Path, prop: P)
    requires WellFormed(st) && IsNamePath(path)
    ensures WellFormed(Create(st, path, prop).0)
  {
    EnsureKeepsWellFormed(st, path);
    InPrefixes(path, path);
    var e, t := Ensure(st, path), Create(st, path, prop).0;
    if !(path in st && st[path].prop.Some?) {
      assert forall p :: p in t <==> p in e;
      assert forall p :: p in e ==> t[p].kids == e[p].kids;
    }
  }

  // ---------- pruning ----------

  lemma {:induction false} WithoutIs(s: seq<string>, name: string)
    ensures forall m :: m in Without(s, name) <==> m in s && m != name
    ensures NoDup(s) ==> NoDup(Without(s, name))
    ensures name !in s ==> Without(s, name) == s
  {
    if s != [] {
      WithoutIs(s[1..], name);
      assert s == [s[0]] + s[1..];
      if NoDup(s) {
        var w := Without(s[1..], name);
        assert NoDup(s[1..]);
        forall i, j | 0 <= i < j < |Without(s, name)| ensures Without(s, name)[i] != Without(s, name)[j] {
          if s[0] != name {
            assert Without(s, name) == [s[0]] + w;
            if i == 0 {
              assert Without(s, name)[j] == w[j - 1] && w[j - 1] in w;
              assert s[0] !in s[1..];
            }
          }
        }
      }
    }
  }

  lemma {:induction false} WithoutLast(s: seq<string>, name: string)
    requires name !in s
    ensures Without(s + [name], name) == s
  {
    if s != [] {
      assert (s + [name])[1..] == s[1..] + [name];
      WithoutLast(s[1..], name);
    } else {
      assert (s + [name])[1..] == [];
    }
  }

  lemma PruneParents<P(!new)>(st: State<P>, path: Path)
    requires ParentsPresent(st) && path in st && path != []
    ensures ParentsPresent(Pruned(st, path))
  {
    var t := Pruned(st, path);
    WithoutIs(st[Up(path)].kids, Last(path));
    forall p {:trigger Up(p)} | p in t && p != [] ensures Up(p) in t && Last(p) in t[Up(p)].kids {
      UpAndLast(path, "");
      UpAndLast(p, "");
      assert path <= Up(p) ==> path <= p;
    }
  }

  lemma PruneKids<P(!new)>(st: State<P>, path: Path)
    requires WellFormed(st) && path in st && path != []
    ensures KidsPresent(Pruned(st, path))
  {
    var t := Pruned(st, path);
    WithoutIs(st[Up(path)].kids, Last(path));
    forall p, n | p in t && n in t[p].kids ensures p + [n] in t {
      assert n in st[p].kids;
      PrefixOfLonger(p, n, path);
      UpAndLast(p, n);
    }
  }

  lemma RemoveKeepsWellFormed<P(!new)>(st: State<P>, path: Path, slash: bool)
    requires WellFormed(st)
    ensures WellFormed(Remove(st, path, slash).0)
  {
    if path in st && path != [] && !slash {
      PruneParents(st, path);
      PruneKids(st, path);
      WithoutIs(st[Up(path)].kids, Last(path));
    }
  }

  /** A removal deletes exactly the paths that extend the given one, keeps every other property,
      and takes one name out of one list, keeping the order of the siblings. */
  lemma RemoveIsExact<P(!new)>(st: State<P>, path: Path, slash: bool)
    requires WellFormed(st)
    ensures var (t, r) := Remove(st, path, slash);
            && (r.Done? <==> path in st && path != [] && !slash)
            && (!r.Done? ==> t == st)
            && (r.Done? ==> forall p :: p in t <==> p in st && !(path <= p))
            && (r.Done? ==> forall p :: p in t ==> Access(t, p) == Access(st, p))
            && (r.Done? ==> forall p :: p in t && p != Up(path) ==> List(t, p) == List(st, p))
            && (r.Done? ==> Up(path) in t && OneLess(t[Up(path)].kids, Last(path), st[Up(path)].kids))
  {
    if path in st && path != [] && !slash {
      RemoveKeepsWellFormed(st, path, slash);
      assert !(path <= Up(path));
      WithoutIs(st[Up(path)].kids, Last(path));
      WithoutKeepsOrder(st[Up(path)].kids, Last(path));
    }
  }

  /** a is b with its elements equal to name left out, in the same order. */
  ghost predicate OneLess(a: seq<string>, name: string, b: seq<string>) {
    Subsequence(a, b) && (forall m :: m in a <==> m in b && m != name)
  }

  /** Whether a can be had from b by leaving out elements. */
  predicate Subsequence(a: seq<string>, b: seq<string>) {
    a == [] || (b != [] && (if a[0] == b[0] then Subsequence(a[1..], b[1..]) else Subsequence(a, b[1..])))
  }

  lemma {:induction false} WithoutKeepsOrder(s: seq<string>, name: string)
    ensures Subsequence(Without(s, name), s)
  {
    if s != [] {
      WithoutKeepsOrder(s[1..], name);
      var w := Without(s[1..], name);
      if s[0] == name {
        WithoutIs(s[1..], name);
        assert w == [] || w[0] != name by { if w != [] { assert w[0] in w; } }
        assert Without(s, name) == w;
      } else {
        assert ([s[0]] + w)[1..] == w;
      }
    }
  }

  // ---------- laws across operations ----------

  /** Path p after a creation that succeeds. */
  ghost predicate CreatedAt<P>(st: State<P>, t: State<P>, path: Path, p: Path) {
    && (p in t <==> p in st || p <= path)
    && (p in st && p != path ==> Access(t, p) == Access(st, p))
    && (p in t && p !in st && p != path ==> Access(t, p) == Uninitialized)
    && (p in st && p in t ==> st[p].kids <= t[p].kids)
  }

  lemma CreateAt<P(!new)>(st: State<P>, path: Path, prop: P, p: Path)
    requires !Access(st, path).Done?
    ensures CreatedAt(st, Create(st, path, prop).0, path, p)
  {
    InPrefixes(path, p);
    InPrefixes(path, path);
  }

  /** What creation does to every path: it puts the property at its path, adds no property and
      loses none elsewhere, and adds exactly the missing prefixes as nodes. */
  lemma CreateThenAccess<P(!new)>(st: State<P>, path: Path, prop: P)
    ensures Create(st, path, prop).1.Done? <==> !Access(st, path).Done?
    ensures Create(st, path, prop).1.Done? ==>
              && Access(Create(st, path, prop).0, path) == Done(prop)
              && forall p :: CreatedAt(st, Create(st, path, prop).0, path, p)
    ensures !Create(st, path, prop).1.Done? ==> Create(st, path, prop) == (st, AlreadyExists)
  {
    if !Access(st, path).Done? {
      forall p ensures CreatedAt(st, Create(st, path, prop).0, path, p) {
        CreateAt(st, path, prop, p);
      }
    }
  }

  lemma PruneChildAt<P(!new)>(st: State<P>, parent: Path, name: string, t: State<P>, p: Path)
    requires WellFormed(st) && parent in st && parent + [name] !in st && p in st
    requires p in t && t[p] == if p == parent then st[p].(kids := st[p].kids + [name]) else st[p]
    requires !(parent + [name] <= p)
    ensures Pruned(t, parent + [name])[p] == st[p]
  {
    UpAndLast(parent, name);
    if p == parent {
      assert name !in st[parent].kids;
      WithoutLast(st[parent].kids, name);
    }
  }

  /** A missing node has no descendants. */
  lemma NothingBelow<P(!new)>(st: State<P>, path: Path, p: Path)
    requires WellFormed(st) && p in st
    ensures path <= p ==> path in st
  {
    if path <= p {
      PrefixClosed(st, p, |path|);
      assert p[..|path|] == path;
    }
  }

  lemma PruneChild<P(!new)>(st: State<P>, parent: Path, name: string, e: Entry<P>)
    requires WellFormed(st) && parent in st && parent + [name] !in st
    ensures Pruned(WithChild(st, parent, name)[parent + [name] := e], parent + [name]) == st
  {
    var path := parent + [name];
    var t := WithChild(st, parent, name)[path := e];
    forall p ensures p in Pruned(t, path) <==> p in st {
      if p in st {
        NothingBelow(st, path, p);
      }
    }
    forall p | p in st ensures Pruned(t, path)[p] == st[p] {
      NothingBelow(st, path, p);
      PruneChildAt(st, parent, name, t, p);
    }
  }

  /** Removing a leaf that was just created under an existing node restores the tree. */
  lemma RemoveUndoesCreate<P(!new)>(st: State<P>, parent: Path, name: string, prop: P)
    requires WellFormed(st) && parent in st && parent + [name] !in st
    ensures Remove(Create(st, parent + [name], prop).0, parent + [name], false) == (st, Done(()))
  {
    var path := parent + [name];
    EnsureStep(st, parent, name);
    EnsurePresent(st, parent);
    InPrefixes(path, path);
    PrefixOfLonger(parent, name, path);
    assert Create(st, path, prop).0 == WithChild(st, parent, name)[path := Entry(Some(prop), [])];
    PruneChild(st, parent, name, Entry(Some(prop), []));
  }

  // ---------- what the calls answer ----------

  /** A list names each child once, and nothing else; a property is had exactly where there is one; and a missing
      path is the same error for all calls that want it there. */
  lemma AnswersAreExact<P(!new)>(st: State<P>, path: Path, slash: bool)
    requires WellFormed(st)
    ensures path !in st ==>
              List(st, path) == PathNotFound && Access(st, path) == PathNotFound
              && Remove(st, path, slash).1 == PathNotFound
    ensures path in st ==>
              && List(st, path).Done? && NoDup(List(st, path).value)
              && forall n :: n in List(st, path).value <==> path + [n] in st
    ensures path in st ==> Access(st, path) == if st[path].prop.Some? then Done(st[path].prop.value) else Uninitialized
    ensures [] in st && Remove(st, [], slash).1 == CannotUproot
    ensures path in st && path != [] ==> Remove(st, path, slash).1 == if slash then KeyNotFound else Done(())
  {
    if path in st {
      forall n ensures n in List(st, path).value <==> path + [n] in st {
        KidKnown(st, path, n);
      }
    }
  }

  /** A child that is created comes last in its parent's list. */
  lemma CreatedIsListedLast<P(!new)>(st: State<P>, parent: Path, name: string, prop: P)
    requires WellFormed(st) && parent in st && parent + [name] !in st
    ensures var (t, r) := Create(st, parent + [name], prop);
            r == Done(()) && List(t, parent) == Done(List(st, parent).value + [name])
  {
    UpAndLast(parent, name);
    EnsurePresent(st, parent);
    EnsureStep(st, parent, name);
    assert parent != parent + [name];
  }

  /** In a list without repetitions, leaving a name out is erasing it where it stands. */
  lemma {:induction false} OneLeftOut(s: seq<string>, name: string, i: nat)
    requires i < |s| && s[i] == name && NoDup(s)
    ensures Without(s, name) == s[..i] + s[i + 1..]
  {
    if i == 0 {
      assert name !in s[1..];
      WithoutIs(s[1..], name);
    } else {
      OneLeftOut(s[1..], name, i - 1);
      assert s[1..][..i - 1] == s[1..i] && s[1..][i..] == s[i + 1..];
    }
  }

  lemma PrunedList<P(!new)>(st: State<P>, parent: Path, name: string)
    requires WellFormed(st) && parent + [name] in st
    ensures parent in st && name in st[parent].kids && NoDup(st[parent].kids)
    ensures List(Pruned(st, parent + [name]), parent) == Done(Without(st[parent].kids, name))
  {
    UpAndLast(parent, name);
    assert !(parent + [name] <= parent);
  }

  /** A child that is removed is taken out of its parent's list, and nothing else is. */
  lemma RemovedIsListedNoMore<P(!new)>(st: State<P>, parent: Path, name: string)
    requires WellFormed(st) && parent + [name] in st
    ensures Remove(st, parent + [name], false).1 == Done(()) && List(st, parent).Done?
    ensures var kids := List(st, parent).value;
            exists i :: 0 <= i < |kids| && kids[i] == name
                        && List(Remove(st, parent + [name], false).0, parent) == Done(kids[..i] + kids[i + 1..])
  {
    PrunedList(st, parent, name);
    var kids := List(st, parent).value;
    var i :| 0 <= i < |kids| && kids[i] == name;
    OneLeftOut(kids, name, i);
    hide WellFormed, Pruned, NoDup, Without;
  }

  // ---------- runs ----------

  /** A call on the root tree or on any view, with the tokens of the view's root in front. */
  datatype Call<P> =
    | CallCreate(path: Path, prop: P)
    | CallRemove(path: Path, slash: bool)
    | CallExists(path: Path)
    | CallList(path: Path)
    | CallAccess(path: Path)

  /** What a call returns. */
  datatype Answer<P> =
    | Changed(outcome: Outcome<()>)
    | Found(found: bool)
    | Kids(kids: Outcome<seq<string>>)
    | Prop(prop: Outcome<P>)

  function StepCall<P>(st: State<P>, c: Call<P>): (State<P>, Answer<P>) {
    match c
    case CallCreate(path, prop) => var (st', r) := Create(st, path, prop); (st', Changed(r))
    case CallRemove(path, slash) => var (st', r) := Remove(st, path, slash); (st', Changed(r))
    case CallExists(path) => (st, Found(path in st))
    case CallList(path) => (st, Kids(List(st, path)))
    case CallAccess(path) => (st, Prop(Access(st, path)))
  }

  /** The tree that a list of calls leads to, and all their answers. */
  function RunCalls<P>(st: State<P>, calls: seq<Call<P>>): (State<P>, seq<Answer<P>>) {
    if calls == [] then (st, [])
    else
      var (st', answers) := RunCalls(st, calls[..|calls| - 1]);
      var (st'', answer) := StepCall(st', calls[|calls| - 1]);
      (st'', answers + [answer])
  }

  /** The first i calls lead from `was` to `now` with these answers. */
  ghost predicate Ran<P(!new)>(was: State<P>, calls: seq<Call<P>>, i: nat, now: State<P>, answers: seq<Answer<P>>)
    requires i <= |calls|
  {
    RunCalls(was, calls[..i]) == (now, answers)
  }

  lemma RanNothing<P(!new)>(was: State<P>, calls: seq<Call<P>>)
    ensures Ran(was, calls, 0, was, [])
  {}

  lemma RanOneMore<P(!new)>(was: State<P>, calls: seq<Call<P>>, i: nat, now: State<P>, answers: seq<Answer<P>>)
    requires i < |calls| && Ran(was, calls, i, now, answers)
    ensures var (next, answer) := StepCall(now, calls[i]);
            Ran(was, calls, i + 1, next, answers + [answer])
  {
    assert calls[..i + 1][..i] == calls[..i];
  }

  lemma RanAll<P(!new)>(was: State<P>, calls: seq<Call<P>>, now: State<P>, answers: seq<Answer<P>>)
    requires Ran(was, calls, |calls|, now, answers)
    ensures RunCalls(was, calls) == (now, answers)
  {
    assert calls[..|calls|] == calls;
  }

  function Empty<P>(): State<P> {
    map[[] := Entry(None, [])]
  }

  lemma StepKeepsWellFormed<P(!new)>(st: State<P>, c: Call<P>)
    requires WellFormed(st) && (c.CallCreate? ==> IsNamePath(c.path))
    ensures WellFormed(StepCall(st, c).0)
  {
    match c {
      case CallCreate(path, prop) => CreateKeepsWellFormed(st, path, prop);
      case CallRemove(path, slash) => RemoveKeepsWellFormed(st, path, slash);
      case _ =>
    }
  }

  /** Every reachable tree is well formed, over any sequence of calls. */
  lemma {:induction false} RunsKeepWellFormed<P(!new)>(st: State<P>, calls: seq<Call<P>>)
    requires WellFormed(st)
    requires forall c :: c in calls && c.CallCreate? ==> IsNamePath(c.path)
    ensures WellFormed(RunCalls(st, calls).0)
  {
    if calls != [] {
      var before := calls[..|calls| - 1];
      RunsKeepWellFormed(st, before);
      StepKeepsWellFormed(RunCalls(st, before).0, calls[|calls| - 1]);
    }
  }
}
