/** The counters of the B2xx side channel: nested sets of named counters, filled in one go from a flat list of
    values. */
module CounterSets {
  import opened Wrappers

  /** An element of _counter_names: a counter, or a nested set. */
  datatype Entry = Entry(name: string, leaf: bool)

  /** What a counter can hold: a number, or the format string if that was set as its attribute. */
  datatype Value = Number(n: int) | Format

  datatype Attr = Count(value: Value) | Set(obj: Obj)

  /** A counter_set: the names in order, the attributes they were set as, and how many codes its format has. A
      name that occurs twice is one attribute. `depth` bounds how deep sets are nested. */
  datatype Obj = Obj(depth: nat, codes: nat, names: seq<Entry>, attrs: map<string, Attr>)

  // Counters are attributes of the object that also holds these.
  const UPDATE_SELF := "_update"
  const UPDATE := "update"
  const FORMAT := "_fmt_str"

  /** Setting these makes the constructor raise: it extends the one and calls the other itself, and Python
      lets the rest hold only values of their own. */
  predicate Unsettable(name: string) {
    name in {"_counter_names", "_get_struct_format", "__class__", "__dict__", "__weakref__"}
  }

  /** What _update comes to: the rest of the data, or an exception. Either way it leaves a set behind. */
  datatype Result = Ok(obj: Obj, rest: seq<Value>) | Raised(obj: Obj)

  predicate Shaped(o: Obj)
    decreases o.depth
  {
    && (forall k :: 0 <= k < |o.names| ==> o.names[k].name in o.attrs)
    && (forall n :: n in o.attrs && o.attrs[n].Set? ==> o.attrs[n].obj.depth < o.depth && Shaped(o.attrs[n].obj))
  }

  function With(o: Obj, name: string, a: Attr): Obj {
    o.(attrs := o.attrs[name := a])
  }

  /** The rest of _update's loop, from name i on. */
  function UpdateFrom(o: Obj, i: nat, data: seq<Value>): (r: Result)
    requires Shaped(o) && i <= |o.names|
    ensures Shaped(r.obj) && r.obj.(attrs := o.attrs) == o && r.obj.attrs.Keys == o.attrs.Keys
    decreases o.depth, |o.names| - i
  {
    if i == |o.names| then Ok(o, data)
    else
      var e := o.names[i];
      if e.leaf then
        if data == [] then Raised(o)
        else UpdateFrom(With(o, e.name, Count(data[0])), i + 1, data[1..])
      else match o.attrs[e.name]
        case Count(_) => Raised(o)
        case Set(sub) =>
          match Update(sub, data)
          case Ok(sub', rest) => UpdateFrom(With(o, e.name, Set(sub')), i + 1, rest)
          case Raised(sub') => Raised(With(o, e.name, Set(sub')))
  }

  /** _update; a counter or a set of that name hides the routine, and cannot be called. */
  function Update(o: Obj, data: seq<Value>): (r: Result)
    requires Shaped(o)
    ensures Shaped(r.obj) && r.obj.(attrs := o.attrs) == o && r.obj.attrs.Keys == o.attrs.Keys
    decreases o.depth, |o.names| + 1
  {
    if UPDATE_SELF in o.attrs || data == [] then Raised(o) else UpdateFrom(o, 0, data)
  }

  lemma CounterStep(o: Obj, i: nat, data: seq<Value>)
    requires Shaped(o) && i < |o.names| && o.names[i].leaf && data != []
    ensures Shaped(With(o, o.names[i].name, Count(data[0])))
    ensures UpdateFrom(o, i, data) == UpdateFrom(With(o, o.names[i].name, Count(data[0])), i + 1, data[1..])
  {}

  lemma SetStep(o: Obj, i: nat, data: seq<Value>)
    requires Shaped(o) && i < |o.names| && !o.names[i].leaf && o.attrs[o.names[i].name].Set?
    ensures var inner := Update(o.attrs[o.names[i].name].obj, data);
            var p := With(o, o.names[i].name, Set(inner.obj));
            Shaped(p) && UpdateFrom(o, i, data) == if inner.Ok? then UpdateFrom(p, i + 1, inner.rest) else Raised(p)
  {}

  /** _update as it runs. */
  method RunUpdate(o: Obj, data: seq<Value>) returns (r: Result)
    requires Shaped(o)
    ensures r == Update(o, data)
    decreases o.depth
  {
    if UPDATE_SELF in o.attrs {
      return Raised(o);
    }
    if |data| == 0 {
      return Raised(o);
    }
    var self, left := o, data;
    for i := 0 to |o.names|
      invariant Shaped(self) && self.(attrs := o.attrs) == o && self.attrs.Keys == o.attrs.Keys
      invariant UpdateFrom(self, i, left) == UpdateFrom(o, 0, data)
    {
      var e := o.names[i];
      if e.leaf {
        if |left| == 0 {
          return Raised(self);
        }
        CounterStep(self, i, left);
        self := With(self, e.name, Count(left[0]));
        left := left[1..];
      } else {
        if self.attrs[e.name].Count? {
          return Raised(self);
        }
        SetStep(self, i, left);
        var sub := RunUpdate(self.attrs[e.name].obj, left);
        self := With(self, e.name, Set(sub.obj));
        if sub.Raised? {
          return Raised(self);
        }
        left := sub.rest;
      }
    }
    return Ok(self, left);
  }

  // ---------- width, order and contents ----------

  /** _get_struct_format, as the number of its codes. */
  function WidthFrom(o: Obj, i: nat): nat
    requires Shaped(o) && i <= |o.names|
    decreases o.depth, |o.names| - i
  {
    if i == |o.names| then 0 else WidthAt(o, i) + WidthFrom(o, i + 1)
  }

  function WidthAt(o: Obj, i: nat): nat
    requires Shaped(o) && i < |o.names|
    decreases o.depth, |o.names| - i, 0
  {
    if o.names[i].leaf then 1
    else if o.attrs[o.names[i].name].Set? then Width(o.attrs[o.names[i].name].obj)
    else 0
  }

  function Width(o: Obj): nat
    requires Shaped(o)
    decreases o.depth, |o.names| + 1
  {
    WidthFrom(o, 0)
  }

  /** The values from left to right. */
  function FlattenFrom(o: Obj, i: nat): seq<Value>
    requires Shaped(o) && i <= |o.names|
    decreases o.depth, |o.names| - i
  {
    if i == |o.names| then [] else Part(o, i) + FlattenFrom(o, i + 1)
  }

  /** What name i stands for. */
  function Part(o: Obj, i: nat): seq<Value>
    requires Shaped(o) && i < |o.names|
    decreases o.depth, |o.names| - i, 0
  {
    match o.attrs[o.names[i].name]
    case Count(v) => if o.names[i].leaf then [v] else []
    case Set(sub) => if o.names[i].leaf then [] else Flatten(sub)
  }

  function Flatten(o: Obj): seq<Value>
    requires Shaped(o)
    decreases o.depth, |o.names| + 1
  {
    FlattenFrom(o, 0)
  }

  /** No name stands for two places or for something of the object's own: counters are not named like anything
      else in their set, sets that share a name hold no counters, nothing hides _update, and no set is
      overwritten by the format string. */
  predicate Unambiguous(o: Obj)
    requires Shaped(o)
    decreases o.depth
  {
    && UPDATE_SELF !in o.attrs
    && (forall i :: 0 <= i < |o.names| ==>
          var a := o.attrs[o.names[i].name];
          if o.names[i].leaf then a.Count? else a.Set? && Unambiguous(a.obj))
    && (forall i, j :: 0 <= i < j < |o.names| && o.names[i].name == o.names[j].name ==>
          WidthAt(o, i) == WidthAt(o, j) == 0)
  }

  /** The last thing in the set is a counter. */
  predicate EndsInCounter(o: Obj)
    requires Shaped(o)
    decreases o.depth
  {
    |o.names| > 0 &&
    var last := o.names[|o.names| - 1];
    last.leaf || (o.attrs[last.name].Set? && EndsInCounter(o.attrs[last.name].obj))
  }

  /** The same sets with other values. */
  predicate Same(o: Obj, p: Obj)
    requires Shaped(o) && Shaped(p)
    decreases o.depth
  {
    && o.depth == p.depth && o.codes == p.codes && o.names == p.names && o.attrs.Keys == p.attrs.Keys
    && forall n :: n in o.attrs ==>
         match o.attrs[n]
         case Count(_) => p.attrs[n].Count?
         case Set(sub) => p.attrs[n].Set? && Same(sub, p.attrs[n].obj)
  }

  lemma {:induction false} SameReflexive(o: Obj)
    requires Shaped(o)
    ensures Same(o, o)
    decreases o.depth
  {
    forall n | n in o.attrs && o.attrs[n].Set? ensures Same(o.attrs[n].obj, o.attrs[n].obj) {
      SameReflexive(o.attrs[n].obj);
    }
  }

  lemma {:induction false} SameTransitive(o: Obj, p: Obj, q: Obj)
    requires Shaped(o) && Shaped(p) && Shaped(q) && Same(o, p) && Same(p, q)
    ensures Same(o, q)
    decreases o.depth
  {
    forall n | n in o.attrs && o.attrs[n].Set? ensures Same(o.attrs[n].obj, q.attrs[n].obj) {
      SameTransitive(o.attrs[n].obj, p.attrs[n].obj, q.attrs[n].obj);
    }
  }

  /** One attribute replaced by one of the same kind. */
  lemma SameWith(o: Obj, name: string, a: Attr)
    requires Shaped(o) && name in o.attrs
    requires match o.attrs[name] case Count(_) => a.Count? case Set(sub) => a.Set? && Shaped(a.obj) && Same(sub, a.obj)
    ensures Shaped(With(o, name, a)) && Same(o, With(o, name, a))
  {
    var p := With(o, name, a);
    assert p.attrs.Keys == o.attrs.Keys;
    forall n | n in o.attrs && n != name && o.attrs[n].Set? ensures Same(o.attrs[n].obj, p.attrs[n].obj) {
      SameReflexive(o.attrs[n].obj);
    }
  }

  lemma {:induction false} SameWidth(o: Obj, p: Obj, i: nat)
    requires Shaped(o) && Shaped(p) && Same(o, p) && i <= |o.names|
    ensures WidthFrom(o, i) == WidthFrom(p, i)
    ensures i < |o.names| ==> WidthAt(o, i) == WidthAt(p, i)
    decreases o.depth, |o.names| - i
  {
    if i < |o.names| {
      var n := o.names[i].name;
      if o.attrs[n].Set? {
        SameWidth(o.attrs[n].obj, p.attrs[n].obj, 0);
      }
      SameWidth(o, p, i + 1);
      assert WidthAt(o, i) == WidthAt(p, i);
      assert WidthFrom(o, i) == WidthAt(o, i) + WidthFrom(o, i + 1);
      assert WidthFrom(p, i) == WidthAt(p, i) + WidthFrom(p, i + 1);
    } else {
      assert WidthFrom(o, i) == 0 == WidthFrom(p, i);
    }
  }

  lemma {:induction false} SameUnambiguous(o: Obj, p: Obj)
    requires Shaped(o) && Shaped(p) && Same(o, p)
    ensures Unambiguous(o) == Unambiguous(p)
    decreases o.depth
  {
    forall i | 0 <= i < |o.names| ensures WidthAt(o, i) == WidthAt(p, i) {
      SameWidth(o, p, i);
    }
    forall n | n in o.attrs && o.attrs[n].Set? ensures Unambiguous(o.attrs[n].obj) == Unambiguous(p.attrs[n].obj) {
      SameUnambiguous(o.attrs[n].obj, p.attrs[n].obj);
    }
  }

  lemma {:induction false} SameEnds(o: Obj, p: Obj)
    requires Shaped(o) && Shaped(p) && Same(o, p)
    ensures EndsInCounter(o) == EndsInCounter(p)
    decreases o.depth
  {
    if |o.names| > 0 {
      var n := o.names[|o.names| - 1].name;
      if o.attrs[n].Set? {
        SameEnds(o.attrs[n].obj, p.attrs[n].obj);
      }
    }
  }

  /** Counters are values, sets are sets, and all of them can be entered. */
  predicate Tidy(o: Obj)
    requires Shaped(o)
    decreases o.depth
  {
    && UPDATE_SELF !in o.attrs
    && forall i :: 0 <= i < |o.names| ==>
         var a := o.attrs[o.names[i].name];
         if o.names[i].leaf then a.Count? else a.Set? && Tidy(a.obj)
  }

  lemma {:induction false} UnambiguousIsTidy(o: Obj)
    requires Shaped(o) && Unambiguous(o)
    ensures Tidy(o)
    decreases o.depth
  {
    forall i | 0 <= i < |o.names| && !o.names[i].leaf ensures Tidy(o.attrs[o.names[i].name].obj) {
      UnambiguousIsTidy(o.attrs[o.names[i].name].obj);
    }
  }

  lemma {:induction false} FlattenLength(o: Obj, i: nat)
    requires Shaped(o) && Tidy(o) && i <= |o.names|
    ensures |FlattenFrom(o, i)| == WidthFrom(o, i)
    ensures i < |o.names| ==> |Part(o, i)| == WidthAt(o, i)
    decreases o.depth, |o.names| - i
  {
    if i < |o.names| {
      var n := o.names[i].name;
      if o.attrs[n].Set? {
        FlattenLength(o.attrs[n].obj, 0);
      }
      FlattenLength(o, i + 1);
      assert |Part(o, i)| == WidthAt(o, i);
      assert FlattenFrom(o, i) == Part(o, i) + FlattenFrom(o, i + 1);
      assert WidthFrom(o, i) == WidthAt(o, i) + WidthFrom(o, i + 1);
    }
  }

  lemma {:induction false} EndsWidth(o: Obj, i: nat)
    requires Shaped(o) && EndsInCounter(o) && i < |o.names|
    ensures WidthFrom(o, i) > 0
    decreases o.depth, |o.names| - i
  {
    if i + 1 < |o.names| {
      EndsWidth(o, i + 1);
    } else if !o.names[i].leaf {
      EndsWidth(o.attrs[o.names[i].name].obj, 0);
      assert WidthAt(o, i) > 0;
    }
    assert WidthFrom(o, i) == WidthAt(o, i) + WidthFrom(o, i + 1);
  }

  // ---------- what an update does ----------

  /** How much data the update needs: entering a set needs some, even when nothing is left to set. */
  function NeedFrom(o: Obj, i: nat): nat
    requires Shaped(o) && i <= |o.names|
  {
    WidthFrom(o, i) + if i == |o.names| || EndsInCounter(o) then 0 else 1
  }

  function Need(o: Obj): nat
    requires Shaped(o)
  {
    Width(o) + if EndsInCounter(o) then 0 else 1
  }

  /** A result of updating from name i on, with this much data. */
  ghost predicate Tells(r: Result, o: Obj, i: nat, data: seq<Value>)
    requires Shaped(o) && Shaped(r.obj) && i <= |o.names|
  {
    && Same(o, r.obj)
    && (r.Ok? <==> |data| >= NeedFrom(o, i))
    && (|data| >= WidthFrom(o, i) ==> FlattenFrom(r.obj, i) == data[..WidthFrom(o, i)])
    && (r.Ok? ==> r.rest == data[WidthFrom(o, i)..])
    && forall k :: 0 <= k < i ==> Part(r.obj, k) == Part(o, k)
  }

  /** The same for a whole set. */
  ghost predicate TellsAll(r: Result, o: Obj, data: seq<Value>)
    requires Shaped(o) && Shaped(r.obj)
  {
    && Same(o, r.obj)
    && (r.Ok? <==> |data| >= Need(o))
    && (|data| >= Width(o) ==> Flatten(r.obj) == data[..Width(o)])
    && (r.Ok? ==> r.rest == data[Width(o)..])
  }

  /** Replacing the attribute of name i leaves what comes before as it was. */
  lemma PartsBefore(o: Obj, i: nat, a: Attr, k: nat)
    requires Shaped(o) && Unambiguous(o) && k < i < |o.names|
    requires Shaped(With(o, o.names[i].name, a)) && Same(o, With(o, o.names[i].name, a))
    ensures Part(With(o, o.names[i].name, a), k) == Part(o, k)
  {
    var p := With(o, o.names[i].name, a);
    if o.names[k].name == o.names[i].name {
      SameUnambiguous(o, p);
      SameWidth(o, p, k);
      UnambiguousIsTidy(o);
      UnambiguousIsTidy(p);
      FlattenLength(o, k);
      FlattenLength(p, k);
    }
  }

  lemma Joined(data: seq<Value>, n: nat, w: nat)
    requires |data| >= n
    ensures |data| >= n + w ==> data[..n + w] == data[..n] + data[n..][..w] && data[n + w..] == data[n..][w..]
  {}

  /** A step that set name i to `a` and took `n` values, and what the rest of the update did. */
  lemma StepTells(r: Result, o: Obj, p: Obj, i: nat, a: Attr, data: seq<Value>)
    requires Shaped(o) && Unambiguous(o) && i < |o.names| && Shaped(r.obj)
    requires p == With(o, o.names[i].name, a) && Shaped(p) && Same(o, p) && |data| >= WidthAt(o, i)
    requires Tells(r, p, i + 1, data[WidthAt(o, i)..]) && Part(p, i) == data[..WidthAt(o, i)]
    requires |data| >= NeedFrom(o, i) <==> |data| - WidthAt(o, i) >= NeedFrom(o, i + 1)
    ensures Tells(r, o, i, data)
  {
    var n := WidthAt(o, i);
    SameTransitive(o, p, r.obj);
    SameWidth(o, p, i + 1);
    SameEnds(o, p);
    forall k | 0 <= k < i ensures Part(r.obj, k) == Part(o, k) {
      PartsBefore(o, i, a, k);
    }
    assert WidthFrom(o, i) == n + WidthFrom(o, i + 1);
    assert FlattenFrom(r.obj, i) == Part(r.obj, i) + FlattenFrom(r.obj, i + 1);
    assert NeedFrom(p, i + 1) == NeedFrom(o, i + 1);
    Joined(data, n, WidthFrom(o, i + 1));
  }

  /** What is needed from name i on, in terms of name i and the rest. */
  lemma NeedSteps(o: Obj, i: nat)
    requires Shaped(o) && i < |o.names|
    ensures WidthFrom(o, i) == WidthAt(o, i) + WidthFrom(o, i + 1)
    ensures i + 1 < |o.names| ==> NeedFrom(o, i) == WidthAt(o, i) + NeedFrom(o, i + 1) && NeedFrom(o, i + 1) > 0
    ensures o.names[i].leaf ==> NeedFrom(o, i) == WidthAt(o, i) + NeedFrom(o, i + 1)
    ensures !o.names[i].leaf && o.attrs[o.names[i].name].Set? && i + 1 == |o.names| ==>
              NeedFrom(o, i) == Need(o.attrs[o.names[i].name].obj)
  {
    if i + 1 < |o.names| && EndsInCounter(o) {
      EndsWidth(o, i + 1);
    }
  }

  lemma {:induction false} UpdateFromTells(o: Obj, i: nat, data: seq<Value>)
    requires Shaped(o) && Unambiguous(o) && i <= |o.names|
    ensures Tells(UpdateFrom(o, i, data), o, i, data)
    decreases o.depth, |o.names| - i
  {
    SameReflexive(o);
    if i < |o.names| {
      NeedSteps(o, i);
      UnambiguousIsTidy(o);
      FlattenLength(o, i);
      if o.names[i].leaf {
        if data != [] {
          CounterTells(o, i, data);
        }
      } else {
        SetTells(o, i, data);
      }
    }
  }

  /** Setting a counter. */
  lemma CounterSet(o: Obj, i: nat, v: Value)
    requires Shaped(o) && Unambiguous(o) && i < |o.names| && o.names[i].leaf
    ensures var p := With(o, o.names[i].name, Count(v));
            && Shaped(p) && Same(o, p) && Unambiguous(p)
            && WidthAt(o, i) == 1 && Part(p, i) == [v]
  {
    var p := With(o, o.names[i].name, Count(v));
    SameWith(o, o.names[i].name, Count(v));
    SameUnambiguous(o, p);
    hide Unambiguous;
  }

  lemma {:induction false} CounterTells(o: Obj, i: nat, data: seq<Value>)
    requires Shaped(o) && Unambiguous(o) && i < |o.names| && o.names[i].leaf && data != []
    ensures Tells(UpdateFrom(o, i, data), o, i, data)
    decreases o.depth, |o.names| - i, 0
  {
    var a := Count(data[0]);
    var p := With(o, o.names[i].name, a);
    CounterSet(o, i, data[0]);
    NeedSteps(o, i);
    CounterStep(o, i, data);
    hide UpdateFrom, Tells, Unambiguous, Same, Shaped, WidthAt, Part, NeedFrom;
    UpdateFromTells(p, i + 1, data[1..]);
    assert data[..1] == [data[0]];
    StepTells(UpdateFrom(o, i, data), o, p, i, a, data);
  }

  /** For any amount of data: the update succeeds exactly when it gets what it needs; it then returns the rest;
      and whenever there is a value for every counter, they are stored from left to right. */
  lemma {:induction false} UpdateTells(o: Obj, data: seq<Value>)
    requires Shaped(o) && Unambiguous(o)
    ensures TellsAll(Update(o, data), o, data)
    decreases o.depth, |o.names| + 1
  {
    SameReflexive(o);
    UnambiguousIsTidy(o);
    FlattenLength(o, 0);
    if data == [] {
      if EndsInCounter(o) {
        EndsWidth(o, 0);
      }
    } else {
      UpdateFromTells(o, 0, data);
    }
  }

  lemma {:induction false} SetTells(o: Obj, i: nat, data: seq<Value>)
    requires Shaped(o) && Unambiguous(o) && i < |o.names| && !o.names[i].leaf
    ensures Tells(UpdateFrom(o, i, data), o, i, data)
    decreases o.depth, |o.names| - i, 0
  {
    var name := o.names[i].name;
    var sub := o.attrs[name].obj;
    var inner := Update(sub, data);
    UpdateTells(sub, data);
    var a := Set(inner.obj);
    var p := With(o, name, a);
    SameWith(o, name, a);
    SameUnambiguous(o, p);
    NeedSteps(o, i);
    if inner.Ok? {
      UpdateFromTells(p, i + 1, inner.rest);
      StepTells(UpdateFrom(o, i, data), o, p, i, a, data);
    } else {
      SetRaises(o, p, i, a, data);
    }
  }

  lemma SetShort(o: Obj, i: nat, n: nat)
    requires Shaped(o) && i < |o.names| && !o.names[i].leaf && o.attrs[o.names[i].name].Set?
    requires n < Need(o.attrs[o.names[i].name].obj)
    ensures n < NeedFrom(o, i) && WidthFrom(o, i) == WidthAt(o, i) + WidthFrom(o, i + 1)
    ensures n >= WidthFrom(o, i) ==> WidthFrom(o, i + 1) == 0
  {
    NeedSteps(o, i);
    assert WidthAt(o, i) == Width(o.attrs[o.names[i].name].obj);
  }

  /** When a nested set raises, the update from its name on does, and if there was data enough for every
      counter then only sets without counters are left. */
  lemma SetRaises(o: Obj, p: Obj, i: nat, a: Attr, data: seq<Value>)
    requires Shaped(o) && Unambiguous(o) && i < |o.names| && !o.names[i].leaf
    requires p == With(o, o.names[i].name, a) && Shaped(p) && Same(o, p) && a.Set?
    requires |data| < Need(o.attrs[o.names[i].name].obj)
    requires |data| >= WidthAt(o, i) ==> Part(p, i) == data[..WidthAt(o, i)]
    ensures Tells(Raised(p), o, i, data)
  {
    SetShort(o, i, |data|);
    SameUnambiguous(o, p);
    SameWidth(o, p, i + 1);
    UnambiguousIsTidy(p);
    FlattenLength(p, i + 1);
    forall k | 0 <= k < i ensures Part(p, k) == Part(o, k) {
      PartsBefore(o, i, a, k);
    }
    assert FlattenFrom(p, i) == Part(p, i) + FlattenFrom(p, i + 1);
    assert |data| >= WidthFrom(o, i) ==> FlattenFrom(p, i + 1) == [];
  }

  // ---------- when values have two places ----------

  /** What the constructor leaves: a counter's attribute is a value unless a later set of the same name has
      replaced it. */
  predicate Constructed(o: Obj)
    requires Shaped(o)
    decreases o.depth
  {
    && (forall i :: 0 <= i < |o.names| ==>
          o.names[i].leaf ==> o.attrs[o.names[i].name].Count? || SetFollows(o, i))
    && (forall n :: n in o.attrs && o.attrs[n].Set? ==> Constructed(o.attrs[n].obj))
  }

  predicate SetFollows(o: Obj, i: nat)
    requires i < |o.names|
  {
    exists k :: i < k < |o.names| && o.names[k] == Entry(o.names[i].name, false)
  }

  /** With one value more than there are counters, so that no set is entered with nothing left, every counter
      gets its value and the rest is returned. */
  ghost predicate Law(o: Obj)
    requires Shaped(o)
  {
    forall data: seq<Value> :: |data| > Width(o) ==> Stores(o, data)
  }

  ghost predicate Stores(o: Obj, data: seq<Value>)
    requires Shaped(o) && |data| > Width(o)
  {
    var r := Update(o, data);
    r.Ok? && r.rest == data[Width(o)..] && Flatten(r.obj) == data[..Width(o)]
  }

  /** A set whose attribute has become a value cannot be entered. */
  lemma {:induction false} Blocked(o: Obj, i: nat, k: nat, data: seq<Value>)
    requires Shaped(o) && i <= k < |o.names| && !o.names[k].leaf && o.attrs[o.names[k].name].Count?
    ensures UpdateFrom(o, i, data).Raised?
    decreases k - i
  {
    var e := o.names[i];
    if i < k {
      if e.leaf {
        if data != [] {
          Blocked(With(o, e.name, Count(data[0])), i + 1, k, data[1..]);
        }
      } else if o.attrs[e.name].Set? {
        var inner := Update(o.attrs[e.name].obj, data);
        if inner.Ok? {
          Blocked(With(o, e.name, Set(inner.obj)), i + 1, k, inner.rest);
        }
      }
    }
  }

  lemma {:induction false} SameConstructed(o: Obj, p: Obj)
    requires Shaped(o) && Shaped(p) && Same(o, p) && Constructed(o)
    ensures Constructed(p)
    decreases o.depth
  {
    forall n | n in p.attrs && p.attrs[n].Set? ensures Constructed(p.attrs[n].obj) {
      SameConstructed(o.attrs[n].obj, p.attrs[n].obj);
    }
    forall i | 0 <= i < |o.names| && SetFollows(o, i) ensures SetFollows(p, i) {}
  }

  lemma {:induction false} SameTidy(o: Obj, p: Obj)
    requires Shaped(o) && Shaped(p) && Same(o, p)
    ensures Tidy(o) == Tidy(p)
    decreases o.depth
  {
    forall n | n in o.attrs && o.attrs[n].Set? ensures Tidy(o.attrs[n].obj) == Tidy(p.attrs[n].obj) {
      SameTidy(o.attrs[n].obj, p.attrs[n].obj);
    }
  }

  /** From name i on, nothing is in the way of the update. */
  ghost predicate TidyFrom(o: Obj, i: nat)
    requires Shaped(o) && i <= |o.names|
  {
    forall m :: i <= m < |o.names| ==> TidyAt(o, m)
  }

  ghost predicate TidyAt(o: Obj, m: nat)
    requires Shaped(o) && m < |o.names|
  {
    if o.names[m].leaf then o.attrs[o.names[m].name].Count?
    else o.attrs[o.names[m].name].Set? && Tidy(o.attrs[o.names[m].name].obj)
  }

  lemma TidyThroughout(o: Obj)
    requires Shaped(o) && TidyFrom(o, 0) && UPDATE_SELF !in o.attrs
    ensures Tidy(o)
  {
    forall i | 0 <= i < |o.names|
      ensures if o.names[i].leaf then o.attrs[o.names[i].name].Count?
              else o.attrs[o.names[i].name].Set? && Tidy(o.attrs[o.names[i].name].obj)
    {
      assert TidyAt(o, i);
    }
  }

  lemma SameTidyFrom(o: Obj, p: Obj, i: nat)
    requires Shaped(o) && Shaped(p) && Same(o, p) && i <= |o.names| && TidyFrom(p, i)
    ensures TidyFrom(o, i)
  {
    forall m | i <= m < |o.names| ensures TidyAt(o, m) {
      var n := o.names[m].name;
      assert TidyAt(p, m);
      if o.attrs[n].Set? {
        SameTidy(o.attrs[n].obj, p.attrs[n].obj);
      }
    }
  }

  /** An update that succeeds has met no counter that is a set. */
  lemma {:induction false} SuccessIsTidyFrom(o: Obj, i: nat, data: seq<Value>)
    requires Shaped(o) && Constructed(o) && i <= |o.names| && UpdateFrom(o, i, data).Ok?
    ensures Same(o, UpdateFrom(o, i, data).obj) && TidyFrom(o, i)
    decreases o.depth, |o.names| - i
  {
    if i == |o.names| {
      SameReflexive(o);
    } else {
      var e := o.names[i];
      var a, rest := StepOf(o, i, data);
      var p := With(o, e.name, a);
      SameWith(o, e.name, a);
      SameConstructed(o, p);
      SuccessIsTidyFrom(p, i + 1, rest);
      SameTransitive(o, p, UpdateFrom(o, i, data).obj);
      SameTidyFrom(o, p, i + 1);
      assert TidyAt(o, i);
    }
  }

  /** The first step of an update that succeeds. */
  lemma {:induction false} StepOf(o: Obj, i: nat, data: seq<Value>) returns (a: Attr, rest: seq<Value>)
    requires Shaped(o) && Constructed(o) && i < |o.names| && UpdateFrom(o, i, data).Ok?
    ensures a.Set? ==> Shaped(a.obj)
    ensures Shaped(With(o, o.names[i].name, a))
    ensures UpdateFrom(o, i, data) == UpdateFrom(With(o, o.names[i].name, a), i + 1, rest)
    ensures match o.attrs[o.names[i].name] case Count(_) => a.Count? case Set(sub) => a.Set? && Same(sub, a.obj)
    ensures TidyAt(o, i)
    decreases o.depth, |o.names| - i, 0
  {
    var e := o.names[i];
    if e.leaf {
      a, rest := Count(data[0]), data[1..];
      if o.attrs[e.name].Set? {
        var k :| i < k < |o.names| && o.names[k] == Entry(e.name, false);
        Blocked(With(o, e.name, a), i + 1, k, rest);
      }
    } else {
      var sub := o.attrs[e.name].obj;
      var inner := Update(sub, data);
      a, rest := Set(inner.obj), inner.rest;
      SuccessIsTidyFrom(sub, 0, data);
      TidyThroughout(sub);
    }
  }

  lemma SuccessIsTidy(o: Obj, data: seq<Value>)
    requires Shaped(o) && Constructed(o) && Update(o, data).Ok?
    ensures Tidy(o) && Same(o, Update(o, data).obj)
  {
    SuccessIsTidyFrom(o, 0, data);
    TidyThroughout(o);
  }

  ghost predicate Distinct(s: seq<Value>) {
    forall i, j :: 0 <= i < j < |s| ==> s[i] != s[j]
  }

  lemma SliceOfRest(s: seq<Value>, t: seq<Value>, at: nat, n: nat)
    requires at + n <= |t|
    ensures (s + t)[|s| + at..|s| + at + n] == t[at..at + n]
  {}

  /** Where the part of name i starts in what is flattened from name j on. */
  lemma {:induction false} PartInFlatten(o: Obj, j: nat, i: nat)
    requires Shaped(o) && Tidy(o) && j <= i < |o.names|
    ensures WidthFrom(o, j) >= WidthFrom(o, i) >= |Part(o, i)|
    ensures |FlattenFrom(o, j)| == WidthFrom(o, j)
    ensures var at := WidthFrom(o, j) - WidthFrom(o, i); FlattenFrom(o, j)[at..at + |Part(o, i)|] == Part(o, i)
    ensures j < i ==> WidthFrom(o, j) - WidthFrom(o, i) >= |Part(o, j)|
    decreases i - j
  {
    FlattenLength(o, j);
    FlattenLength(o, i);
    assert FlattenFrom(o, j) == Part(o, j) + FlattenFrom(o, j + 1);
    if j < i {
      PartInFlatten(o, j + 1, i);
      SliceOfRest(Part(o, j), FlattenFrom(o, j + 1), WidthFrom(o, j + 1) - WidthFrom(o, i), |Part(o, i)|);
    }
  }

  lemma FirstOf(f: seq<Value>, at: nat, n: nat)
    requires at + n <= |f|
    ensures n > 0 ==> f[at..at + n][0] == f[at]
  {}

  lemma DistinctAt(f: seq<Value>, at: nat, bt: nat, n: nat)
    requires Distinct(f) && at + n <= bt && bt + n <= |f|
    ensures n > 0 ==> f[at] != f[bt]
  {}

  lemma SharedSlice(f: seq<Value>, at: nat, bt: nat, n: nat)
    requires Distinct(f) && at + n <= bt && bt + n <= |f| && f[at..at + n] == f[bt..bt + n]
    ensures n == 0
  {
    hide Distinct;
    FirstOf(f, at, n);
    FirstOf(f, bt, n);
    DistinctAt(f, at, bt, n);
  }

  lemma SamePart(o: Obj, i: nat, j: nat)
    requires Shaped(o) && Tidy(o) && i < |o.names| && j < |o.names| && o.names[i].name == o.names[j].name
    ensures Part(o, i) == Part(o, j)
  {}

  /** Two names that share a value cannot both show a value of their own. */
  lemma SharedIsEmpty(o: Obj, i: nat, j: nat)
    requires Shaped(o) && Tidy(o) && i < j < |o.names| && o.names[i].name == o.names[j].name
    requires Distinct(Flatten(o))
    ensures WidthAt(o, i) == WidthAt(o, j) == 0
  {
    SamePart(o, i, j);
    PartInFlatten(o, 0, i);
    PartInFlatten(o, 0, j);
    PartInFlatten(o, i, j);
    FlattenLength(o, i);
    FlattenLength(o, j);
    hide Part, WidthAt, WidthFrom, FlattenFrom, Tidy, Distinct;
    SharedSlice(Flatten(o), WidthFrom(o, 0) - WidthFrom(o, i), WidthFrom(o, 0) - WidthFrom(o, j), |Part(o, i)|);
  }

  lemma SliceIsDistinct(f: seq<Value>, at: nat, n: nat)
    requires Distinct(f) && at + n <= |f|
    ensures Distinct(f[at..at + n])
  {
    var s := f[at..at + n];
    forall i, j | 0 <= i < j < n ensures s[i] != s[j] {}
  }

  lemma PartIsDistinct(o: Obj, i: nat)
    requires Shaped(o) && Tidy(o) && i < |o.names| && Distinct(Flatten(o))
    ensures Distinct(Part(o, i))
  {
    PartInFlatten(o, 0, i);
    SliceIsDistinct(Flatten(o), WidthFrom(o, 0) - WidthFrom(o, i), |Part(o, i)|);
  }

  lemma {:induction false} DistinctIsUnambiguous(o: Obj)
    requires Shaped(o) && Tidy(o) && Distinct(Flatten(o))
    ensures Unambiguous(o)
    decreases o.depth
  {
    forall i | 0 <= i < |o.names| && !o.names[i].leaf ensures Unambiguous(o.attrs[o.names[i].name].obj) {
      PartIsDistinct(o, i);
      DistinctIsUnambiguous(o.attrs[o.names[i].name].obj);
    }
    forall i, j | 0 <= i < j < |o.names| && o.names[i].name == o.names[j].name
      ensures WidthAt(o, i) == WidthAt(o, j) == 0
    {
      SharedIsEmpty(o, i, j);
    }
  }

  /** A counter set keeps every value it is given if and only if no name stands for two places or for something
      of the object's own. */
  lemma LawIffUnambiguous(o: Obj)
    requires Shaped(o) && Constructed(o)
    ensures Law(o) <==> Unambiguous(o)
  {
    if Unambiguous(o) {
      forall data: seq<Value> | |data| > Width(o) ensures Stores(o, data) {
        UpdateTells(o, data);
      }
    }
    if Law(o) {
      var data := seq(Width(o) + 1, k => Number(k));
      assert Stores(o, data);
      var p := Update(o, data).obj;
      SuccessIsTidy(o, data);
      SameTidy(o, p);
      DistinctIsUnambiguous(p);
      SameUnambiguous(o, p);
    }
  }

  // ---------- update ----------

  /** What a caller of update sees: nothing, an exception printed, or an exception. */
  datatype Report = Silent | Printed | Thrown

  /** update, on a message that holds these values. Exceptions inside it are printed; that update is not a
      routine any more is one outside it. */
  function Refresh(o: Obj, values: seq<Value>): (r: (Obj, Report))
    requires Shaped(o)
    ensures Shaped(r.0)
  {
    if UPDATE in o.attrs then (o, Thrown)
    else if !HasFormat(o) || |values| != o.codes then (o, Printed)
    else
      var r := Update(o, values);
      (r.obj, if r.Ok? then Silent else Printed)
  }

  /** The format string has not been overwritten by the value of a counter. */
  predicate HasFormat(o: Obj) {
    FORMAT in o.attrs ==> o.attrs[FORMAT] == Count(Format)
  }

  /** A message of the right size fills every counter if and only if update is still a routine and the format
      still a format; and then an exception is reported exactly when the set does not end in a counter, since
      the sets after the last one are entered with nothing left. */
  lemma RefreshStoresAll(o: Obj, values: seq<Value>)
    requires Shaped(o) && Unambiguous(o) && |values| == Width(o) == o.codes
    ensures var (p, report) := Refresh(o, values);
            && (Flatten(p) == values <==> (UPDATE !in o.attrs && HasFormat(o)) || Flatten(o) == values)
            && (report.Thrown? <==> UPDATE in o.attrs)
            && (report.Silent? <==> UPDATE !in o.attrs && HasFormat(o) && EndsInCounter(o))
  {
    UpdateTells(o, values);
    assert values[..Width(o)] == values;
  }

  /** A message of another size stores nothing, and is reported. */
  lemma WrongSizeIsRefused(o: Obj, values: seq<Value>)
    requires Shaped(o) && |values| != o.codes
    ensures Refresh(o, values) == (o, if UPDATE in o.attrs then Thrown else Printed)
  {}

  // ---------- construction ----------

  /** An element of the list a counter_set is made from. */
  datatype Counter = Leaf(name: string) | Group(name: string, counters: seq<Counter>)

  function Leaves(cs: seq<Counter>): nat {
    if cs == [] then 0
    else
      var n := |cs| - 1;
      Leaves(cs[..n]) + match cs[n] case Leaf(_) => 1 case Group(_, sub) => Leaves(sub)
  }

  predicate DistinctNames(cs: seq<Counter>) {
    && (forall i, j :: 0 <= i < j < |cs| ==> cs[i].name != cs[j].name)
    && (forall i :: 0 <= i < |cs| && cs[i].Group? ==> DistinctNames(cs[i].counters))
  }

  /** No counter or set is named like something the constructor or _update relies on. */
  predicate OwnNamesKept(cs: seq<Counter>) {
    && (forall i :: 0 <= i < |cs| ==>
          !Unsettable(cs[i].name) && cs[i].name != UPDATE_SELF && (cs[i].Group? ==> cs[i].name != FORMAT))
    && (forall i :: 0 <= i < |cs| && cs[i].Group? ==> OwnNamesKept(cs[i].counters))
  }

  /** The loop of the constructor. */
  function WithAll(cs: seq<Counter>): (r: Option<Obj>)
    ensures r.Some? ==> Shaped(r.value) && |r.value.names| == |cs|
    ensures r.Some? ==>
              forall i :: 0 <= i < |cs| ==>
                r.value.names[i] == Entry(cs[i].name, cs[i].Leaf?) && cs[i].name in r.value.attrs
    decreases cs, 0
  {
    if cs == [] then Some(Obj(0, 0, [], map[]))
    else
      var n := |cs| - 1;
      match WithAll(cs[..n])
      case None => None
      case Some(o) =>
        if Unsettable(cs[n].name) then None
        else match cs[n]
          case Leaf(name) => Some(Obj(o.depth, 0, o.names + [Entry(name, true)], o.attrs[name := Count(Number(0))]))
          case Group(name, sub) =>
            match Build(sub)
            case None => None
            case Some(s) =>
              var depth := if s.depth < o.depth then o.depth else s.depth + 1;
              Some(Obj(depth, 0, o.names + [Entry(name, false)], o.attrs[name := Set(s)]))
  }

  /** _get_struct_format goes through every nested set, and raises where it meets anything else instead. */
  predicate HasCodes(o: Obj)
    requires Shaped(o)
    decreases o.depth
  {
    forall i :: 0 <= i < |o.names| && !o.names[i].leaf ==>
      o.attrs[o.names[i].name].Set? && HasCodes(o.attrs[o.names[i].name].obj)
  }

  /** The assignment at the end of the constructor, which overwrites a counter or a set of that name. */
  function WithFormat(o: Obj): (p: Obj)
    requires Shaped(o)
    ensures Shaped(p)
  {
    var p := if FORMAT in o.attrs then With(o, FORMAT, Count(Format)) else o;
    p.(codes := Width(o))
  }

  /** __init__ */
  function Build(cs: seq<Counter>): (r: Option<Obj>)
    ensures r.Some? ==> Shaped(r.value)
    decreases cs, 1
  {
    match WithAll(cs)
    case None => None
    case Some(o) => if HasCodes(o) then Some(WithFormat(o)) else None
  }

  lemma {:induction false} WithAllIsConstructed(cs: seq<Counter>)
    ensures WithAll(cs).Some? ==> Constructed(WithAll(cs).value)
    decreases cs, 0
  {
    if cs != [] && WithAll(cs).Some? {
      var n := |cs| - 1;
      WithAllIsConstructed(cs[..n]);
      if cs[n].Group? {
        BuildIsConstructed(cs[n].counters);
      }
      var before, o := WithAll(cs[..n]).value, WithAll(cs).value;
      forall i | 0 <= i < |o.names| && o.names[i].leaf ensures o.attrs[o.names[i].name].Count? || SetFollows(o, i) {
        if i < n && cs[n].Group? && cs[n].name == o.names[i].name {
          assert o.names[n] == Entry(o.names[i].name, false);
        } else if i < n && SetFollows(before, i) {
          var k :| i < k < n && before.names[k] == Entry(before.names[i].name, false);
          assert o.names[k] == before.names[k];
        }
      }
    }
  }

  /** The constructor establishes what the theorem above asks for. */
  lemma {:induction false} BuildIsConstructed(cs: seq<Counter>)
    ensures Build(cs).Some? ==> Shaped(Build(cs).value) && Constructed(Build(cs).value)
    decreases cs, 1
  {
    WithAllIsConstructed(cs);
    if Build(cs).Some? {
      var o, p := WithAll(cs).value, Build(cs).value;
      forall i | 0 <= i < |p.names| && p.names[i].leaf ensures p.attrs[p.names[i].name].Count? || SetFollows(p, i) {
        if SetFollows(o, i) {
          var k :| i < k < |o.names| && o.names[k] == Entry(o.names[i].name, false);
          assert p.names[k] == o.names[k];
        }
      }
    }
  }

  /** A set with one more name, which none before it has. */
  lemma {:induction false} ExtendedWidth(o: Obj, p: Obj, i: nat)
    requires Shaped(o) && Shaped(p) && |p.names| == |o.names| + 1 && o.names <= p.names && i <= |o.names|
    requires forall k :: 0 <= k < |o.names| ==> p.attrs[o.names[k].name] == o.attrs[o.names[k].name]
    ensures WidthFrom(p, i) == WidthFrom(o, i) + WidthAt(p, |o.names|)
    decreases |o.names| - i
  {
    if i < |o.names| {
      ExtendedWidth(o, p, i + 1);
      assert WidthAt(o, i) == WidthAt(p, i);
      assert WidthFrom(p, i) == WidthAt(p, i) + WidthFrom(p, i + 1);
      assert WidthFrom(o, i) == WidthAt(o, i) + WidthFrom(o, i + 1);
    } else {
      assert WidthFrom(p, i) == WidthAt(p, i) + WidthFrom(p, i + 1);
    }
  }

  /** One more counter or set, whose name is new. */
  lemma ExtendedUnambiguous(o: Obj, p: Obj)
    requires Shaped(o) && Shaped(p) && Unambiguous(o) && |p.names| == |o.names| + 1 && o.names <= p.names
    requires UPDATE_SELF !in p.attrs
    requires forall k :: 0 <= k < |o.names| ==> p.attrs[o.names[k].name] == o.attrs[o.names[k].name]
    requires forall k :: 0 <= k < |o.names| ==> o.names[k].name != p.names[|o.names|].name
    requires var last := p.names[|o.names|]; if last.leaf then p.attrs[last.name].Count?
                                             else p.attrs[last.name].Set? && Unambiguous(p.attrs[last.name].obj)
    ensures Unambiguous(p)
  {
    forall i, j | 0 <= i < j < |p.names| && p.names[i].name == p.names[j].name
      ensures WidthAt(p, i) == WidthAt(p, j) == 0
    {
      assert j < |o.names| && p.names[i] == o.names[i] && p.names[j] == o.names[j];
      assert WidthAt(p, i) == WidthAt(o, i) && WidthAt(p, j) == WidthAt(o, j);
    }
  }

  lemma {:induction false} UnambiguousHasCodes(o: Obj)
    requires Shaped(o) && Unambiguous(o)
    ensures HasCodes(o)
    decreases o.depth
  {
    forall i | 0 <= i < |o.names| && !o.names[i].leaf ensures HasCodes(o.attrs[o.names[i].name].obj) {
      UnambiguousHasCodes(o.attrs[o.names[i].name].obj);
    }
  }

  /** The format string takes the place of a counter's first value, or of nothing. */
  lemma FormatKeepsSame(o: Obj)
    requires Shaped(o) && (FORMAT in o.attrs ==> o.attrs[FORMAT].Count?)
    ensures Same(o.(codes := Width(o)), WithFormat(o)) && HasFormat(WithFormat(o))
  {
    SameReflexive(o);
    var q := o.(codes := Width(o));
    assert WithFormat(o).attrs.Keys == q.attrs.Keys;
    forall n | n in q.attrs && q.attrs[n].Set? ensures Same(q.attrs[n].obj, WithFormat(o).attrs[n].obj) {
      SameReflexive(q.attrs[n].obj);
    }
  }

  lemma {:induction false} CodesDoNotMatter(o: Obj, n: nat, i: nat)
    requires Shaped(o) && i <= |o.names|
    ensures Shaped(o.(codes := n)) && WidthFrom(o.(codes := n), i) == WidthFrom(o, i)
    ensures i < |o.names| ==> WidthAt(o.(codes := n), i) == WidthAt(o, i)
    decreases |o.names| - i
  {
    var p := o.(codes := n);
    if i < |o.names| {
      CodesDoNotMatter(o, n, i + 1);
      assert WidthFrom(p, i) == WidthAt(p, i) + WidthFrom(p, i + 1);
      assert WidthFrom(o, i) == WidthAt(o, i) + WidthFrom(o, i + 1);
    }
  }

  /** The last line of the constructor changes neither widths nor what the names stand for. */
  lemma FormatKeepsUnambiguous(o: Obj)
    requires Shaped(o) && Unambiguous(o) && (FORMAT in o.attrs ==> o.attrs[FORMAT].Count?)
    ensures Unambiguous(WithFormat(o)) && HasFormat(WithFormat(o))
    ensures Width(WithFormat(o)) == WithFormat(o).codes == Width(o)
  {
    var q := o.(codes := Width(o));
    CodesKeepUnambiguous(o, Width(o));
    FormatKeepsSame(o);
    FormatKeepsWidth(q, WithFormat(o));
    hide Unambiguous, WidthFrom, Same, Shaped;
    SameUnambiguous(q, WithFormat(o));
  }

  lemma CodesKeepUnambiguous(o: Obj, n: nat)
    requires Shaped(o) && Unambiguous(o)
    ensures Shaped(o.(codes := n)) && Unambiguous(o.(codes := n)) && Width(o.(codes := n)) == Width(o)
  {
    var q := o.(codes := n);
    forall i | 0 <= i < |o.names| ensures WidthAt(q, i) == WidthAt(o, i) {
      CodesDoNotMatter(o, n, i);
    }
    CodesDoNotMatter(o, n, 0);
    hide WidthAt, WidthFrom;
  }

  lemma FormatKeepsWidth(q: Obj, p: Obj)
    requires Shaped(q) && Shaped(p) && Same(q, p) && Unambiguous(q)
    ensures Width(p) == Width(q)
  {
    hide WidthFrom, Unambiguous, Same, Shaped;
    SameWidth(q, p, 0);
  }

  /** One round of the constructor's loop. */
  lemma OneMoreName(cs: seq<Counter>) returns (depth: nat, a: Attr)
    requires cs != [] && WithAll(cs[..|cs| - 1]).Some? && !Unsettable(cs[|cs| - 1].name)
    requires cs[|cs| - 1].Group? ==> Build(cs[|cs| - 1].counters).Some?
    ensures match cs[|cs| - 1]
            case Leaf(_) => a == Count(Number(0))
            case Group(_, sub) => a == Set(Build(sub).value)
    ensures var before, last := WithAll(cs[..|cs| - 1]).value, cs[|cs| - 1];
            var names, attrs := before.names + [Entry(last.name, last.Leaf?)], before.attrs[last.name := a];
            WithAll(cs) == Some(Obj(depth, 0, names, attrs))
  {
    a := match cs[|cs| - 1] case Leaf(_) => Count(Number(0)) case Group(_, sub) => Set(Build(sub).value);
    depth := WithAll(cs).value.depth;
  }

  /** One more counter or set, whose name nothing before it has. */
  lemma ExtendedBoth(o: Obj, p: Obj, e: Entry, a: Attr)
    requires Shaped(o) && Shaped(p) && Unambiguous(o) && e.name !in o.attrs && e.name != UPDATE_SELF
    requires p.names == o.names + [e] && p.attrs == o.attrs[e.name := a]
    requires if e.leaf then a.Count? else a.Set? && Shaped(a.obj) && Unambiguous(a.obj)
    ensures Unambiguous(p)
    ensures Width(p) == Width(o) + if e.leaf then 1 else Width(a.obj)
  {
    ExtendedWidth(o, p, 0);
    ExtendedUnambiguous(o, p);
  }

  /** The attributes are the names. */
  lemma {:induction false} AttrsAreNames(cs: seq<Counter>, name: string)
    requires WithAll(cs).Some? && name in WithAll(cs).value.attrs
    ensures exists i :: 0 <= i < |cs| && cs[i].name == name
    decreases |cs|
  {
    if cs != [] {
      var n := |cs| - 1;
      if name == cs[n].name {
        assert cs[n].name == name;
      } else {
        AttrsAreNames(cs[..n], name);
        var i :| 0 <= i < n && cs[..n][i].name == name;
        assert cs[i].name == name;
      }
    }
  }

  /** Before its last line the constructor has made a set that stores everything. */
  lemma {:induction false} DistinctNamesWork(cs: seq<Counter>)
    requires DistinctNames(cs) && OwnNamesKept(cs)
    ensures WithAll(cs).Some? && Unambiguous(WithAll(cs).value) && Width(WithAll(cs).value) == Leaves(cs)
    ensures FORMAT in WithAll(cs).value.attrs ==> WithAll(cs).value.attrs[FORMAT].Count?
    decreases cs, 0
  {
    if cs != [] {
      var n := |cs| - 1;
      DistinctNamesWork(cs[..n]);
      if cs[n].Group? {
        DistinctNamesSuffice(cs[n].counters);
      }
      var before := WithAll(cs[..n]).value;
      var depth, a := OneMoreName(cs);
      if cs[n].name in before.attrs {
        AttrsAreNames(cs[..n], cs[n].name);
      }
      hide WithAll, Build, Width, Unambiguous;
      ExtendedBoth(before, WithAll(cs).value, Entry(cs[n].name, cs[n].Leaf?), a);
    }
  }

  /** With distinct names at every level, none of them one that the constructor or _update relies on, the set
      can be made, its format has one code for each counter of the list, and it stores everything. */
  lemma {:induction false} DistinctNamesSuffice(cs: seq<Counter>)
    requires DistinctNames(cs) && OwnNamesKept(cs)
    ensures Build(cs).Some? && Unambiguous(Build(cs).value) && HasFormat(Build(cs).value)
    ensures Build(cs).value.codes == Width(Build(cs).value) == Leaves(cs)
    decreases cs, 1
  {
    DistinctNamesWork(cs);
    UnambiguousHasCodes(WithAll(cs).value);
    FormatKeepsUnambiguous(WithAll(cs).value);
  }

  // ---------- names and sets that fail ----------

  /** No list with one of these names, wherever it stands, can be made into a set. */
  lemma {:induction false} UnsettableFails(cs: seq<Counter>, i: nat)
    requires i < |cs| && Unsettable(cs[i].name)
    ensures WithAll(cs).None? && Build(cs).None?
    decreases |cs|
  {
    if i < |cs| - 1 {
      UnsettableFails(cs[..|cs| - 1], i);
    }
  }

  /** A list of counters alone can always be made into a set, unless a name cannot be set. */
  lemma {:induction false} CountersBuild(cs: seq<Counter>)
    requires forall i :: 0 <= i < |cs| ==> cs[i].Leaf? && !Unsettable(cs[i].name)
    ensures Build(cs).Some? && Build(cs).value.names == seq(|cs|, i requires 0 <= i < |cs| => Entry(cs[i].name, true))
    ensures WithAll(cs).Some? && Build(cs).value == WithFormat(WithAll(cs).value)
    decreases |cs|
  {
    if cs != [] {
      var n := |cs| - 1;
      CountersBuild(cs[..n]);
      var depth, a := OneMoreName(cs);
    }
  }

  lemma NotAnAttr(cs: seq<Counter>, name: string)
    requires Build(cs).Some? && forall i :: 0 <= i < |cs| ==> cs[i].name != name
    ensures name !in Build(cs).value.attrs
  {
    assert Build(cs).value.attrs.Keys == WithAll(cs).value.attrs.Keys;
    if name in WithAll(cs).value.attrs {
      AttrsAreNames(cs, name);
    }
  }

  /** A counter that hides _update: the set is made, but no message stores anything. */
  lemma HiddenUpdate(values: seq<Value>)
    ensures Build([Leaf(UPDATE_SELF)]).Some?
    ensures var o := Build([Leaf(UPDATE_SELF)]).value;
            !Unambiguous(o) && !Law(o) && Refresh(o, values) == (o, Printed)
  {
    var cs := [Leaf(UPDATE_SELF)];
    CountersBuild(cs);
    BuildIsConstructed(cs);
    var o := Build(cs).value;
    LawIffUnambiguous(o);
    assert o.names[0].name in o.attrs;
    NotAnAttr(cs, UPDATE);
  }

  lemma TwoCounters(o: Obj)
    requires Shaped(o) && |o.names| == 2 && o.names[0].leaf && o.names[1].leaf
    ensures Width(o) == 2 && Flatten(o) == Part(o, 0) + Part(o, 1)
    ensures o.names[0] == o.names[1] ==> !Unambiguous(o)
  {
    assert WidthFrom(o, 0) == 1 + WidthFrom(o, 1) && WidthFrom(o, 1) == 1 + WidthFrom(o, 2);
    assert FlattenFrom(o, 0) == Part(o, 0) + FlattenFrom(o, 1) && FlattenFrom(o, 1) == Part(o, 1) + FlattenFrom(o, 2);
    assert WidthAt(o, 0) == 1;
  }

  /** The update of two counters of one name, in a set with nothing else. */
  lemma TwoUpdates(o: Obj, name: string, x: Value, y: Value)
    requires Shaped(o) && o.names == [Entry(name, true), Entry(name, true)] && UPDATE_SELF !in o.attrs
    ensures var q := With(o, name, Count(y));
            Shaped(q) && Update(o, [x, y]) == Ok(q, [])
  {
    var p := With(o, name, Count(x));
    CounterStep(o, 0, [x, y]);
    CounterStep(p, 1, [y]);
    hide Shaped;
    assert [x, y][1..] == [y] && [y][1..] == [];
    var q := With(p, name, Count(y));
    assert q == With(o, name, Count(y));
    assert UpdateFrom(q, 2, []) == Ok(q, []);
  }

  lemma SharedCounter(o: Obj, name: string, x: Value, y: Value)
    requires Shaped(o) && o.names == [Entry(name, true), Entry(name, true)] && UPDATE_SELF !in o.attrs
    ensures Update(o, [x, y]).Ok? && Flatten(Update(o, [x, y]).obj) == [y, y]
  {
    TwoUpdates(o, name, x, y);
    var q := With(o, name, Count(y));
    TwoCounters(q);
    hide Shaped, UpdateFrom, Update, Flatten;
    assert Part(q, 0) == [y] && Part(q, 1) == [y];
  }

  lemma OneName(cs: seq<Counter>, name: string, m: string)
    requires cs == [Leaf(name), Leaf(name)] && WithAll(cs).Some? && m in WithAll(cs).value.attrs
    ensures m == name
  {
    AttrsAreNames(cs, m);
  }

  lemma PairBuilt(cs: seq<Counter>, name: string)
    requires cs == [Leaf(name), Leaf(name)]
    requires !Unsettable(name) && name != UPDATE_SELF && name != UPDATE && name != FORMAT
    ensures Build(cs).Some?
    ensures var o := Build(cs).value;
            && o.names == [Entry(name, true), Entry(name, true)] && o.codes == 2 && HasFormat(o)
            && UPDATE_SELF !in o.attrs && UPDATE !in o.attrs
  {
    CountersBuild(cs);
    var before := WithAll(cs).value;
    forall m | m in before.attrs ensures m == name {
      OneName(cs, name, m);
    }
    TwoCounters(before);
    hide Unambiguous;
  }

  /** Two counters of one name: the second value is read back twice. */
  lemma SameNameTwice(name: string, x: Value, y: Value)
    requires !Unsettable(name) && name != UPDATE_SELF && name != UPDATE && name != FORMAT
    ensures var b := Build([Leaf(name), Leaf(name)]);
            b.Some? && !Unambiguous(b.value) && Flatten(Refresh(b.value, [x, y]).0) == [y, y]
  {
    PairBuilt([Leaf(name), Leaf(name)], name);
    var o := Build([Leaf(name), Leaf(name)]).value;
    hide Build, Unambiguous, Flatten, Update;
    TwoCounters(o);
    SharedCounter(o, name, x, y);
  }

  /** The last set of a list, in what the constructor leaves. */
  lemma LastSet(cs: seq<Counter>)
    requires cs != [] && cs[|cs| - 1].Group? && cs[|cs| - 1].name != FORMAT && Build(cs).Some?
    ensures var o, last := Build(cs).value, cs[|cs| - 1];
            && |o.names| == |cs| && o.names[|cs| - 1] == Entry(last.name, false)
            && Build(last.counters).Some? && o.attrs[last.name] == Set(Build(last.counters).value)
  {
    hide HasCodes, Width;
  }

  lemma NoneEndsNowhere(o: Obj)
    requires Shaped(o) && |o.names| > 0 && !o.names[|o.names| - 1].leaf
    requires o.attrs[o.names[|o.names| - 1].name].Set? && o.attrs[o.names[|o.names| - 1].name].obj.names == []
    ensures !EndsInCounter(o)
  {}

  /** A set that ends in an empty one: every value is stored, and an exception is reported all the same. */
  lemma EmptySetLast(cs: seq<Counter>, values: seq<Value>)
    requires DistinctNames(cs) && OwnNamesKept(cs) && |values| == Leaves(cs)
    requires cs != [] && cs[|cs| - 1].Group? && cs[|cs| - 1].counters == []
    requires forall i :: 0 <= i < |cs| ==> cs[i].name != UPDATE
    ensures Build(cs).Some?
    ensures Refresh(Build(cs).value, values).1 == Printed && Flatten(Refresh(Build(cs).value, values).0) == values
  {
    DistinctNamesSuffice(cs);
    LastSet(cs);
    CountersBuild([]);
    NotAnAttr(cs, UPDATE);
    hide Build, Unambiguous, DistinctNames, OwnNamesKept;
    NoneEndsNowhere(Build(cs).value);
    RefreshStoresAll(Build(cs).value, values);
  }

  /** A counter called like the format string: the first message is stored, and then no other. */
  lemma FormatOverwritten(x: Value, y: Value)
    requires x.Number?
    ensures var b := Build([Leaf(FORMAT)]);
            && b.Some? && Flatten(Refresh(b.value, [x]).0) == [x]
            && Refresh(Refresh(b.value, [x]).0, [y]) == (Refresh(b.value, [x]).0, Printed)
  {
    var cs := [Leaf(FORMAT)];
    assert cs[..0] == [];
    DistinctNamesSuffice(cs);
    CountersBuild(cs);
    var o := Build(cs).value;
    assert Leaves(cs) == 1;
    NotAnAttr(cs, UPDATE);
    RefreshStoresAll(o, [x]);
    CounterStep(o, 0, [x]);
    assert [x][1..] == [];
    var p := With(o, FORMAT, Count(x));
    assert UpdateFrom(p, 1, []) == Ok(p, []);
    assert Refresh(o, [x]).0 == p;
  }
}
