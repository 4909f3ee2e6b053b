/**
  Registration into the loader: `addFixture`, `addFixtures` and the lookup
  `createFixture` that replaces instantiation.
 */
module Registration {
  import opened Wrappers
  import opened OrderedMaps
  import opened Fixtures
  import opened GroupIndex

  /**
    The loader's state: `loadedFixtures` (class name to instance, in PHP array
    order), `groupsFixtureMapping`, and the fixtures handed on to the base
    loader's `addFixture`, in call order (what the base loader does with them is
    not part of this model).
   */
  datatype LoaderState = LoaderState(loaded: OrderedMap<Fixture>, index: Index, baseAdded: seq<Fixture>)

  /** One element of the batch given to `addFixtures`: an instance and the groups its service tag supplies. */
  datatype BatchEntry = BatchEntry(fixture: Fixture, groups: seq<string>)

  /** The registry is a well-formed PHP array whose entries sit under their own class names. */
  ghost predicate WellFormed(s: LoaderState) {
    OrderedMaps.Valid(s.loaded) && KeyedByClass(s.loaded.vals)
  }

  /** Every registered class is indexed under every group its registered instance declares. */
  ghost predicate Consistent(s: LoaderState) {
    forall c, g :: c in s.loaded.vals && g in GroupsOf(s.loaded.vals[c]) ==> Member(s.index, g, c)
  }

  /** The class names in a batch. */
  function BatchClasses(batch: seq<BatchEntry>): set<string> {
    set i | 0 <= i < |batch| :: batch[i].fixture.cls
  }

  /** No later element of the batch has the class of element `i`. */
  ghost predicate LastInBatch(batch: seq<BatchEntry>, i: int)
    requires 0 <= i < |batch|
  {
    forall j :: i < j < |batch| ==> batch[j].fixture.cls != batch[i].fixture.cls
  }

  /** The freshly constructed loader: nothing registered, nothing indexed. */
  function Init(): (r: LoaderState)
    ensures WellFormed(r) && Consistent(r)
    ensures |r.loaded.keys| == 0 && r.loaded.vals.Keys == {}
    ensures forall g, c :: !Member(r.index, g, c)
    ensures r.baseAdded == []
  {
    LoaderState(Empty(), map[], [])
  }

  /** The index updates of `addFixture`: the class under its short name, then under its declared groups. */
  function IndexFixture(idx: Index, f: Fixture): (r: Index)
    ensures forall g, c :: Member(r, g, c) <==> Member(idx, g, c) || (c == f.cls && g in GroupsOf(f))
  {
    var idx := AddGroups(idx, f.cls, [ShortName(f.cls)]);
    if f.groups.Some? then AddGroups(idx, f.cls, f.groups.value) else idx
  }

  /**
    `addFixture($f)`: stores `f` under its class, indexes the class under its short
    name and its declared groups, and hands `f` on to the base loader.
   */
  function AddFixture(s: LoaderState, f: Fixture): (r: LoaderState)
    requires WellFormed(s)
    ensures WellFormed(r)
    ensures r.loaded.vals == s.loaded.vals[f.cls := f]
    ensures f.cls in s.loaded.vals ==> r.loaded.keys == s.loaded.keys
    ensures f.cls !in s.loaded.vals ==> r.loaded.keys == s.loaded.keys + [f.cls]
    ensures forall g, c :: Member(r.index, g, c) <==> Member(s.index, g, c) || (c == f.cls && g in GroupsOf(f))
    ensures r.baseAdded == s.baseAdded + [f]
  {
    LoaderState(Put(s.loaded, f.cls, f), IndexFixture(s.index, f), s.baseAdded + [f])
  }

  /** `addFixture` keeps the registry and the index consistent. */
  lemma AddFixtureConsistent(s: LoaderState, f: Fixture)
    requires WellFormed(s) && Consistent(s)
    ensures Consistent(AddFixture(s, f))
  {
    var r := AddFixture(s, f);
    forall c, g | c in r.loaded.vals && g in GroupsOf(r.loaded.vals[c]) ensures Member(r.index, g, c) {
      if c != f.cls {
        assert r.loaded.vals[c] == s.loaded.vals[c];
        assert Member(s.index, g, c);
      }
    }
  }

  /** One iteration of the first loop of `addFixtures`: store the instance, index its supplied groups. */
  function Register(s: LoaderState, e: BatchEntry): (r: LoaderState)
    requires WellFormed(s)
    ensures WellFormed(r)
    ensures r.loaded.vals == s.loaded.vals[e.fixture.cls := e.fixture]
    ensures forall g, c :: Member(r.index, g, c) <==> Member(s.index, g, c) || (c == e.fixture.cls && g in e.groups)
    ensures r.baseAdded == s.baseAdded
  {
    LoaderState(Put(s.loaded, e.fixture.cls, e.fixture), AddGroups(s.index, e.fixture.cls, e.groups), s.baseAdded)
  }

  /** The first loop of `addFixtures`, over the batch in order. */
  function RegisterBatch(s: LoaderState, batch: seq<BatchEntry>): (r: LoaderState)
    requires WellFormed(s)
    ensures WellFormed(r)
    ensures r.baseAdded == s.baseAdded
    decreases |batch|
  {
    if |batch| == 0 then s
    else Register(RegisterBatch(s, batch[..|batch| - 1]), batch[|batch| - 1])
  }

  /** The second loop of `addFixtures`: `addFixture` on each of `fs`, in order. */
  function AddEach(s: LoaderState, fs: seq<Fixture>): (r: LoaderState)
    requires WellFormed(s)
    ensures WellFormed(r)
    decreases |fs|
  {
    if |fs| == 0 then s
    else AddEach(AddFixture(s, fs[0]), fs[1..])
  }

  /**
    `addFixtures($batch)`: first stores every instance and its supplied groups, and
    only then calls `addFixture` on every registered instance, iterating over a copy
    of the registry as it stood after the first loop.
   */
  function AddFixtures(s: LoaderState, batch: seq<BatchEntry>): (r: LoaderState)
    requires WellFormed(s)
    ensures WellFormed(r)
  {
    var registered := RegisterBatch(s, batch);
    AddEach(registered, Values(registered.loaded))
  }

  /**
    `createFixture($cls)`: the registered instance of `cls`, never a new one; an
    `Unregistered` error when `cls` has no entry.
   */
  function CreateFixture(s: LoaderState, cls: string): (r: Result<Fixture, LoaderError>)
    requires WellFormed(s)
    ensures r.Success? <==> cls in s.loaded.vals
    ensures r.Success? ==> r.value in s.loaded.vals.Values && r.value.cls == cls
    ensures r.Failure? ==> r.error == Unregistered(cls)
  {
    if cls in s.loaded.vals then Success(s.loaded.vals[cls]) else Failure(Unregistered(cls))
  }

  /** The classes of a batch are those of all but its last element, plus the last one's. */
  lemma BatchClassesSnoc(batch: seq<BatchEntry>)
    requires |batch| > 0
    ensures BatchClasses(batch) == BatchClasses(batch[..|batch| - 1]) + {batch[|batch| - 1].fixture.cls}
  {
    var n := |batch| - 1;
    var prefix := batch[..n];
    forall c | c in BatchClasses(batch) ensures c in BatchClasses(prefix) + {batch[n].fixture.cls} {
      var i :| 0 <= i < |batch| && batch[i].fixture.cls == c;
      if i < n { assert prefix[i] == batch[i]; }
    }
    forall c | c in BatchClasses(prefix) ensures c in BatchClasses(batch) {
      var i :| 0 <= i < |prefix| && prefix[i].fixture.cls == c;
      assert batch[i] == prefix[i];
    }
  }

  /** After the first loop the registered classes are the earlier ones plus those of the batch. */
  lemma {:induction false} RegisterBatchKeys(s: LoaderState, batch: seq<BatchEntry>)
    requires WellFormed(s)
    ensures RegisterBatch(s, batch).loaded.vals.Keys == s.loaded.vals.Keys + BatchClasses(batch)
    decreases |batch|
  {
    if |batch| > 0 {
      RegisterBatchKeys(s, batch[..|batch| - 1]);
      BatchClassesSnoc(batch);
    }
  }

  /** After the first loop each batch class holds the last batch element of that class. */
  lemma {:induction false} RegisterBatchLastWins(s: LoaderState, batch: seq<BatchEntry>, i: int)
    requires WellFormed(s)
    requires 0 <= i < |batch| && LastInBatch(batch, i)
    ensures var r := RegisterBatch(s, batch);
      batch[i].fixture.cls in r.loaded.vals && r.loaded.vals[batch[i].fixture.cls] == batch[i].fixture
    decreases |batch|
  {
    var n := |batch| - 1;
    var acc := RegisterBatch(s, batch[..n]);
    assert RegisterBatch(s, batch).loaded.vals == acc.loaded.vals[batch[n].fixture.cls := batch[n].fixture];
    if i < n {
      LastInBatchPrefix(batch, i);
      RegisterBatchLastWins(s, batch[..n], i);
    }
  }

  /** An element that is the last of its class in a batch is so in every prefix that holds it. */
  lemma LastInBatchPrefix(batch: seq<BatchEntry>, i: int)
    requires 0 <= i < |batch| - 1 && LastInBatch(batch, i)
    ensures batch[..|batch| - 1][i] == batch[i] && LastInBatch(batch[..|batch| - 1], i)
  {
  }

  /** The first loop leaves the instance of a class outside the batch as it was. */
  lemma {:induction false} RegisterBatchUntouched(s: LoaderState, batch: seq<BatchEntry>, c: string)
    requires WellFormed(s)
    requires c in s.loaded.vals && c !in BatchClasses(batch)
    ensures c in RegisterBatch(s, batch).loaded.vals && RegisterBatch(s, batch).loaded.vals[c] == s.loaded.vals[c]
    decreases |batch|
  {
    if |batch| > 0 {
      BatchClassesSnoc(batch);
      RegisterBatchUntouched(s, batch[..|batch| - 1], c);
    }
  }

  /** Some element of the batch supplies group `g` for class `c`. */
  ghost predicate Supplied(batch: seq<BatchEntry>, g: string, c: string) {
    exists i :: 0 <= i < |batch| && batch[i].fixture.cls == c && g in batch[i].groups
  }

  lemma SuppliedSnoc(batch: seq<BatchEntry>, g: string, c: string)
    requires |batch| > 0
    ensures var n := |batch| - 1;
      Supplied(batch, g, c) <==> Supplied(batch[..n], g, c) || (batch[n].fixture.cls == c && g in batch[n].groups)
  {
    var n := |batch| - 1;
    var prefix := batch[..n];
    if Supplied(batch, g, c) {
      var i :| 0 <= i < |batch| && batch[i].fixture.cls == c && g in batch[i].groups;
      if i < n { assert prefix[i] == batch[i]; }
    }
    if Supplied(prefix, g, c) {
      var i :| 0 <= i < |prefix| && prefix[i].fixture.cls == c && g in prefix[i].groups;
      assert batch[i] == prefix[i];
    }
  }

  /** The first loop adds to the index exactly the supplied groups of each batch element. */
  lemma {:induction false} RegisterBatchIndex(s: LoaderState, batch: seq<BatchEntry>, g: string, c: string)
    requires WellFormed(s)
    ensures Member(RegisterBatch(s, batch).index, g, c) <==> Member(s.index, g, c) || Supplied(batch, g, c)
    decreases |batch|
  {
    if |batch| > 0 {
      var n := |batch| - 1;
      RegisterBatchIndex(s, batch[..n], g, c);
      SuppliedSnoc(batch, g, c);
      assert RegisterBatch(s, batch) == Register(RegisterBatch(s, batch[..n]), batch[n]);
    }
  }

  /** Appending a non-empty list is appending its head, then its tail. */
  lemma AppendHeadTail<T>(a: seq<T>, fs: seq<T>)
    requires |fs| > 0
    ensures a + [fs[0]] + fs[1..] == a + fs
  {
    assert fs == [fs[0]] + fs[1..];
  }

  /** The second loop hands every fixture of `fs` on to the base loader, in order. */
  lemma {:induction false} AddEachHandsOn(s: LoaderState, fs: seq<Fixture>)
    requires WellFormed(s)
    ensures AddEach(s, fs).baseAdded == s.baseAdded + fs
    decreases |fs|
  {
    if |fs| > 0 {
      var s1 := AddFixture(s, fs[0]);
      AddEachHandsOn(s1, fs[1..]);
      AppendHeadTail(s.baseAdded, fs);
    }
  }

  /** Every fixture of `fs` is the registered instance of its class. */
  ghost predicate AllRegistered(s: LoaderState, fs: seq<Fixture>) {
    forall i :: 0 <= i < |fs| ==> fs[i].cls in s.loaded.vals && s.loaded.vals[fs[i].cls] == fs[i]
  }

  /** When every fixture of `fs` is already registered, the second loop leaves the registry as it was. */
  lemma {:induction false} AddEachKeepsRegistry(s: LoaderState, fs: seq<Fixture>)
    requires WellFormed(s)
    requires AllRegistered(s, fs)
    ensures AddEach(s, fs).loaded == s.loaded
    decreases |fs|
  {
    if |fs| > 0 {
      var s1 := AddFixture(s, fs[0]);
      assert s1.loaded.vals == s.loaded.vals;
      assert s1.loaded == s.loaded;
      var rest := fs[1..];
      forall i | 0 <= i < |rest| ensures rest[i].cls in s1.loaded.vals && s1.loaded.vals[rest[i].cls] == rest[i] {
        assert rest[i] == fs[i + 1];
      }
      AddEachKeepsRegistry(s1, rest);
    }
  }

  /** Some fixture of `fs` has class `c` and declares group `g`. */
  ghost predicate Declared(fs: seq<Fixture>, g: string, c: string) {
    exists i :: 0 <= i < |fs| && fs[i].cls == c && g in GroupsOf(fs[i])
  }

  lemma DeclaredCons(fs: seq<Fixture>, g: string, c: string)
    requires |fs| > 0
    ensures Declared(fs, g, c) <==> (fs[0].cls == c && g in GroupsOf(fs[0])) || Declared(fs[1..], g, c)
  {
    var rest := fs[1..];
    if Declared(fs, g, c) {
      var i :| 0 <= i < |fs| && fs[i].cls == c && g in GroupsOf(fs[i]);
      if i > 0 { assert rest[i - 1] == fs[i]; }
    }
    if Declared(rest, g, c) {
      var i :| 0 <= i < |rest| && rest[i].cls == c && g in GroupsOf(rest[i]);
      assert fs[i + 1] == rest[i];
    }
  }

  /** The second loop adds to the index exactly the groups of each fixture of `fs`. */
  lemma {:induction false} AddEachIndex(s: LoaderState, fs: seq<Fixture>, g: string, c: string)
    requires WellFormed(s)
    ensures Member(AddEach(s, fs).index, g, c) <==> Member(s.index, g, c) || Declared(fs, g, c)
    decreases |fs|
  {
    if |fs| > 0 {
      AddEachIndex(AddFixture(s, fs[0]), fs[1..], g, c);
      DeclaredCons(fs, g, c);
    }
  }

  /**
    `addFixtures` completes the registry before its first `addFixture` call: the
    second loop runs against, and leaves, the registry of the first loop; so every
    batch element ends up registered under its class (the last of a class wins),
    and entries of other classes keep their instance.
   */
  lemma AddFixturesRegistry(s: LoaderState, batch: seq<BatchEntry>)
    requires WellFormed(s)
    ensures AddFixtures(s, batch).loaded == RegisterBatch(s, batch).loaded
    ensures AddFixtures(s, batch).loaded.vals.Keys == s.loaded.vals.Keys + BatchClasses(batch)
    ensures forall i :: 0 <= i < |batch| && LastInBatch(batch, i) ==>
      AddFixtures(s, batch).loaded.vals[batch[i].fixture.cls] == batch[i].fixture
    ensures forall c :: c in s.loaded.vals && c !in BatchClasses(batch) ==>
      AddFixtures(s, batch).loaded.vals[c] == s.loaded.vals[c]
  {
    var s1 := RegisterBatch(s, batch);
    AllValuesRegistered(s1);
    AddEachKeepsRegistry(s1, Values(s1.loaded));
    RegisterBatchKeys(s, batch);
    forall i | 0 <= i < |batch| && LastInBatch(batch, i)
      ensures s1.loaded.vals[batch[i].fixture.cls] == batch[i].fixture
    {
      RegisterBatchLastWins(s, batch, i);
    }
    forall c | c in s.loaded.vals && c !in BatchClasses(batch) ensures s1.loaded.vals[c] == s.loaded.vals[c] {
      RegisterBatchUntouched(s, batch, c);
    }
  }

  /** Every value of the registry is the registered instance of its class. */
  lemma AllValuesRegistered(s: LoaderState)
    requires WellFormed(s)
    ensures AllRegistered(s, Values(s.loaded))
  {
    var vs := Values(s.loaded);
    forall i | 0 <= i < |vs| ensures vs[i].cls in s.loaded.vals && s.loaded.vals[vs[i].cls] == vs[i] {
      assert vs[i] == s.loaded.vals[s.loaded.keys[i]];
    }
  }

  /**
    `addFixtures` hands every registered instance, earlier registrations included,
    on to the base loader exactly once, in registry order.
   */
  lemma AddFixturesHandsOn(s: LoaderState, batch: seq<BatchEntry>)
    requires WellFormed(s)
    ensures var r := AddFixtures(s, batch);
      r.baseAdded == s.baseAdded + Values(r.loaded)
  {
    var s1 := RegisterBatch(s, batch);
    AddEachHandsOn(s1, Values(s1.loaded));
    AddFixturesRegistry(s, batch);
  }

  /**
    `addFixtures` adds to the index exactly the groups supplied with each batch
    element and the groups of every registered instance.
   */
  lemma AddFixturesIndex(s: LoaderState, batch: seq<BatchEntry>, g: string, c: string)
    requires WellFormed(s)
    ensures var r := AddFixtures(s, batch);
      Member(r.index, g, c) <==>
        || Member(s.index, g, c)
        || Supplied(batch, g, c)
        || (c in r.loaded.vals && g in GroupsOf(r.loaded.vals[c]))
  {
    var s1 := RegisterBatch(s, batch);
    var vs := Values(s1.loaded);
    AddFixturesRegistry(s, batch);
    RegisterBatchIndex(s, batch, g, c);
    AddEachIndex(s1, vs, g, c);
    AllValuesRegistered(s1);
    if c in s1.loaded.vals && g in GroupsOf(s1.loaded.vals[c]) {
      var i :| 0 <= i < |s1.loaded.keys| && s1.loaded.keys[i] == c;
      assert vs[i] == s1.loaded.vals[c];
    }
  }

  /** After `addFixtures` the registry and the index are consistent, whatever the state before. */
  lemma AddFixturesConsistent(s: LoaderState, batch: seq<BatchEntry>)
    requires WellFormed(s)
    ensures Consistent(AddFixtures(s, batch))
  {
    var r := AddFixtures(s, batch);
    forall c, g | c in r.loaded.vals && g in GroupsOf(r.loaded.vals[c]) ensures Member(r.index, g, c) {
      AddFixturesIndex(s, batch, g, c);
    }
  }

  /** After `addFixture(f)`, `createFixture` on its class yields exactly `f`. */
  lemma CreateAfterAdd(s: LoaderState, f: Fixture)
    requires WellFormed(s)
    ensures CreateFixture(AddFixture(s, f), f.cls) == Success(f)
  {
  }

  /**
    After `addFixtures`, `createFixture` finds the last batch element of every batch
    class, and still fails for a class neither registered before nor in the batch.
   */
  lemma CreateAfterBatch(s: LoaderState, batch: seq<BatchEntry>, cls: string)
    requires WellFormed(s)
    ensures forall i :: 0 <= i < |batch| && LastInBatch(batch, i) ==>
      CreateFixture(AddFixtures(s, batch), batch[i].fixture.cls) == Success(batch[i].fixture)
    ensures cls !in s.loaded.vals && cls !in BatchClasses(batch) ==>
      CreateFixture(AddFixtures(s, batch), cls) == Failure(Unregistered(cls))
  {
    AddFixturesRegistry(s, batch);
    forall i | 0 <= i < |batch| && LastInBatch(batch, i)
      ensures batch[i].fixture.cls in AddFixtures(s, batch).loaded.vals
    {
      assert batch[i].fixture.cls in BatchClasses(batch);
    }
  }

  /** Registering a class again keeps one registry entry for it, in its old position, holding the newer instance. */
  lemma ReRegisterKeepsOneEntry(s: LoaderState, f1: Fixture, f2: Fixture)
    requires WellFormed(s)
    requires f1.cls == f2.cls
    ensures var r := AddFixture(AddFixture(s, f1), f2);
      && r.loaded.keys == AddFixture(s, f1).loaded.keys
      && r.loaded.vals[f2.cls] == f2
      && |r.loaded.keys| == |s.loaded.keys| + (if f1.cls in s.loaded.vals then 0 else 1)
      && (f1.groups == f2.groups ==> forall g, c :: Member(r.index, g, c) <==> Member(AddFixture(s, f1).index, g, c))
  {
  }
}
