/**
  `getFixtures($groups)`: the group filter over the base loader's ordered list and
  the dependency check that every selected fixture's dependencies were selected too.
 */
module Selection {
  import opened Wrappers
  import opened OrderedMaps
  import opened Fixtures
  import opened GroupIndex
  import opened Registration

  /**
    The inner loop of the filter: whether `cls` is indexed under some requested
    group (the loop stops at the first one that matches).
   */
  function InSomeGroup(idx: Index, groups: seq<string>, cls: string): (b: bool)
    ensures b <==> exists i :: 0 <= i < |groups| && Member(idx, groups[i], cls)
    decreases |groups|
  {
    if |groups| == 0 then false
    else if Member(idx, groups[0], cls) then true
    else
      var b := InSomeGroup(idx, groups[1..], cls);
      assert b ==> exists i :: 0 <= i < |groups| && Member(idx, groups[i], cls) by {
        if b {
          var i :| 0 <= i < |groups| - 1 && Member(idx, groups[1..][i], cls);
          assert groups[1..][i] == groups[i + 1];
        }
      }
      assert (exists i :: 0 <= i < |groups| && Member(idx, groups[i], cls)) ==> b by {
        if exists i :: 0 <= i < |groups| && Member(idx, groups[i], cls) {
          var i :| 0 <= i < |groups| && Member(idx, groups[i], cls);
          assert i > 0 && groups[1..][i - 1] == groups[i];
        }
      }
      b
  }

  /**
    `$filteredFixtures`, built by the outer loop over the base list: every fixture
    whose class is in some requested group is written under its class.
   */
  function Filter(base: seq<Fixture>, idx: Index, groups: seq<string>): (r: OrderedMap<Fixture>)
    ensures Valid(r) && KeyedByClass(r.vals)
    decreases |base|
  {
    if |base| == 0 then Empty()
    else
      var acc := Filter(base[..|base| - 1], idx, groups);
      var f := base[|base| - 1];
      if InSomeGroup(idx, groups, f.cls) then Put(acc, f.cls, f) else acc
  }

  /** The classes occurring in the first `k` elements of `base`. */
  lemma ClassesOfPrefix(base: seq<Fixture>, k: int)
    requires 0 < k <= |base|
    ensures Classes(base[..k]) == Classes(base[..k - 1]) + {base[k - 1].cls}
  {
    var p := base[..k];
    var q := base[..k - 1];
    forall c | c in Classes(p) ensures c in Classes(q) + {base[k - 1].cls} {
      var i :| 0 <= i < |p| && p[i].cls == c;
      if i < k - 1 { assert q[i] == p[i]; }
    }
    forall c | c in Classes(q) ensures c in Classes(p) {
      var i :| 0 <= i < |q| && q[i].cls == c;
      assert p[i] == q[i];
    }
  }

  /** The filter keeps exactly the classes of the base list that are in some requested group. */
  lemma {:induction false} FilterMembership(base: seq<Fixture>, idx: Index, groups: seq<string>)
    ensures forall c :: c in Filter(base, idx, groups).vals <==> c in Classes(base) && InSomeGroup(idx, groups, c)
    decreases |base|
  {
    if |base| > 0 {
      var n := |base| - 1;
      FilterMembership(base[..n], idx, groups);
      ClassesOfPrefix(base, |base|);
      assert base[..|base|] == base;
    }
  }

  /** `f` is the last element of `base` with its class. */
  ghost predicate LastOfClass(base: seq<Fixture>, f: Fixture) {
    exists k :: 0 <= k < |base| && base[k] == f && forall j :: k < j < |base| ==> base[j].cls != f.cls
  }

  /** The last element of a list is the last of its class. */
  lemma LastOfClassAtEnd(base: seq<Fixture>)
    requires |base| > 0
    ensures LastOfClass(base, base[|base| - 1])
  {
  }

  /** Appending an element of another class keeps the last element of a class the last one. */
  lemma LastOfClassExtend(base: seq<Fixture>, v: Fixture)
    requires |base| > 0 && LastOfClass(base[..|base| - 1], v) && base[|base| - 1].cls != v.cls
    ensures LastOfClass(base, v)
  {
    var n := |base| - 1;
    var prefix := base[..n];
    var k :| 0 <= k < |prefix| && prefix[k] == v && forall j :: k < j < |prefix| ==> prefix[j].cls != v.cls;
    assert base[k] == prefix[k];
    forall j | k < j < |base| ensures base[j].cls != v.cls {
      if j < n { assert base[j] == prefix[j]; }
    }
  }

  /** Each selected class holds the LAST base element of that class (a later write overwrites the value). */
  lemma {:induction false} FilterKeepsLast(base: seq<Fixture>, idx: Index, groups: seq<string>, c: string)
    requires c in Filter(base, idx, groups).vals
    ensures LastOfClass(base, Filter(base, idx, groups).vals[c])
    decreases |base|
  {
    var n := |base| - 1;
    var prefix := base[..n];
    var f := base[n];
    var acc := Filter(prefix, idx, groups);
    if c == f.cls && InSomeGroup(idx, groups, f.cls) {
      LastOfClassAtEnd(base);
    } else {
      FilterMembership(prefix, idx, groups);
      FilterKeepsLast(prefix, idx, groups, c);
      LastOfClassExtend(base, acc.vals[c]);
    }
  }

  /**
    Selected classes are listed in the order of their first occurrence in the base
    list: a class listed before another occurs before every occurrence of the later one.
   */
  ghost predicate FirstOccurrenceOrder(keys: seq<string>, base: seq<Fixture>) {
    forall i, j, k :: 0 <= i < j < |keys| && 0 <= k < |base| && base[k].cls == keys[j] ==> keys[i] in Classes(base[..k])
  }

  lemma {:induction false} FilterOrder(base: seq<Fixture>, idx: Index, groups: seq<string>)
    ensures FirstOccurrenceOrder(Filter(base, idx, groups).keys, base)
    decreases |base|
  {
    if |base| > 0 {
      var n := |base| - 1;
      var prefix := base[..n];
      var f := base[n];
      var acc := Filter(prefix, idx, groups);
      var r := Filter(base, idx, groups);
      FilterOrder(prefix, idx, groups);
      FilterMembership(prefix, idx, groups);
      forall i, j, k | 0 <= i < j < |r.keys| && 0 <= k < |base| && base[k].cls == r.keys[j]
        ensures r.keys[i] in Classes(base[..k])
      {
        assert acc.keys[..] == r.keys[..|acc.keys|];
        assert r.keys[i] == acc.keys[i];
        if k < n {
          assert prefix[k] == base[k];
          assert prefix[..k] == base[..k];
          if j < |acc.keys| {
            assert r.keys[j] == acc.keys[j];
          } else {
            assert false;
          }
        } else {
          assert base[..k] == prefix;
          assert acc.keys[i] in acc.vals;
        }
      }
    }
  }

  /**
    `validateDependencies` on one dependency list: fails on the first dependency
    not in `present`, naming it and the dependent class.
   */
  function CheckDeps(present: set<string>, dependent: string, deps: seq<string>): (r: Outcome<LoaderError>)
    ensures r.Pass? <==> forall i :: 0 <= i < |deps| ==> deps[i] in present
    ensures r.Fail? ==> exists i :: (0 <= i < |deps| && r.error == MissingDependency(deps[i], dependent)
      && deps[i] !in present && forall j :: 0 <= j < i ==> deps[j] in present)
    decreases |deps|
  {
    if |deps| == 0 then Pass
    else if deps[0] !in present then Fail(MissingDependency(deps[0], dependent))
    else
      var r := CheckDeps(present, dependent, deps[1..]);
      assert forall i :: 1 <= i < |deps| ==> deps[i] == deps[1..][i - 1];
      r
  }

  /**
    `validateDependencies($present, $f)`: passes for a fixture that declares no
    dependencies; otherwise fails exactly when one of its dependencies is missing
    from `present`, naming the first missing one.
   */
  function ValidateDependencies(present: set<string>, f: Fixture): (r: Outcome<LoaderError>)
    ensures r.Pass? <==> DepsPresent(present, f)
    ensures r.Fail? ==> (f.deps.Some? && exists i :: (0 <= i < |f.deps.value|
      && r.error == MissingDependency(f.deps.value[i], f.cls) && f.deps.value[i] !in present
      && forall j :: 0 <= j < i ==> f.deps.value[j] in present))
  {
    match f.deps
    case None => Pass
    case Some(deps) =>
      var r := CheckDeps(present, f.cls, deps);
      assert r.Pass? ==> DepsPresent(present, f) by {
        if r.Pass? {
          forall d | d in deps ensures d in present {
            var i :| 0 <= i < |deps| && deps[i] == d;
          }
        }
      }
      r
  }

  /**
    The loop of `getFixtures` over the selection: the first fixture whose check
    fails decides the error; every fixture is checked when all pass.
   */
  function ValidateAll(present: set<string>, fs: seq<Fixture>): (r: Outcome<LoaderError>)
    ensures r.Pass? <==> forall i :: 0 <= i < |fs| ==> DepsPresent(present, fs[i])
    ensures r.Fail? ==> exists i :: (0 <= i < |fs| && ValidateDependencies(present, fs[i]) == r
      && forall j :: 0 <= j < i ==> DepsPresent(present, fs[j]))
    decreases |fs|
  {
    if |fs| == 0 then Pass
    else match ValidateDependencies(present, fs[0])
      case Fail(e) => Fail(e)
      case Pass =>
        var r := ValidateAll(present, fs[1..]);
        assert forall i :: 1 <= i < |fs| ==> fs[i] == fs[1..][i - 1];
        r
  }

  /** Every dependency declared by a fixture of `fs` is the class of some fixture of `fs`. */
  ghost predicate DependencyClosed(fs: seq<Fixture>) {
    forall i :: 0 <= i < |fs| ==> DepsPresent(Classes(fs), fs[i])
  }

  /** The classes of `array_values` of a class-keyed array are its keys. */
  lemma ClassesOfValues(m: OrderedMap<Fixture>)
    requires Valid(m) && KeyedByClass(m.vals)
    ensures Classes(Values(m)) == m.vals.Keys
  {
    var vs := Values(m);
    forall c | c in m.vals ensures c in Classes(vs) {
      var i :| 0 <= i < |m.keys| && m.keys[i] == c;
      assert vs[i].cls == c;
    }
  }

  /** Every dependency of every selected fixture is itself a selected class. */
  ghost predicate DepsSelected(sel: OrderedMap<Fixture>) {
    forall c :: c in sel.vals ==> DepsPresent(sel.vals.Keys, sel.vals[c])
  }

  /**
    The check over `array_values` of a class-keyed selection passes exactly when
    every selected fixture's dependencies were selected, leaves the selection
    dependency-closed when it passes, and otherwise names a selected dependent and
    one of its dependencies that was not selected.
   */
  lemma ValidateSelection(sel: OrderedMap<Fixture>)
    requires Valid(sel) && KeyedByClass(sel.vals)
    ensures var r := ValidateAll(sel.vals.Keys, Values(sel));
      && (r.Pass? <==> DepsSelected(sel))
      && (r.Pass? ==> DependencyClosed(Values(sel)))
      && (r.Fail? ==>
            && r.error.MissingDependency? && r.error.dependent in sel.vals
            && sel.vals[r.error.dependent].deps.Some?
            && r.error.dep in sel.vals[r.error.dependent].deps.value && r.error.dep !in sel.vals)
  {
    DepsSelectedOverValues(sel);
    ClassesOfValues(sel);
    ValidateSelectionError(sel);
  }

  /** A failing check names a selected dependent and a dependency of it that was not selected. */
  lemma ValidateSelectionError(sel: OrderedMap<Fixture>)
    requires Valid(sel) && KeyedByClass(sel.vals)
    ensures var r := ValidateAll(sel.vals.Keys, Values(sel));
      r.Fail? ==>
        && r.error.MissingDependency? && r.error.dependent in sel.vals
        && sel.vals[r.error.dependent].deps.Some?
        && r.error.dep in sel.vals[r.error.dependent].deps.value && r.error.dep !in sel.vals
  {
    var vs := Values(sel);
    var r := ValidateAll(sel.vals.Keys, vs);
    if r.Fail? {
      var i :| 0 <= i < |vs| && ValidateDependencies(sel.vals.Keys, vs[i]) == r;
      assert vs[i] == sel.vals[sel.keys[i]];
    }
  }

  /** `DepsSelected` holds of a selection exactly when it holds of each of its values. */
  lemma DepsSelectedOverValues(sel: OrderedMap<Fixture>)
    requires Valid(sel)
    ensures DepsSelected(sel) <==> forall i :: 0 <= i < |Values(sel)| ==> DepsPresent(sel.vals.Keys, Values(sel)[i])
  {
    var vs := Values(sel);
    ValuesAreStored(sel);
    if forall i :: 0 <= i < |vs| ==> DepsPresent(sel.vals.Keys, vs[i]) {
      forall c | c in sel.vals ensures DepsPresent(sel.vals.Keys, sel.vals[c]) {
        assert sel.vals[c] in vs;
      }
    }
  }

  /**
    `getFixtures($groups)`: with no groups, the base list unchanged and unchecked;
    otherwise the filtered list, which fails with a `MissingDependency` exactly when
    some selected fixture depends on a class that was not selected (whether or not
    that class is registered), and is dependency-closed when it succeeds. The error
    is the one the first failing selected fixture raises, in selection order.
   */
  function GetFixtures(s: LoaderState, base: seq<Fixture>, groups: seq<string>): (r: Result<seq<Fixture>, LoaderError>)
    ensures |groups| == 0 ==> r == Success(base)
    ensures |groups| > 0 ==>
      var sel := Filter(base, s.index, groups);
      && (r.Success? <==> DepsSelected(sel))
      && (r.Success? ==> r.value == Values(sel) && DependencyClosed(r.value))
      && (r.Failure? ==>
            && r.error.MissingDependency? && r.error.dependent in sel.vals
            && sel.vals[r.error.dependent].deps.Some?
            && r.error.dep in sel.vals[r.error.dependent].deps.value && r.error.dep !in sel.vals)
    ensures |groups| > 0 && r.Failure? ==>
      var sel := Filter(base, s.index, groups);
      exists i :: (0 <= i < |Values(sel)| && ValidateDependencies(sel.vals.Keys, Values(sel)[i]) == Fail(r.error)
        && forall j :: 0 <= j < i ==> DepsPresent(sel.vals.Keys, Values(sel)[j]))
  {
    if |groups| == 0 then Success(base)
    else
      var sel := Filter(base, s.index, groups);
      var verdict := ValidateAll(sel.vals.Keys, Values(sel));
      ValidateSelection(sel);
      if verdict.Pass? then Success(Values(sel)) else Failure(verdict.error)
  }

  /**
    A successful filtered `getFixtures` lists each class once, exactly the classes
    of the base list indexed under some requested group, in the order of their
    first occurrence in the base list, each holding the last base element of its class.
   */
  lemma GetFixturesSelection(s: LoaderState, base: seq<Fixture>, groups: seq<string>)
    requires |groups| > 0
    ensures var r := GetFixtures(s, base, groups);
      r.Success? ==>
        var fs := r.value;
        && (forall i, j :: 0 <= i < j < |fs| ==> fs[i].cls != fs[j].cls)
        && (forall c :: c in Classes(fs) <==> c in Classes(base) && InSomeGroup(s.index, groups, c))
        && (forall i, j, k :: 0 <= i < j < |fs| && 0 <= k < |base| && base[k].cls == fs[j].cls ==> fs[i].cls in Classes(base[..k]))
        && (forall i :: 0 <= i < |fs| ==> LastOfClass(base, fs[i]))
  {
    var sel := Filter(base, s.index, groups);
    var r := GetFixtures(s, base, groups);
    if r.Success? {
      var fs := r.value;
      assert fs == Values(sel);
      FilterMembership(base, s.index, groups);
      FilterOrder(base, s.index, groups);
      ClassesOfValues(sel);
      forall i | 0 <= i < |fs| ensures fs[i].cls == sel.keys[i] && LastOfClass(base, fs[i]) {
        FilterKeepsLast(base, s.index, groups, sel.keys[i]);
      }
    }
  }
}
