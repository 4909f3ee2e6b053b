/** Concrete registrations and selections over fixtures A, B and C. */
module Scenarios {
  import opened Wrappers
  import opened OrderedMaps
  import opened Fixtures
  import opened GroupIndex
  import opened Registration
  import opened Selection

  /**
    Every registered fixture is selected by the group named after its short class
    name: in a consistent loader, filtering by that group keeps its class.
   */
  lemma DefaultGroupSelects(s: LoaderState, base: seq<Fixture>, f: Fixture)
    requires WellFormed(s) && Consistent(s)
    requires f in base && f.cls in s.loaded.vals
    ensures f.cls in Filter(base, s.index, [ShortName(f.cls)]).vals
    ensures GetFixtures(s, base, [ShortName(f.cls)]).Success? ==>
      f.cls in Classes(GetFixtures(s, base, [ShortName(f.cls)]).value)
  {
    var groups := [ShortName(f.cls)];
    assert ShortName(f.cls) in GroupsOf(s.loaded.vals[f.cls]);
    assert Member(s.index, groups[0], f.cls);
    var k :| 0 <= k < |base| && base[k] == f;
    FilterMembership(base, s.index, groups);
    GetFixturesSelection(s, base, groups);
  }

  const A := Fixture("App\\A", Some(["x"]), None)
  const B := Fixture("App\\B", Some(["y"]), Some(["App\\A"]))
  const C := Fixture("App\\C", Some(["x"]), Some(["App\\A"]))

  /** The loader after `addFixture` of A, then B, then C. */
  function Loaded(): (s: LoaderState)
    ensures WellFormed(s)
  {
    AddFixture(AddFixture(AddFixture(Init(), A), B), C)
  }

  /** The groups each class of the scenario is indexed under. */
  ghost predicate ScenarioIndex(idx: Index) {
    forall g, c :: Member(idx, g, c) <==>
      || (c == A.cls && (g == "A" || g == "x"))
      || (c == B.cls && (g == "B" || g == "y"))
      || (c == C.cls && (g == "C" || g == "x"))
  }

  /** `App\\X` has short name `X`. */
  lemma ShortNameOfScenarioClass(cls: string)
    requires |cls| == 5 && cls[..4] == "App\\" && cls[4] != Separator
    ensures ShortName(cls) == cls[4..]
  {
    assert cls[3] == Separator by { assert cls[..4][3] == cls[3]; }
    assert SegmentStart(cls, 4) == 4;
    assert SegmentStart(cls, 5) == 4;
  }

  lemma LoadedIndex()
    ensures ScenarioIndex(Loaded().index)
  {
    ShortNameOfScenarioClass(A.cls);
    ShortNameOfScenarioClass(B.cls);
    ShortNameOfScenarioClass(C.cls);
  }

  /** Selecting "y" keeps B only. */
  lemma FilterY(idx: Index)
    requires ScenarioIndex(idx)
    ensures Filter([A, B, C], idx, ["y"]) == OrderedMap([B.cls], map[B.cls := B])
  {
    assert !Member(idx, "y", A.cls) && Member(idx, "y", B.cls) && !Member(idx, "y", C.cls);
    assert Filter([], idx, ["y"]) == OrderedMap([], map[]);
    assert [A, B, C][..2] == [A, B] && [A, B][..1] == [A] && [A][..0] == [];
    assert Filter([A], idx, ["y"]) == OrderedMap([], map[]);
    assert Filter([A, B], idx, ["y"]) == OrderedMap([B.cls], map[B.cls := B]);
  }

  /** Selecting "x" keeps A and C. */
  lemma FilterX(idx: Index)
    requires ScenarioIndex(idx)
    ensures Filter([A, B, C], idx, ["x"]) == OrderedMap([A.cls, C.cls], map[A.cls := A, C.cls := C])
  {
    assert Member(idx, "x", A.cls) && !Member(idx, "x", B.cls) && Member(idx, "x", C.cls);
    assert Filter([], idx, ["x"]) == OrderedMap([], map[]);
    assert [A, B, C][..2] == [A, B] && [A, B][..1] == [A] && [A][..0] == [];
    assert Filter([A], idx, ["x"]) == OrderedMap([A.cls], map[A.cls := A]);
    assert Filter([A, B], idx, ["x"]) == OrderedMap([A.cls], map[A.cls := A]);
  }

  /**
    B, in group "y", depends on A, in group "x": selecting "y" fails naming A and
    B, although A is registered.
   */
  lemma CrossGroupDependencyFails(s: LoaderState)
    requires ScenarioIndex(s.index)
    ensures GetFixtures(s, [A, B, C], ["y"]) == Failure(MissingDependency(A.cls, B.cls))
  {
    var sel := Filter([A, B, C], s.index, ["y"]);
    FilterY(s.index);
    assert Values(sel) == [B];
    assert ValidateAll(sel.vals.Keys, [B]) == Fail(MissingDependency(A.cls, B.cls));
  }

  /** C depends on A, and both are in group "x": selecting "x" succeeds with A and C in base order. */
  lemma SameGroupDependencySucceeds(s: LoaderState)
    requires ScenarioIndex(s.index)
    ensures GetFixtures(s, [A, B, C], ["x"]) == Success([A, C])
  {
    var sel := Filter([A, B, C], s.index, ["x"]);
    FilterX(s.index);
    assert Values(sel) == [A, C];
    assert DepsPresent(sel.vals.Keys, A) && DepsPresent(sel.vals.Keys, C);
  }

  /** The loader built by registering A, B and C has the scenario's index, with A registered. */
  lemma LoadedScenario()
    ensures ScenarioIndex(Loaded().index)
    ensures A.cls in Loaded().loaded.vals
    ensures GetFixtures(Loaded(), [A, B, C], ["y"]) == Failure(MissingDependency(A.cls, B.cls))
  {
    LoadedIndex();
    CrossGroupDependencyFails(Loaded());
  }

  /** With no groups the base list comes back whole, although B's dependency would fail the check. */
  lemma NoGroupsSkipsValidation(s: LoaderState)
    ensures GetFixtures(s, [B], []) == Success([B])
  {
  }
}
