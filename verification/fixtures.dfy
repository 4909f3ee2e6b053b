/** Fixture instances as the loader sees them, and the loader's error kinds. */
module Fixtures {
  import opened Wrappers

  /**
    A fixture instance: its class name (`$fixture::class`), the groups its class
    returns from `getGroups()` when it implements `FixtureGroupInterface`, and the
    classes it returns from `getDependencies()` when it implements
    `DependentFixtureInterface`.
   */
  datatype Fixture = Fixture(cls: string, groups: Option<seq<string>>, deps: Option<seq<string>>)

  /** The two exceptions the loader raises. */
  datatype LoaderError =
    | Unregistered(cls: string)                      // LogicException of createFixture
    | MissingDependency(dep: string, dependent: string)  // RuntimeException of validateDependencies

  /** The namespace separator of PHP class names. */
  const Separator: char := '\\'

  /** The position just after the last namespace separator among the first `i` characters of `cls`, or 0. */
  function SegmentStart(cls: string, i: nat): (k: nat)
    requires i <= |cls|
    ensures k <= i
    ensures k == 0 || cls[k - 1] == Separator
    decreases i
  {
    if i == 0 then 0
    else if cls[i - 1] == Separator then i
    else SegmentStart(cls, i - 1)
  }

  /**
    The short class name that `ReflectionClass::getShortName` reports: the part of
    `cls` after its last namespace separator, or all of `cls` when it has none.
   */
  function ShortName(cls: string): string {
    cls[SegmentStart(cls, |cls|)..]
  }

  lemma {:induction false} SegmentStartIsLast(cls: string, i: nat)
    requires i <= |cls|
    ensures var k := SegmentStart(cls, i);
      && (forall j :: k <= j < i ==> cls[j] != Separator)
      && (k == 0 || cls[k - 1] == Separator)
    decreases i
  {
    if i > 0 && cls[i - 1] != Separator {
      SegmentStartIsLast(cls, i - 1);
    }
  }

  /**
    `ShortName(cls)` is a suffix of `cls` free of separators, and either all of
    `cls` or preceded in it by a separator: the last segment of the class name.
   */
  lemma ShortNameIsLastSegment(cls: string)
    ensures var r := ShortName(cls);
      && Separator !in r
      && |r| <= |cls| && r == cls[|cls| - |r|..]
      && (r == cls || cls[|cls| - |r| - 1] == Separator)
  {
    SegmentStartIsLast(cls, |cls|);
    var k := SegmentStart(cls, |cls|);
    var r := ShortName(cls);
    forall j | 0 <= j < |r| ensures r[j] != Separator {
      assert r[j] == cls[k + j];
    }
  }

  /** The groups `addFixture` indexes `f` under: its short class name and the groups its class declares. */
  function GroupsOf(f: Fixture): set<string> {
    {ShortName(f.cls)} + match f.groups
      case None => {}
      case Some(declared) => set g | g in declared
  }

  /** The class names of a list of fixtures. */
  function Classes(fs: seq<Fixture>): set<string> {
    set i | 0 <= i < |fs| :: fs[i].cls
  }

  /** Every entry is stored under its own class name, as both PHP arrays of the loader are. */
  ghost predicate KeyedByClass(m: map<string, Fixture>) {
    forall k :: k in m ==> m[k].cls == k
  }

  /** Every dependency `f` declares is one of `present`. */
  ghost predicate DepsPresent(present: set<string>, f: Fixture) {
    f.deps.Some? ==> forall d :: d in f.deps.value ==> d in present
  }
}
