/** `groupsFixtureMapping`: for each group name, the set of class names registered under it. */
module GroupIndex {

  type Index = map<string, set<string>>

  /** `isset($groupsFixtureMapping[$group][$cls])`. */
  predicate Member(idx: Index, group: string, cls: string) {
    group in idx && cls in idx[group]
  }

  /**
    `addGroupsFixtureMapping($cls, $groups)`: records `cls` under every group of
    `groups`; every entry present before is still present, and no other entry is added.
   */
  function AddGroups(idx: Index, cls: string, groups: seq<string>): (r: Index)
    ensures forall g, c :: Member(r, g, c) <==> Member(idx, g, c) || (c == cls && g in groups)
    decreases |groups|
  {
    if |groups| == 0 then idx
    else
      var g := groups[0];
      var row := if g in idx then idx[g] else {};
      AddGroups(idx[g := row + {cls}], cls, groups[1..])
  }
}
