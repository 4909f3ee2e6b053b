# Symfony fixtures loader of the Doctrine MongoDB bundle, modelled in Dafny

`SymfonyFixturesLoader` keeps a registry of fixture instances keyed by class
name (`loadedFixtures`) and an index from group name to the classes in that
group (`groupsFixtureMapping`). It registers fixtures one at a time
(`addFixture`) or as a batch handed over by the service container
(`addFixtures`). It resolves a class name to its registered instance instead of
instantiating it (`createFixture`). It filters the base loader's ordered
fixture list down to requested groups (`getFixtures`), rejecting a filtered
selection in which a selected fixture depends on a class that was not selected
(`validateDependencies`).

The model is functional. The loader state is a value, and every operation is a
pure function from state to state or from state to a `Result`.

- `Wrappers`: `Option`, `Result` and `Outcome`, the last standing for a `void` method that may throw.
- `OrderedMaps`: a PHP array with string keys. Writing an existing key keeps its position; writing a new key appends it; iteration and `array_values` follow key order.
- `Fixtures`: a fixture is its class name, the groups of `FixtureGroupInterface::getGroups()` when implemented, and the classes of `DependentFixtureInterface::getDependencies()` when implemented. Also the short class name and the two error kinds.
- `GroupIndex`: `groupsFixtureMapping` and `addGroupsFixtureMapping`.
- `Registration`: the loader state, `addFixture`, both loops of `addFixtures`, and `createFixture`.
- `Selection`: the group filter, `validateDependencies`, and `getFixtures`.
- `Scenarios`: concrete registrations and selections over fixtures A, B and C.

Inputs from outside the loader are parameters:

- The base loader's `getFixtures()` is the `base` list given to `GetFixtures`.
- Each call to the base loader's `addFixture` is recorded in `baseAdded`, in call order. What the base loader does with these calls is not modelled.

`WellFormed` says the registry is a well-formed PHP array whose entries sit
under their own class names. Every state the loader can reach has this
property, and every state-changing operation is proved to preserve it. It is
required only as that representation invariant, not as a demand on callers.

Two consequences of the code are worth stating:

- The group index is never pruned. A class registered again keeps the groups supplied for it earlier (`AddGroups`, `ReRegisterKeepsOneEntry`).
- A class that occurs twice in the base list keeps the position of its first occurrence and the instance of its last, because a PHP array write overwrites the value in place (`FilterKeepsLast`, `FilterOrder`).

## Model

| member | source | states |
|---|---|---|
| OrderedMaps.Put | Loader/SymfonyFixturesLoader.php:125 | An array write stores the value under the key. It keeps the key's position when the key exists and appends it otherwise, and it preserves well-formedness. |
| OrderedMaps.ValuesAreStored | Loader/SymfonyFixturesLoader.php:136 | The values `array_values` lists are exactly the values stored in the array. |
| Fixtures.ShortNameIsLastSegment | Loader/SymfonyFixturesLoader.php:64-65 | The short class name is a separator-free suffix of the class name. It is either the whole name or preceded by a namespace separator, so it is the last segment. |
| GroupIndex.AddGroups | Loader/SymfonyFixturesLoader.php:144-149 | After `addGroupsFixtureMapping`, a (group, class) entry is present exactly when it was present before or the class is this one and the group is in the list. The index is monotone and gains nothing else. |
| Registration.Init | Loader/SymfonyFixturesLoader.php:27-35 | A new loader has an empty registry and an empty index, is consistent, and has handed nothing to the base loader. |
| Registration.IndexFixture | Loader/SymfonyFixturesLoader.php:64-69 | The two index updates of `addFixture` add exactly the fixture's class under each of its groups. |
| Registration.AddFixture | Loader/SymfonyFixturesLoader.php:59-78 | After `addFixture(f)` the registry maps `f`'s class to `f` and every other entry is unchanged. A class already present keeps its position. The index gains exactly `f`'s class under its short name and declared groups. `f` is handed to the base loader. |
| Registration.AddFixtureConsistent | Loader/SymfonyFixturesLoader.php:59-69 | `addFixture` preserves the invariant that every registered class is indexed under every group of its registered instance. |
| Registration.Register | Loader/SymfonyFixturesLoader.php:46-50 | One iteration of the first `addFixtures` loop stores the instance under its class and indexes exactly its supplied groups. It does not call the base loader. |
| Registration.RegisterBatch | Loader/SymfonyFixturesLoader.php:46-50 | The first loop makes no call to the base loader and keeps the registry well-formed. |
| Registration.RegisterBatchKeys | Loader/SymfonyFixturesLoader.php:46-48 | After the first loop, the registered classes are the earlier ones plus the batch's classes. |
| Registration.RegisterBatchLastWins | Loader/SymfonyFixturesLoader.php:46-48 | After the first loop, each batch class holds the last batch element of that class. |
| Registration.RegisterBatchUntouched | Loader/SymfonyFixturesLoader.php:46-48 | The first loop leaves the entry of a class outside the batch unchanged. |
| Registration.RegisterBatchIndex | Loader/SymfonyFixturesLoader.php:46-49 | The first loop adds to the index exactly the supplied groups of each batch element. |
| Registration.AddEach | Loader/SymfonyFixturesLoader.php:54-56 | The second loop keeps the registry well-formed. |
| Registration.AddEachHandsOn | Loader/SymfonyFixturesLoader.php:54-56 | The second loop hands each of its fixtures to the base loader, in order. |
| Registration.AddEachKeepsRegistry | Loader/SymfonyFixturesLoader.php:54-56 | When every fixture iterated is already the registered instance of its class, the second loop leaves the registry exactly as it was. |
| Registration.AddEachIndex | Loader/SymfonyFixturesLoader.php:54-56 | The second loop adds to the index exactly the groups of each fixture it iterates. |
| Registration.AddFixtures | Loader/SymfonyFixturesLoader.php:42-57 | `addFixtures` keeps the registry well-formed. |
| Registration.AddFixturesRegistry | Loader/SymfonyFixturesLoader.php:44-56 | The registry is complete before the first `addFixture` call: the final registry equals the registry after the first loop. Every batch element is registered under its class, and the last of a class wins. Entries outside the batch keep their instance. |
| Registration.AddFixturesHandsOn | Loader/SymfonyFixturesLoader.php:52-56 | `addFixtures` hands every registered instance, earlier ones included, to the base loader exactly once, in registry order. |
| Registration.AddFixturesIndex | Loader/SymfonyFixturesLoader.php:42-57 | After `addFixtures`, a (group, class) entry is present exactly when it was present before, or a batch element of that class supplied the group, or the class's registered instance declares the group. |
| Registration.AddFixturesConsistent | Loader/SymfonyFixturesLoader.php:42-57 | After `addFixtures` the registry and the index are consistent, whatever the state before. |
| Registration.CreateFixture | Loader/SymfonyFixturesLoader.php:87-103 | `createFixture` succeeds exactly for a registered class. It yields that class's registered instance, never a new one, and otherwise fails with `Unregistered` naming the class. |
| Registration.CreateAfterAdd | Loader/SymfonyFixturesLoader.php:94-102 | After `addFixture(f)`, resolving `f`'s class yields `f`. |
| Registration.CreateAfterBatch | Loader/SymfonyFixturesLoader.php:44-48 | After `addFixtures`, resolving a batch class yields its last batch element. Resolving a class that was neither registered before nor in the batch fails with `Unregistered`. |
| Registration.ReRegisterKeepsOneEntry | Loader/SymfonyFixturesLoader.php:59-69 | Registering a class again keeps one registry entry for it, in its old position, holding the newer instance. When the class's declared groups are unchanged, the index is unchanged. |
| Selection.InSomeGroup | Loader/SymfonyFixturesLoader.php:122-129 | The inner filter loop accepts a class exactly when it is indexed under some requested group. |
| Selection.Filter | Loader/SymfonyFixturesLoader.php:120-130 | The filtered array is a well-formed array whose entries sit under their own classes, so each class appears once. |
| Selection.FilterMembership | Loader/SymfonyFixturesLoader.php:120-130 | The filter keeps exactly the classes of the base list that are indexed under some requested group. |
| Selection.FilterKeepsLast | Loader/SymfonyFixturesLoader.php:125 | Each selected class holds the last base element of that class. |
| Selection.FilterOrder | Loader/SymfonyFixturesLoader.php:120-130 | Selected classes come in the order of their first occurrence in the base list. |
| Selection.CheckDeps | Loader/SymfonyFixturesLoader.php:158-164 | The dependency loop passes exactly when every dependency is present. Otherwise it fails on the first missing dependency, naming it and the dependent class. |
| Selection.ValidateDependencies | Loader/SymfonyFixturesLoader.php:152-165 | `validateDependencies` passes for a fixture without `DependentFixtureInterface`. Otherwise it fails exactly when a declared dependency is missing from the given keys. The error names the dependent and the first missing dependency in declaration order. |
| Selection.ValidateAll | Loader/SymfonyFixturesLoader.php:132-134 | The validation loop passes exactly when every selected fixture passes. Otherwise the first failing fixture's error is raised. |
| Selection.ClassesOfValues | Loader/SymfonyFixturesLoader.php:132-136 | The classes of `array_values` of a class-keyed array are exactly its keys. |
| Selection.ValidateSelection | Loader/SymfonyFixturesLoader.php:132-134 | Over the filtered array, validation passes exactly when every selected fixture's dependencies are selected classes. A pass leaves the list dependency-closed. |
| Selection.ValidateSelectionError | Loader/SymfonyFixturesLoader.php:160-163 | A failing validation names a selected dependent and one of its declared dependencies that was not selected. |
| Selection.GetFixtures | Loader/SymfonyFixturesLoader.php:112-137 | With no groups, `getFixtures` returns the base list unchanged and unvalidated. With groups, it fails with `MissingDependency` exactly when a selected fixture depends on an unselected class, registered or not. On success it returns the filtered values, and they are dependency-closed. On failure the error is the one raised by the first failing fixture in selection order. |
| Selection.GetFixturesSelection | Loader/SymfonyFixturesLoader.php:120-136 | A successful filtered result lists each class once: exactly the requested groups' classes from the base list, in first-occurrence order, each holding the last base element of its class. |
| Scenarios.DefaultGroupSelects | Loader/SymfonyFixturesLoader.php:64-65 | In a consistent loader, filtering by a registered fixture's short class name keeps that fixture's class. |
| Scenarios.CrossGroupDependencyFails | Loader/SymfonyFixturesLoader.php:160-163 | B in group "y" depends on A in group "x", so selecting "y" fails with `MissingDependency(A, B)`. |
| Scenarios.SameGroupDependencySucceeds | Loader/SymfonyFixturesLoader.php:132-136 | C depends on A and both are in group "x", so selecting "x" succeeds with [A, C] in base order. |
| Scenarios.LoadedScenario | Loader/SymfonyFixturesLoader.php:59-69 | Registering A, B and C with `addFixture` yields the scenario's index. A is registered, yet selecting "y" still fails on it. |
| Scenarios.NoGroupsSkipsValidation | Loader/SymfonyFixturesLoader.php:114-118 | With no groups, a list whose dependency check would fail comes back whole. |

## Left out

- Container injection through `ContainerAwareInterface` and the `trigger_deprecation` call (lines 71-75) are framework side effects. They do not affect registration or selection.
- The base `Doctrine\Common\DataFixtures\Loader` is not part of this model. Its `addFixture` is recorded as a call in `baseAdded`, and its `getFixtures()` is the `base` parameter. Its dependency ordering, and its calls back into `createFixture` while adding, are not modelled. `CreateFixture` is the lookup such a call would make. As a consequence, `AddFixture` and `AddFixtures` are total here. In the code they can fail with `Unregistered` from such a callback, after the registry and index have already been written. Fixtures are compared as values, so PHP object identity is not modelled.
- `ReflectionClass` is replaced by a string function that takes the segment after the last `\`.
- The exception classes and message texts are left out. The `FIXTURE_TAG` constant appears only in a message. Errors are the variants `Unregistered(cls)` and `MissingDependency(dep, dependent)`.
- PHP turns a numeric-string array key such as `"1"` into an integer. It does this the same way on every write and read of `groupsFixtureMapping`, so membership is unaffected and the model keeps strings.
- The constructor's container argument is left out, because only the left-out injection uses it.
