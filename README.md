# enum-mapping, modelled in Dafny

This project models the core of the PHP library `scrumworks/enum-mapping`.
The library maps the cases of PHP enums to string or int "mapping values".
The mapping is declared with attributes on the enum cases:

- `#[EnumMappingValue(Scheme::class, 'x')]` maps a case to the string `'x'`.
- `#[EnumMappingSame(Scheme::class)]` maps a case to its own backing value.

A mapping scheme is a subclass of `AbstractEnumMapping`. It reads only the
attributes addressed to its own class. On first use, it builds one
`EnumMappingMemoryStorage` per enum class and caches it. A storage is a
partial bijection between the enum's cases and the mapping values, held in
two PHP arrays. `EnumMappingProvider` is a table of schemes keyed by their
class.

The modules follow the source files:

- `Enums` (`enums.dfy`): values, enum cases, attributes and enum
  declarations. It also holds `tryFrom`, the string cast of an array key,
  and the error kinds thrown by the library.
- `MemoryStorage` (`storage.dfy`):
  - `StorageState` is the storage as a value: its two maps, plus the
    insertion order that the PHP array `fromEnum` keeps.
  - `EnumMappingMemoryStorage` is the class whose methods update those
    fields in place. Every method is proved against `StorageState`.
- `Resolution` (`resolution.dfy`): the build performed by
  `createMappingStorage`, as functions over the enum's cases and their
  attributes, with these facts proved about what it builds:
  - which cases it maps;
  - to which values;
  - in what order;
  - exactly when it throws.
- `SchemeModel` (`scheme_model.dfy`): each public operation of
  `AbstractEnumMapping` as a function of the scheme and the enum
  declarations, with the properties the library promises: the round trips,
  the first failure, and last-wins key remapping.
- `EnumMapping` (`enum_mapping.dfy`): the class `AbstractEnumMapping`.
  - It holds the lazy cache `mappings`.
  - The loops of `createMappingStorage`, `enumsToStrings` and `remapKeys`
    are written as loops.
  - Every public method returns what `SchemeModel` specifies, and only ever
    adds entries to the cache.
- `Provider` (`provider.dfy`): `EnumMappingProvider`, whose constructor is
  `array_combine`, so a later scheme of the same class wins.

Reflection is replaced by data. An enum class is an `EnumDef`: its class
name, its backing type, and its cases in declaration order, each with its
backing value and its attributes. A scheme is its class name. PHP
exceptions become the `Failure` variant of a `Result`, with one `Error`
kind per exception the code can throw.

## Model

| member | source | states |
|---|---|---|
| Enums.MemberKeyIdentifies | src/EnumMappingMemoryStorage.php:102-105 | the `Class::name` key identifies a case: two cases with equal keys are the same case |
| Enums.EnumDef.TryFrom | src/AbstractEnumMapping.php:124-127 | `tryFrom` of a backed enum returns the case whose backing value equals the key, and returns null exactly when no case has that backing value |
| Enums.Digits | src/AbstractEnumMapping.php:121 | the decimal digits of a natural number are all digit characters and denote that number (`DigitsValue(Digits(n)) == n`) |
| Enums.PhpString | src/AbstractEnumMapping.php:120-122 | the `(string)` cast of an array key leaves a string unchanged, and turns an int into a decimal literal that denotes that int (`DecimalValue`), with a leading `-` exactly when the int is negative |
| Enums.PhpStringIntInjective | src/AbstractEnumMapping.php:120-122 | two ints cast to the same string exactly when they are equal |
| MemoryStorage.StorageState.EnumMappingExists | src/EnumMappingMemoryStorage.php:36-41 | a case has a forward entry exactly when some value in `toEnum` maps back to it |
| MemoryStorage.StorageState.EnumToMappingValue | src/EnumMappingMemoryStorage.php:47-54 | succeeds exactly when the case has a mapping, with a value that maps back to the case; otherwise fails with "no mapping for enum" |
| MemoryStorage.StorageState.MappingValueExists | src/EnumMappingMemoryStorage.php:59-62 | a value has a reverse entry exactly when some case's forward entry is that value |
| MemoryStorage.StorageState.MappingValueToEnum | src/EnumMappingMemoryStorage.php:68-72 | succeeds exactly when the value has a mapping, with a case of this enum whose value is that value; otherwise fails with "no mapping for value" |
| MemoryStorage.StorageState.GetAllMappingValues | src/EnumMappingMemoryStorage.php:77-80 | `array_values($fromEnum)`: one value per mapped case, in insertion order, with no duplicates, and exactly the values that `toEnum` holds |
| MemoryStorage.StorageState.Store | src/EnumMappingMemoryStorage.php:86-100 | a successful store leaves a valid storage of the same enum class: the two arrays stay mutually inverse |
| MemoryStorage.Empty | src/EnumMappingMemoryStorage.php:17-31 | a new storage is valid, maps no case, and lists no values |
| MemoryStorage.StoreKeepsValid | src/EnumMappingMemoryStorage.php:86-100 | a successful store keeps the two arrays mutually inverse and the insertion order duplicate-free |
| MemoryStorage.LookupsAreInverse | src/EnumMappingMemoryStorage.php:91-99 | in a valid storage, case m maps to v exactly when v maps back to m |
| MemoryStorage.StoreConflict | src/EnumMappingMemoryStorage.php:91-95 | a store throws exactly when the case already maps to a different value or the value already maps back to a different case, and the error names the pair |
| MemoryStorage.StoreRecordsPair | src/EnumMappingMemoryStorage.php:98-99 | after a successful store, both lookups find the stored pair |
| MemoryStorage.StoreIdentical | src/EnumMappingMemoryStorage.php:91-99 | storing a pair that is already stored succeeds and leaves the storage as it was |
| MemoryStorage.StoreIdempotent | src/EnumMappingMemoryStorage.php:91-99 | storing the same pair twice gives the same storage as storing it once |
| MemoryStorage.StoreKeepsOtherMembers | src/EnumMappingMemoryStorage.php:98-99 | a store leaves the mapping of every other case unchanged |
| MemoryStorage.StoreKeepsOtherValues | src/EnumMappingMemoryStorage.php:98-99 | a store leaves the mapping of every other value unchanged |
| MemoryStorage.StoreAppendsNewValue | src/EnumMappingMemoryStorage.php:77-99 | storing a new case appends its value at the end of `getAllMappingValues`, and storing a known case leaves that list unchanged |
| MemoryStorage.EnumMappingMemoryStorage.constructor | src/EnumMappingMemoryStorage.php:29-31 | a new storage for a class is empty and valid |
| MemoryStorage.EnumMappingMemoryStorage.EnumMappingExists | src/EnumMappingMemoryStorage.php:36-41 | the in-place storage answers as `StorageState.EnumMappingExists` |
| MemoryStorage.EnumMappingMemoryStorage.EnumToMappingValue | src/EnumMappingMemoryStorage.php:47-54 | answers as `StorageState.EnumToMappingValue` |
| MemoryStorage.EnumMappingMemoryStorage.MappingValueExists | src/EnumMappingMemoryStorage.php:59-62 | answers as `StorageState.MappingValueExists` |
| MemoryStorage.EnumMappingMemoryStorage.MappingValueToEnum | src/EnumMappingMemoryStorage.php:68-72 | answers as `StorageState.MappingValueToEnum` |
| MemoryStorage.EnumMappingMemoryStorage.GetAllMappingValues | src/EnumMappingMemoryStorage.php:77-80 | returns the values as `StorageState.GetAllMappingValues` does |
| MemoryStorage.EnumMappingMemoryStorage.StoreMapping | src/EnumMappingMemoryStorage.php:86-100 | updates both arrays exactly as `StorageState.Store` does; on a conflict it throws and leaves the fields unchanged; the storage stays valid |
| Resolution.BuildAttributes | src/AbstractEnumMapping.php:174-192 | walking one case's attributes keeps the storage valid and of the same enum class |
| Resolution.BuildCases | src/AbstractEnumMapping.php:165-193 | walking the cases keeps the storage valid and of the same enum class |
| Resolution.Build | src/AbstractEnumMapping.php:161-196 | a successful build is a valid storage of the enum's class |
| Resolution.BuildIgnoresForeignAttributes | src/AbstractEnumMapping.php:176-178 | attributes addressed to other schemes, and attributes of other kinds, do not change the result of the build |
| Resolution.BuildOrder | src/AbstractEnumMapping.php:161-196 | the storage lists the mapped cases in declaration order |
| Resolution.BuildMapsOnlyOwnCases | src/AbstractEnumMapping.php:161-196 | every mapped member is a case of the enum that carries an attribute addressed to the scheme |
| Resolution.BuildMapsOwnCases | src/AbstractEnumMapping.php:161-196 | a case is mapped exactly when it carries an attribute addressed to the scheme, and every such attribute declares the stored value |
| Resolution.BuildSucceedsIffConsistent | src/AbstractEnumMapping.php:161-196 | the build succeeds exactly when the declarations are consistent: no `EnumMappingSame` on an unbacked case, each case declares one value, and no two cases declare the same value |
| Resolution.BuildMapsDeclared | src/AbstractEnumMapping.php:161-196 | case i maps to v exactly when one of its own attributes declares v |
| Resolution.BuildValueLookup | src/AbstractEnumMapping.php:161-196 | a value maps back to case i exactly when case i declares it, and a value has a mapping exactly when some case declares it |
| Resolution.BuildValuesInOrder | src/AbstractEnumMapping.php:161-196 | the j-th stored value is the value declared by the j-th mapped case |
| Resolution.BuildFailure | src/AbstractEnumMapping.php:161-196 | a failing build fails with a conflict on a case of this enum, or with `EnumMappingSame` on an unbacked enum |
| Resolution.BuildRejectsSameOnUnbacked | src/AbstractEnumMapping.php:182-189 | an `EnumMappingSame` for the scheme on a case of an unbacked enum makes the build throw |
| SchemeModel.Storage | src/AbstractEnumMapping.php:150-155 | the storage of an enum class exists exactly when its declarations are consistent, and it is then valid and of that class |
| SchemeModel.EnumMappingExists | src/AbstractEnumMapping.php:31-34 | succeeds exactly when the enum's declarations are consistent |
| SchemeModel.EnumMappingExistsIffAttribute | src/AbstractEnumMapping.php:31-34 | for consistent declarations, a case has a mapping exactly when it carries an attribute addressed to the scheme |
| SchemeModel.TryStringToEnum | src/AbstractEnumMapping.php:40-50 | succeeds exactly when the declarations are consistent, and a case it returns belongs to the requested enum |
| SchemeModel.TryStringToEnumFindsDeclaringCase | src/AbstractEnumMapping.php:40-50 | returns null exactly when no case declares the string, and returns case i exactly when case i declares it |
| SchemeModel.StringToEnum | src/AbstractEnumMapping.php:57-63 | returns what `tryStringToEnum` finds, and throws "value not found" exactly when it finds nothing |
| SchemeModel.EnumToString | src/AbstractEnumMapping.php:68-83 | succeeds only when the enum's declarations are consistent |
| SchemeModel.EnumToStringDeclared | src/AbstractEnumMapping.php:68-83 | returns s exactly when the case declares the string s; fails with "no mapping" exactly when the case has no attribute for the scheme; fails with "not a string" exactly when it declares an int |
| SchemeModel.EnumToStringRoundTrip | src/AbstractEnumMapping.php:40-83 | if `enumToString(m)` is s, then `stringToEnum(class of m, s)` is m |
| SchemeModel.StringToEnumRoundTrip | src/AbstractEnumMapping.php:40-83 | if `stringToEnum(cls, s)` is m, then `enumToString(m)` is s |
| SchemeModel.Collect | src/AbstractEnumMapping.php:89-92 | `array_map` with a throwing callback: either every element succeeds and the results are pointwise, or the first failing element's error is thrown |
| SchemeModel.EnumsToStrings | src/AbstractEnumMapping.php:89-92 | on success, the i-th string is `enumToString` of the i-th case; on failure, the error is that of the first case whose `enumToString` throws |
| SchemeModel.GetValues | src/AbstractEnumMapping.php:98-101 | succeeds exactly when the declarations are consistent, and the values returned are distinct |
| SchemeModel.GetValuesDeclared | src/AbstractEnumMapping.php:98-101 | the values are those declared by the mapped cases, one per case, in declaration order |
| SchemeModel.IsEnumOfTypeString | src/AbstractEnumMapping.php:139-144 | true means every case is backed by a string, and false means no case is |
| SchemeModel.CastKey | src/AbstractEnumMapping.php:120-122 | for a string-backed enum, a string key is kept and an int key becomes a string whose decimal value is that int; for other enums the key is left as it is |
| SchemeModel.CastKeyCoincides | src/AbstractEnumMapping.php:117-122 | casting is idempotent; for a string-backed enum an int key and its decimal string become the same key, and two int keys become the same key only when they are equal |
| SchemeModel.AssignShape | src/AbstractEnumMapping.php:129 | PHP array assignment: every existing key keeps its position, the length grows only for a new key, and a new key is appended at the end with its value |
| SchemeModel.AssignLookup | src/AbstractEnumMapping.php:129 | after the assignment, the key reads back the new value and every other key reads back what it read before |
| SchemeModel.AssignDistinct | src/AbstractEnumMapping.php:129 | assignment keeps the keys of the array distinct |
| Resolution.DeclaredValue | src/AbstractEnumMapping.php:180-190 | the value an attribute addresses: missing exactly for `EnumMappingSame` on a case without backing value (the `LogicException`), otherwise the attribute's string or the case's backing value |
| SchemeModel.Resolve | src/AbstractEnumMapping.php:120-130 | throws "not a backing value" exactly when `tryFrom` of the cast key is null; otherwise yields the mapped value of that case, or nothing when the case is unmapped |
| SchemeModel.RemapEntries | src/AbstractEnumMapping.php:115-133 | the `foreach` as a fold: it can only throw "not a backing value" for the enum's class, and the result has at most as many entries as the input |
| SchemeModel.RemapEntriesMeaning | src/AbstractEnumMapping.php:109-134 | fails exactly when some key is not a backing value, with the error of the first such key; on success, the keys are distinct and each mapped value holds the element of the last key that resolves to it |
| SchemeModel.RemapKeys | src/AbstractEnumMapping.php:109-134 | with inconsistent declarations it throws exactly the build's error; every error it throws is "not a backing value" for the class, a conflicting mapping, or `EnumMappingSame` on an unbacked enum |
| SchemeModel.RemapKeysMeaning | src/AbstractEnumMapping.php:109-134 | `remapKeys` fails with the build error or with the first key that is not a backing value; otherwise each mapped value holds the element of the last key that resolves to it |
| SchemeModel.ResolveDeclared | src/AbstractEnumMapping.php:109-134 | a key resolves to v exactly when the case with that backing value declares v, and to nothing when that case has no mapping |
| SchemeModel.RemapKeysIgnoresKeyCoercion | src/AbstractEnumMapping.php:116-124 | for a string-backed enum, two arrays whose keys have the same string forms are remapped identically |
| EnumMapping.AbstractEnumMapping.constructor | src/AbstractEnumMapping.php:26 | a new scheme object starts with an empty cache |
| EnumMapping.AbstractEnumMapping.CreateMappingStorage | src/AbstractEnumMapping.php:161-196 | the nested loops build in place exactly the storage `Build` specifies, or throw exactly its error |
| EnumMapping.AbstractEnumMapping.GetMappingStorage | src/AbstractEnumMapping.php:150-155 | a cached storage is returned unchanged; otherwise the class is built and cached on success; a failing build caches nothing; afterwards the class is cached exactly when its build succeeds, and no other class is added |
| EnumMapping.AbstractEnumMapping.Remember | src/AbstractEnumMapping.php:152 | the `??=` assignment files the built storage under its class, keeps every other entry, and keeps the cache valid |
| EnumMapping.StoreCaseMappings | src/AbstractEnumMapping.php:174-192 | the inner `foreach` stores into the storage in place exactly what `BuildAttributes` specifies, or throws its error |
| EnumMapping.AbstractEnumMapping.EnumMappingExists | src/AbstractEnumMapping.php:31-34 | returns `SchemeModel.EnumMappingExists`; afterwards m's class is cached exactly when its declarations are consistent, no other class is added, and no entry changes |
| EnumMapping.AbstractEnumMapping.TryStringToEnum | src/AbstractEnumMapping.php:40-50 | returns `SchemeModel.TryStringToEnum`; afterwards cls is cached exactly when its declarations are consistent, no other class is added, and no entry changes |
| EnumMapping.AbstractEnumMapping.StringToEnum | src/AbstractEnumMapping.php:57-63 | returns `SchemeModel.StringToEnum`; afterwards cls is cached exactly when its declarations are consistent, no other class is added, and no entry changes |
| EnumMapping.AbstractEnumMapping.EnumToString | src/AbstractEnumMapping.php:68-83 | returns `SchemeModel.EnumToString`; afterwards m's class is cached exactly when its declarations are consistent, no other class is added, and no entry changes |
| EnumMapping.AbstractEnumMapping.EnumsToStrings | src/AbstractEnumMapping.php:89-92 | the loop returns `SchemeModel.EnumsToStrings`, stopping at the first failure; it adds only classes of the given cases to the cache, changes no entry, and on success every class of the given cases is cached |
| EnumMapping.AbstractEnumMapping.EnumToStringOf | src/AbstractEnumMapping.php:91 | one `enumToString` call of the `array_map`: returns `SchemeModel.EnumToString` of the i-th case and keeps the cache within the classes of the cases |
| EnumMapping.AbstractEnumMapping.GetValues | src/AbstractEnumMapping.php:98-101 | returns `SchemeModel.GetValues`; afterwards cls is cached exactly when its declarations are consistent, no other class is added, and no entry changes |
| EnumMapping.AbstractEnumMapping.RemapKeys | src/AbstractEnumMapping.php:109-134 | returns `SchemeModel.RemapKeys`; afterwards cls is cached exactly when its declarations are consistent, no other class is added, and no entry changes |
| EnumMapping.ResolveIn | src/AbstractEnumMapping.php:120-129 | the cast, `tryFrom` and mapping lookup of one key, done on the storage object, give exactly `SchemeModel.Resolve` on its state |
| EnumMapping.RemapWith | src/AbstractEnumMapping.php:115-131 | the `foreach` over the entries computes exactly `RemapEntries` from the enum's storage |
| Provider.EnumMappingProvider.Get | src/EnumMappingProvider.php:34-37 | returns a scheme of the requested class |
| Provider.Create | src/EnumMappingProvider.php:21-27 | the table is keyed by exactly the classes of the given schemes, and each scheme is filed under its own class |
| Provider.CreateLastWins | src/EnumMappingProvider.php:23-26 | `get` of a class returns the last scheme of that class in the constructor's list |

## Left out

- Reflection (`ReflectionEnum`, `getAttributes`, `newInstance`) is left out. An enum is given as data (`EnumDef`), and the two attribute classes in `src/Strategy` become the `Attribute` datatype.
- PHP's coercion of numeric-string array keys to ints is not modelled. `Str("5")` and `Int(5)` are different keys everywhere except where `remapKeys` casts a key to string. So `tryStringToEnum(cls, "5")` does not find a case mapped to the int 5, although PHP's `isset($toEnum["5"])` would.
- A `TypeError` is modelled as "not a backing value". Under `strict_types`, `tryFrom` with a string key on an int-backed enum throws that `TypeError`.
- The exception message texts are left out. So is the re-wrapping of `InvalidArgumentException` in `enumToString`: the error kind is kept and the message is dropped.
- The `\assert` checks on an enum's class become preconditions (`IsCase`, `m.enumClass == enumClass`). So does a call with a class that is not an enum.
- SchemeModel.RemapKeysMeaning does not state the key order of the output. It states the keys and their elements; `Assign` states where a new key goes.
- `enumsToStrings` keeps the keys of its input array. The model takes the cases as a sequence, so only list-shaped input is modelled.
- Provider.EnumMappingProvider.Get requires the class to be in the table. PHP would emit a warning and then fail the return type.
- SchemeModel.RemapKeys requires a backed enum. The source calls `tryFrom`, which an unbacked enum does not have.
- EnumMapping.RemapWith asks the enum's storage directly whether a case is mapped. The source asks `$this->enumMappingExists`, which returns the same storage from the cache.
- Concurrency and object identity beyond the cache are left out. PHP runs the cache single-threaded.
- `EnumMappingInterface.php` and `UnexpectedEnumMappingValueException.php` are not part of this model beyond the error kind `UnexpectedMappingValue`.
- `src/AbstractEnumMapping.php` has no `tryEnumToString`; it is not modelled.
