/** A mapping scheme object (AbstractEnumMapping): the scheme's class, the
    enum declarations it reads through reflection, and the cache of one
    storage per enum class that it fills on first use. Every public operation
    returns what SchemeModel says it does, and only ever adds entries to the
    cache. */
module EnumMapping {
  import opened Enums
  import opened MemoryStorage
  import opened Resolution
  import opened SchemeModel

  /** The cache only grows: every entry present before is still there, unchanged. */
  predicate CacheExtends(before: map<string, EnumMappingMemoryStorage>, after: map<string, EnumMappingMemoryStorage>)
  {
    forall cls :: cls in before ==> cls in after && after[cls] == before[cls]
  }

  /** The enum classes of the cases in ms. */
  function ClassesOf(ms: seq<Member>): set<string>
  {
    set i | 0 <= i < |ms| :: ms[i].enumClass
  }

  lemma CacheExtendsTransitive<T>(a: map<string, T>, b: map<string, T>, c: map<string, T>)
    requires forall k :: k in a ==> k in b && b[k] == a[k]
    requires forall k :: k in b ==> k in c && c[k] == b[k]
    ensures forall k :: k in a ==> k in c && c[k] == a[k]
  {
  }

  /** One call of enumToString inside enumsToStrings: the cache stays within
      the classes of ms, and when the call caches the class of ms[i] the
      classes of ms[..i + 1] are all cached. */
  lemma CacheStep<T>(start: map<string, T>, before: map<string, T>, after: map<string, T>, ms: seq<Member>, i: nat)
    requires i < |ms|
    requires forall c :: c in before ==> c in start || c in ClassesOf(ms)
    requires forall c :: c in ClassesOf(ms[..i]) ==> c in before
    requires forall c :: c in before ==> c in after
    requires forall c :: c != ms[i].enumClass ==> (c in after <==> c in before)
    ensures forall c :: c in after ==> c in start || c in ClassesOf(ms)
    ensures ms[i].enumClass in after ==> forall c :: c in ClassesOf(ms[..i + 1]) ==> c in after
  {
    assert ms[i].enumClass in ClassesOf(ms);
    forall c | c in ClassesOf(ms[..i + 1]) && ms[i].enumClass in after ensures c in after {
      var j :| 0 <= j < i + 1 && ms[..i + 1][j].enumClass == c;
      if j < i {
        assert ms[..i][j] == ms[j];
      }
    }
  }

  class AbstractEnumMapping {
    /** `static::class`: the scheme class the mapping attributes address. */
    const scheme: string
    /** The enum declarations that reflection reads. */
    const enums: map<string, EnumDef>
    /** The storage of every enum class built so far. */
    var mappings: map<string, EnumMappingMemoryStorage>

    /** Every cached storage is valid and holds exactly what the build of its
        enum class yields. */
    predicate Valid()
      reads this, mappings.Values
    {
      && Declared(enums)
      && (forall cls :: cls in mappings ==>
            && cls in enums
            && mappings[cls].enumClassName == cls
            && mappings[cls].Valid()
            && Storage(scheme, enums, cls) == Success(mappings[cls].State()))
    }

    constructor(scheme: string, enums: map<string, EnumDef>)
      requires Declared(enums)
      ensures Valid() && this.scheme == scheme && this.enums == enums && mappings == map[]
    {
      this.scheme := scheme;
      this.enums := enums;
      mappings := map[];
    }

    /** `createMappingStorage`: walks the cases and their attributes in
        declaration order and stores the value of every attribute addressed to
        this scheme. */
    method CreateMappingStorage(cls: string) returns (r: Result<EnumMappingMemoryStorage>)
      requires Declared(enums) && cls in enums
      ensures r.Success? ==> fresh(r.value) && r.value.Valid() && r.value.enumClassName == cls
      ensures r.Success? ==> Storage(scheme, enums, cls) == Success(r.value.State())
      ensures r.Failure? ==> Storage(scheme, enums, cls) == Failure(r.error)
    {
      var e := enums[cls];
      var storage := new EnumMappingMemoryStorage(cls);
      var i := 0;
      while i < |e.cases|
        invariant 0 <= i <= |e.cases|
        invariant fresh(storage) && storage.Valid() && storage.enumClassName == cls
        invariant Build(scheme, e) == BuildCases(scheme, e.cases[i..], storage.State())
      {
        var c := e.cases[i];
        ghost var before := storage.State();
        assert BuildCases(scheme, e.cases[i..], before) ==
          match BuildAttributes(scheme, c, c.attributes, before)
          case Failure(err) => Failure(err)
          case Success(t') => BuildCases(scheme, e.cases[i + 1..], t');
        var outcome := StoreCaseMappings(scheme, c, storage);
        if outcome.Fail? {
          return Failure(outcome.error);
        }
        i := i + 1;
      }
      assert e.cases[i..] == [];
      return Success(storage);
    }

    /** `getMappingStorage`: the cached storage of the class, built and cached
        on first use; a cached storage is returned as it is and never rebuilt,
        and a build that throws caches nothing. */
    method GetMappingStorage(cls: string) returns (r: Result<EnumMappingMemoryStorage>)
      requires Valid() && cls in enums
      modifies this
      ensures Valid() && CacheExtends(old(mappings), mappings)
      ensures cls in mappings <==> Storage(scheme, enums, cls).Success?
      ensures forall c :: c != cls ==> (c in mappings <==> c in old(mappings))
      ensures r.Success? <==> Storage(scheme, enums, cls).Success?
      ensures r.Failure? ==> Storage(scheme, enums, cls) == Failure(r.error) && mappings == old(mappings)
      ensures r.Success? ==> cls in mappings && mappings[cls] == r.value
      ensures cls in old(mappings) ==> mappings == old(mappings) && r == Success(old(mappings)[cls])
      ensures cls !in old(mappings) && r.Success? ==> fresh(r.value) && mappings == old(mappings)[cls := r.value]
    {
      if cls in mappings {
        assert Storage(scheme, enums, cls).Success?;
        return Success(mappings[cls]);
      }
      var created := CreateMappingStorage(cls);
      if created.Failure? {
        return Failure(created.error);
      }
      Remember(cls, created.value);
      r := Success(created.value);
    }

    /** `$this->mappings[$enumClass] = ...`: files the storage built for cls in the cache. */
    method Remember(cls: string, storage: EnumMappingMemoryStorage)
      requires Valid() && cls in enums && cls !in mappings
      requires storage.enumClassName == cls && storage.Valid() && Storage(scheme, enums, cls) == Success(storage.State())
      modifies this
      ensures Valid() && CacheExtends(old(mappings), mappings) && mappings == old(mappings)[cls := storage]
      ensures cls in mappings <==> Storage(scheme, enums, cls).Success?
      ensures forall c :: c != cls ==> (c in mappings <==> c in old(mappings))
    {
      mappings := mappings[cls := storage];
    }

    /** `enumMappingExists` */
    method EnumMappingExists(m: Member) returns (r: Result<bool>)
      requires Valid() && IsCase(enums, m)
      modifies this
      ensures Valid() && CacheExtends(old(mappings), mappings)
      ensures m.enumClass in mappings <==> Storage(scheme, enums, m.enumClass).Success?
      ensures forall c :: c != m.enumClass ==> (c in mappings <==> c in old(mappings))
      ensures r == SchemeModel.EnumMappingExists(scheme, enums, m)
    {
      var storage :- GetMappingStorage(m.enumClass);
      var b := storage.EnumMappingExists(m);
      r := Success(b);
    }

    /** `tryStringToEnum` */
    method TryStringToEnum(cls: string, s: string) returns (r: Result<Option<Member>>)
      requires Valid() && cls in enums
      modifies this
      ensures Valid() && CacheExtends(old(mappings), mappings)
      ensures cls in mappings <==> Storage(scheme, enums, cls).Success?
      ensures forall c :: c != cls ==> (c in mappings <==> c in old(mappings))
      ensures r == SchemeModel.TryStringToEnum(scheme, enums, cls, s)
    {
      var storage :- GetMappingStorage(cls);
      ghost var t := storage.State();
      assert Storage(scheme, enums, cls) == Success(t);
      var found := storage.MappingValueExists(Str(s));
      if !found {
        assert SchemeModel.TryStringToEnum(scheme, enums, cls, s) == Success(None);
        return Success(None);
      }
      var m := storage.MappingValueToEnum(Str(s));
      assert SchemeModel.TryStringToEnum(scheme, enums, cls, s) == Success(Some(t.MappingValueToEnum(Str(s)).value));
      r := Success(Some(m.value));
    }

    /** `stringToEnum` */
    method StringToEnum(cls: string, s: string) returns (r: Result<Member>)
      requires Valid() && cls in enums
      modifies this
      ensures Valid() && CacheExtends(old(mappings), mappings)
      ensures cls in mappings <==> Storage(scheme, enums, cls).Success?
      ensures forall c :: c != cls ==> (c in mappings <==> c in old(mappings))
      ensures r == SchemeModel.StringToEnum(scheme, enums, cls, s)
    {
      var found := TryStringToEnum(cls, s);
      if found.Failure? {
        return Failure(found.error);
      }
      if found.value.None? {
        return Failure(UnexpectedMappingValue(cls, s));
      }
      r := Success(found.value.value);
    }

    /** `enumToString` */
    method EnumToString(m: Member) returns (r: Result<string>)
      requires Valid() && IsCase(enums, m)
      modifies this
      ensures Valid() && CacheExtends(old(mappings), mappings)
      ensures m.enumClass in mappings <==> Storage(scheme, enums, m.enumClass).Success?
      ensures forall c :: c != m.enumClass ==> (c in mappings <==> c in old(mappings))
      ensures r.Success? ==> m.enumClass in mappings
      ensures r == SchemeModel.EnumToString(scheme, enums, m)
    {
      var storage :- GetMappingStorage(m.enumClass);
      var v :- storage.EnumToMappingValue(m);
      if !v.Str? {
        return Failure(NotAString(m));
      }
      r := Success(v.s);
    }

    /** `enumsToStrings` */
    method EnumsToStrings(ms: seq<Member>) returns (r: Result<seq<string>>)
      requires Valid() && forall i :: 0 <= i < |ms| ==> IsCase(enums, ms[i])
      modifies this
      ensures Valid() && CacheExtends(old(mappings), mappings)
      ensures forall c :: c in mappings ==> c in old(mappings) || c in ClassesOf(ms)
      ensures r.Success? ==> ClassesOf(ms) <= mappings.Keys
      ensures r == SchemeModel.EnumsToStrings(scheme, enums, ms)
    {
      ghost var calls := EnumToStringCalls(scheme, enums, ms);
      var out: seq<string> := [];
      var i := 0;
      while i < |ms|
        invariant 0 <= i <= |ms|
        invariant Valid() && CacheExtends(old(mappings), mappings)
        invariant forall c :: c in mappings ==> c in old(mappings) || c in ClassesOf(ms)
        invariant ClassesOf(ms[..i]) <= mappings.Keys
        invariant Collect(calls[..i]) == Success(out)
      {
        var s := EnumToStringOf(ms, i, old(mappings));
        assert s == calls[i];
        CollectStep(calls, i);
        if s.Failure? {
          CollectPrefixFailure(calls, i + 1);
          return Failure(s.error);
        }
        out := out + [s.value];
        i := i + 1;
      }
      assert calls[..i] == calls && ms[..i] == ms;
      r := Success(out);
    }

    /** The call `enumToString(ms[i])` made by enumsToStrings, with what it
        does to the cache in terms of the classes of ms. */
    method EnumToStringOf(ms: seq<Member>, i: nat, ghost start: map<string, EnumMappingMemoryStorage>) returns (r: Result<string>)
      requires Valid() && i < |ms| && IsCase(enums, ms[i]) && CacheExtends(start, mappings)
      requires forall c :: c in mappings ==> c in start || c in ClassesOf(ms)
      requires ClassesOf(ms[..i]) <= mappings.Keys
      modifies this
      ensures Valid() && CacheExtends(start, mappings)
      ensures forall c :: c in mappings ==> c in start || c in ClassesOf(ms)
      ensures r.Success? ==> ClassesOf(ms[..i + 1]) <= mappings.Keys
      ensures r == SchemeModel.EnumToString(scheme, enums, ms[i])
    {
      r := EnumToString(ms[i]);
      CacheStep(start, old(mappings), mappings, ms, i);
      CacheExtendsTransitive(start, old(mappings), mappings);
    }

    /** `getValues` */
    method GetValues(cls: string) returns (r: Result<seq<Value>>)
      requires Valid() && cls in enums
      modifies this
      ensures Valid() && CacheExtends(old(mappings), mappings)
      ensures cls in mappings <==> Storage(scheme, enums, cls).Success?
      ensures forall c :: c != cls ==> (c in mappings <==> c in old(mappings))
      ensures r == SchemeModel.GetValues(scheme, enums, cls)
    {
      var storage :- GetMappingStorage(cls);
      var vs := storage.GetAllMappingValues();
      r := Success(vs);
    }

    /** `remapKeys` */
    method RemapKeys<V>(cls: string, arr: seq<(Value, V)>) returns (r: Result<seq<(Value, V)>>)
      requires Valid() && cls in enums && enums[cls].backingType.Some?
      modifies this
      ensures Valid() && CacheExtends(old(mappings), mappings)
      ensures cls in mappings <==> Storage(scheme, enums, cls).Success?
      ensures forall c :: c != cls ==> (c in mappings <==> c in old(mappings))
      ensures r == SchemeModel.RemapKeys(scheme, enums, cls, arr)
    {
      var storage :- GetMappingStorage(cls);
      var isString := IsEnumOfTypeString(enums, cls);
      r := RemapWith(enums[cls], storage, isString, arr);
    }
  }

  /** The inner `foreach` of createMappingStorage: stores, in order, the value
      of every attribute of case c addressed to the scheme. */
  method StoreCaseMappings(scheme: string, c: Case, storage: EnumMappingMemoryStorage) returns (r: Outcome)
    requires storage.Valid()
    modifies storage
    ensures storage.Valid()
    ensures r.Pass? ==> BuildAttributes(scheme, c, c.attributes, old(storage.State())) == Success(storage.State())
    ensures r.Fail? ==> BuildAttributes(scheme, c, c.attributes, old(storage.State())) == Failure(r.error)
  {
    ghost var before := storage.State();
    var cls := storage.enumClassName;
    var j := 0;
    while j < |c.attributes|
      invariant 0 <= j <= |c.attributes|
      invariant storage.Valid()
      invariant BuildAttributes(scheme, c, c.attributes, before) == BuildAttributes(scheme, c, c.attributes[j..], storage.State())
    {
      var a := c.attributes[j];
      assert c.attributes[j..][1..] == c.attributes[j + 1..];
      if AddressedTo(a, scheme) {
        var v: Value;
        if a.MappingValue? {
          v := Str(a.value);
        } else {
          if c.backing.None? {
            return Fail(SameOnUnbackedEnum(cls));
          }
          v := c.backing.value;
        }
        var outcome := storage.StoreMapping(Member(cls, c.name), v);
        if outcome.Fail? {
          return outcome;
        }
      }
      j := j + 1;
    }
    assert c.attributes[j..] == [];
    r := Pass;
  }

  /** The body of remapKeys' `foreach` up to the assignment: the key cast to
      the enum's backing type, its case by `tryFrom` (or the exception), and
      that case's mapping value when `enumMappingExists` says it has one. */
  function ResolveIn(e: EnumDef, storage: EnumMappingMemoryStorage, isString: bool, key: Value): (r: Result<Option<Value>>)
    requires e.backingType.Some? && storage.Valid() && storage.enumClassName == e.enumClass
    reads storage
    ensures r == Resolve(e, storage.State(), isString, key)
  {
    var k := if isString then Str(PhpString(key)) else key;
    match e.TryFrom(k)
    case None => Failure(KeyNotBackingValue(e.enumClass, k))
    case Some(member) =>
      if storage.EnumMappingExists(member) then Success(Some(storage.EnumToMappingValue(member).value))
      else Success(None)
  }

  /** The `foreach` of remapKeys over the entries of arr, with the storage of
      the enum class (the `$this->enumMappingExists($enum)` inside it finds
      that same storage in the cache). */
  method RemapWith<V>(e: EnumDef, storage: EnumMappingMemoryStorage, isString: bool, arr: seq<(Value, V)>)
    returns (r: Result<seq<(Value, V)>>)
    requires e.backingType.Some? && storage.Valid() && storage.enumClassName == e.enumClass
    ensures r == RemapEntries(e, storage.State(), isString, arr)
  {
    ghost var t := storage.State();
    var remapped: seq<(Value, V)> := [];
    var i := 0;
    assert arr[..0] == [];
    while i < |arr|
      invariant 0 <= i <= |arr|
      invariant RemapEntries(e, t, isString, arr[..i]) == Success(remapped)
    {
      var target := ResolveIn(e, storage, isString, arr[i].0);
      if target.Failure? {
        assert RemapEntries(e, t, isString, arr) == Failure(target.error) by {
          RemapEntriesStepFailure(e, t, isString, arr, i, remapped);
          RemapEntriesPrefixFailure(e, t, isString, arr, i + 1);
        }
        return Failure(target.error);
      }
      RemapEntriesStep(e, t, isString, arr, i, remapped, target.value);
      if target.value.Some? {
        remapped := Assign(remapped, target.value.value, arr[i].1);
      }
      i := i + 1;
    }
    assert arr[..i] == arr;
    r := Success(remapped);
  }
}
