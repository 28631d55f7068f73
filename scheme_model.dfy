/** The meaning of every public operation of a mapping scheme
    (AbstractEnumMapping), given the scheme's class and the declarations of
    the enums it is asked about. Each operation first obtains the storage of
    the enum class (the build of Resolution), so a build failure is the first
    exception any operation can throw. */
module SchemeModel {
  import opened Enums
  import opened MemoryStorage
  import opened Resolution

  /** The enums the program declares, keyed by class: each entry is the
      declaration of that class and is well formed. */
  predicate Declared(enums: map<string, EnumDef>)
  {
    forall cls :: cls in enums ==> enums[cls].enumClass == cls && enums[cls].WellFormed()
  }

  /** m is a case of a declared enum (every PHP enum object is). */
  predicate IsCase(enums: map<string, EnumDef>, m: Member)
  {
    m.enumClass in enums && enums[m.enumClass].HasMember(m)
  }

  /** The position of a member among the cases of its enum. */
  lemma CaseIndex(e: EnumDef, m: Member) returns (i: nat)
    requires e.HasMember(m)
    ensures i < |e.cases| && e.MemberAt(i) == m
  {
    i :| 0 <= i < |e.cases| && e.cases[i].name == m.name;
  }

  /** getMappingStorage: the storage of the enum class, built on first use;
      it can be built exactly when the scheme's declarations are consistent. */
  function Storage(scheme: string, enums: map<string, EnumDef>, cls: string): (r: Result<StorageState>)
    requires Declared(enums) && cls in enums
    ensures r.Success? <==> Consistent(scheme, enums[cls].cases)
    ensures r.Success? ==> r.value.Valid() && r.value.enumClass == cls
  {
    BuildSucceedsIffConsistent(scheme, enums[cls]);
    Build(scheme, enums[cls])
  }

  /** enumMappingExists: whether the scheme maps m. */
  function EnumMappingExists(scheme: string, enums: map<string, EnumDef>, m: Member): (r: Result<bool>)
    requires Declared(enums) && IsCase(enums, m)
    ensures r.Success? <==> Consistent(scheme, enums[m.enumClass].cases)
  {
    var t :- Storage(scheme, enums, m.enumClass);
    Success(t.EnumMappingExists(m))
  }

  /** A case is mapped exactly when it carries an attribute addressed to the scheme. */
  lemma EnumMappingExistsIffAttribute(scheme: string, enums: map<string, EnumDef>, cls: string, i: nat)
    requires Declared(enums) && cls in enums && i < |enums[cls].cases|
    requires Consistent(scheme, enums[cls].cases)
    ensures EnumMappingExists(scheme, enums, enums[cls].MemberAt(i)) ==
      Success(HasOwnAttribute(scheme, enums[cls].cases[i].attributes))
  {
    BuildSucceedsIffConsistent(scheme, enums[cls]);
    BuildMapsOwnCases(scheme, enums[cls], i);
  }

  /** tryStringToEnum: the member that the external string s maps back to, if any. */
  function TryStringToEnum(scheme: string, enums: map<string, EnumDef>, cls: string, s: string): (r: Result<Option<Member>>)
    requires Declared(enums) && cls in enums
    ensures r.Success? <==> Consistent(scheme, enums[cls].cases)
    ensures r.Success? && r.value.Some? ==> IsCase(enums, r.value.value) && r.value.value.enumClass == cls
  {
    var t :- Storage(scheme, enums, cls);
    if t.MappingValueExists(Str(s)) then
      var m := t.MappingValueToEnum(Str(s)).value;
      BuildMapsOnlyOwnCases(scheme, enums[cls], m);
      Success(Some(m))
    else Success(None)
  }

  /** tryStringToEnum finds the case that declares s and yields null exactly
      when no case declares s. */
  lemma TryStringToEnumFindsDeclaringCase(scheme: string, enums: map<string, EnumDef>, cls: string, s: string)
    requires Declared(enums) && cls in enums && Consistent(scheme, enums[cls].cases)
    ensures var r := TryStringToEnum(scheme, enums, cls, s);
      var e := enums[cls];
      && (r.value.None? <==> forall i :: 0 <= i < |e.cases| ==> !CaseDeclares(scheme, e.cases[i], Str(s)))
      && (forall i :: 0 <= i < |e.cases| ==> (r.value == Some(e.MemberAt(i)) <==> CaseDeclares(scheme, e.cases[i], Str(s))))
  {
    BuildSucceedsIffConsistent(scheme, enums[cls]);
    BuildValueLookup(scheme, enums[cls], Str(s));
  }

  /** stringToEnum: tryStringToEnum, throwing when it yields null. */
  function StringToEnum(scheme: string, enums: map<string, EnumDef>, cls: string, s: string): (r: Result<Member>)
    requires Declared(enums) && cls in enums
    ensures r == Failure(UnexpectedMappingValue(cls, s)) <==> TryStringToEnum(scheme, enums, cls, s) == Success(None)
    ensures r.Success? <==> TryStringToEnum(scheme, enums, cls, s).Success? && TryStringToEnum(scheme, enums, cls, s).value.Some?
    ensures r.Success? ==> TryStringToEnum(scheme, enums, cls, s) == Success(Some(r.value))
  {
    var found := TryStringToEnum(scheme, enums, cls, s);
    if found.Failure? then
      BuildFailure(scheme, enums[cls]);
      Failure(found.error)
    else if found.value.None? then Failure(UnexpectedMappingValue(cls, s))
    else Success(found.value.value)
  }

  /** enumToString: the external string of m; throws when m is unmapped or
      its value is an integer. */
  function EnumToString(scheme: string, enums: map<string, EnumDef>, m: Member): (r: Result<string>)
    requires Declared(enums) && IsCase(enums, m)
    ensures r.Success? ==> Consistent(scheme, enums[m.enumClass].cases)
  {
    var t :- Storage(scheme, enums, m.enumClass);
    var v :- t.EnumToMappingValue(m);
    if v.Str? then Success(v.s) else Failure(NotAString(m))
  }

  /** With consistent declarations, enumToString of the i-th case returns the
      string its attributes declare, throws `InvalidArgumentException` when it
      has none, and `LogicException` when it declares an integer. */
  lemma EnumToStringDeclared(scheme: string, enums: map<string, EnumDef>, cls: string, i: nat)
    requires Declared(enums) && cls in enums && i < |enums[cls].cases|
    requires Consistent(scheme, enums[cls].cases)
    ensures var e := enums[cls];
      var r := EnumToString(scheme, enums, e.MemberAt(i));
      && (forall s :: r == Success(s) <==> CaseDeclares(scheme, e.cases[i], Str(s)))
      && (r == Failure(NoMappingForEnum(e.MemberAt(i))) <==> !HasOwnAttribute(scheme, e.cases[i].attributes))
      && (r == Failure(NotAString(e.MemberAt(i))) <==> exists n :: CaseDeclares(scheme, e.cases[i], Int(n)))
  {
    var e := enums[cls];
    var m := e.MemberAt(i);
    BuildSucceedsIffConsistent(scheme, e);
    BuildMapsOwnCases(scheme, e, i);
    var t := Build(scheme, e).value;
    forall s ensures EnumToString(scheme, enums, m) == Success(s) <==> CaseDeclares(scheme, e.cases[i], Str(s)) {
      BuildMapsDeclared(scheme, e, i, Str(s));
    }
    if exists n :: CaseDeclares(scheme, e.cases[i], Int(n)) {
      var n :| CaseDeclares(scheme, e.cases[i], Int(n));
      BuildMapsDeclared(scheme, e, i, Int(n));
    }
    if t.EnumToMappingValue(m).Success? && t.EnumToMappingValue(m).value.Int? {
      BuildMapsDeclared(scheme, e, i, t.EnumToMappingValue(m).value);
    }
  }

  /** Round trip: the string enumToString gives for m maps back to m. */
  lemma EnumToStringRoundTrip(scheme: string, enums: map<string, EnumDef>, m: Member, s: string)
    requires Declared(enums) && IsCase(enums, m)
    requires EnumToString(scheme, enums, m) == Success(s)
    ensures StringToEnum(scheme, enums, m.enumClass, s) == Success(m)
  {
    var t := Build(scheme, enums[m.enumClass]).value;
    LookupsAreInverse(t, m, Str(s));
  }

  /** Round trip: a member that stringToEnum finds for s maps to s. */
  lemma StringToEnumRoundTrip(scheme: string, enums: map<string, EnumDef>, cls: string, s: string)
    requires Declared(enums) && cls in enums
    requires StringToEnum(scheme, enums, cls, s).Success?
    ensures EnumToString(scheme, enums, StringToEnum(scheme, enums, cls, s).value) == Success(s)
  {
    var t := Build(scheme, enums[cls]).value;
    var m := StringToEnum(scheme, enums, cls, s).value;
    LookupsAreInverse(t, m, Str(s));
  }

  /** The results of a sequence of calls made in order: all the values, or
      the exception of the first call that throws. */
  function Collect<T>(rs: seq<Result<T>>): (r: Result<seq<T>>)
    ensures r.Success? ==> |r.value| == |rs| && forall i :: 0 <= i < |rs| ==> rs[i] == Success(r.value[i])
    ensures r.Failure? ==>
      exists i :: 0 <= i < |rs| && rs[i] == Failure(r.error) &&
        forall j :: 0 <= j < i ==> rs[j].Success?
    decreases |rs|
  {
    if rs == [] then Success([])
    else
      var n := |rs| - 1;
      assert forall i :: 0 <= i < n ==> rs[..n][i] == rs[i];
      match Collect(rs[..n])
      case Failure(err) => Failure(err)
      case Success(init) =>
        match rs[n]
        case Failure(err) => Failure(err)
        case Success(x) =>
          assert forall i :: 0 <= i < n ==> (init + [x])[i] == init[i];
          Success(init + [x])
  }

  /** Calls that throw on a prefix throw the same on the whole sequence. */
  lemma {:induction false} CollectPrefixFailure<T>(rs: seq<Result<T>>, n: nat)
    requires n <= |rs| && Collect(rs[..n]).Failure?
    ensures Collect(rs) == Collect(rs[..n])
    decreases |rs|
  {
    if n < |rs| {
      var m := |rs| - 1;
      assert rs[..m][..n] == rs[..n];
      CollectPrefixFailure(rs[..m], n);
    } else {
      assert rs[..n] == rs;
    }
  }

  /** One more call: its exception, or its value appended. */
  lemma CollectStep<T>(rs: seq<Result<T>>, i: nat)
    requires i < |rs|
    ensures Collect(rs[..i + 1]) ==
      match Collect(rs[..i])
      case Failure(err) => Failure(err)
      case Success(init) => (match rs[i] case Failure(err) => Failure(err) case Success(x) => Success(init + [x]))
  {
    assert rs[..i + 1][..i] == rs[..i];
  }

  /** The enumToString call made for each member, in order. */
  function EnumToStringCalls(scheme: string, enums: map<string, EnumDef>, ms: seq<Member>): (rs: seq<Result<string>>)
    requires Declared(enums) && forall i :: 0 <= i < |ms| ==> IsCase(enums, ms[i])
    ensures |rs| == |ms| && forall i :: 0 <= i < |ms| ==> rs[i] == EnumToString(scheme, enums, ms[i])
  {
    seq(|ms|, i requires 0 <= i < |ms| && Declared(enums) && IsCase(enums, ms[i]) => EnumToString(scheme, enums, ms[i]))
  }

  /** enumsToStrings (`array_map` of enumToString): enumToString of every
      member, in order; the first member that throws ends the whole call. */
  function EnumsToStrings(scheme: string, enums: map<string, EnumDef>, ms: seq<Member>): (r: Result<seq<string>>)
    requires Declared(enums) && forall i :: 0 <= i < |ms| ==> IsCase(enums, ms[i])
    ensures r.Success? ==> |r.value| == |ms| && forall i :: 0 <= i < |ms| ==> EnumToString(scheme, enums, ms[i]) == Success(r.value[i])
    ensures r.Failure? ==>
      exists i :: 0 <= i < |ms| && EnumToString(scheme, enums, ms[i]) == Failure(r.error) &&
        forall j :: 0 <= j < i ==> EnumToString(scheme, enums, ms[j]).Success?
  {
    Collect(EnumToStringCalls(scheme, enums, ms))
  }

  /** getValues: the external values of the enum class, in storage order. */
  function GetValues(scheme: string, enums: map<string, EnumDef>, cls: string): (r: Result<seq<Value>>)
    requires Declared(enums) && cls in enums
    ensures r.Success? <==> Consistent(scheme, enums[cls].cases)
    ensures r.Success? ==> forall i, j :: 0 <= i < j < |r.value| ==> r.value[i] != r.value[j]
  {
    var t :- Storage(scheme, enums, cls);
    Success(t.GetAllMappingValues())
  }

  /** getValues lists, once each, the value of every case carrying an
      attribute addressed to the scheme, in declaration order. */
  lemma GetValuesDeclared(scheme: string, enums: map<string, EnumDef>, cls: string)
    requires Declared(enums) && cls in enums && Consistent(scheme, enums[cls].cases)
    ensures var vs := GetValues(scheme, enums, cls).value;
      var mc := MappedCases(scheme, enums[cls].cases);
      |vs| == |mc| && forall j :: 0 <= j < |vs| ==> CaseDeclares(scheme, mc[j], vs[j])
  {
    BuildSucceedsIffConsistent(scheme, enums[cls]);
    BuildValuesInOrder(scheme, enums[cls]);
  }

  /** isEnumOfTypeString: whether the enum is backed by strings. */
  function IsEnumOfTypeString(enums: map<string, EnumDef>, cls: string): (b: bool)
    requires Declared(enums) && cls in enums
    ensures b ==> forall i :: 0 <= i < |enums[cls].cases| ==> enums[cls].cases[i].backing.Some? && enums[cls].cases[i].backing.value.Str?
    ensures !b ==> forall i :: 0 <= i < |enums[cls].cases| ==> !(enums[cls].cases[i].backing.Some? && enums[cls].cases[i].backing.value.Str?)
  {
    var e := enums[cls];
    assert forall i :: 0 <= i < |e.cases| ==> BackingFits(e.backingType, e.cases[i].backing);
    e.backingType == Some(StringBacked)
  }

  /** The key remapKeys looks up: cast to a string for a string-backed enum,
      as given otherwise. */
  function CastKey(stringBacked: bool, k: Value): (k': Value)
    ensures stringBacked ==> k'.Str? && (k.Str? ==> k' == k) && (k.Int? ==> DecimalValue(k'.s) == k.i)
    ensures !stringBacked ==> k' == k
  {
    if stringBacked then Str(PhpString(k)) else k
  }

  /** Casting twice is casting once; for a string-backed enum an int key and
      its decimal string are the same key, and distinct int keys stay distinct. */
  lemma CastKeyCoincides(stringBacked: bool, k1: Value, k2: Value)
    ensures CastKey(stringBacked, CastKey(stringBacked, k1)) == CastKey(stringBacked, k1)
    ensures k1.Int? ==> CastKey(true, k1) == CastKey(true, Str(PhpString(k1)))
    ensures k1.Int? && k2.Int? ==> (CastKey(true, k1) == CastKey(true, k2) <==> k1 == k2)
  {
    if k1.Int? && k2.Int? {
      PhpStringIntInjective(k1.i, k2.i);
    }
  }

  /** Whether some entry of the PHP array has key k. */
  predicate HasKey<V>(arr: seq<(Value, V)>, k: Value)
  {
    exists p :: 0 <= p < |arr| && arr[p].0 == k
  }

  /** No key occurs twice, as in every PHP array. */
  predicate DistinctKeys<V>(arr: seq<(Value, V)>)
  {
    forall p, q :: 0 <= p < q < |arr| ==> arr[p].0 != arr[q].0
  }

  /** The value stored under k, if any. */
  function Lookup<V>(arr: seq<(Value, V)>, k: Value): Option<V>
  {
    if arr == [] then None
    else if arr[0].0 == k then Some(arr[0].1)
    else Lookup(arr[1..], k)
  }

  /** PHP's `$arr[$k] = $v`: overwrites the entry of k in place, or appends one. */
  function Assign<V>(arr: seq<(Value, V)>, k: Value, v: V): seq<(Value, V)>
  {
    if arr == [] then [(k, v)]
    else if arr[0].0 == k then [(k, v)] + arr[1..]
    else [arr[0]] + Assign(arr[1..], k, v)
  }

  /** `$arr[$k] = $v` keeps every existing key in its place, and grows the
      array only for a new key, which goes at the end with its value. */
  lemma {:induction false} AssignShape<V>(arr: seq<(Value, V)>, k: Value, v: V)
    ensures var r := Assign(arr, k, v);
      && |r| == |arr| + (if HasKey(arr, k) then 0 else 1)
      && (forall p :: 0 <= p < |arr| ==> r[p].0 == arr[p].0)
      && (!HasKey(arr, k) ==> r[|arr|] == (k, v))
    decreases |arr|
  {
    if arr != [] && arr[0].0 != k {
      AssignShape(arr[1..], k, v);
      assert HasKey(arr, k) <==> HasKey(arr[1..], k) by {
        if HasKey(arr, k) {
          var p :| 0 <= p < |arr| && arr[p].0 == k;
          assert arr[1..][p - 1] == arr[p];
        }
        if HasKey(arr[1..], k) {
          var p :| 0 <= p < |arr[1..]| && arr[1..][p].0 == k;
          assert arr[p + 1] == arr[1..][p];
        }
      }
    }
  }

  /** After `$arr[$k] = $v`, k holds v and every other key keeps its value. */
  lemma {:induction false} AssignLookup<V>(arr: seq<(Value, V)>, k: Value, v: V, k': Value)
    ensures Lookup(Assign(arr, k, v), k') == if k' == k then Some(v) else Lookup(arr, k')
    decreases |arr|
  {
    if arr != [] {
      var r := Assign(arr, k, v);
      if arr[0].0 == k {
        assert r[1..] == arr[1..];
      } else {
        assert r[1..] == Assign(arr[1..], k, v);
        AssignLookup(arr[1..], k, v, k');
      }
    }
  }

  /** `$arr[$k] = $v` keeps the keys of an array distinct. */
  lemma AssignDistinct<V>(arr: seq<(Value, V)>, k: Value, v: V)
    requires DistinctKeys(arr)
    ensures DistinctKeys(Assign(arr, k, v))
  {
    var r := Assign(arr, k, v);
    AssignShape(arr, k, v);
    forall p, q | 0 <= p < q < |r| ensures r[p].0 != r[q].0 {
      if q == |arr| {
        assert r[p].0 == arr[p].0;
      }
    }
  }

  /** Where remapKeys sends an input key k: the mapping value of the member
      whose backing value is the (cast) key, None when that member has no
      mapping in this scheme, or the exception when no member is backed by it. */
  function Resolve(e: EnumDef, t: StorageState, stringBacked: bool, k: Value): (r: Result<Option<Value>>)
    requires e.backingType.Some? && t.Valid() && t.enumClass == e.enumClass
    ensures r.Failure? <==> e.TryFrom(CastKey(stringBacked, k)).None?
    ensures r.Failure? ==> r.error == KeyNotBackingValue(e.enumClass, CastKey(stringBacked, k))
  {
    var k' := CastKey(stringBacked, k);
    match e.TryFrom(k')
    case None => Failure(KeyNotBackingValue(e.enumClass, k'))
    case Some(m) => if t.EnumMappingExists(m) then Success(Some(t.EnumToMappingValue(m).value)) else Success(None)
  }

  /** The remapped array built from the entries of arr, in order. */
  function RemapEntries<V>(e: EnumDef, t: StorageState, stringBacked: bool, arr: seq<(Value, V)>): (r: Result<seq<(Value, V)>>)
    requires e.backingType.Some? && t.Valid() && t.enumClass == e.enumClass
    ensures r.Failure? ==> r.error.KeyNotBackingValue? && r.error.enumClass == e.enumClass
    ensures r.Success? ==> |r.value| <= |arr|
    decreases |arr|
  {
    if arr == [] then Success([])
    else
      var out :- RemapEntries(e, t, stringBacked, arr[..|arr| - 1]);
      var target :- Resolve(e, t, stringBacked, arr[|arr| - 1].0);
      if target.Some? then
        AssignShape(out, target.value, arr[|arr| - 1].1);
        Success(Assign(out, target.value, arr[|arr| - 1].1))
      else Success(out)
  }

  /** One more entry whose key resolves: the array with the entry assigned, or
      unchanged when the key's case is unmapped. */
  lemma RemapEntriesStep<V>(e: EnumDef, t: StorageState, stringBacked: bool, arr: seq<(Value, V)>, i: nat, out: seq<(Value, V)>, target: Option<Value>)
    requires e.backingType.Some? && t.Valid() && t.enumClass == e.enumClass
    requires i < |arr| && RemapEntries(e, t, stringBacked, arr[..i]) == Success(out)
    requires Resolve(e, t, stringBacked, arr[i].0) == Success(target)
    ensures RemapEntries(e, t, stringBacked, arr[..i + 1]) ==
      Success(if target.Some? then Assign(out, target.value, arr[i].1) else out)
  {
    assert arr[..i + 1][..i] == arr[..i];
  }

  /** One more entry whose key does not resolve: the exception of that key. */
  lemma RemapEntriesStepFailure<V>(e: EnumDef, t: StorageState, stringBacked: bool, arr: seq<(Value, V)>, i: nat, out: seq<(Value, V)>)
    requires e.backingType.Some? && t.Valid() && t.enumClass == e.enumClass
    requires i < |arr| && RemapEntries(e, t, stringBacked, arr[..i]) == Success(out)
    requires Resolve(e, t, stringBacked, arr[i].0).Failure?
    ensures RemapEntries(e, t, stringBacked, arr[..i + 1]) == Failure(Resolve(e, t, stringBacked, arr[i].0).error)
  {
    assert arr[..i + 1][..i] == arr[..i];
  }

  /** Remapping that throws on a prefix of the entries throws the same on all of them. */
  lemma {:induction false} RemapEntriesPrefixFailure<V>(e: EnumDef, t: StorageState, stringBacked: bool, arr: seq<(Value, V)>, n: nat)
    requires e.backingType.Some? && t.Valid() && t.enumClass == e.enumClass
    requires n <= |arr|
    requires RemapEntries(e, t, stringBacked, arr[..n]).Failure?
    ensures RemapEntries(e, t, stringBacked, arr) == RemapEntries(e, t, stringBacked, arr[..n])
    decreases |arr|
  {
    if n < |arr| {
      var m := |arr| - 1;
      assert RemapEntries(e, t, stringBacked, arr[..m]) == RemapEntries(e, t, stringBacked, arr[..n]) by {
        assert arr[..m][..n] == arr[..n];
        RemapEntriesPrefixFailure(e, t, stringBacked, arr[..m], n);
      }
      RemapEntriesKeepsFailure(e, t, stringBacked, arr);
    } else {
      assert arr[..n] == arr;
    }
  }

  /** A failure on all entries but the last is the failure on all of them. */
  lemma RemapEntriesKeepsFailure<V>(e: EnumDef, t: StorageState, stringBacked: bool, arr: seq<(Value, V)>)
    requires e.backingType.Some? && t.Valid() && t.enumClass == e.enumClass
    requires arr != [] && RemapEntries(e, t, stringBacked, arr[..|arr| - 1]).Failure?
    ensures RemapEntries(e, t, stringBacked, arr) == RemapEntries(e, t, stringBacked, arr[..|arr| - 1])
  {
  }

  /** remapKeys: replaces every key of arr by the mapping value of the member it
      is the backing value of, dropping entries whose member is unmapped. */
  function RemapKeys<V>(scheme: string, enums: map<string, EnumDef>, cls: string, arr: seq<(Value, V)>): (r: Result<seq<(Value, V)>>)
    requires Declared(enums) && cls in enums && enums[cls].backingType.Some?
    ensures !Consistent(scheme, enums[cls].cases) ==> Build(scheme, enums[cls]).Failure? && r == Failure(Build(scheme, enums[cls]).error)
    ensures r.Failure? ==> (r.error.KeyNotBackingValue? && r.error.enumClass == cls) || r.error.ConflictingMapping? || r.error == SameOnUnbackedEnum(cls)
  {
    match Storage(scheme, enums, cls)
    case Failure(err) =>
      BuildFailure(scheme, enums[cls]);
      Failure(err)
    case Success(t) => RemapEntries(enums[cls], t, IsEnumOfTypeString(enums, cls), arr)
  }

  /** The value the remapped array holds under key k', as a dictionary: the
      value of the last entry of arr that resolves to k'. */
  function LastValueFor<V>(e: EnumDef, t: StorageState, stringBacked: bool, arr: seq<(Value, V)>, k': Value): Option<V>
    requires e.backingType.Some? && t.Valid() && t.enumClass == e.enumClass
    decreases |arr|
  {
    if arr == [] then None
    else if Resolve(e, t, stringBacked, arr[|arr| - 1].0) == Success(Some(k')) then Some(arr[|arr| - 1].1)
    else LastValueFor(e, t, stringBacked, arr[..|arr| - 1], k')
  }

  /** remapKeys throws exactly when some key is not a backing value, and then
      names the first such key; otherwise each output key holds the value of
      the last input entry sent to it, and no key occurs twice. */
  lemma RemapEntriesMeaning<V>(e: EnumDef, t: StorageState, stringBacked: bool, arr: seq<(Value, V)>)
    requires e.backingType.Some? && t.Valid() && t.enumClass == e.enumClass
    ensures var r := RemapEntries(e, t, stringBacked, arr);
      && (r.Failure? <==> exists i :: 0 <= i < |arr| && Resolve(e, t, stringBacked, arr[i].0).Failure?)
      && (r.Failure? ==>
            exists i :: 0 <= i < |arr| && Resolve(e, t, stringBacked, arr[i].0) == Failure(r.error) &&
              forall j :: 0 <= j < i ==> Resolve(e, t, stringBacked, arr[j].0).Success?)
      && (r.Success? ==> DistinctKeys(r.value) && forall k' :: Lookup(r.value, k') == LastValueFor(e, t, stringBacked, arr, k'))
  {
    RemapEntriesFirstFailure(e, t, stringBacked, arr);
    RemapEntriesAllResolve(e, t, stringBacked, arr);
    RemapEntriesLastWins(e, t, stringBacked, arr);
  }

  /** A remapKeys that throws throws the error of the first key that does not resolve. */
  lemma {:induction false} RemapEntriesFirstFailure<V>(e: EnumDef, t: StorageState, stringBacked: bool, arr: seq<(Value, V)>)
    requires e.backingType.Some? && t.Valid() && t.enumClass == e.enumClass
    ensures var r := RemapEntries(e, t, stringBacked, arr);
      r.Failure? ==>
        exists i :: 0 <= i < |arr| && Resolve(e, t, stringBacked, arr[i].0) == Failure(r.error) &&
          forall j :: 0 <= j < i ==> Resolve(e, t, stringBacked, arr[j].0).Success?
    decreases |arr|
  {
    if arr != [] {
      var n := |arr| - 1;
      var init := arr[..n];
      RemapEntriesFirstFailure(e, t, stringBacked, init);
      var ri := RemapEntries(e, t, stringBacked, init);
      assert arr[..n + 1] == arr;
      if ri.Failure? {
        RemapEntriesPrefixFailure(e, t, stringBacked, arr, n);
        var i :| 0 <= i < n && Resolve(e, t, stringBacked, init[i].0) == Failure(ri.error) &&
          forall j :: 0 <= j < i ==> Resolve(e, t, stringBacked, init[j].0).Success?;
        assert forall j :: 0 <= j <= i ==> init[j] == arr[j];
      } else if Resolve(e, t, stringBacked, arr[n].0).Failure? {
        RemapEntriesStepFailure(e, t, stringBacked, arr, n, ri.value);
        RemapEntriesAllResolve(e, t, stringBacked, init);
        assert forall j :: 0 <= j < n ==> init[j] == arr[j];
      } else {
        RemapEntriesStep(e, t, stringBacked, arr, n, ri.value, Resolve(e, t, stringBacked, arr[n].0).value);
      }
    }
  }

  /** A remapKeys that returns has resolved every key. */
  lemma {:induction false} RemapEntriesAllResolve<V>(e: EnumDef, t: StorageState, stringBacked: bool, arr: seq<(Value, V)>)
    requires e.backingType.Some? && t.Valid() && t.enumClass == e.enumClass
    ensures RemapEntries(e, t, stringBacked, arr).Success? ==>
      forall i :: 0 <= i < |arr| ==> Resolve(e, t, stringBacked, arr[i].0).Success?
    decreases |arr|
  {
    if arr != [] {
      var n := |arr| - 1;
      var init := arr[..n];
      RemapEntriesAllResolve(e, t, stringBacked, init);
      assert forall j :: 0 <= j < n ==> init[j] == arr[j];
    }
  }

  /** A remapped array has distinct keys, and each holds the element of the
      last entry sent to it. */
  lemma {:induction false} RemapEntriesLastWins<V>(e: EnumDef, t: StorageState, stringBacked: bool, arr: seq<(Value, V)>)
    requires e.backingType.Some? && t.Valid() && t.enumClass == e.enumClass
    ensures var r := RemapEntries(e, t, stringBacked, arr);
      r.Success? ==> DistinctKeys(r.value) && forall k' :: Lookup(r.value, k') == LastValueFor(e, t, stringBacked, arr, k')
    decreases |arr|
  {
    if arr != [] {
      var init := arr[..|arr| - 1];
      var last := arr[|arr| - 1];
      RemapEntriesLastWins(e, t, stringBacked, init);
      var ri := RemapEntries(e, t, stringBacked, init);
      if ri.Success? {
        var target := Resolve(e, t, stringBacked, last.0);
        if target.Success? && target.value.Some? {
          forall k' ensures Lookup(Assign(ri.value, target.value.value, last.1), k') == LastValueFor(e, t, stringBacked, arr, k') {
            AssignLookup(ri.value, target.value.value, last.1, k');
          }
          AssignDistinct(ri.value, target.value.value, last.1);
        }
      }
    }
  }

  /** What remapKeys of a consistent scheme throws and returns. */
  lemma RemapKeysMeaning<V>(scheme: string, enums: map<string, EnumDef>, cls: string, arr: seq<(Value, V)>)
    requires Declared(enums) && cls in enums && enums[cls].backingType.Some?
    requires Consistent(scheme, enums[cls].cases)
    ensures var e := enums[cls];
      var t := Storage(scheme, enums, cls).value;
      var sb := IsEnumOfTypeString(enums, cls);
      var r := RemapKeys(scheme, enums, cls, arr);
      && (r.Failure? <==> exists i :: 0 <= i < |arr| && e.TryFrom(CastKey(sb, arr[i].0)).None?)
      && (r.Failure? ==>
            exists i :: 0 <= i < |arr| && r.error == KeyNotBackingValue(cls, CastKey(sb, arr[i].0)) &&
              forall j :: 0 <= j < i ==> e.TryFrom(CastKey(sb, arr[j].0)).Some?)
      && (r.Success? ==> DistinctKeys(r.value) && forall k' :: Lookup(r.value, k') == LastValueFor(e, t, sb, arr, k'))
  {
    BuildSucceedsIffConsistent(scheme, enums[cls]);
    RemapEntriesMeaning(enums[cls], Build(scheme, enums[cls]).value, IsEnumOfTypeString(enums, cls), arr);
  }

  /** An input key is sent to the value that the case backed by the (cast)
      key declares, and is dropped when that case declares none. */
  lemma ResolveDeclared(scheme: string, enums: map<string, EnumDef>, cls: string, k: Value)
    requires Declared(enums) && cls in enums && enums[cls].backingType.Some?
    requires Consistent(scheme, enums[cls].cases)
    ensures var e := enums[cls];
      var k' := CastKey(IsEnumOfTypeString(enums, cls), k);
      var r := Resolve(e, Storage(scheme, enums, cls).value, IsEnumOfTypeString(enums, cls), k);
      forall i :: 0 <= i < |e.cases| && e.cases[i].backing == Some(k') ==>
        && (r.Success? && r.value.None? <==> !HasOwnAttribute(scheme, e.cases[i].attributes))
        && (forall v :: r == Success(Some(v)) <==> CaseDeclares(scheme, e.cases[i], v))
  {
    var e := enums[cls];
    BuildSucceedsIffConsistent(scheme, e);
    var t := Build(scheme, e).value;
    var sb := IsEnumOfTypeString(enums, cls);
    var k' := CastKey(sb, k);
    forall i | 0 <= i < |e.cases| && e.cases[i].backing == Some(k')
      ensures Resolve(e, t, sb, k).Success? && Resolve(e, t, sb, k).value.None? <==> !HasOwnAttribute(scheme, e.cases[i].attributes)
      ensures forall v :: Resolve(e, t, sb, k) == Success(Some(v)) <==> CaseDeclares(scheme, e.cases[i], v)
    {
      var i' :| 0 <= i' < |e.cases| && e.cases[i'].backing == Some(k') && e.TryFrom(k').value == e.MemberAt(i');
      assert i' == i;
      BuildMapsOwnCases(scheme, e, i);
      forall v ensures Resolve(e, t, sb, k) == Success(Some(v)) <==> CaseDeclares(scheme, e.cases[i], v) {
        BuildMapsDeclared(scheme, e, i, v);
      }
    }
  }

  /** For a string-backed enum, an integer key and the string it casts to are
      remapped alike, so PHP's conversion of numeric string keys to integers
      does not change the result. */
  lemma {:induction false} RemapKeysIgnoresKeyCoercion<V>(e: EnumDef, t: StorageState, arr: seq<(Value, V)>, arr': seq<(Value, V)>)
    requires e.backingType.Some? && t.Valid() && t.enumClass == e.enumClass
    requires |arr'| == |arr|
    requires forall i :: 0 <= i < |arr| ==> arr'[i].1 == arr[i].1 && PhpString(arr'[i].0) == PhpString(arr[i].0)
    ensures RemapEntries(e, t, true, arr') == RemapEntries(e, t, true, arr)
    decreases |arr|
  {
    if arr != [] {
      var n := |arr| - 1;
      ResolveCastAlike(e, t, arr[n].0, arr'[n].0);
      assert forall i :: 0 <= i < n ==> arr[..n][i] == arr[i] && arr'[..n][i] == arr'[i];
      RemapKeysIgnoresKeyCoercion(e, t, arr[..n], arr'[..n]);
      assert arr[..n + 1] == arr && arr'[..n + 1] == arr';
      var ri := RemapEntries(e, t, true, arr[..n]);
      var target := Resolve(e, t, true, arr[n].0);
      if ri.Failure? {
        RemapEntriesPrefixFailure(e, t, true, arr, n);
        RemapEntriesPrefixFailure(e, t, true, arr', n);
      } else if target.Failure? {
        RemapEntriesStepFailure(e, t, true, arr, n, ri.value);
        RemapEntriesStepFailure(e, t, true, arr', n, ri.value);
      } else {
        RemapEntriesStep(e, t, true, arr, n, ri.value, target.value);
        RemapEntriesStep(e, t, true, arr', n, ri.value, target.value);
      }
    }
  }

  lemma ResolveCastAlike(e: EnumDef, t: StorageState, k: Value, k': Value)
    requires e.backingType.Some? && t.Valid() && t.enumClass == e.enumClass
    requires PhpString(k) == PhpString(k')
    ensures Resolve(e, t, true, k) == Resolve(e, t, true, k')
  {
    assert CastKey(true, k) == CastKey(true, k');
  }
}
