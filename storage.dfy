/** The per-enum-class two-way table between enum members and external values
    (EnumMappingMemoryStorage): first as a value with its specification, then
    as the class whose fields are updated in place. */
module MemoryStorage {
  import opened Enums

  /** The contents of one storage. `fromEnum` is keyed by `MemberKey`, `toEnum`
      by external value, and `order` lists the keys of `fromEnum` in the order
      they were first inserted (a PHP array remembers insertion order). */
  datatype StorageState = StorageState(
    enumClass: string,
    fromEnum: map<string, Value>,
    toEnum: map<Value, Member>,
    order: seq<string>)
  {
    /** The two maps are exact inverses (a partial bijection between the members
        of `enumClass` and external values), and `order` lists every key of
        `fromEnum` exactly once. */
    predicate Valid()
    {
      && (forall i, j :: 0 <= i < j < |order| ==> order[i] != order[j])
      && (forall i :: 0 <= i < |order| ==> order[i] in fromEnum)
      && (forall k :: k in fromEnum ==> k in order)
      && (forall v :: v in toEnum ==>
            toEnum[v].enumClass == enumClass && MemberKey(toEnum[v]) in fromEnum && fromEnum[MemberKey(toEnum[v])] == v)
      && (forall k :: k in fromEnum ==> fromEnum[k] in toEnum && MemberKey(toEnum[fromEnum[k]]) == k)
    }

    /** `enumMappingExists`: m has a forward entry, equivalently some value maps back to m. */
    function EnumMappingExists(m: Member): (b: bool)
      requires Valid() && m.enumClass == enumClass
      ensures b <==> exists v :: v in toEnum && toEnum[v] == m
    {
      var k := MemberKey(m);
      if k in fromEnum then
        MemberKeyIdentifies(toEnum[fromEnum[k]], m);
        true
      else
        false
    }

    /** `enumToMappingValue`: the value m is mapped to, which maps back to m. */
    function EnumToMappingValue(m: Member): (r: Result<Value>)
      requires Valid() && m.enumClass == enumClass
      ensures r.Success? <==> EnumMappingExists(m)
      ensures r.Success? ==> r.value in toEnum && toEnum[r.value] == m
      ensures r.Failure? ==> r.error == NoMappingForEnum(m)
    {
      var k := MemberKey(m);
      if k in fromEnum then
        MemberKeyIdentifies(toEnum[fromEnum[k]], m);
        Success(fromEnum[k])
      else
        Failure(NoMappingForEnum(m))
    }

    /** `mappingValueExists`: v has a reverse entry, equivalently some member maps to v. */
    function MappingValueExists(v: Value): (b: bool)
      requires Valid()
      ensures b <==> exists k :: k in fromEnum && fromEnum[k] == v
    {
      v in toEnum
    }

    /** `mappingValueToEnum`: the member v maps back to, whose forward entry is v. */
    function MappingValueToEnum(v: Value): (r: Result<Member>)
      requires Valid()
      ensures r.Success? <==> MappingValueExists(v)
      ensures r.Success? ==> r.value.enumClass == enumClass && EnumToMappingValue(r.value) == Success(v)
      ensures r.Failure? ==> r.error == NoMappingForValue(v)
    {
      if v in toEnum then Success(toEnum[v]) else Failure(NoMappingForValue(v))
    }

    /** `getAllMappingValues`: each mapped member's value once, in first-insertion order. */
    function GetAllMappingValues(): (vs: seq<Value>)
      requires Valid()
      ensures |vs| == |order| == |fromEnum|
      ensures forall i :: 0 <= i < |vs| ==> vs[i] == fromEnum[order[i]]
      ensures forall i, j :: 0 <= i < j < |vs| ==> vs[i] != vs[j]
      ensures forall v :: v in vs <==> v in toEnum
    {
      DistinctLength(order, fromEnum.Keys);
      ValuesDistinct(this);
      ValuesCover(this);
      ValuesInOrder(fromEnum, order)
    }

    /** `storeMapping` without its side effect: the state after storing (m, v),
        or the conflict it throws. */
    function Store(m: Member, v: Value): (r: Result<StorageState>)
      requires Valid() && m.enumClass == enumClass
      ensures r.Success? ==> r.value.Valid() && r.value.enumClass == enumClass
    {
      var k := MemberKey(m);
      if (k in fromEnum && fromEnum[k] != v) || (v in toEnum && toEnum[v] != m) then
        Failure(ConflictingMapping(m, v))
      else
        var next := StorageState(enumClass, fromEnum[k := v], toEnum[v := m], if k in fromEnum then order else order + [k]);
        StoreKeepsValid(this, m, v, next);
        Success(next)
    }
  }

  /** The position of a stored key in the insertion order. */
  lemma OrderIndex(t: StorageState, k: string) returns (j: nat)
    requires t.Valid() && k in t.fromEnum
    ensures j < |t.order| && t.order[j] == k
  {
    j :| 0 <= j < |t.order| && t.order[j] == k;
  }

  /** The values of distinct keys of a valid storage are distinct. */
  lemma ValuesDistinct(t: StorageState)
    requires t.Valid()
    ensures var vs := ValuesInOrder(t.fromEnum, t.order);
      forall i, j :: 0 <= i < j < |vs| ==> vs[i] != vs[j]
  {
    var vs := ValuesInOrder(t.fromEnum, t.order);
    forall i, j | 0 <= i < j < |vs| ensures vs[i] != vs[j] {
      assert MemberKey(t.toEnum[vs[i]]) == t.order[i];
    }
  }

  /** Every value of a valid storage's reverse map is listed, and only those. */
  lemma ValuesCover(t: StorageState)
    requires t.Valid()
    ensures var vs := ValuesInOrder(t.fromEnum, t.order);
      forall v :: v in vs <==> v in t.toEnum
  {
    var vs := ValuesInOrder(t.fromEnum, t.order);
    forall v | v in t.toEnum ensures v in vs {
      var k := MemberKey(t.toEnum[v]);
      var i :| 0 <= i < |t.order| && t.order[i] == k;
      assert vs[i] == v;
    }
  }

  /** The storage of a fresh `EnumMappingMemoryStorage`. */
  function Empty(enumClass: string): (t: StorageState)
    ensures t.Valid() && t.enumClass == enumClass
    ensures t.GetAllMappingValues() == []
    ensures forall m: Member :: m.enumClass == enumClass ==> !t.EnumMappingExists(m)
  {
    StorageState(enumClass, map[], map[], [])
  }

  /** A sequence without repetitions has one element per member of its set. */
  lemma {:induction false} DistinctLength<T>(s: seq<T>, keys: set<T>)
    requires forall i, j :: 0 <= i < j < |s| ==> s[i] != s[j]
    requires forall i :: 0 <= i < |s| ==> s[i] in keys
    requires forall k :: k in keys ==> k in s
    ensures |s| == |keys|
  {
    if s != [] {
      var rest := keys - {s[0]};
      forall k | k in rest ensures k in s[1..] {
        var i :| 0 <= i < |s| && s[i] == k;
        assert i != 0;
      }
      forall i | 0 <= i < |s[1..]| ensures s[1..][i] in rest {
        assert s[1..][i] == s[i + 1] != s[0];
      }
      DistinctLength(s[1..], rest);
    }
  }

  /** The body of `Store` keeps the bijection. */
  lemma StoreKeepsValid(t: StorageState, m: Member, v: Value, next: StorageState)
    requires t.Valid() && m.enumClass == t.enumClass
    requires !(MemberKey(m) in t.fromEnum && t.fromEnum[MemberKey(m)] != v)
    requires !(v in t.toEnum && t.toEnum[v] != m)
    requires next == StorageState(t.enumClass, t.fromEnum[MemberKey(m) := v], t.toEnum[v := m],
                                  if MemberKey(m) in t.fromEnum then t.order else t.order + [MemberKey(m)])
    ensures next.Valid()
  {
    var k := MemberKey(m);
    if k in t.fromEnum {
      MemberKeyIdentifies(t.toEnum[v], m);
      assert next.fromEnum == t.fromEnum;
      assert next.toEnum == t.toEnum;
    } else {
      assert v !in t.toEnum;
      forall v' | v' in next.toEnum
        ensures next.toEnum[v'].enumClass == next.enumClass
        ensures MemberKey(next.toEnum[v']) in next.fromEnum && next.fromEnum[MemberKey(next.toEnum[v'])] == v'
      {
        if v' != v {
          assert MemberKey(t.toEnum[v']) != k;
        }
      }
    }
  }

  /** In a valid storage the two lookups are inverse: m maps to v exactly when v maps back to m. */
  lemma LookupsAreInverse(t: StorageState, m: Member, v: Value)
    requires t.Valid() && m.enumClass == t.enumClass
    ensures t.EnumToMappingValue(m) == Success(v) <==> t.MappingValueToEnum(v) == Success(m)
  {
    if t.EnumToMappingValue(m) == Success(v) {
      assert t.fromEnum[MemberKey(m)] == v;
    }
  }

  /** `storeMapping` throws exactly when m already maps to a different value or
      v already maps back to a different member, and the exception names the pair. */
  lemma StoreConflict(t: StorageState, m: Member, v: Value)
    requires t.Valid() && m.enumClass == t.enumClass
    ensures t.Store(m, v).Failure? <==>
      || (t.EnumToMappingValue(m).Success? && t.EnumToMappingValue(m).value != v)
      || (t.MappingValueToEnum(v).Success? && t.MappingValueToEnum(v).value != m)
    ensures t.Store(m, v).Failure? ==> t.Store(m, v).error == ConflictingMapping(m, v)
  {
  }

  /** After a successful store, m maps to v and v maps back to m. */
  lemma StoreRecordsPair(t: StorageState, m: Member, v: Value)
    requires t.Valid() && m.enumClass == t.enumClass
    requires t.Store(m, v).Success?
    ensures t.Store(m, v).value.EnumToMappingValue(m) == Success(v)
    ensures t.Store(m, v).value.MappingValueToEnum(v) == Success(m)
  {
  }

  /** Storing a pair that is already present changes nothing and does not throw. */
  lemma StoreIdentical(t: StorageState, m: Member, v: Value)
    requires t.Valid() && m.enumClass == t.enumClass
    requires t.EnumToMappingValue(m) == Success(v)
    ensures t.Store(m, v) == Success(t)
  {
    var k := MemberKey(m);
    assert t.fromEnum[k := v] == t.fromEnum;
    assert t.toEnum[v := m] == t.toEnum;
  }

  /** Storing the same pair twice is the same as storing it once. */
  lemma StoreIdempotent(t: StorageState, m: Member, v: Value)
    requires t.Valid() && m.enumClass == t.enumClass
    requires t.Store(m, v).Success?
    ensures t.Store(m, v).value.Store(m, v) == t.Store(m, v)
  {
    StoreIdentical(t.Store(m, v).value, m, v);
  }

  /** A successful store leaves the forward entry of every other member as it was. */
  lemma StoreKeepsOtherMembers(t: StorageState, m: Member, v: Value, m': Member)
    requires t.Valid() && m.enumClass == t.enumClass
    requires t.Store(m, v).Success?
    requires m'.enumClass == t.enumClass && m' != m
    ensures t.Store(m, v).value.EnumToMappingValue(m') == t.EnumToMappingValue(m')
  {
    MemberKeyIdentifies(m, m');
  }

  /** A successful store leaves the reverse entry of every other value as it was. */
  lemma StoreKeepsOtherValues(t: StorageState, m: Member, v: Value, v': Value)
    requires t.Valid() && m.enumClass == t.enumClass
    requires t.Store(m, v).Success?
    requires v' != v
    ensures t.Store(m, v).value.MappingValueToEnum(v') == t.MappingValueToEnum(v')
  {
  }

  /** A successful store appends v to the values exactly when m had no mapping
      before; an existing member keeps its place. */
  lemma StoreAppendsNewValue(t: StorageState, m: Member, v: Value)
    requires t.Valid() && m.enumClass == t.enumClass
    requires t.Store(m, v).Success?
    ensures t.Store(m, v).value.GetAllMappingValues() ==
      t.GetAllMappingValues() + (if t.EnumMappingExists(m) then [] else [v])
  {
    var k := MemberKey(m);
    if k in t.fromEnum {
      StoreIdentical(t, m, v);
    } else {
      ValuesInOrderAppend(t.fromEnum, t.order, k, v);
    }
  }

  /** The values of f at the keys o, in the order of o. */
  function ValuesInOrder(f: map<string, Value>, o: seq<string>): (vs: seq<Value>)
    requires forall i :: 0 <= i < |o| ==> o[i] in f
    ensures |vs| == |o| && forall i :: 0 <= i < |o| ==> vs[i] == f[o[i]]
  {
    seq(|o|, i requires 0 <= i < |o| => f[o[i]])
  }

  /** Adding a fresh key at the end of the order adds its value at the end of the values. */
  lemma ValuesInOrderAppend(f: map<string, Value>, o: seq<string>, k: string, v: Value)
    requires forall i :: 0 <= i < |o| ==> o[i] in f
    requires k !in f
    ensures ValuesInOrder(f[k := v], o + [k]) == ValuesInOrder(f, o) + [v]
  {
    var a := ValuesInOrder(f[k := v], o + [k]);
    var b := ValuesInOrder(f, o) + [v];
    forall i | 0 <= i < |a| ensures a[i] == b[i] {
      if i < |o| {
        assert (o + [k])[i] == o[i] != k;
      }
    }
  }

  /** The storage object of one enum class. */
  class EnumMappingMemoryStorage {
    const enumClassName: string
    var fromEnum: map<string, Value>
    var toEnum: map<Value, Member>
    /** The keys of `fromEnum` in insertion order. */
    var fromEnumOrder: seq<string>

    function State(): StorageState
      reads this
    {
      StorageState(enumClassName, fromEnum, toEnum, fromEnumOrder)
    }

    predicate Valid()
      reads this
    {
      State().Valid()
    }

    constructor(enumClassName: string)
      ensures Valid() && State() == Empty(enumClassName)
    {
      this.enumClassName := enumClassName;
      fromEnum := map[];
      toEnum := map[];
      fromEnumOrder := [];
    }

    /** `enumMappingExists`, read from the fields. */
    function EnumMappingExists(m: Member): (b: bool)
      requires Valid() && m.enumClass == enumClassName
      reads this
      ensures b == State().EnumMappingExists(m)
    {
      MemberKey(m) in fromEnum
    }

    /** `enumToMappingValue`, read from the fields. */
    function EnumToMappingValue(m: Member): (r: Result<Value>)
      requires Valid() && m.enumClass == enumClassName
      reads this
      ensures r == State().EnumToMappingValue(m)
    {
      var key := MemberKey(m);
      if key in fromEnum then Success(fromEnum[key]) else Failure(NoMappingForEnum(m))
    }

    /** `mappingValueExists`, read from the fields. */
    function MappingValueExists(v: Value): (b: bool)
      requires Valid()
      reads this
      ensures b == State().MappingValueExists(v)
    {
      v in toEnum
    }

    /** `mappingValueToEnum`, read from the fields. */
    function MappingValueToEnum(v: Value): (r: Result<Member>)
      requires Valid()
      reads this
      ensures r == State().MappingValueToEnum(v)
    {
      if v in toEnum then Success(toEnum[v]) else Failure(NoMappingForValue(v))
    }

    /** `getAllMappingValues`: `array_values` of `fromEnum`, read from the fields. */
    function GetAllMappingValues(): (vs: seq<Value>)
      requires Valid()
      reads this
      ensures vs == State().GetAllMappingValues()
    {
      ValuesInOrder(fromEnum, fromEnumOrder)
    }

    /** `storeMapping`: records (m, v) in both maps, or throws on a conflict and changes nothing. */
    method StoreMapping(m: Member, v: Value) returns (r: Outcome)
      requires Valid() && m.enumClass == enumClassName
      modifies this
      ensures Valid()
      ensures r.Pass? ==> old(State()).Store(m, v) == Success(State())
      ensures r.Fail? ==> old(State()).Store(m, v) == Failure(r.error) && State() == old(State())
    {
      ghost var before := State();
      var key := MemberKey(m);
      if (key in fromEnum && fromEnum[key] != v) || (v in toEnum && toEnum[v] != m) {
        return Fail(ConflictingMapping(m, v));
      }
      ghost var after := before.Store(m, v).value;
      if key !in fromEnum {
        fromEnumOrder := fromEnumOrder + [key];
      }
      fromEnum := fromEnum[key := v];
      toEnum := toEnum[v := m];
      assert State() == after;
      r := Pass;
    }
  }
}
