/** Values shared by every part of the enum mapping: PHP primitive values, enum
    members, the attributes declared on enum cases, enum declarations (the
    data that reflection would yield) and the exceptions the library throws. */
module Enums {

  datatype Option<+T> = None | Some(value: T)

  /** A computation that either yields a value or throws one of the library's exceptions. */
  datatype Result<+T> = Success(value: T) | Failure(error: Error) {
    predicate IsFailure() { Failure? }

    function PropagateFailure<U>(): Result<U>
      requires Failure?
    {
      Failure(error)
    }

    function Extract(): T
      requires Success?
    {
      value
    }
  }

  /** The result of a `void` PHP method: returns normally or throws. */
  datatype Outcome = Pass | Fail(error: Error)

  /** A PHP `int|string`: backing values, external mapping values and array keys. */
  datatype Value = Str(s: string) | Int(i: int)

  /** An enum case, identified by its enum class and its case name. */
  datatype Member = Member(enumClass: string, name: string)

  /** The key under which the storage files a member: `Class::name`. */
  function MemberKey(m: Member): string
  {
    m.enumClass + "::" + m.name
  }

  /** Within one enum class the storage key identifies the case name, so two
      members share a key exactly when they are the same member. */
  lemma MemberKeyIdentifies(a: Member, b: Member)
    requires a.enumClass == b.enumClass
    ensures MemberKey(a) == MemberKey(b) <==> a.name == b.name
    ensures MemberKey(a) == MemberKey(b) <==> a == b
  {
    var n := |a.enumClass| + 2;
    assert MemberKey(a)[n..] == a.name;
    assert MemberKey(b)[n..] == b.name;
  }

  /** The attributes a case may carry. Only the two mapping attributes take part
      in the mapping; `scheme` is the class of the mapping scheme they address. */
  datatype Attribute =
    | MappingValue(scheme: string, value: string)  // an explicit external value
    | MappingSame(scheme: string)                  // "use the case's backing value"
    | OtherAttribute(attributeClass: string)       // any attribute unrelated to mappings

  datatype BackingType = StringBacked | IntBacked

  /** One case of an enum in declaration order, with its backing value (when the
      enum is backed) and its attributes in declaration order. */
  datatype Case = Case(name: string, backing: Option<Value>, attributes: seq<Attribute>)

  /** Whether a backing value has the shape the enum's backing type demands. */
  predicate BackingFits(bt: Option<BackingType>, b: Option<Value>)
  {
    match bt
    case None => b.None?
    case Some(StringBacked) => b.Some? && b.value.Str?
    case Some(IntBacked) => b.Some? && b.value.Int?
  }

  /** An enum declaration, as reflection would present it. */
  datatype EnumDef = EnumDef(enumClass: string, backingType: Option<BackingType>, cases: seq<Case>) {

    /** What PHP guarantees of every enum: distinct case names, backing values of
        the declared backing type, and distinct backing values. */
    predicate WellFormed()
    {
      && (forall i, j :: 0 <= i < j < |cases| ==> cases[i].name != cases[j].name)
      && (forall i :: 0 <= i < |cases| ==> BackingFits(backingType, cases[i].backing))
      && (forall i, j :: 0 <= i < j < |cases| && cases[i].backing.Some? ==> cases[i].backing != cases[j].backing)
    }

    /** The member of the i-th case. */
    function MemberAt(i: nat): (m: Member)
      requires i < |cases|
      ensures m.enumClass == enumClass && m.name == cases[i].name
    {
      Member(enumClass, cases[i].name)
    }

    /** Whether m is one of this enum's cases. */
    predicate HasMember(m: Member)
    {
      m.enumClass == enumClass && exists i :: 0 <= i < |cases| && cases[i].name == m.name
    }

    /** `BackedEnum::tryFrom`: the case whose backing value is k, if any. */
    function TryFrom(k: Value): (r: Option<Member>)
      requires backingType.Some?
      ensures r.Some? ==> exists i :: 0 <= i < |cases| && cases[i].backing == Some(k) && r.value == MemberAt(i)
      ensures r.None? ==> forall i :: 0 <= i < |cases| ==> cases[i].backing != Some(k)
    {
      match IndexOfBacking(cases, k)
      case None => None
      case Some(i) => Some(MemberAt(i))
    }
  }

  /** The first position of a case backed by k. */
  function IndexOfBacking(cases: seq<Case>, k: Value): (r: Option<nat>)
    ensures r.Some? ==> r.value < |cases| && cases[r.value].backing == Some(k)
    ensures r.Some? ==> forall j :: 0 <= j < r.value ==> cases[j].backing != Some(k)
    ensures r.None? ==> forall j :: 0 <= j < |cases| ==> cases[j].backing != Some(k)
  {
    if cases == [] then None
    else if cases[0].backing == Some(k) then Some(0)
    else match IndexOfBacking(cases[1..], k)
      case None => None
      case Some(j) => Some(j + 1)
  }

  /** The number a string of decimal digits denotes. */
  function DigitsValue(s: string): nat
  {
    if s == [] then 0
    else
      var d := s[|s| - 1] as int - '0' as int;
      DigitsValue(s[..|s| - 1]) * 10 + (if 0 <= d < 10 then d else 0)
  }

  /** The number a decimal integer literal denotes: an optional minus sign
      followed by digits. */
  function DecimalValue(s: string): int
  {
    if s != [] && s[0] == '-' then -(DigitsValue(s[1..]) as int) else DigitsValue(s)
  }

  /** The decimal digits of a natural number: digits only, and they denote n. */
  function Digits(n: nat): (s: string)
    ensures |s| > 0
    ensures forall i :: 0 <= i < |s| ==> '0' <= s[i] <= '9'
    ensures DigitsValue(s) == n
  {
    var d := ['0' + (n % 10) as char];
    if n < 10 then d
    else
      var s := Digits(n / 10) + d;
      assert s[..|s| - 1] == Digits(n / 10);
      s
  }

  /** PHP's `(string)` cast of an array key: a string stays as it is, an int
      becomes its decimal literal. */
  function PhpString(k: Value): (s: string)
    ensures k.Str? ==> s == k.s
    ensures k.Int? ==> |s| > 0 && (s[0] == '-' <==> k.i < 0) && DecimalValue(s) == k.i
  {
    match k
    case Str(s) => s
    case Int(i) => if i < 0 then "-" + Digits(-i) else Digits(i)
  }

  /** Distinct ints cast to distinct strings. */
  lemma PhpStringIntInjective(a: int, b: int)
    ensures PhpString(Int(a)) == PhpString(Int(b)) <==> a == b
  {
    if PhpString(Int(a)) == PhpString(Int(b)) {
      assert DecimalValue(PhpString(Int(a))) == DecimalValue(PhpString(Int(b)));
    }
  }

  /** The exceptions of the library, one variant per throw site. */
  datatype Error =
    | NoMappingForEnum(member: Member)                      // InvalidArgumentException, enumToMappingValue
    | NoMappingForValue(value: Value)                       // InvalidArgumentException, mappingValueToEnum
    | ConflictingMapping(member: Member, value: Value)      // InvalidArgumentException, storeMapping
    | SameOnUnbackedEnum(enumClass: string)                 // LogicException, createMappingStorage
    | NotAString(member: Member)                            // LogicException, enumToString
    | UnexpectedMappingValue(enumClass: string, text: string) // UnexpectedEnumMappingValueException, stringToEnum
    | KeyNotBackingValue(enumClass: string, key: Value)     // InvalidArgumentException, remapKeys
}
