/** How a mapping scheme builds the storage of one enum class from the
    attributes declared on its cases (AbstractEnumMapping::createMappingStorage),
    as a pure fold, and what the built storage holds. */
module Resolution {
  import opened Enums
  import opened MemoryStorage

  /** Whether a is a mapping attribute addressed to the given scheme class;
      every other attribute is skipped by the build. */
  predicate AddressedTo(a: Attribute, scheme: string)
  {
    !a.OtherAttribute? && a.scheme == scheme
  }

  /** The external value a mapping attribute declares for case c: the explicit
      string, or the case's backing value, which an unbacked case lacks. */
  function DeclaredValue(a: Attribute, c: Case): (v: Option<Value>)
    requires !a.OtherAttribute?
    ensures v.None? <==> a.MappingSame? && c.backing.None?
    ensures a.MappingValue? ==> v == Some(Str(a.value))
    ensures a.MappingSame? ==> v == c.backing
  {
    match a
    case MappingValue(_, s) => Some(Str(s))
    case MappingSame(_) => c.backing
  }

  /** Whether some attribute in attrs is addressed to the scheme. */
  predicate HasOwnAttribute(scheme: string, attrs: seq<Attribute>)
  {
    exists j :: 0 <= j < |attrs| && AddressedTo(attrs[j], scheme)
  }

  /** The storage key of case c of enum class cls. */
  function CaseKey(cls: string, c: Case): string
  {
    MemberKey(Member(cls, c.name))
  }

  /** Stores, in order, the value of every attribute addressed to the scheme
      on case c (the inner `foreach` of createMappingStorage). */
  function BuildAttributes(scheme: string, c: Case, attrs: seq<Attribute>, t: StorageState): (r: Result<StorageState>)
    requires t.Valid()
    ensures r.Success? ==> r.value.Valid() && r.value.enumClass == t.enumClass
    decreases |attrs|
  {
    if attrs == [] then Success(t)
    else if !AddressedTo(attrs[0], scheme) then BuildAttributes(scheme, c, attrs[1..], t)
    else match DeclaredValue(attrs[0], c)
      case None => Failure(SameOnUnbackedEnum(t.enumClass))
      case Some(v) =>
        match t.Store(Member(t.enumClass, c.name), v)
        case Failure(err) => Failure(err)
        case Success(t') => BuildAttributes(scheme, c, attrs[1..], t')
  }

  /** Walks the cases in declaration order (the outer `foreach`). */
  function BuildCases(scheme: string, cases: seq<Case>, t: StorageState): (r: Result<StorageState>)
    requires t.Valid()
    ensures r.Success? ==> r.value.Valid() && r.value.enumClass == t.enumClass
    decreases |cases|
  {
    if cases == [] then Success(t)
    else match BuildAttributes(scheme, cases[0], cases[0].attributes, t)
      case Failure(err) => Failure(err)
      case Success(t') => BuildCases(scheme, cases[1..], t')
  }

  /** createMappingStorage: the storage the scheme builds for enum e, or the
      exception the build throws. */
  function Build(scheme: string, e: EnumDef): (r: Result<StorageState>)
    ensures r.Success? ==> r.value.Valid() && r.value.enumClass == e.enumClass
  {
    BuildCases(scheme, e.cases, Empty(e.enumClass))
  }

  /** The cases that carry an attribute addressed to the scheme, in declaration order. */
  function MappedCases(scheme: string, cases: seq<Case>): (mc: seq<Case>)
    ensures |mc| <= |cases|
  {
    if cases == [] then []
    else (if HasOwnAttribute(scheme, cases[0].attributes) then [cases[0]] else []) + MappedCases(scheme, cases[1..])
  }

  /** The mapped cases are exactly the cases that carry an attribute addressed to the scheme. */
  lemma {:induction false} MappedCasesAreMapped(scheme: string, cases: seq<Case>)
    ensures var mc := MappedCases(scheme, cases);
      && (forall j :: 0 <= j < |mc| ==> mc[j] in cases && HasOwnAttribute(scheme, mc[j].attributes))
      && (forall c :: c in cases && HasOwnAttribute(scheme, c.attributes) ==> c in mc)
  {
    if cases != [] {
      MappedCasesAreMapped(scheme, cases[1..]);
      var own0: seq<Case> := if HasOwnAttribute(scheme, cases[0].attributes) then [cases[0]] else [];
      assert MappedCases(scheme, cases) == own0 + MappedCases(scheme, cases[1..]);
      forall c | c in cases && HasOwnAttribute(scheme, c.attributes) ensures c in MappedCases(scheme, cases) {
        if c != cases[0] {
          var i :| 0 <= i < |cases| && cases[i] == c;
          assert cases[1..][i - 1] == c;
        }
      }
    }
  }

  /** The position in cases of the j-th mapped case. */
  lemma MappedCaseAt(scheme: string, cases: seq<Case>, j: nat) returns (i: nat)
    requires j < |MappedCases(scheme, cases)|
    ensures i < |cases| && cases[i] == MappedCases(scheme, cases)[j]
    ensures HasOwnAttribute(scheme, cases[i].attributes)
  {
    MappedCasesAreMapped(scheme, cases);
    i :| 0 <= i < |cases| && cases[i] == MappedCases(scheme, cases)[j];
  }

  /** The attributes addressed to the scheme, in order. */
  function OwnAttributes(scheme: string, attrs: seq<Attribute>): (own: seq<Attribute>)
    ensures forall a :: a in own <==> a in attrs && AddressedTo(a, scheme)
  {
    if attrs == [] then []
    else (if AddressedTo(attrs[0], scheme) then [attrs[0]] else []) + OwnAttributes(scheme, attrs[1..])
  }

  /** The cases with every attribute not addressed to the scheme removed. */
  function OwnCases(scheme: string, cases: seq<Case>): (own: seq<Case>)
    ensures |own| == |cases|
    ensures forall i :: 0 <= i < |cases| ==>
      own[i] == Case(cases[i].name, cases[i].backing, OwnAttributes(scheme, cases[i].attributes))
  {
    if cases == [] then []
    else [Case(cases[0].name, cases[0].backing, OwnAttributes(scheme, cases[0].attributes))] + OwnCases(scheme, cases[1..])
  }

  lemma {:induction false} BuildAttributesIgnoresForeign(scheme: string, c: Case, c': Case, attrs: seq<Attribute>, t: StorageState)
    requires t.Valid()
    requires c'.name == c.name && c'.backing == c.backing
    ensures BuildAttributes(scheme, c, attrs, t) == BuildAttributes(scheme, c', OwnAttributes(scheme, attrs), t)
    decreases |attrs|
  {
    if attrs != [] {
      var own := OwnAttributes(scheme, attrs);
      if !AddressedTo(attrs[0], scheme) {
        assert own == OwnAttributes(scheme, attrs[1..]);
        BuildAttributesIgnoresForeign(scheme, c, c', attrs[1..], t);
      } else {
        assert own == [attrs[0]] + OwnAttributes(scheme, attrs[1..]);
        assert own[1..] == OwnAttributes(scheme, attrs[1..]);
        var d := DeclaredValue(attrs[0], c);
        assert DeclaredValue(own[0], c') == d;
        if d.Some? {
          var m := Member(t.enumClass, c.name);
          var r := t.Store(m, d.value);
          if r.Success? {
            BuildAttributesIgnoresForeign(scheme, c, c', attrs[1..], r.value);
            assert BuildAttributes(scheme, c, attrs, t) == BuildAttributes(scheme, c, attrs[1..], r.value);
            assert BuildAttributes(scheme, c', own, t) == BuildAttributes(scheme, c', own[1..], r.value);
          }
        }
      }
    }
  }

  lemma {:induction false} BuildCasesIgnoresForeign(scheme: string, cases: seq<Case>, t: StorageState)
    requires t.Valid()
    ensures BuildCases(scheme, cases, t) == BuildCases(scheme, OwnCases(scheme, cases), t)
    decreases |cases|
  {
    if cases != [] {
      var own := OwnCases(scheme, cases);
      assert own[1..] == OwnCases(scheme, cases[1..]);
      BuildAttributesIgnoresForeign(scheme, cases[0], own[0], cases[0].attributes, t);
      match BuildAttributes(scheme, cases[0], cases[0].attributes, t)
      case Failure(_) =>
      case Success(t') => BuildCasesIgnoresForeign(scheme, cases[1..], t');
    }
  }

  /** Only the attributes addressed to this scheme take part in the build:
      attributes for other schemes and non-mapping attributes change nothing. */
  lemma BuildIgnoresForeignAttributes(scheme: string, e: EnumDef)
    ensures Build(scheme, e) == Build(scheme, EnumDef(e.enumClass, e.backingType, OwnCases(scheme, e.cases)))
  {
    BuildCasesIgnoresForeign(scheme, e.cases, Empty(e.enumClass));
  }

  /** Processing one case's attributes touches only that case's key, keeps
      an entry already there, and files the key at the end of the order the
      first time an addressed attribute is stored. */
  lemma {:induction false} BuildAttributesFrame(scheme: string, c: Case, attrs: seq<Attribute>, t: StorageState)
    requires t.Valid()
    requires BuildAttributes(scheme, c, attrs, t).Success?
    ensures var t' := BuildAttributes(scheme, c, attrs, t).value;
      var k := CaseKey(t.enumClass, c);
      && (k in t'.fromEnum <==> k in t.fromEnum || HasOwnAttribute(scheme, attrs))
      && t'.fromEnum == (if k in t.fromEnum || !HasOwnAttribute(scheme, attrs) then t.fromEnum else t.fromEnum[k := t'.fromEnum[k]])
      && t'.order == (if k in t.fromEnum || !HasOwnAttribute(scheme, attrs) then t.order else t.order + [k])
    decreases |attrs|
  {
    if attrs != [] {
      var k := CaseKey(t.enumClass, c);
      HasOwnAttributeCons(scheme, attrs);
      if !AddressedTo(attrs[0], scheme) {
        BuildAttributesFrame(scheme, c, attrs[1..], t);
      } else {
        var t1 := BuildAttributesStep(scheme, c, attrs, t);
        BuildAttributesFrame(scheme, c, attrs[1..], t1);
      }
    }
  }

  /** After one case's attributes are processed, its key holds the value that
      every attribute addressed to the scheme declares. */
  lemma BuildAttributesValues(scheme: string, c: Case, attrs: seq<Attribute>, t: StorageState)
    requires t.Valid()
    requires BuildAttributes(scheme, c, attrs, t).Success?
    ensures var t' := BuildAttributes(scheme, c, attrs, t).value;
      var k := CaseKey(t.enumClass, c);
      forall j :: 0 <= j < |attrs| && AddressedTo(attrs[j], scheme) ==> k in t'.fromEnum && DeclaredValue(attrs[j], c) == Some(t'.fromEnum[k])
  {
    forall j | 0 <= j < |attrs| && AddressedTo(attrs[j], scheme)
      ensures var t' := BuildAttributes(scheme, c, attrs, t).value;
        CaseKey(t.enumClass, c) in t'.fromEnum && DeclaredValue(attrs[j], c) == Some(t'.fromEnum[CaseKey(t.enumClass, c)])
    {
      BuildAttributesValueAt(scheme, c, attrs, t, j);
    }
  }

  /** The single-attribute form of BuildAttributesValues, by induction on the
      position j of the addressed attribute. */
  lemma {:induction false} BuildAttributesValueAt(scheme: string, c: Case, attrs: seq<Attribute>, t: StorageState, j: nat)
    requires t.Valid()
    requires BuildAttributes(scheme, c, attrs, t).Success?
    requires j < |attrs| && AddressedTo(attrs[j], scheme)
    ensures var t' := BuildAttributes(scheme, c, attrs, t).value;
      var k := CaseKey(t.enumClass, c);
      k in t'.fromEnum && DeclaredValue(attrs[j], c) == Some(t'.fromEnum[k])
    decreases j
  {
    if j > 0 {
      assert attrs[1..][j - 1] == attrs[j];
    }
    if !AddressedTo(attrs[0], scheme) {
      BuildAttributesValueAt(scheme, c, attrs[1..], t, j - 1);
    } else {
      var t1 := BuildAttributesStep(scheme, c, attrs, t);
      if j == 0 {
        BuildAttributesFrame(scheme, c, attrs[1..], t1);
      } else {
        BuildAttributesValueAt(scheme, c, attrs[1..], t1, j - 1);
      }
    }
  }

  /** One addressed attribute: the storage after storing its value, under which
      the rest of the attributes are processed. */
  lemma BuildAttributesStep(scheme: string, c: Case, attrs: seq<Attribute>, t: StorageState) returns (t1: StorageState)
    requires t.Valid()
    requires BuildAttributes(scheme, c, attrs, t).Success?
    requires attrs != [] && AddressedTo(attrs[0], scheme)
    ensures t1.Valid() && t1.enumClass == t.enumClass
    ensures DeclaredValue(attrs[0], c).Some?
    ensures var k := CaseKey(t.enumClass, c);
      k in t1.fromEnum && DeclaredValue(attrs[0], c) == Some(t1.fromEnum[k])
    ensures var k := CaseKey(t.enumClass, c);
      && (k in t.fromEnum ==> t1.fromEnum == t.fromEnum && t1.order == t.order)
      && (k !in t.fromEnum ==> t1.fromEnum == t.fromEnum[k := t1.fromEnum[k]] && t1.order == t.order + [k])
    ensures BuildAttributes(scheme, c, attrs, t) == BuildAttributes(scheme, c, attrs[1..], t1)
  {
    var v := DeclaredValue(attrs[0], c).value;
    t1 := t.Store(Member(t.enumClass, c.name), v).value;
    var k := CaseKey(t.enumClass, c);
    if k in t.fromEnum {
      assert t1.fromEnum == t.fromEnum;
    } else {
      assert t1.fromEnum == t.fromEnum[k := v];
    }
  }

  lemma HasOwnAttributeCons(scheme: string, attrs: seq<Attribute>)
    requires attrs != []
    ensures HasOwnAttribute(scheme, attrs) <==> AddressedTo(attrs[0], scheme) || HasOwnAttribute(scheme, attrs[1..])
  {
    if HasOwnAttribute(scheme, attrs) && !AddressedTo(attrs[0], scheme) {
      var j :| 0 <= j < |attrs| && AddressedTo(attrs[j], scheme);
      assert attrs[1..][j - 1] == attrs[j];
    }
    if HasOwnAttribute(scheme, attrs[1..]) {
      var j :| 0 <= j < |attrs[1..]| && AddressedTo(attrs[1..][j], scheme);
      assert attrs[j + 1] == attrs[1..][j];
    }
  }

  /** The storage keys of the cases cs of enum class cls. */
  function CaseKeys(cls: string, cs: seq<Case>): (ks: seq<string>)
    ensures |ks| == |cs| && forall j :: 0 <= j < |cs| ==> ks[j] == CaseKey(cls, cs[j])
  {
    seq(|cs|, j requires 0 <= j < |cs| => CaseKey(cls, cs[j]))
  }

  /** Case names that are pairwise distinct, as PHP demands of one enum. */
  predicate DistinctNames(cases: seq<Case>)
  {
    forall i, j :: 0 <= i < j < |cases| ==> cases[i].name != cases[j].name
  }

  /** Walking the cases keeps every entry already stored. */
  lemma {:induction false} BuildCasesKeeps(scheme: string, cases: seq<Case>, t: StorageState)
    requires t.Valid()
    requires BuildCases(scheme, cases, t).Success?
    ensures var t' := BuildCases(scheme, cases, t).value;
      forall k :: k in t.fromEnum ==> k in t'.fromEnum && t'.fromEnum[k] == t.fromEnum[k]
    decreases |cases|
  {
    if cases != [] {
      var t1 := BuildAttributes(scheme, cases[0], cases[0].attributes, t).value;
      assert forall k :: k in t.fromEnum ==> k in t1.fromEnum && t1.fromEnum[k] == t.fromEnum[k] by {
        BuildAttributesFrame(scheme, cases[0], cases[0].attributes, t);
      }
      assert BuildCases(scheme, cases, t) == BuildCases(scheme, cases[1..], t1);
      BuildCasesKeeps(scheme, cases[1..], t1);
    }
  }

  /** The keys of distinct cases not yet stored stay unstored after one case is processed. */
  lemma LaterCasesUnstored(scheme: string, cases: seq<Case>, t: StorageState)
    requires t.Valid() && DistinctNames(cases) && cases != []
    requires forall i :: 0 <= i < |cases| ==> CaseKey(t.enumClass, cases[i]) !in t.fromEnum
    requires BuildAttributes(scheme, cases[0], cases[0].attributes, t).Success?
    ensures var t1 := BuildAttributes(scheme, cases[0], cases[0].attributes, t).value;
      && t1.enumClass == t.enumClass
      && DistinctNames(cases[1..])
      && (forall i :: 0 <= i < |cases[1..]| ==> CaseKey(t.enumClass, cases[1..][i]) !in t1.fromEnum)
  {
    var cls := t.enumClass;
    var t1 := BuildAttributes(scheme, cases[0], cases[0].attributes, t).value;
    BuildAttributesFrame(scheme, cases[0], cases[0].attributes, t);
    forall i | 0 <= i < |cases[1..]| ensures CaseKey(cls, cases[1..][i]) !in t1.fromEnum {
      MemberKeyIdentifies(Member(cls, cases[0].name), Member(cls, cases[i + 1].name));
    }
    forall i, j | 0 <= i < j < |cases[1..]| ensures cases[1..][i].name != cases[1..][j].name {
      assert cases[1..][i] == cases[i + 1] && cases[1..][j] == cases[j + 1];
    }
  }

  /** Walking distinct, not yet stored cases appends the keys of the mapped
      cases to the order, in declaration order. */
  lemma {:induction false} BuildCasesOrder(scheme: string, cases: seq<Case>, t: StorageState)
    requires t.Valid() && DistinctNames(cases)
    requires forall i :: 0 <= i < |cases| ==> CaseKey(t.enumClass, cases[i]) !in t.fromEnum
    requires BuildCases(scheme, cases, t).Success?
    ensures BuildCases(scheme, cases, t).value.order == t.order + CaseKeys(t.enumClass, MappedCases(scheme, cases))
    decreases |cases|
  {
    if cases != [] {
      var cls := t.enumClass;
      var t1 := BuildAttributes(scheme, cases[0], cases[0].attributes, t).value;
      var ks0 := FirstCaseOrder(scheme, cases, t);
      LaterCasesUnstored(scheme, cases, t);
      assert BuildCases(scheme, cases, t) == BuildCases(scheme, cases[1..], t1);
      BuildCasesOrder(scheme, cases[1..], t1);
      MappedKeysCons(scheme, cls, cases);
      AppendAssoc(t.order, ks0, CaseKeys(cls, MappedCases(scheme, cases[1..])));
    } else {
      assert CaseKeys(t.enumClass, MappedCases(scheme, cases)) == [];
    }
  }

  /** Processing the first, not yet stored case appends its key to the order
      exactly when it carries an attribute addressed to the scheme. */
  lemma FirstCaseOrder(scheme: string, cases: seq<Case>, t: StorageState) returns (ks0: seq<string>)
    requires t.Valid() && cases != [] && CaseKey(t.enumClass, cases[0]) !in t.fromEnum
    requires BuildAttributes(scheme, cases[0], cases[0].attributes, t).Success?
    ensures ks0 == if HasOwnAttribute(scheme, cases[0].attributes) then [CaseKey(t.enumClass, cases[0])] else []
    ensures BuildAttributes(scheme, cases[0], cases[0].attributes, t).value.order == t.order + ks0
  {
    BuildAttributesFrame(scheme, cases[0], cases[0].attributes, t);
    ks0 := if HasOwnAttribute(scheme, cases[0].attributes) then [CaseKey(t.enumClass, cases[0])] else [];
  }

  /** Concatenation of the key lists regroups freely. */
  lemma AppendAssoc<T>(a: seq<T>, b: seq<T>, c: seq<T>)
    ensures (a + b) + c == a + (b + c)
  {
  }

  lemma MappedKeysCons(scheme: string, cls: string, cases: seq<Case>)
    requires cases != []
    ensures CaseKeys(cls, MappedCases(scheme, cases)) ==
      (if HasOwnAttribute(scheme, cases[0].attributes) then [CaseKey(cls, cases[0])] else []) +
      CaseKeys(cls, MappedCases(scheme, cases[1..]))
  {
    var own0: seq<Case> := if HasOwnAttribute(scheme, cases[0].attributes) then [cases[0]] else [];
    assert MappedCases(scheme, cases) == own0 + MappedCases(scheme, cases[1..]);
    CaseKeysAppend(cls, own0, MappedCases(scheme, cases[1..]));
    assert CaseKeys(cls, own0) == if HasOwnAttribute(scheme, cases[0].attributes) then [CaseKey(cls, cases[0])] else [];
  }

  lemma CaseKeysAppend(cls: string, a: seq<Case>, b: seq<Case>)
    ensures CaseKeys(cls, a + b) == CaseKeys(cls, a) + CaseKeys(cls, b)
  {
    var l := CaseKeys(cls, a + b);
    var r := CaseKeys(cls, a) + CaseKeys(cls, b);
    assert |l| == |r|;
    forall j | 0 <= j < |l| ensures l[j] == r[j] {
      if j < |a| {
        assert (a + b)[j] == a[j];
      } else {
        assert (a + b)[j] == b[j - |a|];
      }
    }
  }

  /** After the walk, every case's key holds the value that each of its
      attributes addressed to the scheme declares. */
  lemma {:induction false} BuildCasesValues(scheme: string, cases: seq<Case>, t: StorageState)
    requires t.Valid() && DistinctNames(cases)
    requires forall i :: 0 <= i < |cases| ==> CaseKey(t.enumClass, cases[i]) !in t.fromEnum
    requires BuildCases(scheme, cases, t).Success?
    ensures var t' := BuildCases(scheme, cases, t).value;
      forall i, j :: 0 <= i < |cases| && 0 <= j < |cases[i].attributes| && AddressedTo(cases[i].attributes[j], scheme) ==>
        CaseKey(t.enumClass, cases[i]) in t'.fromEnum &&
        DeclaredValue(cases[i].attributes[j], cases[i]) == Some(t'.fromEnum[CaseKey(t.enumClass, cases[i])])
    decreases |cases|
  {
    if cases != [] {
      var cls := t.enumClass;
      var c0 := cases[0];
      var t1 := BuildAttributes(scheme, c0, c0.attributes, t).value;
      var t' := BuildCases(scheme, cases, t).value;
      BuildAttributesValues(scheme, c0, c0.attributes, t);
      LaterCasesUnstored(scheme, cases, t);
      assert BuildCases(scheme, cases, t) == BuildCases(scheme, cases[1..], t1);
      BuildCasesKeeps(scheme, cases[1..], t1);
      BuildCasesValues(scheme, cases[1..], t1);
      forall i, j | 0 <= i < |cases| && 0 <= j < |cases[i].attributes| && AddressedTo(cases[i].attributes[j], scheme)
        ensures CaseKey(cls, cases[i]) in t'.fromEnum
        ensures DeclaredValue(cases[i].attributes[j], cases[i]) == Some(t'.fromEnum[CaseKey(cls, cases[i])])
      {
        if i > 0 {
          assert cases[1..][i - 1] == cases[i];
        }
      }
    }
  }

  /** The key order of the built storage: the keys of the mapped cases, in declaration order. */
  lemma BuildOrder(scheme: string, e: EnumDef)
    requires e.WellFormed()
    requires Build(scheme, e).Success?
    ensures Build(scheme, e).value.order == CaseKeys(e.enumClass, MappedCases(scheme, e.cases))
  {
    BuildCasesOrder(scheme, e.cases, Empty(e.enumClass));
  }

  /** The member stored under the key of a case is that case. */
  lemma StoredCase(e: EnumDef, t: StorageState, i: nat)
    requires t.Valid() && t.enumClass == e.enumClass && i < |e.cases|
    requires CaseKey(e.enumClass, e.cases[i]) in t.fromEnum
    ensures t.fromEnum[CaseKey(e.enumClass, e.cases[i])] in t.toEnum
    ensures t.toEnum[t.fromEnum[CaseKey(e.enumClass, e.cases[i])]] == e.MemberAt(i)
    ensures t.EnumMappingExists(e.MemberAt(i))
    ensures t.EnumToMappingValue(e.MemberAt(i)) == Success(t.fromEnum[CaseKey(e.enumClass, e.cases[i])])
  {
    var v := t.fromEnum[CaseKey(e.enumClass, e.cases[i])];
    MemberKeyIdentifies(t.toEnum[v], e.MemberAt(i));
  }

  /** A member the built storage maps is a case of the enum that carries an
      attribute addressed to the scheme. */
  lemma BuildMapsOnlyOwnCases(scheme: string, e: EnumDef, m: Member)
    requires e.WellFormed()
    requires Build(scheme, e).Success? && m.enumClass == e.enumClass
    requires Build(scheme, e).value.EnumMappingExists(m)
    ensures exists i :: 0 <= i < |e.cases| && e.MemberAt(i) == m && HasOwnAttribute(scheme, e.cases[i].attributes)
  {
    var t := Build(scheme, e).value;
    var k := MemberKey(m);
    assert k in t.fromEnum;
    var j := OrderIndex(t, k);
    BuildOrder(scheme, e);
    var i := MappedCaseAt(scheme, e.cases, j);
    assert k == CaseKey(e.enumClass, e.cases[i]);
    MemberKeyIdentifies(m, e.MemberAt(i));
  }

  /** Exactly the cases that carry an attribute addressed to the scheme are
      mapped, each to the value every one of those attributes declares. */
  lemma BuildMapsOwnCases(scheme: string, e: EnumDef, i: nat)
    requires e.WellFormed()
    requires Build(scheme, e).Success?
    requires i < |e.cases|
    ensures var t := Build(scheme, e).value;
      && (t.EnumMappingExists(e.MemberAt(i)) <==> HasOwnAttribute(scheme, e.cases[i].attributes))
      && (forall j :: 0 <= j < |e.cases[i].attributes| && AddressedTo(e.cases[i].attributes[j], scheme) ==>
            t.EnumToMappingValue(e.MemberAt(i)).Success? &&
            DeclaredValue(e.cases[i].attributes[j], e.cases[i]) == Some(t.EnumToMappingValue(e.MemberAt(i)).value))
  {
    var t := Build(scheme, e).value;
    BuildCasesValues(scheme, e.cases, Empty(e.enumClass));
    if HasOwnAttribute(scheme, e.cases[i].attributes) {
      var j :| 0 <= j < |e.cases[i].attributes| && AddressedTo(e.cases[i].attributes[j], scheme);
      StoredCase(e, t, i);
    }
    if t.EnumMappingExists(e.MemberAt(i)) {
      BuildMapsOnlyOwnCases(scheme, e, e.MemberAt(i));
      var i' :| 0 <= i' < |e.cases| && e.MemberAt(i') == e.MemberAt(i) && HasOwnAttribute(scheme, e.cases[i'].attributes);
      assert i' == i;
    }
  }

  /** Every attribute in attrs addressed to the scheme declares v for case c. */
  predicate DeclaresOnly(scheme: string, c: Case, attrs: seq<Attribute>, v: Value)
  {
    forall j :: 0 <= j < |attrs| && AddressedTo(attrs[j], scheme) ==> DeclaredValue(attrs[j], c) == Some(v)
  }

  /** The attributes of one case addressed to the scheme all declare one and the same value. */
  predicate Agrees(scheme: string, c: Case)
  {
    forall j, j' ::
      (0 <= j < |c.attributes| && 0 <= j' < |c.attributes| &&
       AddressedTo(c.attributes[j], scheme) && AddressedTo(c.attributes[j'], scheme)) ==>
        DeclaredValue(c.attributes[j], c).Some? && DeclaredValue(c.attributes[j], c) == DeclaredValue(c.attributes[j'], c)
  }

  /** The declarations of a scheme on the cases of one enum fit a bijection:
      every case agrees with itself, and distinct cases declare distinct values. */
  predicate Consistent(scheme: string, cases: seq<Case>)
  {
    && (forall i :: 0 <= i < |cases| ==> Agrees(scheme, cases[i]))
    && (forall i, i', j, j' ::
          (0 <= i < i' < |cases| && 0 <= j < |cases[i].attributes| && 0 <= j' < |cases[i'].attributes| &&
           AddressedTo(cases[i].attributes[j], scheme) && AddressedTo(cases[i'].attributes[j'], scheme)) ==>
            DeclaredValue(cases[i].attributes[j], cases[i]) != DeclaredValue(cases[i'].attributes[j'], cases[i']))
  }

  /** A case without attributes addressed to the scheme leaves the storage as it is. */
  lemma {:induction false} BuildAttributesNoOwn(scheme: string, c: Case, attrs: seq<Attribute>, t: StorageState)
    requires t.Valid() && !HasOwnAttribute(scheme, attrs)
    ensures BuildAttributes(scheme, c, attrs, t) == Success(t)
    decreases |attrs|
  {
    if attrs != [] {
      HasOwnAttributeCons(scheme, attrs);
      BuildAttributesNoOwn(scheme, c, attrs[1..], t);
    }
  }

  /** Storing the one value a case declares succeeds when neither the case nor
      the value is mapped to anything else, and maps no other value. */
  lemma {:induction false} BuildAttributesSucceeds(scheme: string, c: Case, attrs: seq<Attribute>, t: StorageState, v: Value)
    requires t.Valid() && DeclaresOnly(scheme, c, attrs, v)
    requires CaseKey(t.enumClass, c) in t.fromEnum ==> t.fromEnum[CaseKey(t.enumClass, c)] == v
    requires v in t.toEnum ==> t.toEnum[v] == Member(t.enumClass, c.name)
    ensures BuildAttributes(scheme, c, attrs, t).Success?
    ensures forall v' :: v' in BuildAttributes(scheme, c, attrs, t).value.toEnum ==> v' in t.toEnum || v' == v
    decreases |attrs|
  {
    if attrs != [] {
      assert DeclaresOnly(scheme, c, attrs[1..], v) by {
        forall j | 0 <= j < |attrs[1..]| && AddressedTo(attrs[1..][j], scheme)
          ensures DeclaredValue(attrs[1..][j], c) == Some(v)
        {
          assert attrs[1..][j] == attrs[j + 1];
        }
      }
      if !AddressedTo(attrs[0], scheme) {
        BuildAttributesSucceeds(scheme, c, attrs[1..], t, v);
      } else {
        var m := Member(t.enumClass, c.name);
        assert DeclaredValue(attrs[0], c) == Some(v);
        StoreConflict(t, m, v);
        var t1 := t.Store(m, v).value;
        assert t1.fromEnum == t.fromEnum[MemberKey(m) := v] && t1.toEnum == t.toEnum[v := m];
        assert BuildAttributes(scheme, c, attrs, t) == BuildAttributes(scheme, c, attrs[1..], t1);
        BuildAttributesSucceeds(scheme, c, attrs[1..], t1, v);
      }
    }
  }

  /** Consistency survives dropping the first case. */
  lemma ConsistentTail(scheme: string, cases: seq<Case>)
    requires cases != [] && Consistent(scheme, cases)
    ensures Consistent(scheme, cases[1..])
  {
    var rest := cases[1..];
    forall i | 0 <= i < |rest| ensures Agrees(scheme, rest[i]) {
      assert rest[i] == cases[i + 1];
    }
    forall i, i', j, j' | 0 <= i < i' < |rest| && 0 <= j < |rest[i].attributes| && 0 <= j' < |rest[i'].attributes|
      && AddressedTo(rest[i].attributes[j], scheme) && AddressedTo(rest[i'].attributes[j'], scheme)
      ensures DeclaredValue(rest[i].attributes[j], rest[i]) != DeclaredValue(rest[i'].attributes[j'], rest[i'])
    {
      assert rest[i] == cases[i + 1] && rest[i'] == cases[i' + 1];
    }
  }

  /** No value declared by the cases is mapped yet. */
  predicate DeclaredUnmapped(scheme: string, cases: seq<Case>, t: StorageState)
  {
    forall i, j :: 0 <= i < |cases| && 0 <= j < |cases[i].attributes| && AddressedTo(cases[i].attributes[j], scheme) ==>
      DeclaredValue(cases[i].attributes[j], cases[i]).None? || DeclaredValue(cases[i].attributes[j], cases[i]).value !in t.toEnum
  }

  /** After the first case stored value v0, the values the later cases declare are still unmapped. */
  lemma DeclaredUnmappedTail(scheme: string, cases: seq<Case>, t: StorageState, t1: StorageState, v0: Option<Value>)
    requires cases != [] && Consistent(scheme, cases) && DeclaredUnmapped(scheme, cases, t)
    requires forall v' :: v' in t1.toEnum ==> v' in t.toEnum || Some(v') == v0
    requires v0.Some? ==>
      exists j :: 0 <= j < |cases[0].attributes| && AddressedTo(cases[0].attributes[j], scheme) &&
        DeclaredValue(cases[0].attributes[j], cases[0]) == v0
    ensures DeclaredUnmapped(scheme, cases[1..], t1)
  {
    var rest := cases[1..];
    forall i, j | 0 <= i < |rest| && 0 <= j < |rest[i].attributes| && AddressedTo(rest[i].attributes[j], scheme)
      ensures DeclaredValue(rest[i].attributes[j], rest[i]).None? || DeclaredValue(rest[i].attributes[j], rest[i]).value !in t1.toEnum
    {
      assert rest[i] == cases[i + 1];
      if v0.Some? {
        var j0 :| 0 <= j0 < |cases[0].attributes| && AddressedTo(cases[0].attributes[j0], scheme)
          && DeclaredValue(cases[0].attributes[j0], cases[0]) == v0;
        assert DeclaredValue(cases[0].attributes[j0], cases[0]) != DeclaredValue(cases[i + 1].attributes[j], cases[i + 1]);
      }
    }
  }

  /** Walking distinct, not yet stored cases whose declarations are consistent
      and not yet mapped succeeds. */
  lemma {:induction false} BuildCasesSucceeds(scheme: string, cases: seq<Case>, t: StorageState)
    requires t.Valid() && DistinctNames(cases) && Consistent(scheme, cases)
    requires forall i :: 0 <= i < |cases| ==> CaseKey(t.enumClass, cases[i]) !in t.fromEnum
    requires DeclaredUnmapped(scheme, cases, t)
    ensures BuildCases(scheme, cases, t).Success?
    decreases |cases|
  {
    if cases != [] {
      var c0 := cases[0];
      var v0: Option<Value> := None;
      if HasOwnAttribute(scheme, c0.attributes) {
        var j0 :| 0 <= j0 < |c0.attributes| && AddressedTo(c0.attributes[j0], scheme);
        assert Agrees(scheme, cases[0]);
        v0 := DeclaredValue(c0.attributes[j0], c0);
        assert DeclaresOnly(scheme, c0, c0.attributes, v0.value);
        BuildAttributesSucceeds(scheme, c0, c0.attributes, t, v0.value);
      } else {
        BuildAttributesNoOwn(scheme, c0, c0.attributes, t);
      }
      var t1 := BuildAttributes(scheme, c0, c0.attributes, t).value;
      LaterCasesUnstored(scheme, cases, t);
      ConsistentTail(scheme, cases);
      DeclaredUnmappedTail(scheme, cases, t, t1, v0);
      assert BuildCases(scheme, cases, t) == BuildCases(scheme, cases[1..], t1);
      BuildCasesSucceeds(scheme, cases[1..], t1);
    }
  }

  /** createMappingStorage of a well-formed enum succeeds exactly when the
      declarations addressed to the scheme are consistent: no unbacked
      `EnumMappingSame`, no case with two different values, no value on two cases. */
  lemma BuildSucceedsIffConsistent(scheme: string, e: EnumDef)
    requires e.WellFormed()
    ensures Build(scheme, e).Success? <==> Consistent(scheme, e.cases)
  {
    if Consistent(scheme, e.cases) {
      BuildCasesSucceeds(scheme, e.cases, Empty(e.enumClass));
    }
    if Build(scheme, e).Success? {
      BuildConsistent(scheme, e);
    }
  }

  lemma BuildConsistent(scheme: string, e: EnumDef)
    requires e.WellFormed() && Build(scheme, e).Success?
    ensures Consistent(scheme, e.cases)
  {
    var t := Build(scheme, e).value;
    forall i | 0 <= i < |e.cases| ensures Agrees(scheme, e.cases[i]) {
      BuildMapsOwnCases(scheme, e, i);
    }
    forall i, i', j, j' | 0 <= i < i' < |e.cases| && 0 <= j < |e.cases[i].attributes| && 0 <= j' < |e.cases[i'].attributes|
      && AddressedTo(e.cases[i].attributes[j], scheme) && AddressedTo(e.cases[i'].attributes[j'], scheme)
      ensures DeclaredValue(e.cases[i].attributes[j], e.cases[i]) != DeclaredValue(e.cases[i'].attributes[j'], e.cases[i'])
    {
      BuildMapsOwnCases(scheme, e, i);
      BuildMapsOwnCases(scheme, e, i');
      var v := t.EnumToMappingValue(e.MemberAt(i)).value;
      var v' := t.EnumToMappingValue(e.MemberAt(i')).value;
      assert t.toEnum[v] == e.MemberAt(i) && t.toEnum[v'] == e.MemberAt(i');
    }
  }

  /** Some attribute of case c addressed to the scheme declares v. */
  predicate CaseDeclares(scheme: string, c: Case, v: Value)
  {
    exists j :: 0 <= j < |c.attributes| && AddressedTo(c.attributes[j], scheme) && DeclaredValue(c.attributes[j], c) == Some(v)
  }

  /** In the built storage a case maps to v exactly when one of its attributes
      addressed to the scheme declares v. */
  lemma BuildMapsDeclared(scheme: string, e: EnumDef, i: nat, v: Value)
    requires e.WellFormed() && Build(scheme, e).Success? && i < |e.cases|
    ensures Build(scheme, e).value.EnumToMappingValue(e.MemberAt(i)) == Success(v) <==> CaseDeclares(scheme, e.cases[i], v)
  {
    var t := Build(scheme, e).value;
    BuildMapsOwnCases(scheme, e, i);
    if t.EnumToMappingValue(e.MemberAt(i)) == Success(v) {
      var j :| 0 <= j < |e.cases[i].attributes| && AddressedTo(e.cases[i].attributes[j], scheme);
    }
  }

  /** Distinct positions of a well-formed enum are distinct members. */
  lemma MemberAtInjective(e: EnumDef, i: nat, i': nat)
    requires e.WellFormed() && i < |e.cases| && i' < |e.cases|
    ensures e.MemberAt(i) == e.MemberAt(i') <==> i == i'
  {
  }

  /** Looking a value up in the built storage finds the case that declares it,
      and fails exactly when no case declares it. */
  lemma BuildValueLookup(scheme: string, e: EnumDef, v: Value)
    requires e.WellFormed() && Build(scheme, e).Success?
    ensures var t := Build(scheme, e).value;
      && (t.MappingValueToEnum(v).Success? <==> exists i :: 0 <= i < |e.cases| && CaseDeclares(scheme, e.cases[i], v))
      && (forall i :: 0 <= i < |e.cases| ==> (t.MappingValueToEnum(v) == Success(e.MemberAt(i)) <==> CaseDeclares(scheme, e.cases[i], v)))
  {
    var t := Build(scheme, e).value;
    var r := t.MappingValueToEnum(v);
    if r.Success? {
      BuildMapsOnlyOwnCases(scheme, e, r.value);
      var i :| 0 <= i < |e.cases| && e.MemberAt(i) == r.value && HasOwnAttribute(scheme, e.cases[i].attributes);
      BuildMapsDeclared(scheme, e, i, v);
      forall i' | 0 <= i' < |e.cases| ensures r == Success(e.MemberAt(i')) <==> CaseDeclares(scheme, e.cases[i'], v) {
        MemberAtInjective(e, i, i');
        BuildMapsDeclared(scheme, e, i', v);
        if CaseDeclares(scheme, e.cases[i'], v) {
          assert t.toEnum[v] == e.MemberAt(i') && t.toEnum[v] == e.MemberAt(i);
        }
      }
    } else {
      forall i | 0 <= i < |e.cases| ensures !CaseDeclares(scheme, e.cases[i], v) {
        BuildMapsDeclared(scheme, e, i, v);
      }
    }
  }

  /** The values of the built storage, in order, are the values declared by the
      mapped cases, in declaration order. */
  lemma BuildValuesInOrder(scheme: string, e: EnumDef)
    requires e.WellFormed() && Build(scheme, e).Success?
    ensures var vs := Build(scheme, e).value.GetAllMappingValues();
      var mc := MappedCases(scheme, e.cases);
      |vs| == |mc| && forall j :: 0 <= j < |vs| ==> CaseDeclares(scheme, mc[j], vs[j])
  {
    var t := Build(scheme, e).value;
    var mc := MappedCases(scheme, e.cases);
    var vs := t.GetAllMappingValues();
    BuildOrder(scheme, e);
    forall j | 0 <= j < |vs| ensures CaseDeclares(scheme, mc[j], vs[j]) {
      var i := MappedCaseAt(scheme, e.cases, j);
      assert t.order[j] == CaseKey(e.enumClass, e.cases[i]);
      StoredCase(e, t, i);
      BuildMapsDeclared(scheme, e, i, vs[j]);
    }
  }

  /** The build throws only a conflicting `storeMapping` or an `EnumMappingSame`
      on an unbacked enum. */
  lemma {:induction false} BuildAttributesFailure(scheme: string, c: Case, attrs: seq<Attribute>, t: StorageState)
    requires t.Valid()
    requires BuildAttributes(scheme, c, attrs, t).Failure?
    ensures var err := BuildAttributes(scheme, c, attrs, t).error;
      (err.ConflictingMapping? && err.member == Member(t.enumClass, c.name)) || err == SameOnUnbackedEnum(t.enumClass)
    decreases |attrs|
  {
    if AddressedTo(attrs[0], scheme) && DeclaredValue(attrs[0], c).Some? {
      var m := Member(t.enumClass, c.name);
      var v := DeclaredValue(attrs[0], c).value;
      StoreConflict(t, m, v);
      if t.Store(m, v).Success? {
        var t1 := t.Store(m, v).value;
        assert BuildAttributes(scheme, c, attrs, t) == BuildAttributes(scheme, c, attrs[1..], t1);
        BuildAttributesFailure(scheme, c, attrs[1..], t1);
      }
    } else if !AddressedTo(attrs[0], scheme) {
      BuildAttributesFailure(scheme, c, attrs[1..], t);
    }
  }

  lemma {:induction false} BuildCasesFailure(scheme: string, cases: seq<Case>, t: StorageState)
    requires t.Valid()
    requires BuildCases(scheme, cases, t).Failure?
    ensures var err := BuildCases(scheme, cases, t).error;
      (err.ConflictingMapping? && err.member.enumClass == t.enumClass && exists i :: 0 <= i < |cases| && cases[i].name == err.member.name)
      || err == SameOnUnbackedEnum(t.enumClass)
    decreases |cases|
  {
    var err := BuildCases(scheme, cases, t).error;
    var r0 := BuildAttributes(scheme, cases[0], cases[0].attributes, t);
    if r0.Failure? {
      BuildAttributesFailure(scheme, cases[0], cases[0].attributes, t);
    } else {
      assert BuildCases(scheme, cases, t) == BuildCases(scheme, cases[1..], r0.value);
      BuildCasesFailure(scheme, cases[1..], r0.value);
      if err.ConflictingMapping? {
        var i :| 0 <= i < |cases[1..]| && cases[1..][i].name == err.member.name;
        assert cases[i + 1].name == err.member.name;
      }
    }
  }

  /** createMappingStorage throws either `InvalidArgumentException` from a
      conflicting `storeMapping` of one of the enum's cases, or the
      `LogicException` for `EnumMappingSame` on an unbacked enum. */
  lemma BuildFailure(scheme: string, e: EnumDef)
    requires Build(scheme, e).Failure?
    ensures var err := Build(scheme, e).error;
      (err.ConflictingMapping? && e.HasMember(err.member)) || err == SameOnUnbackedEnum(e.enumClass)
  {
    BuildCasesFailure(scheme, e.cases, Empty(e.enumClass));
  }

  /** `EnumMappingSame` addressed to the scheme on a case of an unbacked enum
      makes the build fail. */
  lemma BuildRejectsSameOnUnbacked(scheme: string, e: EnumDef, i: nat, j: nat)
    requires e.WellFormed() && e.backingType.None?
    requires i < |e.cases| && j < |e.cases[i].attributes|
    requires e.cases[i].attributes[j] == MappingSame(scheme)
    ensures Build(scheme, e).Failure?
  {
    assert BackingFits(e.backingType, e.cases[i].backing);
    if Build(scheme, e).Success? {
      BuildMapsOwnCases(scheme, e, i);
    }
  }
}
