/**
 * `CompareTypes` and `TypeResults`: the member-level comparison of one type
 * present in both surfaces. Each of the eight lists is the LINQ query
 * `from m in side where <no equivalent on the other side> orderby m.Name
 * select m.GetSignature()`.
 */
module Differ {
  import opened Wrappers
  import opened Strings
  import opened Seqs
  import opened Descriptors
  import opened Equivalence
  import opened Signatures

  /** `FirstOrDefault(m2 => m2.Name == n)`: the first member named `n`, or None (null). */
  function FirstNamed<T>(members: seq<T>, name: T -> string, n: string): Option<T>
  {
    if members == [] then None
    else if name(members[0]) == n then Some(members[0])
    else FirstNamed(members[1..], name, n)
  }

  /**
   * No member is found exactly when none carries the name; a found member
   * carries it and precedes every other member that does, so under unique
   * names it is the only one.
   */
  lemma {:induction false} FirstNamedSpec<T>(members: seq<T>, name: T -> string, n: string)
    ensures FirstNamed(members, name, n).None? <==> forall y :: y in members ==> name(y) != n
    ensures FirstNamed(members, name, n).Some? ==>
      exists i :: 0 <= i < |members| && members[i] == FirstNamed(members, name, n).value && name(members[i]) == n
        && forall j :: 0 <= j < i ==> name(members[j]) != n
    ensures FirstNamed(members, name, n).Some? && DistinctBy(members, name) ==>
      forall y :: y in members && name(y) == n ==> y == FirstNamed(members, name, n).value
    decreases |members|
  {
    if members != [] && name(members[0]) != n {
      var tail := members[1..];
      FirstNamedSpec(tail, name, n);
      assert members == [members[0]] + tail;
      var r := FirstNamed(tail, name, n);
      if r.Some? {
        var i :| 0 <= i < |tail| && tail[i] == r.value && name(tail[i]) == n
          && forall j :: 0 <= j < i ==> name(tail[j]) != n;
        assert members[i + 1] == r.value;
        assert forall j :: 0 <= j < i + 1 ==> name(members[j]) != n by {
          forall j | 0 <= j < i + 1 ensures name(members[j]) != n {
            if j > 0 { assert members[j] == tail[j - 1]; }
          }
        }
        if DistinctBy(members, name) {
          forall y | y in members && name(y) == n ensures y == r.value {
            var k :| 0 <= k < |members| && members[k] == y;
            assert name(members[k]) == name(members[i + 1]);
            assert k == i + 1;
          }
        }
      }
    } else if members != [] && DistinctBy(members, name) {
      forall y | y in members && name(y) == n ensures y == members[0] {
        var k :| 0 <= k < |members| && members[k] == y;
        assert name(members[k]) == name(members[0]);
        assert k == 0;
      }
    }
  }

  /**
   * The members of one side (fields, properties or events) that the other
   * side lacks: those for which the rule `differs` reports a difference
   * against the first same-named member of `others` (None when there is
   * none), ordered by name.
   */
  function Unmatched<T(!new)>(members: seq<T>, others: seq<T>, name: T -> string, differs: (T, Option<T>) -> bool)
    : seq<T>
  {
    SortBy(Filter(members, x => differs(x, FirstNamed(others, name, name(x)))), name)
  }

  /**
   * A member is listed exactly when it belongs to its side and the rule
   * reports a difference against the first same-named member of the other
   * side, or against None when the other side has no member of that name;
   * the list is ordered by name and no longer than its side.
   */
  lemma UnmatchedMembers<T(!new)>(members: seq<T>, others: seq<T>, name: T -> string, differs: (T, Option<T>) -> bool)
    ensures forall x :: x in Unmatched(members, others, name, differs) <==>
      x in members && differs(x, FirstNamed(others, name, name(x)))
    ensures SortedBy(Unmatched(members, others, name, differs), name)
    ensures |Unmatched(members, others, name, differs)| <= |members|
  {
    var kept := Filter(members, x => differs(x, FirstNamed(others, name, name(x))));
    SortByCorrect(kept, name);
  }

  /**
   * When the other side's names are unique and the rule reports every
   * member as different from an absent one, a member is listed exactly when
   * no same-named member of the other side is equivalent to it.
   */
  lemma UnmatchedUnique<T(!new)>(members: seq<T>, others: seq<T>, name: T -> string, differs: (T, Option<T>) -> bool)
    requires DistinctBy(others, name)
    requires forall x :: differs(x, None)
    ensures forall x :: x in Unmatched(members, others, name, differs) <==>
      x in members && forall y :: y in others && name(y) == name(x) ==> differs(x, Some(y))
  {
    UnmatchedMembers(members, others, name, differs);
    forall x | x in members
      ensures differs(x, FirstNamed(others, name, name(x)))
          <==> forall y :: y in others && name(y) == name(x) ==> differs(x, Some(y))
    {
      FirstNamedSpec(others, name, name(x));
      var first := FirstNamed(others, name, name(x));
      assert first.None? ==> differs(x, first);
    }
  }

  /** Comparing a side with itself lists nothing, when names are unique and no member differs from itself. */
  lemma UnmatchedSelf<T(!new)>(members: seq<T>, name: T -> string, differs: (T, Option<T>) -> bool)
    requires DistinctBy(members, name)
    requires forall x :: x in members ==> !differs(x, Some(x))
    ensures Unmatched(members, members, name, differs) == []
  {
    UnmatchedMembers(members, members, name, differs);
    forall x | x in members ensures FirstNamed(members, name, name(x)) == Some(x) {
      FirstNamedSpec(members, name, name(x));
    }
    var r := Unmatched(members, members, name, differs);
    if r != [] {
      assert false;
    }
  }

  /** Nothing is listed when the rule reports no member as different. */
  lemma UnmatchedNone<T(!new)>(members: seq<T>, others: seq<T>, name: T -> string, differs: (T, Option<T>) -> bool)
    requires forall i :: 0 <= i < |members| ==> !differs(members[i], FirstNamed(others, name, name(members[i])))
    ensures Unmatched(members, others, name, differs) == []
  {
    FilterNone(members, x => differs(x, FirstNamed(others, name, name(x))));
  }

  function FieldDiffers(f: Field, other: Option<Field>): bool { AreFieldsDifferent(Some(f), other) }
  function PropertyDiffers(p: Property, other: Option<Property>): bool { ArePropertiesDifferent(Some(p), other) }
  function EventDiffers(e: Event, other: Option<Event>): bool { AreEventsDifferent(Some(e), other) }

  function MissingFields(fields: seq<Field>, others: seq<Field>): seq<Field>
  {
    Unmatched(fields, others, FieldName, FieldDiffers)
  }

  function MissingProperties(properties: seq<Property>, others: seq<Property>): seq<Property>
  {
    Unmatched(properties, others, PropertyName, PropertyDiffers)
  }

  function MissingEvents(events: seq<Event>, others: seq<Event>): seq<Event>
  {
    Unmatched(events, others, EventName, EventDiffers)
  }

  /** `GetMethods().Where(m => !m.IsSpecialName)`: accessor and operator methods are left out. */
  predicate IsOrdinary(m: Method) { !m.isSpecialName }

  function OrdinaryMethods(methods: seq<Method>): seq<Method>
  {
    Filter(methods, IsOrdinary)
  }

  /** `FirstOrDefault(m2 => !AreMethodsDifferent(m, m2))`: overload resolution by signature. */
  function FirstEquivalent(candidates: seq<Method>, m: Method): Option<Method>
  {
    if candidates == [] then None
    else if !MethodsDiffer(Some(m), Some(candidates[0])) then Some(candidates[0])
    else FirstEquivalent(candidates[1..], m)
  }

  /**
   * No candidate is found exactly when every candidate differs; a found one
   * is a candidate that matches, and every candidate before it differs.
   */
  lemma {:induction false} FirstEquivalentSpec(candidates: seq<Method>, m: Method)
    ensures FirstEquivalent(candidates, m).None? <==>
      forall m2 :: m2 in candidates ==> MethodsDiffer(Some(m), Some(m2))
    ensures FirstEquivalent(candidates, m).Some? ==>
      FirstEquivalent(candidates, m).value in candidates && !MethodsDiffer(Some(m), FirstEquivalent(candidates, m))
    ensures FirstEquivalent(candidates, m).Some? ==>
      exists i :: 0 <= i < |candidates| && candidates[i] == FirstEquivalent(candidates, m).value
        && forall j :: 0 <= j < i ==> MethodsDiffer(Some(m), Some(candidates[j]))
    decreases |candidates|
  {
    if candidates != [] && MethodsDiffer(Some(m), Some(candidates[0])) {
      var tail := candidates[1..];
      FirstEquivalentSpec(tail, m);
      assert candidates == [candidates[0]] + tail;
      var r := FirstEquivalent(tail, m);
      if r.Some? {
        var i :| 0 <= i < |tail| && tail[i] == r.value
          && forall j :: 0 <= j < i ==> MethodsDiffer(Some(m), Some(tail[j]));
        assert candidates[i + 1] == r.value;
        forall j | 0 <= j < i + 1 ensures MethodsDiffer(Some(m), Some(candidates[j])) {
          if j > 0 { assert candidates[j] == tail[j - 1]; }
        }
      }
    } else if candidates != [] {
      assert candidates[0] == FirstEquivalent(candidates, m).value;
    }
  }

  /**
   * The ordinary methods of one side that have no equivalent ordinary
   * method on the other side, ordered by name (overloads keep their order).
   */
  function MissingMethods(methods: seq<Method>, others: seq<Method>): seq<Method>
  {
    SortBy(Filter(OrdinaryMethods(methods), m => MethodsDiffer(Some(m), FirstEquivalent(OrdinaryMethods(others), m))),
           MethodName)
  }

  /**
   * A method is listed exactly when it is an ordinary method of its side and
   * no ordinary method of the other side is equivalent to it; methods with
   * a special name are never listed.
   */
  lemma MissingMethodsMembers(methods: seq<Method>, others: seq<Method>)
    ensures forall m :: m in MissingMethods(methods, others) <==>
      && m in methods && !m.isSpecialName
      && forall m2 :: m2 in others && !m2.isSpecialName ==> MethodsDiffer(Some(m), Some(m2))
    ensures SortedBy(MissingMethods(methods, others), MethodName)
    ensures |MissingMethods(methods, others)| <= |methods|
  {
    var candidates := OrdinaryMethods(others);
    var kept := Filter(OrdinaryMethods(methods), m => MethodsDiffer(Some(m), FirstEquivalent(OrdinaryMethods(others), m)));
    SortByCorrect(kept, MethodName);
    forall m ensures m in kept <==>
      && m in methods && !m.isSpecialName
      && forall m2 :: m2 in others && !m2.isSpecialName ==> MethodsDiffer(Some(m), Some(m2))
    {
      FirstEquivalentSpec(candidates, m);
      var found := FirstEquivalent(candidates, m);
      assert found.Some? ==> found.value in candidates && !found.value.isSpecialName;
      assert found.None? <==> forall m2 :: m2 in candidates ==> MethodsDiffer(Some(m), Some(m2));
      assert forall m2 :: m2 in candidates <==> m2 in others && !m2.isSpecialName;
    }
  }

  /** Comparing a method list with itself lists nothing: every method matches itself. */
  lemma MissingMethodsSelf(methods: seq<Method>)
    ensures MissingMethods(methods, methods) == []
  {
    MissingMethodsMembers(methods, methods);
    var r := MissingMethods(methods, methods);
    forall m | m in methods ensures !MethodsDiffer(Some(m), Some(m)) {
      Reflexive(Field("", TypeRef(None, ""), false), Property("", TypeRef(None, ""), None, None),
                Event("", TypeRef(None, ""), false), Some(m));
    }
    if r != [] {
      assert false;
    }
  }

  /** The eight lists of one `TypeResults`, as values. */
  datatype TypeDiff = TypeDiff(
    typeName: string,
    fieldsNotInFNA: seq<string>, fieldsExtraInFNA: seq<string>,
    propertiesNotInFNA: seq<string>, propertiesExtraInFNA: seq<string>,
    eventsNotInFNA: seq<string>, eventsExtraInFNA: seq<string>,
    methodsNotInFNA: seq<string>, methodsExtraInFNA: seq<string>)
  {
    /** Each list of `more` appended to the same list here; the type name stays. */
    function Extend(more: TypeDiff): TypeDiff
    {
      TypeDiff(typeName,
               fieldsNotInFNA + more.fieldsNotInFNA, fieldsExtraInFNA + more.fieldsExtraInFNA,
               propertiesNotInFNA + more.propertiesNotInFNA, propertiesExtraInFNA + more.propertiesExtraInFNA,
               eventsNotInFNA + more.eventsNotInFNA, eventsExtraInFNA + more.eventsExtraInFNA,
               methodsNotInFNA + more.methodsNotInFNA, methodsExtraInFNA + more.methodsExtraInFNA)
    }

    predicate IsEmpty()
    {
      && |fieldsNotInFNA| == 0 && |fieldsExtraInFNA| == 0
      && |propertiesNotInFNA| == 0 && |propertiesExtraInFNA| == 0
      && |eventsNotInFNA| == 0 && |eventsExtraInFNA| == 0
      && |methodsNotInFNA| == 0 && |methodsExtraInFNA| == 0
    }
  }

  /** What `CompareTypes` fills into a fresh `TypeResults` named after the XNA type. */
  function DiffTypes(xnaType: TypeDesc, fnaType: TypeDesc): (d: TypeDiff)
  {
    TypeDiff(
      xnaType.fullName,
      Map(FieldSignature, MissingFields(xnaType.fields, fnaType.fields)),
      Map(FieldSignature, MissingFields(fnaType.fields, xnaType.fields)),
      Map(PropertySignature, MissingProperties(xnaType.properties, fnaType.properties)),
      Map(PropertySignature, MissingProperties(fnaType.properties, xnaType.properties)),
      Map(EventSignature, MissingEvents(xnaType.events, fnaType.events)),
      Map(EventSignature, MissingEvents(fnaType.events, xnaType.events)),
      Map(MethodSignature, MissingMethods(xnaType.methods, fnaType.methods)),
      Map(MethodSignature, MissingMethods(fnaType.methods, xnaType.methods)))
  }

  /** No two properties share a name other than `Item`, the name every indexer of a type carries. */
  ghost predicate DistinctExceptIndexers(properties: seq<Property>)
  {
    forall i, j :: 0 <= i < j < |properties| && properties[i].name == properties[j].name ==> properties[i].name == "Item"
  }

  /** Member names are unique per kind, except that indexers share `Item` (methods may overload). */
  ghost predicate UniqueMemberNames(t: TypeDesc)
  {
    && DistinctBy(t.fields, FieldName)
    && DistinctExceptIndexers(t.properties)
    && DistinctBy(t.events, EventName)
  }

  lemma FieldsSelf(fields: seq<Field>)
    requires DistinctBy(fields, FieldName)
    ensures MissingFields(fields, fields) == []
  {
    forall f | f in fields ensures !FieldDiffers(f, Some(f)) {
      Reflexive(f, Property("", TypeRef(None, ""), None, None), Event("", TypeRef(None, ""), false), None);
    }
    UnmatchedSelf(fields, FieldName, FieldDiffers);
  }

  /**
   * A property list compared with itself lists nothing, even with several
   * indexers: each property finds either itself or another `Item`, and two
   * `Item` properties never differ.
   */
  lemma PropertiesSelf(properties: seq<Property>)
    requires DistinctExceptIndexers(properties)
    ensures MissingProperties(properties, properties) == []
  {
    forall k | 0 <= k < |properties|
      ensures !PropertyDiffers(properties[k], FirstNamed(properties, PropertyName, PropertyName(properties[k])))
    {
      var p := properties[k];
      FirstNamedSpec(properties, PropertyName, p.name);
      assert p in properties && PropertyName(p) == p.name;
      var q := FirstNamed(properties, PropertyName, p.name).value;
      var i :| 0 <= i < |properties| && properties[i] == q && q.name == p.name
        && forall j :: 0 <= j < i ==> properties[j].name != p.name;
      if p.name != "Item" {
        assert k == i;
        Reflexive(Field("", TypeRef(None, ""), false), p, Event("", TypeRef(None, ""), false), None);
      }
    }
    UnmatchedNone(properties, properties, PropertyName, PropertyDiffers);
  }

  lemma EventsSelf(events: seq<Event>)
    requires DistinctBy(events, EventName)
    ensures MissingEvents(events, events) == []
  {
    forall e | e in events ensures !EventDiffers(e, Some(e)) {
      Reflexive(Field("", TypeRef(None, ""), false), Property("", TypeRef(None, ""), None, None), e, None);
    }
    UnmatchedSelf(events, EventName, EventDiffers);
  }

  /** Comparing a type with itself fills no list, so the type is not reported. */
  lemma DiffTypesSelf(t: TypeDesc)
    requires UniqueMemberNames(t)
    ensures DiffTypes(t, t).IsEmpty()
  {
    FieldsSelf(t.fields);
    PropertiesSelf(t.properties);
    EventsSelf(t.events);
    MissingMethodsSelf(t.methods);
  }

  /** `TypeResults`: a type name and eight lists that `CompareTypes` appends to. */
  class TypeResults {
    var typeName: string
    var fieldsNotInFNA: seq<string>
    var fieldsExtraInFNA: seq<string>
    var propertiesNotInFNA: seq<string>
    var propertiesExtraInFNA: seq<string>
    var eventsNotInFNA: seq<string>
    var eventsExtraInFNA: seq<string>
    var methodsNotInFNA: seq<string>
    var methodsExtraInFNA: seq<string>

    /** `new TypeResults { TypeName = name }`: all lists start empty. */
    constructor (name: string)
      ensures Value() == TypeDiff(name, [], [], [], [], [], [], [], [])
    {
      typeName := name;
      fieldsNotInFNA, fieldsExtraInFNA := [], [];
      propertiesNotInFNA, propertiesExtraInFNA := [], [];
      eventsNotInFNA, eventsExtraInFNA := [], [];
      methodsNotInFNA, methodsExtraInFNA := [], [];
    }

    /** The current contents, as a value. */
    function Value(): TypeDiff
      reads this
    {
      TypeDiff(typeName, fieldsNotInFNA, fieldsExtraInFNA, propertiesNotInFNA, propertiesExtraInFNA,
               eventsNotInFNA, eventsExtraInFNA, methodsNotInFNA, methodsExtraInFNA)
    }

    /** `AddRange` on each list. */
    method AddRange(more: TypeDiff)
      modifies this
      ensures Value() == old(Value()).Extend(more)
    {
      fieldsNotInFNA, fieldsExtraInFNA := fieldsNotInFNA + more.fieldsNotInFNA, fieldsExtraInFNA + more.fieldsExtraInFNA;
      propertiesNotInFNA, propertiesExtraInFNA :=
        propertiesNotInFNA + more.propertiesNotInFNA, propertiesExtraInFNA + more.propertiesExtraInFNA;
      eventsNotInFNA, eventsExtraInFNA := eventsNotInFNA + more.eventsNotInFNA, eventsExtraInFNA + more.eventsExtraInFNA;
      methodsNotInFNA, methodsExtraInFNA :=
        methodsNotInFNA + more.methodsNotInFNA, methodsExtraInFNA + more.methodsExtraInFNA;
    }

    predicate IsEmpty()
      reads this
      ensures IsEmpty() <==> Value().IsEmpty()
    {
      && |fieldsNotInFNA| == 0
      && |fieldsExtraInFNA| == 0
      && |propertiesNotInFNA| == 0
      && |propertiesExtraInFNA| == 0
      && |eventsNotInFNA| == 0
      && |eventsExtraInFNA| == 0
      && |methodsNotInFNA| == 0
      && |methodsExtraInFNA| == 0
    }
  }

  /** `CompareTypes`: appends each of the eight query results to its list (`AddRange`). */
  method CompareTypes(xnaType: TypeDesc, fnaType: TypeDesc, results: TypeResults)
    modifies results
    ensures results.Value() == old(results.Value()).Extend(DiffTypes(xnaType, fnaType))
  {
    results.AddRange(DiffTypes(xnaType, fnaType));
  }
}
