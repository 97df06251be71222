/**
 * The four member equivalence rules: `AreFieldsDifferent`,
 * `ArePropertiesDifferent`, `AreEventsDifferent` and `AreMethodsDifferent`.
 * Type names are compared after `CleanString`; a null member is None.
 */
module Equivalence {
  import opened Wrappers
  import opened Names
  import opened Descriptors
  import Seqs

  /** The source dereferences both fields once the one-null test passes, so two nulls are not allowed. */
  function AreFieldsDifferent(field1: Option<Field>, field2: Option<Field>): bool
    requires field1.Some? || field2.Some?
  {
    if field1.None? || field2.None? then true
    else if field1.value.name != field2.value.name then true
    else if CleanName(field1.value.fieldType.fullName) != CleanName(field2.value.fieldType.fullName) then true
    else if field1.value.isStatic != field2.value.isStatic then true
    else false
  }

  function ArePropertiesDifferent(prop1: Option<Property>, prop2: Option<Property>): bool
    requires prop1.Some? || prop2.Some?
  {
    if prop1.None? || prop2.None? then true
    else if prop1.value.name != prop2.value.name then true
    // the indexer leniency: two properties named Item always match
    else if prop1.value.name == "Item" && prop2.value.name == "Item" then false
    else if CleanName(prop1.value.propertyType.fullName) != CleanName(prop2.value.propertyType.fullName) then true
    else if MethodsDiffer(prop1.value.getter, prop2.value.getter) then true
    else if MethodsDiffer(prop1.value.setter, prop2.value.setter) then true
    else false
  }

  function AreEventsDifferent(evt1: Option<Event>, evt2: Option<Event>): bool
    requires evt1.Some? || evt2.Some?
  {
    if evt1.None? || evt2.None? then true
    else if evt1.value.name != evt2.value.name then true
    else if CleanName(evt1.value.handlerType.fullName) != CleanName(evt2.value.handlerType.fullName) then true
    else if evt1.value.addIsStatic != evt2.value.addIsStatic then true
    else false
  }

  /** Two parameters at the same position agree on cleaned type name, `IsRetval`, `IsOut` and `IsOptional`. */
  predicate SameParameter(p1: Parameter, p2: Parameter)
  {
    && CleanName(p1.parameterType.fullName) == CleanName(p2.parameterType.fullName)
    && p1.isRetval == p2.isRetval
    && p1.isOut == p2.isOut
    && p1.isOptional == p2.isOptional
  }

  /** Same name, same cleaned return type name, and parameters that agree position by position. */
  predicate SameSignature(m1: Method, m2: Method)
  {
    && m1.name == m2.name
    && CleanName(m1.returnType.fullName) == CleanName(m2.returnType.fullName)
    && |m1.parameters| == |m2.parameters|
    && forall i :: 0 <= i < |m1.parameters| ==> SameParameter(m1.parameters[i], m2.parameters[i])
  }

  /** The value `AreMethodsDifferent` returns: two nulls match, one null differs. */
  predicate MethodsDiffer(method1: Option<Method>, method2: Option<Method>)
  {
    match (method1, method2)
    case (None, None) => false
    case (Some(m1), Some(m2)) => !SameSignature(m1, m2)
    case _ => true
  }

  /** `AreMethodsDifferent` as the source runs it, with its indexed loop over the parameters. */
  method AreMethodsDifferent(method1: Option<Method>, method2: Option<Method>) returns (different: bool)
    ensures different == MethodsDiffer(method1, method2)
  {
    if method1.None? && method2.None? {
      return false;
    }
    if method1.None? || method2.None? {
      return true;
    }
    var m1, m2 := method1.value, method2.value;
    if m1.name != m2.name {
      return true;
    }
    var return1 := CleanString(m1.returnType.fullName);
    var return2 := CleanString(m2.returnType.fullName);
    if return1 != return2 {
      return true;
    }
    var params1, params2 := m1.parameters, m2.parameters;
    if |params1| != |params2| {
      return true;
    }
    for i := 0 to |params1|
      invariant forall j :: 0 <= j < i ==> SameParameter(params1[j], params2[j])
    {
      var p1, p2 := params1[i], params2[i];
      var type1 := CleanString(p1.parameterType.fullName);
      var type2 := CleanString(p2.parameterType.fullName);
      if type1 != type2 {
        return true;
      }
      if p1.isRetval != p2.isRetval {
        return true;
      }
      if p1.isOut != p2.isOut {
        return true;
      }
      if p1.isOptional != p2.isOptional {
        return true;
      }
      // parameter names are not compared
    }
    return false;
  }

  // ---- Reference keys: what each rule actually looks at ----

  function FieldKey(f: Field): (string, Option<string>, bool)
  {
    (f.name, CleanName(f.fieldType.fullName), f.isStatic)
  }

  function EventKey(e: Event): (string, Option<string>, bool)
  {
    (e.name, CleanName(e.handlerType.fullName), e.addIsStatic)
  }

  function ParameterKey(p: Parameter): (Option<string>, bool, bool, bool)
  {
    (CleanName(p.parameterType.fullName), p.isRetval, p.isOut, p.isOptional)
  }

  function MethodKey(m: Method): (string, Option<string>, seq<(Option<string>, bool, bool, bool)>)
  {
    (m.name, CleanName(m.returnType.fullName), Seqs.Map(ParameterKey, m.parameters))
  }

  /** A null on exactly one side is always a difference; two null methods are a match. */
  lemma NullHandling(f: Field, p: Property, e: Event, m: Method)
    ensures AreFieldsDifferent(Some(f), None) && AreFieldsDifferent(None, Some(f))
    ensures ArePropertiesDifferent(Some(p), None) && ArePropertiesDifferent(None, Some(p))
    ensures AreEventsDifferent(Some(e), None) && AreEventsDifferent(None, Some(e))
    ensures MethodsDiffer(Some(m), None) && MethodsDiffer(None, Some(m))
    ensures !MethodsDiffer(None, None)
  {
  }

  /** Two fields differ exactly when their name, cleaned type name or static flag differ. */
  lemma FieldsDifferentIff(f1: Field, f2: Field)
    ensures AreFieldsDifferent(Some(f1), Some(f2)) <==> FieldKey(f1) != FieldKey(f2)
  {
  }

  /** Two events differ exactly when their name, cleaned handler type name or add-accessor static flag differ. */
  lemma EventsDifferentIff(e1: Event, e2: Event)
    ensures AreEventsDifferent(Some(e1), Some(e2)) <==> EventKey(e1) != EventKey(e2)
  {
  }

  /**
   * Two methods differ exactly when their name, cleaned return type name,
   * parameter count or, at some position, their parameters' cleaned type
   * name or flags differ: exactly when their keys differ.
   */
  lemma MethodsDifferIff(m1: Method, m2: Method)
    ensures MethodsDiffer(Some(m1), Some(m2)) <==> MethodKey(m1) != MethodKey(m2)
  {
    if SameSignature(m1, m2) {
      SameSignatureKeys(m1, m2);
    } else if MethodKey(m1) == MethodKey(m2) {
      KeysSameSignature(m1, m2);
    }
  }

  lemma SameSignatureKeys(m1: Method, m2: Method)
    requires SameSignature(m1, m2)
    ensures MethodKey(m1) == MethodKey(m2)
  {
    var k1, k2 := Seqs.Map(ParameterKey, m1.parameters), Seqs.Map(ParameterKey, m2.parameters);
    forall i | 0 <= i < |k1| ensures k1[i] == k2[i] {
      assert SameParameter(m1.parameters[i], m2.parameters[i]);
    }
    assert k1 == k2;
  }

  lemma KeysSameSignature(m1: Method, m2: Method)
    requires MethodKey(m1) == MethodKey(m2)
    ensures SameSignature(m1, m2)
  {
    var k1, k2 := Seqs.Map(ParameterKey, m1.parameters), Seqs.Map(ParameterKey, m2.parameters);
    assert k1 == k2;
    forall i | 0 <= i < |m1.parameters| ensures SameParameter(m1.parameters[i], m2.parameters[i]) {
      assert k1[i] == k2[i];
    }
  }

  /** Parameters renamed by `names`. */
  function Renamed(ps: seq<Parameter>, names: seq<string>): (r: seq<Parameter>)
    requires |names| == |ps|
    ensures |r| == |ps|
    ensures forall i :: 0 <= i < |ps| ==> r[i] == ps[i].(name := names[i])
  {
    seq(|ps|, i requires 0 <= i < |ps| => ps[i].(name := names[i]))
  }

  /** Renaming parameters or flipping the method's own static flag never changes the outcome. */
  lemma MethodsDifferIgnoresStaticAndParameterNames(m1: Method, m2: Method, isStatic: bool, names: seq<string>)
    requires |names| == |m1.parameters|
    ensures MethodsDiffer(Some(m1.(isStatic := isStatic, parameters := Renamed(m1.parameters, names))), Some(m2))
        == MethodsDiffer(Some(m1), Some(m2))
  {
    var m1' := m1.(isStatic := isStatic, parameters := Renamed(m1.parameters, names));
    MethodsDifferIff(m1, m2);
    MethodsDifferIff(m1', m2);
    assert Seqs.Map(ParameterKey, m1'.parameters) == Seqs.Map(ParameterKey, m1.parameters);
  }

  /** Two properties both named `Item` never differ, whatever their types and accessors. */
  lemma IndexerLeniency(p1: Property, p2: Property)
    requires p1.name == "Item" && p2.name == "Item"
    ensures !ArePropertiesDifferent(Some(p1), Some(p2))
  {
  }

  /**
   * Any other two properties differ exactly when their names or cleaned
   * property type names differ, or the getter pair or the setter pair differs.
   */
  lemma PropertiesDifferentIff(p1: Property, p2: Property)
    requires !(p1.name == "Item" && p2.name == "Item")
    ensures ArePropertiesDifferent(Some(p1), Some(p2)) <==>
      || p1.name != p2.name
      || CleanName(p1.propertyType.fullName) != CleanName(p2.propertyType.fullName)
      || MethodsDiffer(p1.getter, p2.getter)
      || MethodsDiffer(p1.setter, p2.setter)
  {
  }

  lemma MethodsDifferSymmetric(m1: Option<Method>, m2: Option<Method>)
    ensures MethodsDiffer(m1, m2) == MethodsDiffer(m2, m1)
  {
  }

  /** No member differs from itself, so comparing a surface with itself reports nothing. */
  lemma Reflexive(f: Field, p: Property, e: Event, m: Option<Method>)
    ensures !AreFieldsDifferent(Some(f), Some(f))
    ensures !ArePropertiesDifferent(Some(p), Some(p))
    ensures !AreEventsDifferent(Some(e), Some(e))
    ensures !MethodsDiffer(m, m)
  {
  }

  /** Every rule gives the same answer with its arguments swapped. */
  lemma Symmetric(f1: Field, f2: Field, p1: Property, p2: Property, e1: Event, e2: Event)
    ensures AreFieldsDifferent(Some(f1), Some(f2)) == AreFieldsDifferent(Some(f2), Some(f1))
    ensures ArePropertiesDifferent(Some(p1), Some(p2)) == ArePropertiesDifferent(Some(p2), Some(p1))
    ensures AreEventsDifferent(Some(e1), Some(e2)) == AreEventsDifferent(Some(e2), Some(e1))
  {
    MethodsDifferSymmetric(p1.getter, p2.getter);
    MethodsDifferSymmetric(p1.setter, p2.setter);
  }

  /** Matching by method signature is transitive, so the overload found first is as good as any other. */
  lemma SameSignatureTransitive(m1: Method, m2: Method, m3: Method)
    requires SameSignature(m1, m2) && SameSignature(m2, m3)
    ensures SameSignature(m1, m3)
  {
  }
}
