/**
 * The `GetSignature` extension methods: the text the report prints for
 * each listed member. Types are printed with `Type.ToString()` (the
 * `display` of a type reference).
 */
module Signatures {
  import opened Wrappers
  import opened Strings
  import opened Descriptors
  import Seqs

  function StaticPrefix(isStatic: bool): string
  {
    if isStatic then "static " else ""
  }

  /** Field: `[static ]<type> <name>`. */
  function FieldSignature(field: Field): string
  {
    StaticPrefix(field.isStatic) + field.fieldType.display + " " + field.name
  }

  /** A property counts as static when its getter or its setter is static. */
  predicate PropertyIsStatic(property: Property)
  {
    || (property.getter.Some? && property.getter.value.isStatic)
    || (property.setter.Some? && property.setter.value.isStatic)
  }

  /** Property: `[static ]<type> <name> {[ get;][ set;] }`. */
  function PropertySignature(property: Property): string
  {
    StaticPrefix(PropertyIsStatic(property))
    + property.propertyType.display + " " + property.name + " {"
    + (if property.getter.Some? then " get;" else "")
    + (if property.setter.Some? then " set;" else "")
    + " }"
  }

  /** Event: `[static ]<handler type> <name>`, static as its add accessor is. */
  function EventSignature(evt: Event): string
  {
    StaticPrefix(evt.addIsStatic) + evt.handlerType.display + " " + evt.name
  }

  /** Parameter: `out ` when `IsOut`, otherwise `ref ` when `IsRetval`, then `<type> <name>`. */
  function ParameterSignature(p: Parameter): string
  {
    (if p.isOut then "out " else if p.isRetval then "ref " else "")
    + p.parameterType.display + " " + p.name
  }

  /** Method: `[static ]<return type> <name>(<parameters joined by ", ">)`. */
  function MethodSignature(m: Method): string
  {
    StaticPrefix(m.isStatic) + m.returnType.display + " " + m.name
    + "(" + Join(Seqs.Map(ParameterSignature, m.parameters)) + ")"
  }

  /** `GetSignature(PropertyInfo)` as the source runs it: a head, then conditional appends. */
  method GetPropertySignature(property: Property) returns (sig: string)
    ensures sig == PropertySignature(property)
  {
    sig := property.propertyType.display + " " + property.name + " {";
    var getter, setter := property.getter, property.setter;
    if (getter.Some? && getter.value.isStatic) || (setter.Some? && setter.value.isStatic) {
      sig := "static " + sig;
    }
    if getter.Some? {
      sig := sig + " get;";
    }
    if setter.Some? {
      sig := sig + " set;";
    }
    sig := sig + " }";
  }

  /** `GetSignature(MethodInfo)` as the source runs it: the parameter list is built in a loop. */
  method GetMethodSignature(m: Method) returns (sig: string)
    ensures sig == MethodSignature(m)
  {
    sig := m.returnType.display + " " + m.name + "(";
    if m.isStatic {
      sig := "static " + sig;
    }
    ghost var head := sig;
    assert head == StaticPrefix(m.isStatic) + m.returnType.display + " " + m.name + "(";
    var parameters := m.parameters;
    for i := 0 to |parameters|
      invariant sig == head + Written(parameters, i)
    {
      var p := parameters[i];
      var pStr := p.parameterType.display + " " + p.name;
      if p.isOut {
        pStr := "out " + pStr;
      } else if p.isRetval {
        pStr := "ref " + pStr;
      }
      assert pStr == ParameterSignature(p);
      ghost var before := sig;
      sig := sig + pStr;
      if i < |parameters| - 1 {
        sig := sig + ", ";
      }
      WrittenStep(parameters, i, head, before, pStr, sig);
    }
    Closed(m, head, sig);
    sig := sig + ")";
  }

  /** The text the loop of `GetMethodSignature` has written after `i` parameters. */
  function Written(parameters: seq<Parameter>, i: nat): string
    requires i <= |parameters|
  {
    Join(Seqs.Map(ParameterSignature, parameters[..i])) + (if 0 < i < |parameters| then ", " else "")
  }

  /** One turn of the loop in `GetMethodSignature` writes one parameter and, unless it is the last, a separator. */
  lemma WrittenStep(parameters: seq<Parameter>, i: nat, head: string, before: string, pStr: string, after: string)
    requires i < |parameters| && pStr == ParameterSignature(parameters[i])
    requires before == head + Written(parameters, i)
    requires after == before + pStr + (if i < |parameters| - 1 then ", " else "")
    ensures after == head + Written(parameters, i + 1)
  {
    JoinedStep(parameters, i);
  }

  /** Joining one more parameter adds a separator (unless it is the first) and its text. */
  lemma JoinedStep(parameters: seq<Parameter>, i: nat)
    requires i < |parameters|
    ensures Join(Seqs.Map(ParameterSignature, parameters[..i + 1]))
         == Join(Seqs.Map(ParameterSignature, parameters[..i])) + (if i > 0 then ", " else "")
          + ParameterSignature(parameters[i])
  {
    var done := Seqs.Map(ParameterSignature, parameters[..i]);
    var items := Seqs.Map(ParameterSignature, parameters[..i + 1]);
    assert parameters[..i + 1] == parameters[..i] + [parameters[i]];
    Seqs.MapAppend(ParameterSignature, parameters[..i], [parameters[i]]);
    assert items == done + [ParameterSignature(parameters[i])];
    if i > 0 {
      assert items[..|items| - 1] == done;
    }
  }

  /** After the last parameter, the closing parenthesis completes the method's signature. */
  lemma Closed(m: Method, head: string, sig: string)
    requires head == StaticPrefix(m.isStatic) + m.returnType.display + " " + m.name + "("
    requires sig == head + Written(m.parameters, |m.parameters|)
    ensures sig + ")" == MethodSignature(m)
  {
    assert m.parameters[..|m.parameters|] == m.parameters;
  }

  /** The static flag of a field, an event or a method only adds the `static ` prefix. */
  lemma StaticOnlyPrefixes(f: Field, e: Event, m: Method)
    ensures FieldSignature(f) == StaticPrefix(f.isStatic) + FieldSignature(f.(isStatic := false))
    ensures EventSignature(e) == StaticPrefix(e.addIsStatic) + EventSignature(e.(addIsStatic := false))
    ensures MethodSignature(m) == StaticPrefix(m.isStatic) + MethodSignature(m.(isStatic := false))
  {
  }

  /** The accessor with both its static flag cleared. */
  function Instance(accessor: Option<Method>): Option<Method>
  {
    match accessor
    case None => None
    case Some(m) => Some(m.(isStatic := false))
  }

  /**
   * A property is printed `static ` exactly when its getter or its setter is
   * static; apart from that prefix the accessors' static flags change nothing.
   */
  lemma PropertyStaticPrefix(p: Property)
    ensures PropertySignature(p)
         == StaticPrefix(PropertyIsStatic(p))
          + PropertySignature(p.(getter := Instance(p.getter), setter := Instance(p.setter)))
  {
  }

  /** `out ` wins over `ref ` when a parameter carries both flags. */
  lemma OutBeforeRef(p: Parameter)
    requires p.isOut
    ensures ParameterSignature(p) == ParameterSignature(p.(isRetval := !p.isRetval))
  {
  }

  /**
   * Appending a parameter to a method that has some appends `, ` and the new
   * parameter's text just before the closing parenthesis.
   */
  lemma {:induction false} MethodSignatureAppend(m: Method, p: Parameter)
    requires |m.parameters| > 0
    ensures var sig := MethodSignature(m);
            MethodSignature(m.(parameters := m.parameters + [p]))
              == sig[..|sig| - 1] + ", " + ParameterSignature(p) + ")"
  {
    var items := Seqs.Map(ParameterSignature, m.parameters);
    var longer := m.(parameters := m.parameters + [p]);
    Seqs.MapAppend(ParameterSignature, m.parameters, [p]);
    assert Seqs.Map(ParameterSignature, longer.parameters) == items + [ParameterSignature(p)];
    JoinAppend(items, [ParameterSignature(p)]);
    var head := StaticPrefix(m.isStatic) + m.returnType.display + " " + m.name + "(" + Join(items);
    assert MethodSignature(m) == head + ")";
    assert MethodSignature(m)[..|MethodSignature(m)| - 1] == head;
  }
}
