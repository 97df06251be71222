/**
 * Descriptors standing in for the reflection objects the program reads
 * (`Type`, `FieldInfo`, `PropertyInfo`, `EventInfo`, `MethodInfo`,
 * `ParameterInfo`). Only the attributes the comparison and the report use
 * are kept.
 */
module Descriptors {
  import opened Wrappers

  /**
   * A reference to a type: `fullName` is `Type.FullName`, which reflection
   * leaves null for some types (generic parameters, for one); `display` is
   * what `Type.ToString()` gives, the text the report prints.
   */
  datatype TypeRef = TypeRef(fullName: Option<string>, display: string)

  datatype Parameter = Parameter(
    parameterType: TypeRef,
    name: string,
    isOut: bool,
    isRetval: bool,
    isOptional: bool)

  datatype Method = Method(
    name: string,
    returnType: TypeRef,
    isStatic: bool,
    isSpecialName: bool,
    parameters: seq<Parameter>)

  datatype Field = Field(name: string, fieldType: TypeRef, isStatic: bool)

  /** `getter` and `setter` are `GetGetMethod()` and `GetSetMethod()`: None when there is no public accessor. */
  datatype Property = Property(
    name: string,
    propertyType: TypeRef,
    getter: Option<Method>,
    setter: Option<Method>)

  /** `addIsStatic` is `GetAddMethod().IsStatic`. */
  datatype Event = Event(name: string, handlerType: TypeRef, addIsStatic: bool)

  /** An exported type, with its public members in the order reflection lists them. */
  datatype TypeDesc = TypeDesc(
    fullName: string,
    fields: seq<Field>,
    properties: seq<Property>,
    events: seq<Event>,
    methods: seq<Method>)

  function FieldName(f: Field): string { f.name }
  function PropertyName(p: Property): string { p.name }
  function EventName(e: Event): string { e.name }
  function MethodName(m: Method): string { m.name }
}
