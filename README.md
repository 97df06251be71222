# XNA4SpecTest: a verified model of the API surface comparison

XNA4SpecTest compares the public API surface of Microsoft's XNA 4.0
framework with that of FNA, a reimplementation of it. It loads both sets
of assemblies and indexes every exported type by its full name. It then
reports four things:

- the types that only XNA has;
- the types that only FNA has;
- for each type that both have, the fields, properties, events and
  methods that one side lacks;
- for each such member, its printed signature.

An XNA type and its FNA counterpart come from different assemblies, so
they do not compare by identity. At the type level they match by their
raw `FullName`, the dictionary key. Inside member comparisons, a
referenced type matches by its `FullName` after `CleanString`. That is
the type of a field, property or event, a method's return type, or a
parameter's type. `CleanString` strips the XNA or FNA assembly qualifier
that reflection may append, for instance inside generic arguments.

This project models that comparison in Dafny. Reflection objects become
plain descriptors (`Descriptors`): a type, a field, a property, an event,
a method, a parameter and a type reference. A type reference keeps both
`Type.FullName`, which may be null, and the `ToString()` text that the
report prints. A loaded surface is a `Snapshot`: the dictionary
`GetAllTypes` builds, from full name to type descriptor, given as an
input.

The modules follow `Program.cs`:

- `Names`: `CleanString`.
- `Equivalence`: the four "are different" rules.
- `Signatures`: the `GetSignature` extension methods.
- `Differ`: `CompareTypes` and the `TypeResults` class.
- `Surface`: the type-level part of `Main` and the `Results` class.
- `Strings`, `Seqs` and `Wrappers`: general list and string helpers.

Where the source works step by step, the model does too:

- `CleanString`, `AreMethodsDifferent` and the method renderer
  `GetSignature(MethodInfo)` are methods, because each has a loop.
- The property renderer `GetSignature(PropertyInfo)` is a method too,
  because it builds its text by successive appends.
- Each of these four methods is proved equal to a specification
  function.
- `TypeResults` and `Results` are classes whose list fields the methods
  append to.
- `Main`'s loop over the matched types is a `while` loop. Its invariant
  ties the results built so far to the specification `DiffSurfaces`.

The LINQ queries are pure, and are modelled as functions:

- `Filter`;
- `SortBy`, a stable insertion sort standing for `orderby`;
- `FirstNamed`, standing for `FirstOrDefault` by name;
- `FirstEquivalent`, standing for `FirstOrDefault` by signature.

## Model

| member | source | states |
|---|---|---|
| Names.CleanString | Program.cs:173-195 | The looping method returns exactly `CleanName`: null for null; otherwise the name cut at the last occurrence of the first marker it contains, in the order XNA then FNA. |
| Names.CleanNameCases | Program.cs:173-195 | There are three outcomes. Null stays null. A name with neither marker comes back unchanged. Otherwise the result is the strict prefix ending just before the last occurrence of the first marker the name contains; that marker occurs there and at no later position. |
| Names.XnaQualifiedName | Program.cs:179-192 | `s + ", Microsoft.Xna.Framework" + t` cleans to `s` when neither `s` nor `t` contains that marker. |
| Names.FnaQualifiedName | Program.cs:179-192 | `s + ", MonoGame.Framework" + t` cleans to `s` when neither part contains either marker. The XNA marker, tried first, cannot occur in such a name. |
| Names.QualifiedNamesAgree | Program.cs:173-195 | An XNA-qualified and an FNA-qualified spelling of the same type name clean to the same key, the unqualified name. |
| Strings.LastIndexOf | Program.cs:188-190 | It returns -1 exactly when the pattern does not occur. Otherwise it returns an occurrence with no later occurrence. |
| Strings.JoinAppend | Program.cs:472-493 | Joining two non-empty runs of parameter texts puts exactly one `, ` between them. |
| Equivalence.NullHandling | Program.cs:246-343 | The four null tests, at lines 246-249, 272-275, 309-312 and 335-343: a field, property, event or method compared with null always differs, on either side. Two null methods match. |
| Equivalence.FieldsDifferentIff | Program.cs:244-268 | Two fields differ exactly when their name, cleaned type name or static flag differ. |
| Equivalence.IndexerLeniency | Program.cs:282-286 | Two properties both named `Item` never differ, whatever their types and accessors. |
| Equivalence.PropertiesDifferentIff | Program.cs:270-305 | Any other two properties differ exactly when one of these differs: name, cleaned property type name, getter pair (by the method rule) or setter pair. |
| Equivalence.EventsDifferentIff | Program.cs:307-331 | Two events differ exactly when their name, cleaned handler type name or add-accessor static flag differ. |
| Equivalence.AreMethodsDifferent | Program.cs:333-393 | The method with the parameter loop returns exactly `MethodsDiffer`: two nulls match, one null differs, and two methods differ unless their signatures agree. |
| Equivalence.MethodsDifferIff | Program.cs:345-392 | Two methods differ exactly when their keys differ. The key is the name, the cleaned return type name, and for each parameter its cleaned type name and its `IsRetval`, `IsOut` and `IsOptional` flags. |
| Equivalence.MethodsDifferIgnoresStaticAndParameterNames | Program.cs:345-392 | Renaming a method's parameters or changing its own static flag never changes the outcome. |
| Equivalence.Reflexive | Program.cs:244-393 | No field, property, event or method differs from itself. |
| Equivalence.Symmetric | Program.cs:244-331 | The field, property and event rules give the same answer with their arguments swapped. |
| Equivalence.MethodsDifferSymmetric | Program.cs:333-393 | The method rule gives the same answer with its arguments swapped. |
| Equivalence.SameSignatureTransitive | Program.cs:345-392 | Matching signatures is transitive, so the first equivalent overload found is as good as any other. |
| Signatures.GetPropertySignature | Program.cs:423-448 | The method that builds the property text step by step returns exactly `PropertySignature`. |
| Signatures.GetMethodSignature | Program.cs:462-498 | The method with the parameter loop returns exactly `MethodSignature`: the static prefix, return type, name, and the parameter texts joined by `, ` in parentheses. |
| Signatures.StaticOnlyPrefixes | Program.cs:413-469 | A field's, event's or method's static flag only adds the `static ` prefix to its text. |
| Signatures.PropertyStaticPrefix | Program.cs:429-434 | A property is printed `static ` exactly when its getter or setter is static. Apart from that prefix, the accessors' static flags change nothing. |
| Signatures.OutBeforeRef | Program.cs:476-485 | `out ` wins over `ref `: for an out parameter, the `IsRetval` flag does not change its text. |
| Signatures.MethodSignatureAppend | Program.cs:472-495 | Appending a parameter to a method that already has some inserts `, ` and the new parameter's text just before the closing parenthesis. |
| Differ.FirstNamedSpec | Program.cs:202 | `FirstOrDefault` by name finds nothing exactly when no member has the name. Otherwise it finds the first member with the name, and under unique names the only one. |
| Differ.FirstEquivalentSpec | Program.cs:235 | `FirstOrDefault(m2 => !AreMethodsDifferent(m, m2))` finds nothing exactly when every candidate differs. Otherwise it finds the first candidate that matches: every candidate before it differs. |
| Differ.UnmatchedMembers | Program.cs:201-230 | A field, property or event is listed exactly when it belongs to its side and the rule reports a difference against the first same-named member of the other side (null when there is none). The list is sorted by name and no longer than its side. |
| Differ.UnmatchedUnique | Program.cs:201-230 | When the other side's names are unique, a member is listed exactly when every same-named member of the other side differs from it. |
| Differ.UnmatchedSelf | Program.cs:201-230 | Comparing a side with itself lists nothing when names are unique. |
| Differ.MissingMethodsMembers | Program.cs:232-241 | A method is listed exactly when it is a non-special-name method of its side and every non-special-name method of the other side differs from it. The list is sorted by name and no longer than its side. |
| Differ.MissingMethodsSelf | Program.cs:232-241 | Comparing a method list with itself lists nothing. |
| Differ.FieldsSelf | Program.cs:199-208 | A field list compared with itself lists nothing when its names are unique. |
| Differ.PropertiesSelf | Program.cs:210-219 | A property list compared with itself lists nothing when no name other than `Item` repeats. Several indexers may all be named `Item`, because two `Item` properties never differ. |
| Differ.UnmatchedNone | Program.cs:201-230 | Nothing is listed when the rule finds no member different from the first same-named member of the other side. |
| Differ.EventsSelf | Program.cs:221-230 | An event list compared with itself lists nothing when its names are unique. |
| Differ.DiffTypesSelf | Program.cs:197-242 | A type compared with itself fills none of the eight lists, so it is not reported, when its field and event names are unique and only indexers share a property name. |
| Differ.TypeResults.constructor | Program.cs:509-523 | A new `TypeResults` holds the given type name and eight empty lists. |
| Differ.TypeResults.AddRange | Program.cs:201-240 | Each of the eight lists has the new entries appended at its end. The type name stays. |
| Differ.TypeResults.IsEmpty | Program.cs:525-536 | It holds exactly when all eight lists are empty. |
| Differ.CompareTypes | Program.cs:197-242 | Each list of the given `TypeResults` is extended by the corresponding query result: missing members on each side, mapped to their signatures. |
| Seqs.SortByCorrect | Program.cs:203 | `orderby` returns a permutation of its input, sorted by the key. A value is in the result exactly when it is in the input. |
| Seqs.SortByStable | Program.cs:236 | `orderby` is stable: the elements sharing one key, such as method overloads, keep their relative order. |
| Seqs.SortByDistinct | Program.cs:203 | Sorting keeps keys distinct when they were. |
| Seqs.FilterDistinct | Program.cs:202 | Filtering keeps keys distinct when they were. |
| Surface.TypeListsAreKeyDifferences | Program.cs:45-54 | When every type is filed under its own full name, each type list holds exactly the keys of its side that the other side lacks, in strictly ascending order. |
| Surface.OnlyInKeys | Program.cs:45-54 | A type list is the ascending listing of its side's keys minus the other side's keys. |
| Surface.MatchedInOrder | Program.cs:57-60 | The matched pairs are `(xna[k], fna[k])` for the keys `k` of both sides, each such key once, in strictly ascending order. |
| Surface.ComparisonsMembers | Program.cs:63-72 | The kept comparisons are exactly the comparisons of the matched pairs that found a difference. |
| Surface.ComparisonsOrdered | Program.cs:63-72 | Pairs in strictly ascending order of XNA name give kept comparisons in strictly ascending order of type name. |
| Surface.ComparedName | Program.cs:65 | A pair's comparison is filed under the XNA type's full name. |
| Surface.KeptAreMatched | Program.cs:63-72 | Each kept comparison found a difference. It is the comparison of the two types that both sides file under its type name. |
| Surface.MatchedDifferencesKept | Program.cs:63-72 | Every type of both sides whose comparison finds a difference is kept. |
| Surface.KeptInKeyOrder | Program.cs:57-72 | The kept comparisons come in strictly ascending order of type name. |
| Surface.DiffSurfacesSelf | Program.cs:45-72 | A surface compared with itself gives an empty report, when field and event names are unique per type and property names are unique except for indexers. |
| Surface.ComparisonsStep | Program.cs:63-72 | One more loop pass appends to the kept list exactly the new pair's comparison when it found a difference, and nothing otherwise. |
| Surface.Results.constructor | Program.cs:24 | A new `Results` has three empty lists. |
| Surface.Results.Add | Program.cs:70 | `TypeComparisons.Add` appends one entry. Every other list and every entry already present stay as they were. |
| Surface.CompareOne | Program.cs:65-66 | A fresh `TypeResults`, filled by `CompareTypes`, holds exactly the type comparison `DiffTypes`. |
| Surface.CompareStep | Program.cs:63-71 | One loop pass keeps its `TypeResults` exactly when it is not empty. The type lists do not change. |
| Surface.CompareMatched | Program.cs:63-72 | The loop appends the kept comparisons of all matched pairs, in order. |
| Surface.CompareSnapshots | Program.cs:24-72 | `Main`'s comparison, run on two snapshots, leaves a fresh `Results` equal to `DiffSurfaces`. Its properties are the Surface lemmas above. |
| Strings.LessEqTotal | Program.cs:47 | The ordinal key order is total. |
| Strings.LessEqTransitive | Program.cs:47 | The ordinal key order is transitive. |
| Strings.LessEqAntisymmetric | Program.cs:47 | The ordinal key order is antisymmetric. |

## Left out

- `GetAllTypes` (`Program.cs:395-408`) is not modelled; the snapshot is an input. Its guarantee, that every type is filed under its own full name, is the predicate `WellFormed`. When two assemblies export the same full name, the later one overwrites the earlier; that is not modelled.
- Loading the assemblies (`Program.cs:27-42`) is I/O and is left out.
- Writing the report through a `StreamWriter` (`Program.cs:74-169`) is I/O and is left out. The report's contents are modelled as the `Results` value and the signature texts.
- `Type.ToString()` and `Type.FullName` are inputs: each type reference carries both strings. How reflection produces them, including generic and nested type names, is not modelled.
- Reflection itself is not modelled: which members `GetFields`, `GetProperties`, `GetEvents` and `GetMethods` return, and in what order. The descriptor lists stand for those results in source order.
- Seqs.SortByCorrect: LINQ `orderby` on strings uses the current culture's collation. The model orders by ordinal character order, so, for other cultures, orders may differ.
- Strings.LastIndexOf: `String.LastIndexOf(string)` is culture-sensitive in .NET. It is modelled as an ordinal search, which agrees for the two ASCII markers `CleanString` looks for.
- Equivalence.AreFieldsDifferent: the source dereferences both arguments once its one-null test passes, so two nulls would throw. The model requires at least one argument to be present. `ArePropertiesDifferent` and `AreEventsDifferent` are the same, and `CompareTypes` never passes two nulls.
- Equivalence.AreEventsDifferent: an event without an add accessor makes `GetAddMethod()` null and the source throw. The model takes the add accessor's static flag as given.
- Seqs.SortByDistinct: the member lists are sorted by name but not always strictly, and strict order is proved only for lists whose names are unique. Method overloads share a name, so the method lists are not strictly ascending; overloads stay in source order. Likewise a type with several indexers has several properties named `Item`, for instance `this[int]` and `this[string]`.
- Surface.CompareMatched: `Main`'s `foreach` over the matched types is modelled as a `while` over the matched list. Its body is factored into `CompareStep` and `CompareOne`.
