/**
 * The type-level half of `Main`: the two lists of types present on one side
 * only, and the per-type comparisons of the types present on both sides
 * that found at least one difference. A surface is the dictionary
 * `GetAllTypes` builds, from full type name to type descriptor.
 */
module Surface {
  import opened Wrappers
  import opened Strings
  import opened Seqs
  import opened Descriptors
  import opened Differ

  /** `Dictionary<string, Type>`: full name to type. */
  type Snapshot = map<string, TypeDesc>

  /** `GetAllTypes` files every type under its own full name. */
  predicate WellFormed(types: Snapshot)
  {
    forall k :: k in types ==> types[k].fullName == k
  }

  /** Strict ordinal order. */
  predicate Less(a: string, b: string)
  {
    LessEq(a, b) && a != b
  }

  predicate StrictlyAscending(s: seq<string>)
  {
    forall i, j :: 0 <= i < j < |s| ==> Less(s[i], s[j])
  }

  lemma Antisymmetric()
    ensures forall a, b :: LessEq(a, b) && LessEq(b, a) ==> a == b
  {
    forall a, b | LessEq(a, b) && LessEq(b, a) ensures a == b {
      LessEqAntisymmetric(a, b);
    }
  }

  /** `k` is no greater than any name of `keys`. */
  predicate IsLeast(k: string, keys: set<string>)
  {
    forall k2 :: k2 in keys ==> LessEq(k, k2)
  }

  /** Adding a name to a set with a least element keeps the smaller of the two least. */
  lemma LeastOfAdded(x: string, m: string, rest: set<string>)
    requires IsLeast(m, rest) && m in rest
    ensures LessEq(x, m) ==> IsLeast(x, rest + {x})
    ensures !LessEq(x, m) ==> IsLeast(m, rest + {x})
  {
    LessEqTotal(x, m);
    if LessEq(x, m) {
      LessEqReflexive(x);
      forall k2 | k2 in rest ensures LessEq(x, k2) {
        LessEqTransitive(x, m, k2);
      }
    }
  }

  /** A non-empty set of names has a least one. */
  lemma {:induction false} LeastExists(keys: set<string>)
    requires keys != {}
    ensures exists k :: k in keys && IsLeast(k, keys)
    decreases |keys|
  {
    var x :| x in keys;
    if keys == {x} {
      LessEqReflexive(x);
      assert IsLeast(x, keys);
    } else {
      var rest := keys - {x};
      LeastExists(rest);
      var m :| m in rest && IsLeast(m, rest);
      LeastOfAdded(x, m, rest);
      assert keys == rest + {x};
    }
  }

  /** The least name of a non-empty set. */
  function Least(keys: set<string>): (k: string)
    requires keys != {}
    ensures k in keys && forall k2 :: k2 in keys ==> LessEq(k, k2)
  {
    LeastExists(keys);
    Antisymmetric();
    var k :| k in keys && IsLeast(k, keys);
    k
  }

  /** `orderby p.Key` over a set of keys: every key once, in ascending order. */
  function Ascending(keys: set<string>): (r: seq<string>)
    ensures |r| == |keys|
    ensures forall k :: k in r <==> k in keys
    ensures StrictlyAscending(r)
    decreases |keys|
  {
    if keys == {} then []
    else
      var k := Least(keys);
      var rest := Ascending(keys - {k});
      LeastFirst(k, keys, rest);
      [k] + rest
  }

  /** The least key, put before the other keys in ascending order, gives all of them in ascending order. */
  lemma LeastFirst(k: string, keys: set<string>, rest: seq<string>)
    requires k in keys && IsLeast(k, keys)
    requires |rest| == |keys - {k}| && (forall x :: x in rest <==> x in keys - {k}) && StrictlyAscending(rest)
    ensures |[k] + rest| == |keys|
    ensures forall x :: x in [k] + rest <==> x in keys
    ensures StrictlyAscending([k] + rest)
  {
    forall j | 0 <= j < |rest| ensures Less(k, rest[j]) {
      assert rest[j] in keys - {k};
    }
    var r := [k] + rest;
    forall i, j | 0 <= i < j < |r| ensures Less(r[i], r[j]) {
      if i > 0 {
        assert r[i] == rest[i - 1] && r[j] == rest[j - 1];
      }
    }
  }

  /** `select p.Value.FullName` over keys in the given order. */
  function FullNames(types: Snapshot, keys: seq<string>): (r: seq<string>)
    requires forall k :: k in keys ==> k in types
    ensures |r| == |keys| && forall i :: 0 <= i < |keys| ==> r[i] == types[keys[i]].fullName
  {
    if keys == [] then [] else [types[keys[0]].fullName] + FullNames(types, keys[1..])
  }

  /** `select new { XNAType = p.Value, FNAType = fnaTypes[p.Key] }` over keys in the given order. */
  function Pairs(xnaTypes: Snapshot, fnaTypes: Snapshot, keys: seq<string>): (r: seq<(TypeDesc, TypeDesc)>)
    requires forall k :: k in keys ==> k in xnaTypes && k in fnaTypes
    ensures |r| == |keys| && forall i :: 0 <= i < |keys| ==> r[i] == (xnaTypes[keys[i]], fnaTypes[keys[i]])
  {
    if keys == [] then [] else [(xnaTypes[keys[0]], fnaTypes[keys[0]])] + Pairs(xnaTypes, fnaTypes, keys[1..])
  }

  /** The full names of the types of `types` whose key `others` lacks, by key. */
  function TypesOnlyIn(types: Snapshot, others: Snapshot): seq<string>
  {
    FullNames(types, Ascending(types.Keys - others.Keys))
  }

  /** The types present on both sides, as (XNA, FNA) pairs by key. */
  function MatchedTypes(xnaTypes: Snapshot, fnaTypes: Snapshot): seq<(TypeDesc, TypeDesc)>
  {
    Pairs(xnaTypes, fnaTypes, Ascending(xnaTypes.Keys * fnaTypes.Keys))
  }

  /** `!typeResults.IsEmpty()`: the comparison found some difference. */
  predicate HasDifference(d: TypeDiff)
  {
    !d.IsEmpty()
  }

  /** `if (!typeResults.IsEmpty()) results.TypeComparisons.Add(typeResults)`. */
  function Kept(d: TypeDiff): seq<TypeDiff>
  {
    if d.IsEmpty() then [] else [d]
  }

  /** The comparison of one matched pair. */
  function Compared(pair: (TypeDesc, TypeDesc)): TypeDiff
  {
    DiffTypes(pair.0, pair.1)
  }

  /** The comparisons of the pairs, in order, keeping those that found a difference. */
  function Comparisons(pairs: seq<(TypeDesc, TypeDesc)>): seq<TypeDiff>
  {
    Filter(Map(Compared, pairs), HasDifference)
  }

  /** One more pair extends the kept comparisons, after whatever came before them, by at most its own. */
  lemma ComparisonsStep(start: seq<TypeDiff>, pairs: seq<(TypeDesc, TypeDesc)>, i: nat)
    requires i < |pairs|
    ensures start + Comparisons(pairs[..i + 1]) == start + Comparisons(pairs[..i]) + Kept(Compared(pairs[i]))
  {
    var d := Compared(pairs[i]);
    TakeSnoc(pairs, i);
    MapSnoc(Compared, pairs[..i], pairs[i]);
    FilterAppend(Map(Compared, pairs[..i]), d, HasDifference);
    AppendAssociative(start, Comparisons(pairs[..i]), Kept(d));
  }

  /** The contents of a `Results`, as a value. */
  datatype Report = Report(typesNotInFNA: seq<string>, typesExtraInFNA: seq<string>, typeComparisons: seq<TypeDiff>)

  /** What `Main` gathers before it writes the report. */
  function DiffSurfaces(xnaTypes: Snapshot, fnaTypes: Snapshot): Report
  {
    Report(TypesOnlyIn(xnaTypes, fnaTypes), TypesOnlyIn(fnaTypes, xnaTypes),
           Comparisons(MatchedTypes(xnaTypes, fnaTypes)))
  }

  /** The comparison of a pair is filed under the XNA type's full name. */
  lemma ComparedName(pair: (TypeDesc, TypeDesc))
    ensures Compared(pair).typeName == pair.0.fullName
  {
  }

  /** The kept comparisons are exactly the comparisons of the pairs that found a difference. */
  lemma ComparisonsMembers(pairs: seq<(TypeDesc, TypeDesc)>)
    ensures forall d :: d in Comparisons(pairs) <==>
              HasDifference(d) && exists i :: 0 <= i < |pairs| && d == Compared(pairs[i])
  {
    FilterMapMembers(pairs, Compared, HasDifference);
  }

  /** Pairs in strictly ascending order of XNA name give kept comparisons in strictly ascending order of type name. */
  lemma ComparisonsOrdered(pairs: seq<(TypeDesc, TypeDesc)>)
    requires forall i, j :: 0 <= i < j < |pairs| ==> Less(pairs[i].0.fullName, pairs[j].0.fullName)
    ensures var r := Comparisons(pairs);
            forall i, j :: 0 <= i < j < |r| ==> Less(r[i].typeName, r[j].typeName)
  {
    var before := (a: TypeDiff, b: TypeDiff) => Less(a.typeName, b.typeName);
    forall i, j | 0 <= i < j < |pairs| ensures before(Compared(pairs[i]), Compared(pairs[j])) {
      ComparedName(pairs[i]);
      ComparedName(pairs[j]);
    }
    FilterMapChain(pairs, Compared, HasDifference, before);
  }

  /**
   * With every type filed under its own full name, the two type lists are
   * the key differences: each lists exactly the keys of its side that the
   * other side lacks, once each, in ascending order.
   */
  lemma TypeListsAreKeyDifferences(xnaTypes: Snapshot, fnaTypes: Snapshot)
    requires WellFormed(xnaTypes) && WellFormed(fnaTypes)
    ensures var r := DiffSurfaces(xnaTypes, fnaTypes);
            && (forall k :: k in r.typesNotInFNA <==> k in xnaTypes && k !in fnaTypes)
            && (forall k :: k in r.typesExtraInFNA <==> k in fnaTypes && k !in xnaTypes)
            && StrictlyAscending(r.typesNotInFNA) && StrictlyAscending(r.typesExtraInFNA)
  {
    OnlyInKeys(xnaTypes, fnaTypes);
    OnlyInKeys(fnaTypes, xnaTypes);
  }

  lemma OnlyInKeys(types: Snapshot, others: Snapshot)
    requires WellFormed(types)
    ensures TypesOnlyIn(types, others) == Ascending(types.Keys - others.Keys)
  {
    var keys := Ascending(types.Keys - others.Keys);
    var names := TypesOnlyIn(types, others);
    forall i | 0 <= i < |keys| ensures names[i] == keys[i] {
      assert keys[i] in keys;
    }
  }

  /** With the XNA side well formed, matched pairs come in strictly ascending order of XNA name, each a key of both sides. */
  lemma MatchedInOrder(xnaTypes: Snapshot, fnaTypes: Snapshot)
    requires WellFormed(xnaTypes)
    ensures var pairs := MatchedTypes(xnaTypes, fnaTypes);
            forall i :: 0 <= i < |pairs| ==>
              && pairs[i].0.fullName in xnaTypes && pairs[i].0.fullName in fnaTypes
              && pairs[i] == (xnaTypes[pairs[i].0.fullName], fnaTypes[pairs[i].0.fullName])
    ensures var pairs := MatchedTypes(xnaTypes, fnaTypes);
            forall i, j :: 0 <= i < j < |pairs| ==> Less(pairs[i].0.fullName, pairs[j].0.fullName)
    ensures var pairs := MatchedTypes(xnaTypes, fnaTypes);
            forall k :: k in xnaTypes && k in fnaTypes ==> exists i :: 0 <= i < |pairs| && pairs[i] == (xnaTypes[k], fnaTypes[k])
  {
    var keys := Ascending(xnaTypes.Keys * fnaTypes.Keys);
    var pairs := MatchedTypes(xnaTypes, fnaTypes);
    forall i | 0 <= i < |pairs|
      ensures && pairs[i].0.fullName in xnaTypes && pairs[i].0.fullName in fnaTypes
              && pairs[i] == (xnaTypes[pairs[i].0.fullName], fnaTypes[pairs[i].0.fullName])
    {
      var k := keys[i];
      assert k in keys;
      assert pairs[i] == (xnaTypes[k], fnaTypes[k]);
      assert xnaTypes[k].fullName == k;
    }
    forall i, j | 0 <= i < j < |pairs| ensures Less(pairs[i].0.fullName, pairs[j].0.fullName) {
      assert keys[i] in keys && keys[j] in keys;
      assert pairs[i].0.fullName == keys[i] && pairs[j].0.fullName == keys[j];
      assert Less(keys[i], keys[j]);
    }
    forall k | k in xnaTypes && k in fnaTypes
      ensures exists i :: 0 <= i < |pairs| && pairs[i] == (xnaTypes[k], fnaTypes[k])
    {
      assert k in keys;
      var i :| 0 <= i < |keys| && keys[i] == k;
      assert pairs[i] == (xnaTypes[k], fnaTypes[k]);
    }
  }

  /**
   * Each kept comparison found a difference and is the comparison of the
   * types both sides file under its type name, a key of both sides (so
   * none of the keys of the two type lists).
   */
  lemma KeptAreMatched(xnaTypes: Snapshot, fnaTypes: Snapshot)
    requires WellFormed(xnaTypes)
    ensures forall d :: d in DiffSurfaces(xnaTypes, fnaTypes).typeComparisons ==>
              && HasDifference(d) && d.typeName in xnaTypes && d.typeName in fnaTypes
              && d == DiffTypes(xnaTypes[d.typeName], fnaTypes[d.typeName])
  {
    var pairs := MatchedTypes(xnaTypes, fnaTypes);
    MatchedInOrder(xnaTypes, fnaTypes);
    ComparisonsMembers(pairs);
    forall d | d in Comparisons(pairs)
      ensures d.typeName in xnaTypes && d.typeName in fnaTypes
      ensures d == DiffTypes(xnaTypes[d.typeName], fnaTypes[d.typeName])
    {
      var i :| 0 <= i < |pairs| && d == Compared(pairs[i]);
      var k := pairs[i].0.fullName;
      assert pairs[i] == (xnaTypes[k], fnaTypes[k]);
      ComparedName(pairs[i]);
      assert d.typeName == k;
    }
  }

  /** Every type of both sides whose comparison finds a difference is kept. */
  lemma MatchedDifferencesKept(xnaTypes: Snapshot, fnaTypes: Snapshot)
    ensures forall k :: k in xnaTypes && k in fnaTypes && HasDifference(DiffTypes(xnaTypes[k], fnaTypes[k])) ==>
              DiffTypes(xnaTypes[k], fnaTypes[k]) in DiffSurfaces(xnaTypes, fnaTypes).typeComparisons
  {
    var keys := Ascending(xnaTypes.Keys * fnaTypes.Keys);
    var pairs := MatchedTypes(xnaTypes, fnaTypes);
    ComparisonsMembers(pairs);
    forall k | k in xnaTypes && k in fnaTypes && HasDifference(DiffTypes(xnaTypes[k], fnaTypes[k]))
      ensures DiffTypes(xnaTypes[k], fnaTypes[k]) in Comparisons(pairs)
    {
      assert k in keys;
      var i :| 0 <= i < |keys| && keys[i] == k;
      assert pairs[i] == (xnaTypes[k], fnaTypes[k]);
      assert Compared(pairs[i]) == DiffTypes(xnaTypes[k], fnaTypes[k]);
    }
  }

  /** With the XNA side well formed, the kept comparisons come in strictly ascending order of type name. */
  lemma KeptInKeyOrder(xnaTypes: Snapshot, fnaTypes: Snapshot)
    requires WellFormed(xnaTypes)
    ensures var r := DiffSurfaces(xnaTypes, fnaTypes).typeComparisons;
            forall i, j :: 0 <= i < j < |r| ==> Less(r[i].typeName, r[j].typeName)
  {
    MatchedInOrder(xnaTypes, fnaTypes);
    ComparisonsOrdered(MatchedTypes(xnaTypes, fnaTypes));
  }

  /** A surface compared with itself yields an empty report when each type's member names are unique per kind. */
  lemma DiffSurfacesSelf(types: Snapshot)
    requires forall k :: k in types ==> UniqueMemberNames(types[k])
    ensures DiffSurfaces(types, types) == Report([], [], [])
  {
    var keys := Ascending(types.Keys * types.Keys);
    var pairs := MatchedTypes(types, types);
    var images := Map(Compared, pairs);
    forall i | 0 <= i < |images| ensures !HasDifference(images[i]) {
      var k := keys[i];
      assert k in keys;
      assert pairs[i] == (types[k], types[k]);
      DiffTypesSelf(types[k]);
    }
    FilterNone(images, HasDifference);
    assert types.Keys - types.Keys == {};
  }

  /** The values of a list of `TypeResults`, in order. */
  function Values(trs: seq<TypeResults>): seq<TypeDiff>
    reads trs
  {
    if trs == [] then [] else Values(trs[..|trs| - 1]) + [trs[|trs| - 1].Value()]
  }

  lemma ValuesStep(trs: seq<TypeResults>, t: TypeResults)
    ensures Values(trs + [t]) == Values(trs) + [t.Value()]
  {
    assert (trs + [t])[..|trs|] == trs;
  }

  /** `Values` depends only on the lists' own objects. */
  twostate lemma {:induction false} ValuesUnchanged(trs: seq<TypeResults>)
    requires forall i :: 0 <= i < |trs| ==> unchanged(trs[i])
    ensures Values(trs) == old(Values(trs))
  {
    if trs != [] {
      var last := trs[|trs| - 1];
      assert forall i :: 0 <= i < |trs| - 1 ==> trs[..|trs| - 1][i] == trs[i];
      ValuesUnchanged(trs[..|trs| - 1]);
      assert last.Value() == old(last.Value());
    }
  }

  /** `Results`: the two type lists and the kept per-type comparisons. */
  class Results {
    var typesNotInFNA: seq<string>
    var typesExtraInFNA: seq<string>
    var typeComparisons: seq<TypeResults>

    constructor ()
      ensures typesNotInFNA == [] && typesExtraInFNA == [] && typeComparisons == []
    {
      typesNotInFNA, typesExtraInFNA, typeComparisons := [], [], [];
    }

    /** The current contents, as a value. */
    function Value(): Report
      reads this, typeComparisons
    {
      Report(typesNotInFNA, typesExtraInFNA, Values(typeComparisons))
    }

    /** `TypeComparisons.Add`: the list gains one entry at its end, the rest stays. */
    method Add(typeResults: TypeResults)
      modifies this
      ensures typesNotInFNA == old(typesNotInFNA) && typesExtraInFNA == old(typesExtraInFNA)
      ensures typeComparisons == old(typeComparisons) + [typeResults]
      ensures Values(typeComparisons) == old(Values(typeComparisons) + [typeResults.Value()])
    {
      label before:
      ValuesStep(typeComparisons, typeResults);
      typeComparisons := typeComparisons + [typeResults];
      ValuesUnchanged@before(typeComparisons);
    }
  }

  /** A fresh `TypeResults` named after the XNA type, once compared, holds exactly `DiffTypes`. */
  lemma ExtendEmpty(name: string, d: TypeDiff)
    requires name == d.typeName
    ensures TypeDiff(name, [], [], [], [], [], [], [], []).Extend(d) == d
  {
  }

  /** The body of `Main`'s loop for one matched type: a new `TypeResults`, filled by `CompareTypes`. */
  method CompareOne(xnaType: TypeDesc, fnaType: TypeDesc) returns (typeResults: TypeResults)
    ensures fresh(typeResults)
    ensures typeResults.Value() == DiffTypes(xnaType, fnaType)
  {
    typeResults := new TypeResults(xnaType.fullName);
    CompareTypes(xnaType, fnaType, typeResults);
    ExtendEmpty(xnaType.fullName, DiffTypes(xnaType, fnaType));
  }

  /** One pass of `Main`'s loop: compare one matched pair and keep its `TypeResults` if it found a difference. */
  method CompareStep(pair: (TypeDesc, TypeDesc), results: Results)
    modifies results
    ensures results.typesNotInFNA == old(results.typesNotInFNA)
    ensures results.typesExtraInFNA == old(results.typesExtraInFNA)
    ensures Values(results.typeComparisons) == old(Values(results.typeComparisons)) + Kept(Compared(pair))
  {
    label before:
    var typeResults := CompareOne(pair.0, pair.1);
    ValuesUnchanged@before(results.typeComparisons);
    ghost var d := typeResults.Value();
    if !typeResults.IsEmpty() {
      assert Kept(d) == [d];
      results.Add(typeResults);
    } else {
      assert Kept(d) == [];
    }
  }

  /** `Main`'s loop over the matched types, in order. */
  method CompareMatched(matchedTypes: seq<(TypeDesc, TypeDesc)>, results: Results)
    modifies results
    ensures results.typesNotInFNA == old(results.typesNotInFNA)
    ensures results.typesExtraInFNA == old(results.typesExtraInFNA)
    ensures Values(results.typeComparisons) == old(Values(results.typeComparisons)) + Comparisons(matchedTypes)
  {
    ghost var start := Values(results.typeComparisons);
    var i := 0;
    while i < |matchedTypes|
      invariant 0 <= i <= |matchedTypes|
      invariant results.typesNotInFNA == old(results.typesNotInFNA)
      invariant results.typesExtraInFNA == old(results.typesExtraInFNA)
      invariant Values(results.typeComparisons) == start + Comparisons(matchedTypes[..i])
    {
      CompareStep(matchedTypes[i], results);
      ComparisonsStep(start, matchedTypes, i);
      i := i + 1;
    }
    assert matchedTypes[..|matchedTypes|] == matchedTypes;
  }

  /** `Main`, lines 45-72: both type lists, then the comparisons of the matched types. */
  method CompareSnapshots(xnaTypes: Snapshot, fnaTypes: Snapshot) returns (results: Results)
    ensures fresh(results)
    ensures results.Value() == DiffSurfaces(xnaTypes, fnaTypes)
  {
    results := new Results();
    results.typesNotInFNA := results.typesNotInFNA + TypesOnlyIn(xnaTypes, fnaTypes);
    results.typesExtraInFNA := results.typesExtraInFNA + TypesOnlyIn(fnaTypes, xnaTypes);
    assert results.typesNotInFNA == TypesOnlyIn(xnaTypes, fnaTypes);
    assert results.typesExtraInFNA == TypesOnlyIn(fnaTypes, xnaTypes);
    assert Values(results.typeComparisons) == [];
    var matchedTypes := MatchedTypes(xnaTypes, fnaTypes);
    CompareMatched(matchedTypes, results);
    assert Values(results.typeComparisons) == Comparisons(matchedTypes);
  }
}
