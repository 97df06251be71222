/**
 * `CleanString`: removes the assembly qualifier that reflection appends to
 * the full names of types from the XNA or the FNA assembly (inside generic
 * arguments, for instance), so that the two sides compare by name.
 */
module Names {
  import opened Wrappers
  import opened Strings

  const XnaIndicator: string := ", Microsoft.Xna.Framework"
  const FnaIndicator: string := ", MonoGame.Framework"

  /** The markers tried, in this order. */
  const AssemblyIndicators: seq<string> := [XnaIndicator, FnaIndicator]

  /** The first marker of `indicators` that `s` contains decides: cut at its last occurrence. */
  function CleanWith(s: string, indicators: seq<string>): string
  {
    if indicators == [] then s
    else if Contains(s, indicators[0]) then s[..LastIndexOf(s, indicators[0])]
    else CleanWith(s, indicators[1..])
  }

  /** The value `CleanString` returns. */
  function CleanName(fullName: Option<string>): Option<string>
  {
    match fullName
    case None => None
    case Some(s) => Some(CleanWith(s, AssemblyIndicators))
  }

  /** Marker `k` is the first one, in list order, that `s` contains. */
  predicate FirstContained(s: string, indicators: seq<string>, k: int)
  {
    0 <= k < |indicators| && Contains(s, indicators[k])
    && forall j :: 0 <= j < k ==> !Contains(s, indicators[j])
  }

  lemma {:induction false} CleanWithNoMarker(s: string, indicators: seq<string>)
    requires forall k :: 0 <= k < |indicators| ==> !Contains(s, indicators[k])
    ensures CleanWith(s, indicators) == s
    decreases |indicators|
  {
    if indicators != [] {
      assert !Contains(s, indicators[0]);
      CleanWithNoMarker(s, indicators[1..]);
    }
  }

  lemma {:induction false} CleanWithFirstMarker(s: string, indicators: seq<string>, k: int)
    requires FirstContained(s, indicators, k)
    ensures CleanWith(s, indicators) == s[..LastIndexOf(s, indicators[k])]
    decreases k
  {
    if k > 0 {
      assert !Contains(s, indicators[0]);
      assert FirstContained(s, indicators[1..], k - 1);
      CleanWithFirstMarker(s, indicators[1..], k - 1);
    }
  }

  /**
   * The three outcomes of `CleanString`: null stays null; a name holding no
   * marker is returned unchanged; otherwise the result is the strict prefix
   * that ends just before the last occurrence of the first marker, in list
   * order, that the name contains.
   */
  lemma CleanNameCases(fullName: Option<string>)
    ensures fullName.None? ==> CleanName(fullName) == None
    ensures fullName.Some?
         && (forall k :: 0 <= k < |AssemblyIndicators| ==> !Contains(fullName.value, AssemblyIndicators[k]))
         ==> CleanName(fullName) == fullName
    ensures forall k :: fullName.Some? && FirstContained(fullName.value, AssemblyIndicators, k) ==>
              var s, p := fullName.value, LastIndexOf(fullName.value, AssemblyIndicators[k]);
              && CleanName(fullName) == Some(s[..p])
              && OccursAt(s, AssemblyIndicators[k], p)
              && (forall q :: p < q ==> !OccursAt(s, AssemblyIndicators[k], q))
              && p < |s|
  {
    if fullName.Some? {
      var s := fullName.value;
      if forall k :: 0 <= k < |AssemblyIndicators| ==> !Contains(s, AssemblyIndicators[k]) {
        CleanWithNoMarker(s, AssemblyIndicators);
      }
      forall k | FirstContained(s, AssemblyIndicators, k)
        ensures CleanName(fullName) == Some(s[..LastIndexOf(s, AssemblyIndicators[k])])
      {
        CleanWithFirstMarker(s, AssemblyIndicators, k);
      }
    }
  }

  /** A marker that starts with the only comma it contains. */
  predicate CommaLed(m: string)
  {
    |m| > 0 && m[0] == ',' && forall i :: 1 <= i < |m| ==> m[i] != ','
  }

  /** An occurrence of `m` at `at` puts `m[i]` at `at + i`. */
  lemma CharOfOccurrence(x: string, m: string, at: int, i: int)
    ensures OccursAt(x, m, at) && 0 <= i < |m| ==> x[at + i] == m[i]
  {
    if OccursAt(x, m, at) && 0 <= i < |m| {
      assert x[at + i] == x[at..at + |m|][i];
    }
  }

  /** An occurrence of a comma-led marker puts a comma at its start and nowhere else in its span. */
  lemma CommasOfOccurrence(x: string, m: string, at: int)
    requires CommaLed(m) && OccursAt(x, m, at)
    ensures x[at] == ','
    ensures forall i :: at < i < at + |m| ==> x[i] != ','
  {
    CharOfOccurrence(x, m, at, 0);
    forall i | at < i < at + |m| ensures x[i] != ',' {
      CharOfOccurrence(x, m, at, i - at);
    }
  }

  /** An occurrence inside the first part of a concatenation is an occurrence in that part. */
  lemma OccursInPrefix(s: string, rest: string, q: string, at: int)
    requires OccursAt(s + rest, q, at)
    ensures at + |q| <= |s| ==> OccursAt(s, q, at)
  {
    if at + |q| <= |s| {
      assert s[at..at + |q|] == (s + rest)[at..at + |q|];
    }
  }

  /** An occurrence inside the second part of a concatenation is an occurrence in that part. */
  lemma OccursInSuffix(pre: string, t: string, q: string, at: int)
    requires OccursAt(pre + t, q, at)
    ensures at >= |pre| ==> OccursAt(t, q, at - |pre|)
  {
    if at >= |pre| {
      var u := at - |pre|;
      assert t[u..u + |q|] == (pre + t)[at..at + |q|];
    }
  }

  /**
   * In `s + m + t`, a comma-led marker `q` absent from `s` and from `t` can
   * only occur where the comma-led `m` starts.
   */
  lemma OccursOnlyAtQualifier(s: string, m: string, t: string, q: string, at: int)
    requires CommaLed(m) && CommaLed(q)
    requires !Contains(s, q) && !Contains(t, q)
    ensures OccursAt(s + m + t, q, at) ==> at == |s|
  {
    var x := s + m + t;
    if OccursAt(x, q, at) {
      assert x == s + (m + t) == (s + m) + t;
      assert x[|s|..|s| + |m|] == m;
      CommasOfOccurrence(x, m, |s|);
      CommasOfOccurrence(x, q, at);
      OccursInPrefix(s, m + t, q, at);
      OccursInSuffix(s + m, t, q, at);
    }
  }

  lemma MarkersCommaLed()
    ensures CommaLed(XnaIndicator) && CommaLed(FnaIndicator)
  {
    XnaCommaLed();
    FnaCommaLed();
  }

  lemma XnaCommaLed()
    ensures CommaLed(XnaIndicator)
  {
    assert ',' !in XnaIndicator[1..];
  }

  lemma FnaCommaLed()
    ensures CommaLed(FnaIndicator)
  {
    assert ',' !in FnaIndicator[1..];
  }

  /** The XNA marker makes the cut at its own position. */
  lemma XnaQualifiedName(s: string, t: string)
    requires !Contains(s, XnaIndicator) && !Contains(t, XnaIndicator)
    ensures CleanWith(s + XnaIndicator + t, AssemblyIndicators) == s
  {
    MarkersCommaLed();
    var x := s + XnaIndicator + t;
    assert x[|s|..|s| + |XnaIndicator|] == XnaIndicator;
    assert OccursAt(x, XnaIndicator, |s|);
    OccursOnlyAtQualifier(s, XnaIndicator, t, XnaIndicator, LastIndexOf(x, XnaIndicator));
    assert x[..|s|] == s;
  }

  /** A name qualified by the FNA marker holds no XNA marker, so the FNA marker makes the cut. */
  lemma FnaQualifiedName(s: string, t: string)
    requires !Contains(s, XnaIndicator) && !Contains(s, FnaIndicator)
    requires !Contains(t, XnaIndicator) && !Contains(t, FnaIndicator)
    ensures CleanWith(s + FnaIndicator + t, AssemblyIndicators) == s
  {
    MarkersCommaLed();
    var x := s + FnaIndicator + t;
    assert FnaIndicator[3] == 'o' && XnaIndicator[3] == 'i';
    assert x[|s| + 3] == FnaIndicator[3];
    forall at | 0 <= at <= |x| ensures !OccursAt(x, XnaIndicator, at) {
      OccursOnlyAtQualifier(s, FnaIndicator, t, XnaIndicator, at);
      CharOfOccurrence(x, XnaIndicator, at, 3);
    }
    assert x[|s|..|s| + |FnaIndicator|] == FnaIndicator;
    assert OccursAt(x, FnaIndicator, |s|);
    OccursOnlyAtQualifier(s, FnaIndicator, t, FnaIndicator, LastIndexOf(x, FnaIndicator));
    assert x[..|s|] == s;
    assert AssemblyIndicators[1..] == [FnaIndicator];
  }

  /**
   * A type name qualified by the XNA assembly and the same name qualified by
   * the FNA assembly clean to the same key, the unqualified name `s`, as
   * long as the qualifier texts after the markers hold no further marker.
   */
  lemma QualifiedNamesAgree(s: string, t1: string, t2: string)
    requires forall k :: 0 <= k < |AssemblyIndicators| ==> !Contains(s, AssemblyIndicators[k])
    requires !Contains(t1, XnaIndicator)
    requires forall k :: 0 <= k < |AssemblyIndicators| ==> !Contains(t2, AssemblyIndicators[k])
    ensures CleanName(Some(s + XnaIndicator + t1)) == Some(s)
    ensures CleanName(Some(s + FnaIndicator + t2)) == Some(s)
  {
    assert AssemblyIndicators[0] == XnaIndicator && AssemblyIndicators[1] == FnaIndicator;
    XnaQualifiedName(s, t1);
    FnaQualifiedName(s, t2);
  }

  /** `CleanString` as the source runs it: a loop over the markers that returns at the first one found. */
  method CleanString(fullName: Option<string>) returns (r: Option<string>)
    ensures r == CleanName(fullName)
  {
    if fullName.None? {
      return None;
    }
    var s := fullName.value;
    var indicators := AssemblyIndicators;
    var i := 0;
    while i < |indicators|
      invariant 0 <= i <= |indicators|
      invariant CleanWith(s, indicators[i..]) == CleanWith(s, indicators)
    {
      if Contains(s, indicators[i]) {
        return Some(s[..LastIndexOf(s, indicators[i])]);
      }
      assert indicators[i..][1..] == indicators[i + 1..];
      i := i + 1;
    }
    return Some(s);
  }
}
