/** Which LazySidecars a report is about: the labels a workload sends along and
    the selectors they are matched with. */
module LabelMatch {
  import opened GoStrings
  import opened Types

  const EXCLUDE_KEYS := [
    "pod-template-hash",
    "security.istio.io/tlsMode",
    "service.istio.io/canonical-name",
    "service.istio.io/canonical-revision",
    "istio.io/rev"]

  ghost predicate Excluded(key: string)
  {
    exists x :: x in EXCLUDE_KEYS && EqualFold(x, key)
  }

  /** The decoded source metadata; a label that is no string reads as "". */
  datatype Metadata = Metadata(labels: Option<map<string, string>>, namespace: string)

  ghost function KeptLabels(labels: map<string, string>): map<string, string>
  {
    map k | k in labels && !Excluded(k) && labels[k] != "" :: labels[k]
  }

  /** What `ParseWorkloadLabels` returns. Missing labels or a missing namespace
      do not stop the report: they give no labels and the empty namespace. */
  ghost function WorkloadLabels(metadata: Metadata): (map<string, string>, string)
  {
    if metadata.labels.None? || metadata.labels.value == map[] || metadata.namespace == "" then (map[], "")
    else (KeptLabels(metadata.labels.value), metadata.namespace)
  }

  predicate Matches(workload: map<string, string>, selector: map<string, string>)
  {
    forall k :: k in selector ==> k in workload && EqualFold(selector[k], workload[k])
  }

  // ----- the code -----

  method IsInStringSlice(element: string, elements: seq<string>) returns (found: bool)
    ensures found <==> exists x :: x in elements && EqualFold(x, element)
  {
    for i := 0 to |elements|
      invariant forall j :: 0 <= j < i ==> !EqualFold(elements[j], element)
    {
      if EqualFold(elements[i], element) {
        return true;
      }
    }
    return false;
  }

  /** The map is ranged over in any order, as Go does. */
  method ParseWorkloadLabels(metadata: Metadata) returns (workload: map<string, string>, sn: string)
    ensures (workload, sn) == WorkloadLabels(metadata)
    ensures if metadata.labels.None? || metadata.labels.value == map[] || metadata.namespace == ""
            then workload == map[] && sn == ""
            else && sn == metadata.namespace
                 && (forall k :: k in workload <==> k in metadata.labels.value && !Excluded(k) && metadata.labels.value[k] != "")
                 && (forall k :: k in workload ==> workload[k] == metadata.labels.value[k])
  {
    if metadata.labels.None? || metadata.labels.value == map[] {
      return map[], "";
    }
    var labels := metadata.labels.value;
    workload := map[];
    var rest := labels.Keys;
    while rest != {}
      invariant rest <= labels.Keys
      invariant workload == map k | k in labels && k !in rest && !Excluded(k) && labels[k] != "" :: labels[k]
      decreases |rest|
    {
      var k :| k in rest;
      rest := rest - {k};
      var excluded := IsInStringSlice(k, EXCLUDE_KEYS);
      if excluded {
        continue;
      }
      if |labels[k]| != 0 {
        workload := workload[k := labels[k]];
      }
    }
    assert workload == KeptLabels(labels);
    sn := metadata.namespace;
    if |sn| == 0 {
      return map[], "";
    }
  }

  /** The result does not depend on the order the selector is ranged over in. */
  method IsSourceMatched(workload: map<string, string>, labels: map<string, string>) returns (matched: bool)
    ensures matched <==> forall k :: k in labels ==> k in workload && Fold(labels[k]) == Fold(workload[k])
    ensures matched <==> Matches(workload, labels)
  {
    var rest := labels.Keys;
    while rest != {}
      invariant rest <= labels.Keys
      invariant forall k :: k in labels && k !in rest ==> k in workload && EqualFold(labels[k], workload[k])
      decreases |rest|
    {
      var k :| k in rest;
      if k !in workload {
        return false;
      }
      if !EqualFold(labels[k], workload[k]) {
        return false;
      }
      rest := rest - {k};
    }
    return true;
  }

  // ----- laws -----

  /** A selector matches if and only if there is no label that is missing in the
      workload or has a value there that differs by more than case. */
  lemma MatchesExactly(workload: map<string, string>, selector: map<string, string>)
    ensures !Matches(workload, selector)
       <==> exists k :: k in selector && (k !in workload || Fold(selector[k]) != Fold(workload[k]))
  {
  }

  lemma AlreadyFolded(s: string)
    requires forall i :: 0 <= i < |s| ==> !('A' <= s[i] <= 'Z') && s[i] < '\U{80}'
    ensures Fold(s) == s
  {
  }

  lemma ModeFolded()
    ensures Fold("security.istio.io/tlsMode") == "security.istio.io/tlsmode"
  {
    var s, t := "security.istio.io/tlsMode", "security.istio.io/tlsmode";
    assert forall i :: 0 <= i < |s| ==> FoldChar(s[i]) == t[i];
  }

  lemma OneOfFive(keys: seq<string>, key: string)
    requires |keys| == 5
    ensures (exists x :: x in keys && EqualFold(x, key))
       <==> || Fold(key) == Fold(keys[0]) || Fold(key) == Fold(keys[1]) || Fold(key) == Fold(keys[2])
            || Fold(key) == Fold(keys[3]) || Fold(key) == Fold(keys[4])
  {
    assert keys[0] in keys && keys[1] in keys && keys[2] in keys && keys[3] in keys && keys[4] in keys;
  }

  /** The excluded keys, in any case. */
  lemma ExcludedExactly(key: string)
    ensures Excluded(key) <==>
      || Fold(key) == "pod-template-hash" || Fold(key) == "security.istio.io/tlsmode"
      || Fold(key) == "service.istio.io/canonical-name" || Fold(key) == "service.istio.io/canonical-revision"
      || Fold(key) == "istio.io/rev"
  {
    AlreadyFolded("pod-template-hash");
    ModeFolded();
    AlreadyFolded("service.istio.io/canonical-name");
    AlreadyFolded("service.istio.io/canonical-revision");
    AlreadyFolded("istio.io/rev");
    OneOfFive(EXCLUDE_KEYS, key);
  }

  /** Plain labels all arrive, with the namespace. */
  lemma PlainReport(labels: map<string, string>, namespace: string)
    requires labels != map[] && namespace != ""
    requires forall k :: k in labels ==> labels[k] != "" && !Excluded(k)
    ensures WorkloadLabels(Metadata(Some(labels), namespace)) == (labels, namespace)
  {
    assert KeptLabels(labels) == labels;
  }

  ghost predicate Extends(big: map<string, string>, small: map<string, string>)
  {
    forall k :: k in small ==> k in big && big[k] == small[k]
  }

  ghost predicate SameUpToCase(m1: map<string, string>, m2: map<string, string>)
  {
    m1.Keys == m2.Keys && forall k :: k in m1 ==> EqualFold(m1[k], m2[k])
  }

  /** More workload labels, fewer selector labels and any change of case keep a
      match. The empty selector matches every workload. */
  lemma MatchesLaws(w: map<string, string>, w': map<string, string>, w'': map<string, string>,
                    s: map<string, string>, s': map<string, string>, s'': map<string, string>)
    requires Extends(w', w) && SameUpToCase(w'', w')
    requires Extends(s, s') && SameUpToCase(s'', s')
    ensures Matches(w, s) ==> Matches(w'', s'')
    ensures Matches(w, map[])
  {
    if Matches(w, s) {
      forall k | k in s'' ensures k in w'' && EqualFold(s''[k], w''[k]) {
        assert k in s' && k in s && k in w && k in w';
        assert Fold(s''[k]) == Fold(s'[k]) == Fold(w[k]) == Fold(w''[k]);
      }
    }
  }

  /** A selector that names an excluded key, in any case, matches no report. */
  lemma ExcludedNeverMatches(metadata: Metadata, selector: map<string, string>, key: string)
    requires key in selector && Excluded(key)
    ensures !Matches(WorkloadLabels(metadata).0, selector)
  {
    assert key !in WorkloadLabels(metadata).0;
  }

  /** A report without labels or namespace still matches the LazySidecars that
      select everything, and no others. */
  lemma AnonymousReport(metadata: Metadata, selector: map<string, string>)
    requires metadata.labels.None? || metadata.namespace == ""
    ensures Matches(WorkloadLabels(metadata).0, selector) <==> selector == map[]
  {
    if selector != map[] {
      var k :| k in selector;
      assert k !in WorkloadLabels(metadata).0;
    }
  }
}
