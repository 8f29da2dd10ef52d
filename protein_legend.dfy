/** The protein-feature view's two rules that are not drawing: which of
    seven modification classes a modification description belongs to, and
    the order of the legend entries. */
module ProteinLegend {
  import opened TextUtil
  import opened Seqs

  // ================================================================ classification

  const Acetylation: string := "Acetylation"
  const Glycosylation: string := "Glycosylation"
  const Methylation: string := "Methylation"
  const Phosphorylation: string := "Phosphorylation"
  const Sumoylation: string := "SUMOylation"
  const Ubiquitylation: string := "Ubiquitylation"
  const Others: string := "Others"

  /** The keys of the modification colour table. */
  const ModificationClasses: set<string> :=
    {Acetylation, Glycosylation, Methylation, Phosphorylation, Sumoylation, Ubiquitylation, Others}

  /** `_get_modification_type`: lower-case the description, then test the
      substrings in a fixed order; the first that occurs decides. */
  function ModificationType(description: string): (r: string)
    ensures r in ModificationClasses
  {
    var d := Lower(description);
    if Contains(d, "acetyl") then Acetylation
    else if Contains(d, "glyco") then Glycosylation
    else if Contains(d, "methyl") then Methylation
    else if Contains(d, "phospho") || Contains(d, "phosphoserine")
            || Contains(d, "phosphothreonine") || Contains(d, "phosphotyrosine") then Phosphorylation
    else if Contains(d, "sumo") then Sumoylation
    else if Contains(d, "ubiquit") then Ubiquitylation
    else Others
  }

  /** The test order as a table of (substring, class). */
  const Rules: seq<(string, string)> := [
    ("acetyl", Acetylation), ("glyco", Glycosylation), ("methyl", Methylation),
    ("phospho", Phosphorylation), ("sumo", Sumoylation), ("ubiquit", Ubiquitylation)]

  /** The class of the first rule whose substring occurs in `d`. */
  function FirstMatch(d: string, rules: seq<(string, string)>): string {
    if |rules| == 0 then Others
    else if Contains(d, rules[0].0) then rules[0].1
    else FirstMatch(d, rules[1..])
  }

  /** First match wins: the result is the class of the earliest rule that
      matches, and `Others` when none does. */
  lemma {:induction false} FirstMatchMeaning(d: string, rules: seq<(string, string)>)
    ensures (forall i | 0 <= i < |rules| :: !Contains(d, rules[i].0)) ==> FirstMatch(d, rules) == Others
    ensures forall i | 0 <= i < |rules| && Contains(d, rules[i].0) &&
                       (forall j | 0 <= j < i :: !Contains(d, rules[j].0)) ::
              FirstMatch(d, rules) == rules[i].1
  {
    if |rules| > 0 {
      FirstMatchMeaning(d, rules[1..]);
      assert forall i | 1 <= i < |rules| :: rules[1..][i - 1] == rules[i];
    }
  }

  /** The three longer phosphorylation substrings all start with `phospho`,
      so that test alone decides the branch. */
  lemma PhosphoAlternatives(d: string)
    ensures (Contains(d, "phospho") || Contains(d, "phosphoserine")
             || Contains(d, "phosphothreonine") || Contains(d, "phosphotyrosine"))
            <==> Contains(d, "phospho")
  {
    if Contains(d, "phosphoserine") {
      assert "phosphoserine" == "phospho" + "serine";
      ContainsPrefix(d, "phospho", "serine");
    }
    if Contains(d, "phosphothreonine") {
      assert "phosphothreonine" == "phospho" + "threonine";
      ContainsPrefix(d, "phospho", "threonine");
    }
    if Contains(d, "phosphotyrosine") {
      assert "phosphotyrosine" == "phospho" + "tyrosine";
      ContainsPrefix(d, "phospho", "tyrosine");
    }
  }

  /** The classifier is the first-match rule table applied to the
      lower-cased description. */
  lemma ModificationTypeIsFirstMatch(description: string)
    ensures ModificationType(description) == FirstMatch(Lower(description), Rules)
  {
    var d := Lower(description);
    PhosphoAlternatives(d);
    var r1 := Rules[1..];
    var r2 := r1[1..];
    var r3 := r2[1..];
    var r4 := r3[1..];
    var r5 := r4[1..];
    assert r5[1..] == [];
    assert FirstMatch(d, r5) == if Contains(d, "ubiquit") then Ubiquitylation else Others;
    assert FirstMatch(d, r4) == if Contains(d, "sumo") then Sumoylation else FirstMatch(d, r5);
    assert FirstMatch(d, r3) == if Contains(d, "phospho") then Phosphorylation else FirstMatch(d, r4);
    assert FirstMatch(d, r2) == if Contains(d, "methyl") then Methylation else FirstMatch(d, r3);
    assert FirstMatch(d, r1) == if Contains(d, "glyco") then Glycosylation else FirstMatch(d, r2);
  }

  /** Case does not matter: descriptions that lower-case alike are classed
      alike, whatever their capitals. */
  lemma CaseInsensitive(a: string, b: string)
    requires Lower(a) == Lower(b)
    ensures ModificationType(a) == ModificationType(b)
  {
  }

  lemma UpperCaseAlike(description: string)
    ensures ModificationType(Upper(description)) == ModificationType(description)
  {
    LowerUpper(description);
  }

  /** Methylation is tested before phosphorylation: a description naming
      both, and neither acetylation nor glycosylation, is Methylation. */
  lemma MethylBeforePhospho(description: string)
    requires Contains(Lower(description), "methyl") && Contains(Lower(description), "phospho")
    requires !Contains(Lower(description), "acetyl") && !Contains(Lower(description), "glyco")
    ensures ModificationType(description) == Methylation
  {
  }

  // ================================================================ colours

  /** `modification_colors`. */
  function ModificationColor(kind: string): string
    requires kind in ModificationClasses
  {
    if kind == Acetylation then "#FF0000"
    else if kind == Glycosylation then "#00FF00"
    else if kind == Methylation then "#0000FF"
    else if kind == Phosphorylation then "#FFA500"
    else if kind == Sumoylation then "#800080"
    else if kind == Ubiquitylation then "#008080"
    else "#808080"
  }

  const DomainColor: string := "#FFB6C1"
  const RegionColor: string := "#90EE90"

  /** The secondary-structure types that get a legend entry, in legend order. */
  const StructureOrder: seq<string> := ["Helix", "Beta strand", "Turn"]

  /** `colors` and `structure_labels` for the three structure types. */
  function StructureColor(kind: string): string
    requires kind in StructureOrder
  {
    if kind == "Helix" then "#87CEEB" else if kind == "Beta strand" then "#FFA07A" else "#DDA0DD"
  }

  function StructureLabel(kind: string): string
    requires kind in StructureOrder
  {
    if kind == "Helix" then "α-Helix" else if kind == "Beta strand" then "β-Strand" else "Turn"
  }

  // ================================================================ legend

  datatype Span = Span(start: int, end: int)

  /** The parts of a feature file the legend reads. A missing list is empty. */
  datatype ProteinFeatures = ProteinFeatures(
    domains: seq<Span>, regions: seq<Span>,
    secondaryStructure: seq<string>,   // the `type` of each element
    modifications: seq<string>)        // the `description` of each modification

  /** A legend entry: a filled patch or a round marker, with colour and label text. */
  datatype LegendEntry = Patch(color: string, text: string) | Marker(color: string, text: string)

  /** The seven classes in Python's string order (by code point). */
  const SortedClasses: seq<string> :=
    [Acetylation, Glycosylation, Methylation, Others, Phosphorylation, Sumoylation, Ubiquitylation]

  predicate StrictlyIncreasing(s: seq<string>) {
    forall i, j | 0 <= i < j < |s| :: StrLt(s[i], s[j])
  }

  lemma SortedClassesIncreasing()
    ensures StrictlyIncreasing(SortedClasses)
    ensures forall c :: c in SortedClasses <==> c in ModificationClasses
  {
    var s := SortedClasses;
    assert forall i | 0 <= i < |s| :: |s[i]| > 0;
    assert forall i, j | 0 <= i < j < |s| :: s[i][0] < s[j][0];
  }

  /** A subsequence of a strictly increasing sequence is strictly increasing. */
  lemma IncreasingSubsequence(sub: seq<string>, s: seq<string>)
    requires StrictlyIncreasing(s) && IsSubsequence(sub, s)
    ensures StrictlyIncreasing(sub)
  {
    var idx :| SubsequenceBy(sub, s, idx);
    forall i, j | 0 <= i < j < |sub| ensures StrLt(sub[i], sub[j]) {
      assert sub[i] == s[idx[i]] && sub[j] == s[idx[j]] && idx[i] < idx[j];
    }
  }

  /** Python's `sorted()` of a set of classes: its elements, ascending. */
  function SortedSet(kinds: set<string>): (r: seq<string>)
    requires kinds <= ModificationClasses
    ensures StrictlyIncreasing(r)
    ensures forall c :: c in r <==> c in kinds
  {
    SortedClassesIncreasing();
    FilterIsSubsequence(SortedClasses, c => c in kinds);
    IncreasingSubsequence(Filter(SortedClasses, c => c in kinds), SortedClasses);
    Filter(SortedClasses, c => c in kinds)
  }

  /** The classes of all modifications. */
  function ModificationKinds(data: ProteinFeatures): (r: set<string>)
    ensures r <= ModificationClasses
  {
    set d | d in data.modifications :: ModificationType(d)
  }

  function DomainEntries(data: ProteinFeatures): seq<LegendEntry> {
    if |data.domains| > 0 then [Patch(DomainColor, "Domain")] else []
  }

  function RegionEntries(data: ProteinFeatures): seq<LegendEntry> {
    if |data.regions| > 0 then [Patch(RegionColor, "Region")] else []
  }

  /** The structure entries for the structure types among `kinds`, the first
      `n` types of the fixed order considered. */
  function StructureEntriesUpTo(kinds: set<string>, n: nat): seq<LegendEntry>
    requires n <= |StructureOrder|
  {
    if n == 0 then []
    else
      var t := StructureOrder[n - 1];
      StructureEntriesUpTo(kinds, n - 1)
      + (if t in kinds then [Patch(StructureColor(t), StructureLabel(t))] else [])
  }

  /** `{struct['type'] for struct in data['secondary_structure']}`. */
  function StructureKinds(data: ProteinFeatures): set<string> {
    set t | t in data.secondaryStructure
  }

  function StructureEntries(data: ProteinFeatures): seq<LegendEntry> {
    StructureEntriesUpTo(StructureKinds(data), |StructureOrder|)
  }

  function MarkersFor(kinds: seq<string>): seq<LegendEntry>
    requires forall i | 0 <= i < |kinds| :: kinds[i] in ModificationClasses
  {
    seq(|kinds|, i requires 0 <= i < |kinds| => Marker(ModificationColor(kinds[i]), kinds[i]))
  }

  function ModificationEntries(data: ProteinFeatures): seq<LegendEntry> {
    MarkersFor(SortedSet(ModificationKinds(data)))
  }

  /** The legend: domains, regions, structure types in fixed order, then the
      modification classes in sorted order. */
  function Legend(data: ProteinFeatures): seq<LegendEntry> {
    DomainEntries(data) + RegionEntries(data) + StructureEntries(data) + ModificationEntries(data)
  }

  /** `_create_legend_elements`. The structure entries are looked up only
      when the structure list is not empty, which changes nothing since an
      empty list has no types. */
  method CreateLegendElements(data: ProteinFeatures) returns (legend: seq<LegendEntry>)
    ensures legend == Legend(data)
  {
    legend := [];
    if |data.domains| > 0 {
      legend := legend + [Patch(DomainColor, "Domain")];
    }
    if |data.regions| > 0 {
      legend := legend + [Patch(RegionColor, "Region")];
    }
    assert legend == DomainEntries(data) + RegionEntries(data);
    if |data.secondaryStructure| > 0 {
      legend := AddStructureEntries(legend, StructureKinds(data));
    } else {
      NoStructureEntries(StructureKinds(data), |StructureOrder|);
    }
    assert legend == DomainEntries(data) + RegionEntries(data) + StructureEntries(data);
    var modTypes := ModificationKinds(data);
    var ordered := SortedSet(modTypes);
    legend := AddMarkers(legend, ordered);
  }

  /** The loop over the sorted classes: one marker each, in that order. */
  method AddMarkers(start: seq<LegendEntry>, ordered: seq<string>) returns (legend: seq<LegendEntry>)
    requires forall i | 0 <= i < |ordered| :: ordered[i] in ModificationClasses
    ensures legend == start + MarkersFor(ordered)
  {
    legend := start;
    var k := 0;
    while k < |ordered|
      invariant 0 <= k <= |ordered|
      invariant legend == start + MarkersFor(ordered[..k])
    {
      var marker := Marker(ModificationColor(ordered[k]), ordered[k]);
      MarkersStep(ordered, k);
      legend := legend + [marker];
      k := k + 1;
    }
    assert ordered[..|ordered|] == ordered;
  }

  /** The loop over the fixed structure order: a patch for each type present
      in `structTypes`. */
  method AddStructureEntries(start: seq<LegendEntry>, structTypes: set<string>) returns (legend: seq<LegendEntry>)
    ensures legend == start + StructureEntriesUpTo(structTypes, |StructureOrder|)
  {
    legend := start;
    var n := 0;
    while n < |StructureOrder|
      invariant 0 <= n <= |StructureOrder|
      invariant legend == start + StructureEntriesUpTo(structTypes, n)
    {
      var structType := StructureOrder[n];
      StructureStep(structTypes, n);
      if structType in structTypes {
        legend := legend + [Patch(StructureColor(structType), StructureLabel(structType))];
      }
      n := n + 1;
    }
  }

  lemma StructureStep(kinds: set<string>, n: nat)
    requires n < |StructureOrder|
    ensures StructureEntriesUpTo(kinds, n + 1) == StructureEntriesUpTo(kinds, n) +
              (if StructureOrder[n] in kinds
               then [Patch(StructureColor(StructureOrder[n]), StructureLabel(StructureOrder[n]))] else [])
  {
  }

  lemma MarkersStep(kinds: seq<string>, k: nat)
    requires k < |kinds| && forall i | 0 <= i < |kinds| :: kinds[i] in ModificationClasses
    ensures MarkersFor(kinds[..k + 1]) == MarkersFor(kinds[..k]) + [Marker(ModificationColor(kinds[k]), kinds[k])]
  {
    assert kinds[..k + 1][k] == kinds[k];
  }

  lemma {:induction false} NoStructureEntries(kinds: set<string>, n: nat)
    requires n <= |StructureOrder| && kinds == {}
    ensures StructureEntriesUpTo(kinds, n) == []
  {
    if n > 0 { NoStructureEntries(kinds, n - 1); }
  }

  function Labels(entries: seq<LegendEntry>): (r: seq<string>)
    ensures |r| == |entries|
  {
    seq(|entries|, i requires 0 <= i < |entries| => entries[i].text)
  }

  lemma LabelsAppend(a: seq<LegendEntry>, b: seq<LegendEntry>)
    ensures Labels(a + b) == Labels(a) + Labels(b)
  {
  }

  /** Structure entries are the present types among Helix, Beta strand and
      Turn, in that order, labelled α-Helix, β-Strand and Turn. */
  lemma StructureEntriesMeaning(data: ProteinFeatures)
    ensures var kinds := StructureKinds(data);
            Labels(StructureEntries(data))
            == (if "Helix" in kinds then ["α-Helix"] else [])
               + (if "Beta strand" in kinds then ["β-Strand"] else [])
               + (if "Turn" in kinds then ["Turn"] else [])
  {
    var kinds := StructureKinds(data);
    var e1 := StructureEntriesUpTo(kinds, 1);
    var e2 := StructureEntriesUpTo(kinds, 2);
    var e3 := StructureEntriesUpTo(kinds, 3);
    assert StructureEntriesUpTo(kinds, 0) == [];
    assert StructureOrder[0] == "Helix" && StructureOrder[1] == "Beta strand" && StructureOrder[2] == "Turn";
    assert Labels(e1) == (if "Helix" in kinds then ["α-Helix"] else []);
    LabelsAppend(e1, if "Beta strand" in kinds then [Patch(StructureColor("Beta strand"), "β-Strand")] else []);
    assert Labels(e2) == Labels(e1) + (if "Beta strand" in kinds then ["β-Strand"] else []);
    LabelsAppend(e2, if "Turn" in kinds then [Patch(StructureColor("Turn"), "Turn")] else []);
    assert Labels(e3) == Labels(e2) + (if "Turn" in kinds then ["Turn"] else []);
  }

  /** The modification markers are the classes of the modifications, each
      once, in ascending order, each with its colour. */
  lemma ModificationEntriesMeaning(data: ProteinFeatures)
    ensures StrictlyIncreasing(Labels(ModificationEntries(data)))
    ensures forall c :: c in Labels(ModificationEntries(data)) <==>
              exists d | d in data.modifications :: ModificationType(d) == c
    ensures forall e | e in ModificationEntries(data) ::
              e.Marker? && e.text in ModificationClasses && e.color == ModificationColor(e.text)
  {
    var ordered := SortedSet(ModificationKinds(data));
    assert Labels(ModificationEntries(data)) == ordered;
  }

  /** Patches come before markers: the domain and region patches lead, when
      there are domains or regions. */
  lemma LegendOrder(data: ProteinFeatures)
    ensures |data.domains| > 0 ==> Legend(data)[0] == Patch(DomainColor, "Domain")
    ensures |data.domains| == 0 && |data.regions| > 0 ==> Legend(data)[0] == Patch(RegionColor, "Region")
    ensures |data.domains| > 0 && |data.regions| > 0 ==> Legend(data)[1] == Patch(RegionColor, "Region")
    ensures forall i, j | 0 <= i < j < |Legend(data)| && Legend(data)[j].Patch? :: Legend(data)[i].Patch?
  {
    var pre := DomainEntries(data) + RegionEntries(data) + StructureEntries(data);
    assert forall e | e in pre :: e.Patch? by {
      StructurePatches(StructureKinds(data), |StructureOrder|);
    }
    ModificationEntriesMeaning(data);
    var m := ModificationEntries(data);
    assert Legend(data) == pre + m;
    forall i, j | 0 <= i < j < |Legend(data)| && Legend(data)[j].Patch? ensures Legend(data)[i].Patch? {
      assert i < |pre|;
      assert Legend(data)[i] == pre[i];
      assert pre[i] in pre;
    }
  }

  lemma {:induction false} StructurePatches(kinds: set<string>, n: nat)
    requires n <= |StructureOrder|
    ensures forall e | e in StructureEntriesUpTo(kinds, n) :: e.Patch?
  {
    if n > 0 { StructurePatches(kinds, n - 1); }
  }
}
