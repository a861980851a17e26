/**
 The semantic conformance checks that read like redundant lists, and what each list amounts to: a
 partition of the formula's atoms, a well-staged overlay list, and canonical reason codes.
 */
module Conformance {
  import opened Outcomes
  import opened Text
  import TextSort

  function Elements(values: seq<string>): set<string> {
    set x | x in values
  }

  /** `len(values) != len(set(values))` */
  predicate HasDuplicate(values: seq<string>) {
    |values| != |Elements(values)|
  }

  lemma LastIsNew(values: seq<string>)
    requires values != []
    ensures NoRepeats(values) <==> NoRepeats(values[..|values| - 1]) && values[|values| - 1] !in values[..|values| - 1]
  {
    var front, n := values[..|values| - 1], |values| - 1;
    assert forall i | 0 <= i < n :: front[i] == values[i];
    if NoRepeats(values) {
      forall i | 0 <= i < n ensures front[i] != values[n] {
      }
    }
  }

  lemma ElementsStep(front: seq<string>, last: string)
    ensures Elements(front + [last]) == Elements(front) + {last}
    ensures |Elements(front + [last])| == |Elements(front)| + (if last in front then 0 else 1)
  {
    if last in front {
      assert Elements(front) + {last} == Elements(front);
    } else {
      assert last !in Elements(front);
    }
    assert forall x :: x in front + [last] <==> x in front || x == last;
  }

  lemma {:induction false} DuplicateExact(values: seq<string>)
    ensures |Elements(values)| <= |values|
    ensures HasDuplicate(values) <==> !NoRepeats(values)
    decreases |values|
  {
    if values == [] {
      assert Elements(values) == {};
    } else {
      var front, last := values[..|values| - 1], values[|values| - 1];
      assert values == front + [last];
      ElementsStep(front, last);
      LastIsNew(values);
      DuplicateExact(front);
    }
  }

  // ---------------------------------------------------------------- SC-WA-001

  datatype PartitionFinding =
    | DuplicateDependency
    | DuplicateUnverified
    | Overlap
    | NotTheVerifiedAtoms
    | NotTheUnverifiedAtoms
    | UncoveredAtoms
    | ExtraneousIds

  /** The evaluated formula's atoms: given, or else those of the marking. */
  function Domain(marking: map<string, string>, formulaAtoms: Option<set<string>>): set<string> {
    if formulaAtoms.Some? then formulaAtoms.value else marking.Keys
  }

  /** The atoms marked T or F; an atom without a mark counts as Z. */
  function Verified(marking: map<string, string>, domain: set<string>): set<string> {
    set a | a in domain && a in marking && (marking[a] == "T" || marking[a] == "F")
  }

  predicate Overlapping(dependencies: seq<string>, unverified: seq<string>) {
    exists x | x in dependencies :: x in unverified
  }

  predicate Uncovered(dependencies: seq<string>, unverified: seq<string>, domain: set<string>) {
    exists x | x in domain :: x !in dependencies && x !in unverified
  }

  predicate Extraneous(dependencies: seq<string>, unverified: seq<string>, domain: set<string>) {
    exists x | x in dependencies + unverified :: x !in domain
  }

  lemma OverlapMeans(dependencies: seq<string>, unverified: seq<string>)
    ensures Elements(dependencies) * Elements(unverified) != {} <==> Overlapping(dependencies, unverified)
  {
    if x :| x in dependencies && x in unverified {
      assert x in Elements(dependencies) * Elements(unverified);
    }
  }

  lemma UncoveredMeans(dependencies: seq<string>, unverified: seq<string>, domain: set<string>)
    ensures domain - Elements(dependencies) - Elements(unverified) != {} <==>
              Uncovered(dependencies, unverified, domain)
  {
    if x :| x in domain && x !in dependencies && x !in unverified {
      assert x in domain - Elements(dependencies) - Elements(unverified);
    }
  }

  lemma ExtraneousMeans(dependencies: seq<string>, unverified: seq<string>, domain: set<string>)
    ensures (Elements(dependencies) + Elements(unverified)) - domain != {} <==>
              Extraneous(dependencies, unverified, domain)
  {
    if x :| x in dependencies + unverified && x !in domain {
      assert x in (Elements(dependencies) + Elements(unverified)) - domain;
    }
  }

  function ListFindings(dependencies: seq<string>, unverified: seq<string>): seq<PartitionFinding> {
    If(!NoRepeats(dependencies), DuplicateDependency) + If(!NoRepeats(unverified), DuplicateUnverified)
    + If(Overlapping(dependencies, unverified), Overlap)
  }

  function AtomFindings(dependencies: seq<string>, unverified: seq<string>, domain: set<string>, verified: set<string>)
    : seq<PartitionFinding>
  {
    If(Elements(dependencies) != verified, NotTheVerifiedAtoms)
    + If(Elements(unverified) != domain - verified, NotTheUnverifiedAtoms)
    + If(Uncovered(dependencies, unverified, domain), UncoveredAtoms)
    + If(Extraneous(dependencies, unverified, domain), ExtraneousIds)
  }

  /** The findings in order: three that need no marking, then four that compare with it. */
  function PartitionFindings(dependencies: seq<string>, unverified: seq<string>,
                             marking: Option<map<string, string>>, formulaAtoms: Option<set<string>>)
    : seq<PartitionFinding>
  {
    if marking.None? then ListFindings(dependencies, unverified) else
    var domain := Domain(marking.value, formulaAtoms);
    ListFindings(dependencies, unverified)
    + AtomFindings(dependencies, unverified, domain, Verified(marking.value, domain))
  }

  /** `check_warrant_artifact`, the SC-WA-001 part of a warrant with the checked kernel profile. */
  method CheckPartition(dependencies: seq<string>, unverified: seq<string>, marking: Option<map<string, string>>,
                        formulaAtoms: Option<set<string>>)
    returns (findings: seq<PartitionFinding>)
    ensures findings == PartitionFindings(dependencies, unverified, marking, formulaAtoms)
  {
    findings := CheckLists(dependencies, unverified);
    if marking.Some? {
      var domain := Domain(marking.value, formulaAtoms);
      var more := CheckAtoms(dependencies, unverified, domain, Verified(marking.value, domain));
      findings := findings + more;
    }
  }

  method CheckLists(dependencies: seq<string>, unverified: seq<string>) returns (findings: seq<PartitionFinding>)
    ensures findings == ListFindings(dependencies, unverified)
  {
    DuplicateExact(dependencies);
    DuplicateExact(unverified);
    OverlapMeans(dependencies, unverified);
    findings := [];
    if HasDuplicate(dependencies) {
      findings := findings + [DuplicateDependency];
    }
    if HasDuplicate(unverified) {
      findings := findings + [DuplicateUnverified];
    }
    if Elements(dependencies) * Elements(unverified) != {} {
      findings := findings + [Overlap];
    }
  }

  /** The four checks that need the marking. */
  method CheckAtoms(dependencies: seq<string>, unverified: seq<string>, domain: set<string>, verified: set<string>)
    returns (findings: seq<PartitionFinding>)
    ensures findings == AtomFindings(dependencies, unverified, domain, verified)
  {
    UncoveredMeans(dependencies, unverified, domain);
    ExtraneousMeans(dependencies, unverified, domain);
    findings := [];
    if Elements(dependencies) != verified {
      findings := findings + [NotTheVerifiedAtoms];
    }
    if Elements(unverified) != domain - verified {
      findings := findings + [NotTheUnverifiedAtoms];
    }
    if domain - Elements(dependencies) - Elements(unverified) != {} {
      findings := findings + [UncoveredAtoms];
    }
    if (Elements(dependencies) + Elements(unverified)) - domain != {} {
      findings := findings + [ExtraneousIds];
    }
  }

  /** The overlap, uncovered and extraneous checks are consequences of the two equality checks. */
  lemma EqualityChecksSuffice(dependencies: seq<string>, unverified: seq<string>, domain: set<string>,
                              verified: set<string>)
    requires verified <= domain
    requires Elements(dependencies) == verified && Elements(unverified) == domain - verified
    ensures !Overlapping(dependencies, unverified) && !Uncovered(dependencies, unverified, domain)
    ensures !Extraneous(dependencies, unverified, domain)
  {
    OverlapMeans(dependencies, unverified);
    UncoveredMeans(dependencies, unverified, domain);
    ExtraneousMeans(dependencies, unverified, domain);
    assert verified * (domain - verified) == {} && domain - verified - (domain - verified) == {};
    assert (verified + (domain - verified)) - domain == {};
  }

  // What each finding says of the two arrays, the marking and the formula, atom by atom.

  predicate InFormula(a: string, marking: map<string, string>, formulaAtoms: Option<set<string>>) {
    match formulaAtoms
    case Some(atoms) => a in atoms
    case None => a in marking
  }

  predicate Marked(a: string, marking: map<string, string>) {
    a in marking && (marking[a] == "T" || marking[a] == "F")
  }

  ghost predicate Finds(f: PartitionFinding, dependencies: seq<string>, unverified: seq<string>,
                        marking: Option<map<string, string>>, formulaAtoms: Option<set<string>>)
  {
    match f
    case DuplicateDependency => exists i, j :: 0 <= i < j < |dependencies| && dependencies[i] == dependencies[j]
    case DuplicateUnverified => exists i, j :: 0 <= i < j < |unverified| && unverified[i] == unverified[j]
    case Overlap =>
      exists i, j :: 0 <= i < |dependencies| && 0 <= j < |unverified| && dependencies[i] == unverified[j]
    case NotTheVerifiedAtoms =>
      marking.Some? && exists a: string :: !(a in dependencies <==> InFormula(a, marking.value, formulaAtoms)
                                                                    && Marked(a, marking.value))
    case NotTheUnverifiedAtoms =>
      marking.Some? && exists a: string :: !(a in unverified <==> InFormula(a, marking.value, formulaAtoms)
                                                                  && !Marked(a, marking.value))
    case UncoveredAtoms =>
      marking.Some? && exists a: string :: InFormula(a, marking.value, formulaAtoms)
                                           && a !in dependencies && a !in unverified
    case ExtraneousIds =>
      marking.Some? && exists a: string :: (a in dependencies || a in unverified)
                                           && !InFormula(a, marking.value, formulaAtoms)
  }

  function Place(f: PartitionFinding): nat {
    match f
    case DuplicateDependency => 0
    case DuplicateUnverified => 1
    case Overlap => 2
    case NotTheVerifiedAtoms => 3
    case NotTheUnverifiedAtoms => 4
    case UncoveredAtoms => 5
    case ExtraneousIds => 6
  }

  lemma DomainMeans(marking: map<string, string>, formulaAtoms: Option<set<string>>)
    ensures forall a :: a in Domain(marking, formulaAtoms) <==> InFormula(a, marking, formulaAtoms)
    ensures forall a :: a in Verified(marking, Domain(marking, formulaAtoms)) <==>
                          InFormula(a, marking, formulaAtoms) && Marked(a, marking)
  {
  }

  lemma DifferMeans(values: seq<string>, s: set<string>)
    ensures Elements(values) != s <==> exists a: string :: !(a in values <==> a in s)
  {
    if forall a: string :: a in values <==> a in s {
      assert Elements(values) == s;
    }
  }

  lemma ListFindingsShow(f: PartitionFinding, dependencies: seq<string>, unverified: seq<string>,
                         marking: Option<map<string, string>>, formulaAtoms: Option<set<string>>)
    ensures f in ListFindings(dependencies, unverified) <==>
              Place(f) < 3 && Finds(f, dependencies, unverified, marking, formulaAtoms)
  {
    if Overlapping(dependencies, unverified) {
      var x :| x in dependencies && x in unverified;
      var i :| 0 <= i < |dependencies| && dependencies[i] == x;
      var j :| 0 <= j < |unverified| && unverified[j] == x;
    }
    if i, j :| 0 <= i < |dependencies| && 0 <= j < |unverified| && dependencies[i] == unverified[j] {
      assert dependencies[i] in dependencies && dependencies[i] in unverified;
    }
  }

  lemma AtomFindingsShow(f: PartitionFinding, dependencies: seq<string>, unverified: seq<string>,
                         marking: map<string, string>, formulaAtoms: Option<set<string>>)
    ensures var domain := Domain(marking, formulaAtoms);
            f in AtomFindings(dependencies, unverified, domain, Verified(marking, domain)) <==>
              Place(f) >= 3 && Finds(f, dependencies, unverified, Some(marking), formulaAtoms)
  {
    var domain := Domain(marking, formulaAtoms);
    var verified := Verified(marking, domain);
    DomainMeans(marking, formulaAtoms);
    DifferMeans(dependencies, verified);
    DifferMeans(unverified, domain - verified);
  }

  ghost predicate InOrder(findings: seq<PartitionFinding>) {
    forall i, j | 0 <= i < j < |findings| :: Place(findings[i]) < Place(findings[j])
  }

  lemma ListInOrder(dependencies: seq<string>, unverified: seq<string>)
    ensures InOrder(ListFindings(dependencies, unverified))
    ensures forall f | f in ListFindings(dependencies, unverified) :: Place(f) < 3
  {
  }

  lemma AtomsInOrder(dependencies: seq<string>, unverified: seq<string>, domain: set<string>, verified: set<string>)
    ensures InOrder(AtomFindings(dependencies, unverified, domain, verified))
    ensures forall f | f in AtomFindings(dependencies, unverified, domain, verified) :: Place(f) >= 3
  {
  }

  lemma ConcatInOrder(a: seq<PartitionFinding>, b: seq<PartitionFinding>)
    requires InOrder(a) && InOrder(b) && (forall f | f in a :: Place(f) < 3) && forall f | f in b :: Place(f) >= 3
    ensures InOrder(a + b)
  {
    var all := a + b;
    forall i, j | 0 <= i < j < |all| ensures Place(all[i]) < Place(all[j]) {
      if i < |a| <= j {
        assert a[i] in a && b[j - |a|] in b;
      }
    }
  }

  lemma PartitionInOrder(dependencies: seq<string>, unverified: seq<string>, marking: Option<map<string, string>>,
                         formulaAtoms: Option<set<string>>)
    ensures InOrder(PartitionFindings(dependencies, unverified, marking, formulaAtoms))
  {
    ListInOrder(dependencies, unverified);
    if marking.Some? {
      var domain := Domain(marking.value, formulaAtoms);
      var verified := Verified(marking.value, domain);
      AtomsInOrder(dependencies, unverified, domain, verified);
      ConcatInOrder(ListFindings(dependencies, unverified), AtomFindings(dependencies, unverified, domain, verified));
    }
  }

  /** Each finding is listed exactly when what it says holds, once, and in the order of the checks. */
  lemma PartitionShows(f: PartitionFinding, dependencies: seq<string>, unverified: seq<string>,
                       marking: Option<map<string, string>>, formulaAtoms: Option<set<string>>)
    ensures var findings := PartitionFindings(dependencies, unverified, marking, formulaAtoms);
            (f in findings <==> Finds(f, dependencies, unverified, marking, formulaAtoms)) && InOrder(findings)
  {
    PartitionInOrder(dependencies, unverified, marking, formulaAtoms);
    ListFindingsShow(f, dependencies, unverified, marking, formulaAtoms);
    if marking.Some? {
      AtomFindingsShow(f, dependencies, unverified, marking.value, formulaAtoms);
    }
  }

  /**
   With a marking, no finding means exactly: the two arrays list the T and F atoms of the formula and its
   remaining atoms, each atom once.
   */
  lemma PartitionExact(dependencies: seq<string>, unverified: seq<string>, marking: map<string, string>,
                       formulaAtoms: Option<set<string>>)
    ensures PartitionFindings(dependencies, unverified, Some(marking), formulaAtoms) == [] <==>
              && NoRepeats(dependencies) && NoRepeats(unverified)
              && (forall a: string :: a in dependencies <==> InFormula(a, marking, formulaAtoms) && Marked(a, marking))
              && (forall a: string :: a in unverified <==> InFormula(a, marking, formulaAtoms) && !Marked(a, marking))
  {
    var domain := Domain(marking, formulaAtoms);
    var verified := Verified(marking, domain);
    DomainMeans(marking, formulaAtoms);
    DifferMeans(dependencies, verified);
    DifferMeans(unverified, domain - verified);
    if Elements(dependencies) == verified && Elements(unverified) == domain - verified {
      EqualityChecksSuffice(dependencies, unverified, domain, verified);
    }
  }

  // ---------------------------------------------------------------- SC-RD-003

  datatype Stage = WP | DM

  function StageOf(id: string): Stage {
    if "WP-" <= id then WP else DM
  }

  function Stages(applied: seq<string>): seq<Stage> {
    seq(|applied|, k requires 0 <= k < |applied| => StageOf(applied[k]))
  }

  function Count(stages: seq<Stage>, stage: Stage): nat {
    if stages == [] then 0 else (if stages[0] == stage then 1 else 0) + Count(stages[1..], stage)
  }

  /** `sorted(stages)` with WP before DM. */
  function SortStages(stages: seq<Stage>): seq<Stage> {
    if stages == [] then []
    else if stages[0] == WP then [WP] + SortStages(stages[1..])
    else SortStages(stages[1..]) + [DM]
  }

  datatype OverlayFinding = DuplicateOverlay | IdentityOverlay | StagesOutOfOrder | SeveralDecisionModes

  ghost predicate Repeats(values: seq<string>) {
    exists i, j :: 0 <= i < j < |values| && values[i] == values[j]
  }

  ghost predicate WPAfterDM(applied: seq<string>) {
    exists i, j :: 0 <= i < j < |applied| && !("WP-" <= applied[i]) && "WP-" <= applied[j]
  }

  ghost predicate TwoDM(applied: seq<string>) {
    exists i, j :: 0 <= i < j < |applied| && !("WP-" <= applied[i]) && !("WP-" <= applied[j])
  }

  ghost function OverlayFindings(applied: seq<string>): seq<OverlayFinding> {
    If(Repeats(applied), DuplicateOverlay) + If("DM-1" in applied, IdentityOverlay)
    + If(WPAfterDM(applied), StagesOutOfOrder) + If(TwoDM(applied), SeveralDecisionModes)
  }

  /** `check_runtime_decision`, the SC-RD-003 part. */
  method CheckOverlays(applied: seq<string>) returns (findings: seq<OverlayFinding>)
    ensures findings == OverlayFindings(applied)
  {
    DuplicateExact(applied);
    StagesExact(applied);
    findings := [];
    if HasDuplicate(applied) {
      findings := findings + [DuplicateOverlay];
    }
    if "DM-1" in applied {
      findings := findings + [IdentityOverlay];
    }
    var stages := Stages(applied);
    if stages != SortStages(stages) {
      findings := findings + [StagesOutOfOrder];
    }
    if Count(stages, DM) > 1 {
      findings := findings + [SeveralDecisionModes];
    }
  }

  /** Distinct WP identifiers, then at most one other identifier, which is not the identity overlay. */
  ghost predicate WellStaged(applied: seq<string>) {
    exists n: nat :: StagedAt(applied, n)
  }

  ghost predicate StagedAt(applied: seq<string>, n: nat) {
    && n <= |applied| <= n + 1 && NoRepeats(applied)
    && (forall k | 0 <= k < n :: "WP-" <= applied[k])
    && (forall k | n <= k < |applied| :: !("WP-" <= applied[k]) && applied[k] != "DM-1")
  }

  lemma {:induction false} SortedStages(stages: seq<Stage>)
    ensures |SortStages(stages)| == |stages| && Count(stages, DM) <= |stages|
    ensures forall k | 0 <= k < |stages| :: SortStages(stages)[k] == if k < |stages| - Count(stages, DM) then WP else DM
  {
    if stages != [] {
      SortedStages(stages[1..]);
    }
  }

  lemma {:induction false} CountDecisionModes(stages: seq<Stage>, n: nat)
    requires n <= |stages|
    requires forall k | 0 <= k < |stages| :: stages[k] == if k < n then WP else DM
    ensures Count(stages, DM) == |stages| - n
  {
    if stages != [] {
      CountDecisionModes(stages[1..], if n > 0 then n - 1 else 0);
    }
  }

  lemma {:induction false} SeveralExact(stages: seq<Stage>)
    ensures Count(stages, DM) > 0 <==> DM in stages
    ensures Count(stages, DM) > 1 <==> exists i, j :: 0 <= i < j < |stages| && stages[i] == DM && stages[j] == DM
  {
    if stages != [] {
      var rest := stages[1..];
      SeveralExact(rest);
      if i, j :| 0 <= i < j < |rest| && rest[i] == DM && rest[j] == DM {
        assert stages[i + 1] == DM && stages[j + 1] == DM;
      }
      if stages[0] == DM && DM in rest {
        var j :| 0 <= j < |rest| && rest[j] == DM;
        assert stages[0] == DM && stages[j + 1] == DM;
      }
      if i, j :| 0 <= i < j < |stages| && stages[i] == DM && stages[j] == DM {
        assert rest[j - 1] == DM;
        assert i > 0 ==> rest[i - 1] == DM;
      }
    }
  }

  lemma SortedMeans(stages: seq<Stage>)
    ensures stages == SortStages(stages) <==>
              !exists i, j :: 0 <= i < j < |stages| && stages[i] == DM && stages[j] == WP
  {
    SortedStages(stages);
    if !exists i, j :: 0 <= i < j < |stages| && stages[i] == DM && stages[j] == WP {
      StagesSplit(stages);
    }
  }

  lemma {:induction false} StagesSplit(stages: seq<Stage>)
    requires forall i, j | 0 <= i < j < |stages| && stages[i] == DM :: stages[j] == DM
    ensures stages == SortStages(stages)
  {
    if stages != [] {
      var rest := stages[1..];
      StagesSplit(rest);
      if stages[0] == DM {
        assert forall k | 0 <= k < |rest| :: rest[k] == stages[k + 1] == DM;
        assert [DM] + rest == rest + [DM];
      }
      assert stages == [stages[0]] + rest;
    }
  }

  /** The two stage checks, identifier by identifier. */
  lemma StagesExact(applied: seq<string>)
    ensures Stages(applied) != SortStages(Stages(applied)) <==> WPAfterDM(applied)
    ensures Count(Stages(applied), DM) > 1 <==> TwoDM(applied)
  {
    var stages := Stages(applied);
    SortedMeans(stages);
    SeveralExact(stages);
    assert forall k | 0 <= k < |applied| :: stages[k] == WP <==> "WP-" <= applied[k];
  }

  lemma IdentityIsDecisionMode()
    ensures StageOf("DM-1") == DM
  {
    assert "DM-1"[0] != "WP-"[0];
  }

  lemma CleanIsStaged(applied: seq<string>)
    requires NoRepeats(applied) && "DM-1" !in applied && Stages(applied) == SortStages(Stages(applied))
    requires Count(Stages(applied), DM) <= 1
    ensures WellStaged(applied)
  {
    var stages := Stages(applied);
    SortedStages(stages);
    var n: nat := |stages| - Count(stages, DM);
    forall k | 0 <= k < |applied| ensures StageOf(applied[k]) == (if k < n then WP else DM) && applied[k] != "DM-1" {
      assert stages[k] == StageOf(applied[k]) && applied[k] in applied;
    }
    assert StagedAt(applied, n);
  }

  lemma StagedIsClean(applied: seq<string>)
    requires WellStaged(applied)
    ensures NoRepeats(applied) && "DM-1" !in applied && Stages(applied) == SortStages(Stages(applied))
    ensures Count(Stages(applied), DM) <= 1
  {
    var n: nat :| StagedAt(applied, n);
    var stages := Stages(applied);
    SortedStages(stages);
    CountDecisionModes(stages, n);
    assert stages == SortStages(stages);
    IdentityIsDecisionMode();
    forall k | 0 <= k < |applied| ensures applied[k] != "DM-1" {
      if k < n {
        assert StageOf(applied[k]) == WP;
      }
    }
  }

  /** No overlay finding means exactly that the list is well staged. */
  lemma OverlaysExact(applied: seq<string>)
    ensures OverlayFindings(applied) == [] <==> WellStaged(applied)
  {
    StagesExact(applied);
    if WellStaged(applied) {
      StagedIsClean(applied);
    }
    if OverlayFindings(applied) == [] {
      CleanIsStaged(applied);
    }
  }

  // ---------------------------------------------------------------- SC-RD-004

  datatype CodeFinding = DuplicateCode | NotSorted | Incomplete

  ghost predicate Descends(codes: seq<string>) {
    exists i, j :: 0 <= i < j < |codes| && Less(codes[j], codes[i])
  }

  ghost predicate Lacks(codes: seq<string>, expected: set<string>) {
    exists c :: c in expected && c !in codes
  }

  ghost function CodeFindings(codes: seq<string>, expected: Option<set<string>>): seq<CodeFinding> {
    If(Repeats(codes), DuplicateCode) + If(Descends(codes), NotSorted)
    + If(expected.Some? && Lacks(codes, expected.value), Incomplete)
  }

  /** `check_runtime_decision`, the SC-RD-004 part. */
  method CheckReasonCodes(codes: seq<string>, expected: Option<set<string>>) returns (findings: seq<CodeFinding>)
    ensures findings == CodeFindings(codes, expected)
  {
    DuplicateExact(codes);
    TextSort.SortedExactly(codes);
    NotAscending(codes);
    findings := [];
    if HasDuplicate(codes) {
      findings := findings + [DuplicateCode];
    }
    if codes != TextSort.Sort(codes) {
      findings := findings + [NotSorted];
    }
    if expected.Some? {
      var absent := expected.value - Elements(codes);
      NothingMissing(expected.value, Elements(codes));
      assert Lacks(codes, expected.value) <==> !(expected.value <= Elements(codes));
      if absent != {} {
        findings := findings + [Incomplete];
      }
    }
  }

  /** No code finding means exactly: the codes ascend strictly and every expected code is among them. */
  lemma CodesExact(codes: seq<string>, expected: Option<set<string>>)
    ensures CodeFindings(codes, expected) == [] <==>
              StrictlyAscending(codes) && (expected.Some? ==> forall c | c in expected.value :: c in codes)
  {
    NotAscending(codes);
    AscendingAndDistinct(codes);
  }

  lemma NotAscending(codes: seq<string>)
    ensures !TextSort.Ascending(codes) <==> Descends(codes)
  {
    forall i, j | 0 <= i < j < |codes| ensures Less(codes[j], codes[i]) <==> !AtMost(codes[i], codes[j]) {
      LessTotal(codes[i], codes[j]);
      if Less(codes[j], codes[i]) {
        LessAsymmetric(codes[j], codes[i]);
      }
    }
  }

  /** Sorted without duplicates is strictly ascending, and conversely. */
  lemma AscendingAndDistinct(codes: seq<string>)
    ensures TextSort.Ascending(codes) && NoRepeats(codes) <==> StrictlyAscending(codes)
  {
    if StrictlyAscending(codes) {
      forall i, j | 0 <= i < j < |codes| ensures codes[i] != codes[j] {
        LessAsymmetric(codes[i], codes[j]);
      }
    }
  }
}
