/**
 One admission input evaluated at many times: outcomes change only at lifecycle stamps written in the
 input, every run over increasing times has one shape, and what is dead is never admitted again.
 */
module Timeline {
  import opened Outcomes
  import opened Evaluator
  import opened Precedence

  // ---------------------------------------------------------------- phases

  /** The place of a time-dependent state in a run: not yet, live, then revoked, superseded, expired. */
  function Phase(s: AdmissionState): (p: nat)
  {
    match s
    case NotYetEffective => 0
    case Revoked => 2
    case Superseded => 3
    case Expired => 4
    case _ => 1
  }

  predicate Live(s: AdmissionState) {
    s == ConflictingAuthority || s == AdmissionNotEstablished || s == Admitted
  }

  predicate Dead(s: AdmissionState) {
    s == Revoked || s == Superseded || s == Expired
  }

  /** Checks 1-8 decide: no timestamp is read. */
  predicate TimeIndependent(i: Input<int>) {
    RegistryChecks(i).Some? || BindingChecks(i).Some?
  }

  lemma CheckMonotone(i: Input<int>, t: int, u: int)
    requires t <= u
    ensures NotYetEffectiveCheck(i, u) ==> NotYetEffectiveCheck(i, t)
    ensures ExpiredCheck(i, t) ==> ExpiredCheck(i, u)
    ensures SupersededCheck(i, t) ==> SupersededCheck(i, u)
    ensures RevokedCheck(i, t) ==> RevokedCheck(i, u)
  {
  }

  lemma PhaseOfFirst(n: bool, e: bool, s: bool, r: bool, c: bool, q: bool,
                     n': bool, e': bool, s': bool, r': bool, c': bool, q': bool)
    requires (n' ==> n) && (e ==> e') && (s ==> s') && (r ==> r')
    ensures Phase(FirstOf(n, e, s, r, c, q)) <= Phase(FirstOf(n', e', s', r', c', q'))
  {
  }

  lemma PhaseMonotone(i: Input<int>, t: int, u: int)
    requires !TimeIndependent(i) && t <= u
    ensures Phase(State(i, t)) <= Phase(State(i, u))
  {
    CheckMonotone(i, t, u);
    PhaseOfFirst(NotYetEffectiveCheck(i, t), ExpiredCheck(i, t), SupersededCheck(i, t), RevokedCheck(i, t),
                 ConflictCheck(i, t), NotEstablishedCheck(i, t),
                 NotYetEffectiveCheck(i, u), ExpiredCheck(i, u), SupersededCheck(i, u), RevokedCheck(i, u),
                 ConflictCheck(i, u), NotEstablishedCheck(i, u));
  }

  lemma TemporalStates(i: Input<int>, t: int)
    requires !TimeIndependent(i)
    ensures State(i, t) == NotYetEffective || Live(State(i, t)) || Dead(State(i, t))
  {
  }

  // ---------------------------------------------------------------- the shape of a run

  predicate Ascending(times: seq<int>) {
    forall j, k | 0 <= j <= k < |times| :: times[j] <= times[k]
  }

  function Run(i: Input<int>, times: seq<int>): seq<AdmissionState> {
    seq(|times|, k requires 0 <= k < |times| => State(i, times[k]))
  }

  /** NOT_YET_EFFECTIVE*, then any live states, then REVOKED*, SUPERSEDED*, EXPIRED*, cut at a, b, c, d. */
  ghost predicate ShapedAt(run: seq<AdmissionState>, a: nat, b: nat, c: nat, d: nat) {
    a <= b <= c <= d <= |run|
    && (forall k | 0 <= k < a :: run[k] == NotYetEffective)
    && (forall k | a <= k < b :: Live(run[k]))
    && (forall k | b <= k < c :: run[k] == Revoked)
    && (forall k | c <= k < d :: run[k] == Superseded)
    && (forall k | d <= k < |run| :: run[k] == Expired)
  }

  /** How many of the phases, from the front, stay below `p`. */
  function Below(phases: seq<nat>, p: nat): (k: nat)
    ensures k <= |phases|
    ensures forall j | 0 <= j < k :: phases[j] < p
    ensures k < |phases| ==> phases[k] >= p
  {
    if phases == [] || phases[0] >= p then 0 else 1 + Below(phases[1..], p)
  }

  lemma CutAt(phases: seq<nat>, p: nat, k: nat)
    requires forall j, m | 0 <= j <= m < |phases| :: phases[j] <= phases[m]
    requires k < |phases|
    ensures k < Below(phases, p) <==> phases[k] < p
  {
  }

  /**
   Every run over increasing times either repeats one time-independent state, or has the one shape
   above. Nothing else can be observed, whatever the evidence.
   */
  lemma ShapeOfEveryRun(i: Input<int>, times: seq<int>)
    requires Ascending(times)
    ensures if TimeIndependent(i) then
              && (forall k | 0 <= k < |times| :: Rank(Run(i, times)[k]) <= 8)
              && forall j, k | 0 <= j < k < |times| :: Run(i, times)[j] == Run(i, times)[k]
            else exists a, b, c, d :: ShapedAt(Run(i, times), a, b, c, d)
  {
    if !TimeIndependent(i) {
      var run := Run(i, times);
      var phases := seq(|run|, k requires 0 <= k < |run| => Phase(run[k]));
      forall j, m | 0 <= j <= m < |phases| ensures phases[j] <= phases[m] {
        PhaseMonotone(i, times[j], times[m]);
      }
      forall k, p | 0 <= k < |run| && 1 <= p <= 4 ensures k < Below(phases, p) <==> Phase(run[k]) < p {
        CutAt(phases, p, k);
      }
      forall k | 0 <= k < |run| ensures run[k] == NotYetEffective || Live(run[k]) || Dead(run[k]) {
        TemporalStates(i, times[k]);
      }
      CutsOrdered(phases);
      ShapeFromCuts(run, phases);
    }
  }

  lemma CutsOrdered(phases: seq<nat>)
    ensures Below(phases, 1) <= Below(phases, 2) <= Below(phases, 3) <= Below(phases, 4)
  {
    BelowMonotone(phases, 1);
    BelowMonotone(phases, 2);
    BelowMonotone(phases, 3);
  }

  lemma BelowMonotone(phases: seq<nat>, p: nat)
    ensures Below(phases, p) <= Below(phases, p + 1)
  {
    var k := Below(phases, p + 1);
    assert k < |phases| ==> phases[k] >= p + 1;
  }

  lemma PhaseDetermines(s: AdmissionState)
    requires s == NotYetEffective || Live(s) || Dead(s)
    ensures Phase(s) == 0 <==> s == NotYetEffective
    ensures Phase(s) == 1 <==> Live(s)
    ensures Phase(s) == 2 <==> s == Revoked
    ensures Phase(s) == 3 <==> s == Superseded
    ensures Phase(s) == 4 <==> s == Expired
    ensures Phase(s) <= 4
  {
  }

  lemma ShapeFromCuts(run: seq<AdmissionState>, phases: seq<nat>)
    requires |phases| == |run|
    requires Below(phases, 1) <= Below(phases, 2) <= Below(phases, 3) <= Below(phases, 4)
    requires forall k, p | 0 <= k < |run| && 1 <= p <= 4 :: k < Below(phases, p) <==> Phase(run[k]) < p
    requires forall k | 0 <= k < |run| :: run[k] == NotYetEffective || Live(run[k]) || Dead(run[k])
    ensures ShapedAt(run, Below(phases, 1), Below(phases, 2), Below(phases, 3), Below(phases, 4))
  {
    var a, b, c, d := Below(phases, 1), Below(phases, 2), Below(phases, 3), Below(phases, 4);
    forall k | 0 <= k < |run|
      ensures k < a ==> run[k] == NotYetEffective
      ensures a <= k < b ==> Live(run[k])
      ensures b <= k < c ==> run[k] == Revoked
      ensures c <= k < d ==> run[k] == Superseded
      ensures d <= k ==> run[k] == Expired
    {
      PhaseDetermines(run[k]);
    }
  }

  /** Once dead, never live again: a dead outcome only moves from revoked to superseded to expired. */
  lemma DeadStaysDead(i: Input<int>, t: int, u: int)
    requires t <= u && Dead(State(i, t))
    ensures Dead(State(i, u)) && Phase(State(i, t)) <= Phase(State(i, u))
  {
    if !TimeIndependent(i) {
      PhaseMonotone(i, t, u);
      TemporalStates(i, u);
    }
  }

  // ---------------------------------------------------------------- boundaries

  predicate IsStamp(b: int, stamp: Option<int>) {
    stamp == Some(b)
  }

  /** A stamp of `l` that the checks on a warrant read. */
  predicate WarrantStamp(b: int, l: Lifecycle<int>) {
    b == l.effectiveFrom || IsStamp(b, l.effectiveUntil) || IsStamp(b, l.revokedAt)
  }

  predicate RecordStamp(b: int, l: Lifecycle<int>) {
    WarrantStamp(b, l) || IsStamp(b, l.supersededAt)
  }

  /** A lifecycle boundary written in the input: in its registration, or in evidence about its source. */
  ghost predicate Boundary(b: int, i: Input<int>) {
    RecordStamp(b, i.registration.lifecycle)
    || exists e :: IsRelevant(e, i) && (RecordStamp(b, e.lifecycle) || WarrantStamp(b, e.warrant.lifecycle))
  }

  ghost predicate Quiet(i: Input<int>, t: int, u: int) {
    t <= u && forall b | t < b <= u :: !Boundary(b, i)
  }

  lemma WarrantQuiet(l: Lifecycle<int>, t: int, u: int)
    requires t <= u && forall b | t < b <= u :: !WarrantStamp(b, l)
    ensures NotYetEffectiveAt(l, t) == NotYetEffectiveAt(l, u)
    ensures ExpiredAt(l, t) == ExpiredAt(l, u) && RevokedAt(l, t) == RevokedAt(l, u)
  {
    assert t < l.effectiveFrom <= u ==> WarrantStamp(l.effectiveFrom, l);
    assert l.effectiveUntil.Some? && t < l.effectiveUntil.value <= u ==> WarrantStamp(l.effectiveUntil.value, l);
    assert l.revokedAt.Some? && t < l.revokedAt.value <= u ==> WarrantStamp(l.revokedAt.value, l);
  }

  lemma RecordQuiet(l: Lifecycle<int>, t: int, u: int)
    requires t <= u && forall b | t < b <= u :: !RecordStamp(b, l)
    ensures NotYetEffectiveAt(l, t) == NotYetEffectiveAt(l, u) && SupersededAt(l, t) == SupersededAt(l, u)
    ensures ExpiredAt(l, t) == ExpiredAt(l, u) && RevokedAt(l, t) == RevokedAt(l, u)
  {
    forall b | t < b <= u ensures !WarrantStamp(b, l) {
      assert !RecordStamp(b, l);
    }
    WarrantQuiet(l, t, u);
    assert l.supersededAt.Some? && t < l.supersededAt.value <= u ==> RecordStamp(l.supersededAt.value, l);
  }

  ghost predicate SameAt(e: Evidence<int>, i: Input<int>, t: int, u: int) {
    && EvidenceNotYetEffective(e, t) == EvidenceNotYetEffective(e, u)
    && EvidenceExpired(e, t) == EvidenceExpired(e, u)
    && EvidenceSuperseded(e, t) == EvidenceSuperseded(e, u)
    && EvidenceRevoked(e, t) == EvidenceRevoked(e, u)
    && Operative(e, i, t) == Operative(e, i, u)
  }

  lemma EvidenceQuiet(e: Evidence<int>, i: Input<int>, t: int, u: int)
    requires IsRelevant(e, i) && Quiet(i, t, u)
    ensures SameAt(e, i, t, u)
  {
    forall b | t < b <= u ensures !RecordStamp(b, e.lifecycle) && !WarrantStamp(b, e.warrant.lifecycle) {
      assert !Boundary(b, i);
    }
    RecordQuiet(e.lifecycle, t, u);
    WarrantQuiet(e.warrant.lifecycle, t, u);
  }

  lemma RegistrationQuiet(i: Input<int>, t: int, u: int)
    requires Quiet(i, t, u)
    ensures var l := i.registration.lifecycle;
            && NotYetEffectiveAt(l, t) == NotYetEffectiveAt(l, u) && SupersededAt(l, t) == SupersededAt(l, u)
            && ExpiredAt(l, t) == ExpiredAt(l, u) && RevokedAt(l, t) == RevokedAt(l, u)
  {
    forall b | t < b <= u ensures !RecordStamp(b, i.registration.lifecycle) {
      assert !Boundary(b, i);
    }
    RecordQuiet(i.registration.lifecycle, t, u);
  }

  lemma ChecksQuiet(i: Input<int>, t: int, u: int)
    requires Quiet(i, t, u)
    ensures NotYetEffectiveCheck(i, t) == NotYetEffectiveCheck(i, u) && ExpiredCheck(i, t) == ExpiredCheck(i, u)
    ensures SupersededCheck(i, t) == SupersededCheck(i, u) && RevokedCheck(i, t) == RevokedCheck(i, u)
    ensures ConflictCheck(i, t) == ConflictCheck(i, u) && NotEstablishedCheck(i, t) == NotEstablishedCheck(i, u)
  {
    RegistrationQuiet(i, t, u);
    forall e | e in Relevant(i) ensures SameAt(e, i, t, u) {
      EvidenceQuiet(e, i, t, u);
    }
    assert OperativeBases(i, t) == OperativeBases(i, u);
  }

  /** Two times with no boundary in (t, u] have the same outcome. */
  lemma PiecewiseConstant(i: Input<int>, t: int, u: int)
    requires Quiet(i, t, u)
    ensures State(i, t) == State(i, u)
  {
    ChecksQuiet(i, t, u);
  }

  /** An outcome changes only across a half-open boundary written in the input. */
  lemma ChangeHasABoundary(i: Input<int>, t: int, u: int)
    requires t <= u && State(i, t) != State(i, u)
    ensures exists b :: t < b <= u && Boundary(b, i)
  {
    if forall b | t < b <= u :: !Boundary(b, i) {
      PiecewiseConstant(i, t, u);
    }
  }

  // ---------------------------------------------------------------- the live part is unconstrained

  function Between(from: int, until: Option<int>): Lifecycle<int> {
    Lifecycle(from, until, None, None)
  }

  function SampleEvidence(basis: string, l: Lifecycle<int>): Evidence<int> {
    Evidence("s", "1", "d", basis, "j", ["a"], l, Warrant("1", "d", "j", ["a"], Between(0, None), ActiveWarrant))
  }

  function SampleInput(evidence: seq<Evidence<int>>): Input<int> {
    Input([Anchor("s", "d")], Registration("s", "1", "d", Available, Fresh, true, "j", ["a"], Between(0, None)),
          evidence, "j", "a")
  }

  /** The live segment really can mix: admission is lost to a conflict, or to a gap in authority, and regained. */
  lemma AdmissionCanReturn()
    ensures exists i :: State(i, 5) == Admitted && State(i, 15) == ConflictingAuthority && State(i, 25) == Admitted
    ensures exists i :: State(i, 5) == Admitted && State(i, 15) == AdmissionNotEstablished && State(i, 25) == Admitted
  {
    ConflictWindow();
    AuthorityGap();
  }

  lemma ConflictWindow()
    ensures var i := SampleInput([SampleEvidence("p", Between(0, None)), SampleEvidence("q", Between(10, Some(20)))]);
            State(i, 5) == Admitted && State(i, 15) == ConflictingAuthority && State(i, 25) == Admitted
  {
    assert "p"[0] != "q"[0];
    forall at | at == 5 || at == 15 || at == 25
      ensures var i := SampleInput([SampleEvidence("p", Between(0, None)), SampleEvidence("q", Between(10, Some(20)))]);
              State(i, at) == if at == 15 then ConflictingAuthority else Admitted
    {
      TwoRecords("p", Between(0, None), "q", Between(10, Some(20)), at);
    }
  }

  lemma AuthorityGap()
    ensures var i := SampleInput([SampleEvidence("p", Between(0, Some(10))), SampleEvidence("p", Between(20, None))]);
            State(i, 5) == Admitted && State(i, 15) == AdmissionNotEstablished && State(i, 25) == Admitted
  {
    forall at | at == 5 || at == 15 || at == 25
      ensures var i := SampleInput([SampleEvidence("p", Between(0, Some(10))), SampleEvidence("p", Between(20, None))]);
              State(i, at) == if at == 15 then AdmissionNotEstablished else Admitted
    {
      TwoRecords("p", Between(0, Some(10)), "p", Between(20, None), at);
    }
  }

  predicate InForce(l: Lifecycle<int>, at: int) {
    !NotYetEffectiveAt(l, at) && !ExpiredAt(l, at) && !SupersededAt(l, at) && !RevokedAt(l, at)
  }

  /** The outcome over two records that differ in basis and lifecycle only. */
  lemma TwoRecords(x: string, l: Lifecycle<int>, y: string, m: Lifecycle<int>, at: int)
    requires at >= 0
    ensures State(SampleInput([SampleEvidence(x, l), SampleEvidence(y, m)]), at) ==
              FirstOf(NotYetEffectiveAt(l, at) && NotYetEffectiveAt(m, at), ExpiredAt(l, at) && ExpiredAt(m, at),
                      SupersededAt(l, at) && SupersededAt(m, at), RevokedAt(l, at) && RevokedAt(m, at),
                      InForce(l, at) && InForce(m, at) && x != y, !InForce(l, at) && !InForce(m, at))
  {
    var p, q := SampleEvidence(x, l), SampleEvidence(y, m);
    var i := SampleInput([p, q]);
    SampleScoped(p, q);
    TwoRecordChecks(i, p, q, at);
  }

  lemma TwoRecordChecks(i: Input<int>, p: Evidence<int>, q: Evidence<int>, at: int)
    requires at >= 0 && i == SampleInput(i.evidence) && Relevant(i) == {p, q} && Scoped(i) == {p, q}
    requires p == SampleEvidence(p.authorityBasisRef, p.lifecycle)
             && q == SampleEvidence(q.authorityBasisRef, q.lifecycle)
    ensures var l, m := p.lifecycle, q.lifecycle;
            && NotYetEffectiveCheck(i, at) == (NotYetEffectiveAt(l, at) && NotYetEffectiveAt(m, at))
            && ExpiredCheck(i, at) == (ExpiredAt(l, at) && ExpiredAt(m, at))
            && SupersededCheck(i, at) == (SupersededAt(l, at) && SupersededAt(m, at))
            && RevokedCheck(i, at) == (RevokedAt(l, at) && RevokedAt(m, at))
            && ConflictCheck(i, at) == (InForce(l, at) && InForce(m, at) && p.authorityBasisRef != q.authorityBasisRef)
            && NotEstablishedCheck(i, at) == (!InForce(l, at) && !InForce(m, at))
  {
    SampleLifecycle(p, i, at);
    SampleLifecycle(q, i, at);
    SampleBases(i, p, q, at);
    assert p in Scoped(i) && q in Scoped(i);
  }

  lemma SampleLifecycle(e: Evidence<int>, i: Input<int>, at: int)
    requires at >= 0 && e == SampleEvidence(e.authorityBasisRef, e.lifecycle) && i == SampleInput(i.evidence)
    ensures EvidenceNotYetEffective(e, at) == NotYetEffectiveAt(e.lifecycle, at)
    ensures EvidenceExpired(e, at) == ExpiredAt(e.lifecycle, at)
    ensures EvidenceRevoked(e, at) == RevokedAt(e.lifecycle, at)
    ensures Operative(e, i, at) == InForce(e.lifecycle, at)
  {
    assert "a" in ["a"];
  }

  lemma SampleBases(i: Input<int>, p: Evidence<int>, q: Evidence<int>, at: int)
    requires Relevant(i) == {p, q}
    ensures ConflictCheck(i, at) <==>
              Operative(p, i, at) && Operative(q, i, at) && p.authorityBasisRef != q.authorityBasisRef
  {
    var bases := OperativeBases(i, at);
    assert p in Relevant(i) && q in Relevant(i);
    assert forall z :: z in bases <==> exists e :: e in Relevant(i) && Operative(e, i, at) && e.authorityBasisRef == z;
    PairOfBases(Operative(p, i, at), Operative(q, i, at), p.authorityBasisRef, q.authorityBasisRef, bases);
  }

  lemma PairOfBases(a: bool, b: bool, x: string, y: string, bases: set<string>)
    requires forall z :: z in bases <==> (a && z == x) || (b && z == y)
    ensures |bases| >= 2 <==> a && b && x != y
  {
    assert bases == (if a then {x} else {}) + (if b then {y} else {});
  }

  lemma SampleScoped(p: Evidence<int>, q: Evidence<int>)
    requires p == SampleEvidence(p.authorityBasisRef, p.lifecycle)
             && q == SampleEvidence(q.authorityBasisRef, q.lifecycle)
    ensures var i := SampleInput([p, q]);
            Relevant(i) == {p, q} && Scoped(i) == {p, q} && !TimeIndependent(i)
  {
    var i := SampleInput([p, q]);
    assert "a" in ["a"];
    assert Relevant(i) == {p, q};
    assert VersionBound(i) == {p, q};
    assert Bound(i) == {p, q};
    assert Scoped(i) == {p, q};
    assert p in Scoped(i);
  }
}
