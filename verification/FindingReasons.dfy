/** What each of the application's semantic findings says, written without the functions that compute them. */
module FindingReasons {
  import opened Wrappers
  import opened ChildPayload
  import opened Cohort
  import opened CohortFindings

  predicate Paired(source: string, target: string)
  {
    (source, target) in {("SPIN_OFF", "SPIN_IN"), ("DEMERGER_OUT", "DEMERGER_IN"), ("MERGER_OUT", "MERGER_IN"),
                         ("EXCHANGE_OUT", "EXCHANGE_IN"), ("REPLACEMENT_OUT", "REPLACEMENT_IN")}
  }

  ghost predicate IsSource(c: Child)
  {
    exists t :: Paired(c.typ, t)
  }

  ghost predicate IsTarget(c: Child)
  {
    exists s :: Paired(s, c.typ)
  }

  /** The role the application wants of a child, when the event's source is to have `sourceRole`. */
  ghost predicate RoleFits(sourceRole: string, c: Child)
  {
    || (IsSource(c) && c.role == sourceRole)
    || (IsTarget(c) && c.role == "TARGET_POSITION_ADD")
    || (c.typ, c.role) in {("CASH_CONSIDERATION", "CASH_CONSIDERATION"), ("CASH_IN_LIEU", "CASH_IN_LIEU"),
                           ("ADJUSTMENT", "CASH_SETTLEMENT"), ("FEE", "CHARGE"), ("TAX", "TAX")}
  }

  /** The dependency in place `j` is, by the last declaration of its id, a source for the target. */
  ghost predicate NamesSource(cs: seq<Child>, c: Child, j: nat, k: nat)
  {
    j < |c.deps| && k < |cs| && Last(cs, k) && cs[k].id == c.deps[j] && Paired(cs[k].typ, c.typ)
  }

  /** One place, and no other, names a source. */
  ghost predicate OnePlace(cs: seq<Child>, c: Child, j: nat, k: nat)
  {
    NamesSource(cs, c, j, k) && forall i: nat, l: nat :: NamesSource(cs, c, i, l) ==> i == j
  }

  ghost predicate DependsOnAll(cs: seq<Child>, c: Child, types: set<string>)
  {
    forall i | 0 <= i < |cs| && cs[i].typ in types :: cs[i].id in c.deps
  }

  /** The dependencies a child that is neither source nor target is to have. */
  ghost predicate DependenciesFit(targetType: string, cs: seq<Child>, c: Child)
  {
    var cash := {"CASH_CONSIDERATION", "CASH_IN_LIEU"};
    match c.typ
    case "CASH_CONSIDERATION" => DependsOnAll(cs, c, {targetType})
    case "CASH_IN_LIEU" =>
      exists i | 0 <= i < |cs| :: cs[i].typ == targetType && cs[i].instrument == c.instrument && cs[i].id in c.deps
    case "ADJUSTMENT" =>
      exists i | 0 <= i < |cs| :: cs[i].typ in cash && c.deps != [] && forall d | d in c.deps :: d == cs[i].id
    case _ => DependsOnAll(cs, c, {targetType} + cash) && exists i | 0 <= i < |cs| :: cs[i].typ in {targetType} + cash
  }

  /** When a finding about one child is reported. */
  ghost predicate Wrong(sourceRole: string, targetType: string, cs: seq<Child>, c: Child, r: Reason)
  {
    match r
    case InvalidRole => !RoleFits(sourceRole, c)
    case SourceInstrumentRequired =>
      (IsSource(c) && None in {c.source, c.instrument}) || (IsTarget(c) && c.source == None)
    case SourceChildInstrumentMismatch => IsSource(c) && None !in {c.source, c.instrument} && c.instrument != c.source
    case TargetInstrumentRequired => IsTarget(c) && None in {c.target, c.instrument}
    case TargetInstrumentEqualsSource => IsTarget(c) && c.target != None && c.target == c.source
    case TargetChildInstrumentMismatch => IsTarget(c) && None !in {c.target, c.instrument} && c.instrument != c.target
    case TargetSourceDependencyRequired => IsTarget(c) && !exists j: nat, k: nat :: OnePlace(cs, c, j, k)
    case TargetSourceInstrumentMismatch =>
      IsTarget(c) && exists j: nat, k: nat :: OnePlace(cs, c, j, k) && cs[k].instrument != c.source
    case NonPositionDependencyRequired =>
      !IsSource(c) && !IsTarget(c) && RoleFits(sourceRole, c) && !DependenciesFit(targetType, cs, c)
    case _ => false
  }

  /** When a finding is reported, and the children it names. */
  ghost predicate Reported(eventType: string, cs: seq<Child>, r: Reason, ids: set<string>)
  {
    if r == UnsupportedType then ids == {} && forall s, role, t :: !Family(eventType, s, role, t)
    else exists s, role, t :: Family(eventType, s, role, t) && InFamily(s, role, t, cs, r, ids)
  }

  ghost predicate InFamily(s: string, role: string, t: string, cs: seq<Child>, r: Reason, ids: set<string>)
  {
    match r
    case ChildTypeNotAllowed =>
      && ids != {}
      && forall d :: d in ids <==> exists i | 0 <= i < |cs| :: cs[i].id == d && cs[i].typ !in {s, t} + OVERLAY_TYPES
    case SourceChildRequired => ids == {} && forall i | 0 <= i < |cs| :: cs[i].typ != s
    case SourceChildCardinality =>
      && (exists i, j | 0 <= i < j < |cs| :: cs[i].typ == cs[j].typ == s)
      && forall d :: d in ids <==> exists i | 0 <= i < |cs| :: cs[i].id == d && cs[i].typ == s
    case TargetChildRequired => ids == {} && forall i | 0 <= i < |cs| :: cs[i].typ != t
    case _ => exists i | 0 <= i < |cs| :: ids == {cs[i].id} && Wrong(role, t, cs, cs[i], r)
  }

  // ---------------------------------------------------------------- one child

  lemma SourcesExactly(c: Child)
    ensures IsSource(c) <==> SourceType(c.typ)
  {
    if SourceType(c.typ) {
      assert Paired("SPIN_OFF", "SPIN_IN") && Paired("DEMERGER_OUT", "DEMERGER_IN");
      assert Paired("MERGER_OUT", "MERGER_IN") && Paired("EXCHANGE_OUT", "EXCHANGE_IN");
      assert Paired("REPLACEMENT_OUT", "REPLACEMENT_IN");
    }
  }

  lemma TargetsExactly(c: Child, s: string)
    ensures Paired(s, c.typ) <==> ExpectedSource(c.typ) == Some(s)
    ensures Paired(s, c.typ) ==> IsTarget(c) && !SourceType(c.typ)
    ensures IsTarget(c) ==> ExpectedSource(c.typ).Some?
  {
  }

  lemma OverlayRoles(c: Child)
    requires !IsSource(c) && !IsTarget(c)
    ensures forall role :: RoleFits(role, c) <==> NonPositionRole(c.typ) == Some(c.role)
  {
  }

  lemma SourceWrong(p: Policy, cs: seq<Child>, c: Child, r: Reason)
    requires IsSource(c)
    ensures r in SourceFindings(p, c) <==> Wrong(p.sourceRole, p.targetType, cs, c, r)
  {
    assert !IsTarget(c) by { if s :| Paired(s, c.typ) { TargetsExactly(c, s); SourcesExactly(c); } }
    assert NonPositionRole(c.typ) == None;
  }

  lemma PlaceExactly(cs: seq<Child>, c: Child, s: string, j: nat)
    requires Paired(s, c.typ)
    ensures j in CompatibleAt(cs, c, s) <==> exists k: nat :: NamesSource(cs, c, j, k)
    ensures forall k: nat :: NamesSource(cs, c, j, k) ==> c.deps[j] in ById(cs) && ById(cs)[c.deps[j]] == cs[k]
  {
    ByIdHolds(cs);
    if j in CompatibleAt(cs, c, s) {
      var k: nat :| k < |cs| && Last(cs, k) && cs[k].id == c.deps[j];
      assert NamesSource(cs, c, j, k);
    }
  }

  lemma OnlyPlace(cs: seq<Child>, c: Child, s: string)
    requires Paired(s, c.typ)
    ensures |CompatibleAt(cs, c, s)| == 1 <==> exists j: nat, k: nat :: OnePlace(cs, c, j, k)
    ensures forall j: nat, k: nat :: OnePlace(cs, c, j, k) ==>
              CompatibleAt(cs, c, s) == {j} && c.deps[j] in ById(cs) && ById(cs)[c.deps[j]] == cs[k]
  {
    hide CompatibleAt, ById, Paired;
    var places := CompatibleAt(cs, c, s);
    forall j: nat
      ensures j in places <==> exists k: nat :: NamesSource(cs, c, j, k)
      ensures forall k: nat :: NamesSource(cs, c, j, k) ==> c.deps[j] in ById(cs) && ById(cs)[c.deps[j]] == cs[k]
    {
      PlaceExactly(cs, c, s, j);
    }
    forall j: nat, k: nat | OnePlace(cs, c, j, k) ensures places == {j} {
      assert j in places;
      forall i | i in places ensures i == j { var l: nat :| NamesSource(cs, c, i, l); }
    }
    if |places| == 1 {
      SingletonExists(places);
      var j :| j in places && places == {j};
      var k: nat :| NamesSource(cs, c, j, k);
      assert OnePlace(cs, c, j, k);
    }
  }

  lemma TargetWrong(p: Policy, cs: seq<Child>, c: Child, s: string, r: Reason)
    requires Paired(s, c.typ)
    ensures r in TargetFindings(cs, c, s) <==> Wrong(p.sourceRole, p.targetType, cs, c, r)
  {
    hide TargetColumnFindings, TargetPlaceFindings, Wrong, Paired;
    ColumnWrong(p, cs, c, s, r);
    PlaceWrong(p, cs, c, s, r);
  }

  predicate OfPlace(r: Reason)
  {
    r in {TargetSourceDependencyRequired, TargetSourceInstrumentMismatch}
  }

  lemma ColumnWrong(p: Policy, cs: seq<Child>, c: Child, s: string, r: Reason)
    requires Paired(s, c.typ)
    ensures r in TargetColumnFindings(c) <==> !OfPlace(r) && Wrong(p.sourceRole, p.targetType, cs, c, r)
  {
    hide OnePlace, Paired, IsSource, IsTarget, RoleFits, DependenciesFit;
    TargetRoles(c, s);
  }

  lemma PlaceWrong(p: Policy, cs: seq<Child>, c: Child, s: string, r: Reason)
    requires Paired(s, c.typ)
    ensures r in TargetPlaceFindings(cs, c, s) <==> OfPlace(r) && Wrong(p.sourceRole, p.targetType, cs, c, r)
  {
    hide CompatibleAt, ById, Paired, IsSource, IsTarget, RoleFits, DependenciesFit, TargetPlaceFindings;
    TargetRoles(c, s);
    OnlyPlace(cs, c, s);
    if |CompatibleAt(cs, c, s)| != 1 { PlaceFindings(cs, c, s); }
    if j: nat, k: nat :| OnePlace(cs, c, j, k) {
      PlaceFinding(cs, c, s, j);
      forall i: nat, l: nat | OnePlace(cs, c, i, l) ensures cs[l] == cs[k] { assert i == j; }
    }
  }

  lemma PlaceFindings(cs: seq<Child>, c: Child, s: string)
    requires |CompatibleAt(cs, c, s)| != 1
    ensures TargetPlaceFindings(cs, c, s) == {TargetSourceDependencyRequired}
  {
    hide CompatibleAt;
  }

  lemma PlaceFinding(cs: seq<Child>, c: Child, s: string, j: nat)
    requires CompatibleAt(cs, c, s) == {j} && j < |c.deps| && c.deps[j] in ById(cs)
    ensures TargetPlaceFindings(cs, c, s) ==
              if c.source != ById(cs)[c.deps[j]].instrument then {TargetSourceInstrumentMismatch} else {}
  {
    hide ById;
    assert j in CompatibleAt(cs, c, s);
  }

  lemma TargetRoles(c: Child, s: string)
    requires Paired(s, c.typ)
    ensures IsTarget(c) && !IsSource(c)
    ensures forall role :: RoleFits(role, c) <==> c.role == "TARGET_POSITION_ADD"
  {
    TargetsExactly(c, s);
    SourcesExactly(c);
    assert NonPositionRole(c.typ) == None;
  }

  lemma DependenciesExactly(p: Policy, cs: seq<Child>, c: Child)
    ensures GovernedDependencies(p, cs, c) <==> DependenciesFit(p.targetType, cs, c)
  {
    var targets, cash := TargetIds(p, cs), ConsiderationChildren(cs);
    var deps := set d | d in c.deps;
    assert forall i | 0 <= i < |cs| :: cs[i].typ == p.targetType ==> cs[i].id in targets;
    assert forall i | 0 <= i < |cs| :: cs[i].typ in {"CASH_CONSIDERATION", "CASH_IN_LIEU"} ==> cs[i].id in cash;
    if c.typ == "ADJUSTMENT" { SettlementExactly(cs, c); }
  }

  lemma SettlementExactly(cs: seq<Child>, c: Child)
    ensures (var deps := set d | d in c.deps; |deps| == 1 && deps <= ConsiderationChildren(cs)) <==>
              exists i | 0 <= i < |cs| :: && cs[i].typ in {"CASH_CONSIDERATION", "CASH_IN_LIEU"}
                                          && c.deps != [] && forall d | d in c.deps :: d == cs[i].id
  {
    var deps := set d | d in c.deps;
    if |deps| == 1 && deps <= ConsiderationChildren(cs) {
      var d :| d in deps;
      assert |deps - {d}| == 0;
      assert deps == {d} && d in ConsiderationChildren(cs);
      var i :| 0 <= i < |cs| && cs[i].typ in {"CASH_CONSIDERATION", "CASH_IN_LIEU"} && cs[i].id == d;
      assert forall x | x in c.deps :: x in deps;
    }
    if i :| && 0 <= i < |cs| && cs[i].typ in {"CASH_CONSIDERATION", "CASH_IN_LIEU"}
            && c.deps != [] && forall d | d in c.deps :: d == cs[i].id {
      assert c.deps[0] in deps;
      assert deps == {cs[i].id};
    }
  }

  lemma OtherWrong(p: Policy, cs: seq<Child>, c: Child, r: Reason)
    requires !IsSource(c) && !IsTarget(c)
    ensures r in NonPositionFindings(p, cs, c) <==> Wrong(p.sourceRole, p.targetType, cs, c, r)
  {
    hide GovernedDependencies, DependenciesFit, RoleFits, NonPositionRole, IsSource, IsTarget;
    OverlayRoles(c);
    DependenciesExactly(p, cs, c);
  }

  lemma ChildWrong(p: Policy, cs: seq<Child>, c: Child, r: Reason)
    ensures r in ChildFindings(p, cs, c) <==> Wrong(p.sourceRole, p.targetType, cs, c, r)
  {
    hide Wrong, SourceFindings, TargetFindings, NonPositionFindings, Paired;
    SourcesExactly(c);
    if IsSource(c) {
      SourceWrong(p, cs, c, r);
    } else if s :| Paired(s, c.typ) {
      TargetsExactly(c, s);
      TargetWrong(p, cs, c, s, r);
    } else {
      assert ExpectedSource(c.typ).Some? ==> Paired(ExpectedSource(c.typ).value, c.typ) by {
        if ExpectedSource(c.typ).Some? { TargetsExactly(c, ExpectedSource(c.typ).value); }
      }
      OtherWrong(p, cs, c, r);
    }
  }

  // ---------------------------------------------------------------- the cohort

  predicate OfCohort(r: Reason)
  {
    r in {ChildTypeNotAllowed, SourceChildRequired, SourceChildCardinality, TargetChildRequired}
  }

  lemma ShapeReported(p: Policy, cs: seq<Child>, r: Reason, ids: set<string>)
    requires OfCohort(r)
    ensures r in ShapeFindings(p, cs) && ids == Named(p, cs, r) <==>
              InFamily(p.sourceType, p.sourceRole, p.targetType, cs, r, ids)
  {
    hide OfType;
    NoneExactly(cs, p.sourceType);
    NoneExactly(cs, p.targetType);
    SeveralExactly(cs, p.sourceType);
    if r == ChildTypeNotAllowed { OutsideReported(p, cs, ids); }
  }

  lemma NoneExactly(cs: seq<Child>, typ: string)
    ensures OfType(cs, typ) == {} <==> forall i | 0 <= i < |cs| :: cs[i].typ != typ
  {
    if OfType(cs, typ) == {} {
      forall i: nat | i < |cs| ensures cs[i].typ != typ { assert i !in OfType(cs, typ); }
    }
  }

  lemma OutsideReported(p: Policy, cs: seq<Child>, ids: set<string>)
    ensures ChildTypeNotAllowed in ShapeFindings(p, cs) && ids == Named(p, cs, ChildTypeNotAllowed) <==>
              InFamily(p.sourceType, p.sourceRole, p.targetType, cs, ChildTypeNotAllowed, ids)
  {
    hide OfType;
    var named := Named(p, cs, ChildTypeNotAllowed);
    assert forall d :: d in named <==>
             exists i | 0 <= i < |cs| :: cs[i].id == d && cs[i].typ !in {p.sourceType, p.targetType} + OVERLAY_TYPES;
    assert ChildTypeNotAllowed in ShapeFindings(p, cs) <==> named != {} by {
      if i :| 0 <= i < |cs| && !Allowed(p, cs[i].typ) { assert cs[i].id in named; }
    }
  }

  lemma SeveralExactly(cs: seq<Child>, typ: string)
    ensures OfType(cs, typ) != {} && |OfType(cs, typ)| != 1 <==>
              exists i, j | 0 <= i < j < |cs| :: cs[i].typ == cs[j].typ == typ
  {
    var all := OfType(cs, typ);
    if all != {} && |all| != 1 {
      var i :| i in all;
      var rest := all - {i};
      assert |rest| == |all| - 1;
      var j :| j in rest;
      assert if i < j then cs[i].typ == cs[j].typ == typ else cs[j].typ == cs[i].typ == typ;
    }
    if i, j :| 0 <= i < j < |cs| && cs[i].typ == cs[j].typ == typ {
      assert i in all && j in all;
      if |all| == 1 { SingletonExists(all); }
    }
  }

  lemma OnlyOfCohort(p: Policy, cs: seq<Child>, c: Child, r: Reason)
    ensures r in ShapeFindings(p, cs) ==> OfCohort(r)
    ensures r in ChildFindings(p, cs, c) ==> !OfCohort(r) && r != UnsupportedType
  {
    hide Paired, OnePlace;
    ChildWrong(p, cs, c, r);
  }

  lemma PolicyReported(p: Policy, cs: seq<Child>, r: Reason, ids: set<string>)
    requires r != UnsupportedType
    ensures (r in ShapeFindings(p, cs) && ids == Named(p, cs, r))
            || (exists i | 0 <= i < |cs| :: r in ChildFindings(p, cs, cs[i]) && ids == {cs[i].id}) <==>
              InFamily(p.sourceType, p.sourceRole, p.targetType, cs, r, ids)
  {
    hide ShapeFindings, ChildFindings, Named, Wrong;
    forall i | 0 <= i < |cs|
      ensures r in ChildFindings(p, cs, cs[i]) <==> Wrong(p.sourceRole, p.targetType, cs, cs[i], r)
      ensures r in ChildFindings(p, cs, cs[i]) ==> !OfCohort(r)
      ensures r in ShapeFindings(p, cs) ==> OfCohort(r)
    {
      ChildWrong(p, cs, cs[i], r);
      OnlyOfCohort(p, cs, cs[i], r);
    }
    if OfCohort(r) {
      ShapeReported(p, cs, r, ids);
    } else {
      NotOfCohort(p, cs, r);
    }
  }

  lemma NotOfCohort(p: Policy, cs: seq<Child>, r: Reason)
    requires !OfCohort(r)
    ensures r !in ShapeFindings(p, cs)
  {
  }

  /** The application reports exactly these findings. */
  lemma ReasonsExactly(eventType: string, cs: seq<Child>, r: Reason, ids: set<string>)
    ensures (r, ids) in SemanticFindings(eventType, cs) <==> Reported(eventType, cs, r, ids)
  {
    hide ShapeFindings, ChildFindings, Named, InFamily, Family, ApplicationPolicy, PolicyOf;
    PoliciesAgree(eventType);
    forall s, role, t
      ensures Family(eventType, s, role, t) <==> PolicyOf(eventType) == Some(Policy(s, role, t))
    {
      FamiliesExactly(eventType, s, role, t);
    }
    if PolicyOf(eventType).Some? {
      var p := PolicyOf(eventType).value;
      assert Family(eventType, p.sourceType, p.sourceRole, p.targetType);
      if r == UnsupportedType {
        NotOfCohort(p, cs, r);
        forall i | 0 <= i < |cs| ensures r !in ChildFindings(p, cs, cs[i]) { OnlyOfCohort(p, cs, cs[i], r); }
      } else {
        PolicyReported(p, cs, r, ids);
      }
    }
  }
}
