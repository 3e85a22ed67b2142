/** The application's semantic findings on a manifest's children, and when they agree with the
    database's cohort assertion. */
module CohortFindings {
  import opened Wrappers
  import opened ChildPayload
  import opened Cohort
  import Schedule

  datatype Reason =
    | UnsupportedType
    | ChildTypeNotAllowed
    | SourceChildRequired
    | SourceChildCardinality
    | TargetChildRequired
    | InvalidRole
    | SourceInstrumentRequired
    | SourceChildInstrumentMismatch
    | TargetInstrumentRequired
    | TargetInstrumentEqualsSource
    | TargetChildInstrumentMismatch
    | TargetSourceDependencyRequired
    | TargetSourceInstrumentMismatch
    | NonPositionDependencyRequired

  predicate SourceType(typ: string)
  {
    typ in {"SPIN_OFF", "DEMERGER_OUT", "MERGER_OUT", "EXCHANGE_OUT", "REPLACEMENT_OUT"}
  }

  /** The source type a target type must depend on, across all families. */
  function ExpectedSource(typ: string): Option<string>
  {
    if typ == "SPIN_IN" then Some("SPIN_OFF")
    else if typ == "DEMERGER_IN" then Some("DEMERGER_OUT")
    else if typ == "MERGER_IN" then Some("MERGER_OUT")
    else if typ == "EXCHANGE_IN" then Some("EXCHANGE_OUT")
    else if typ == "REPLACEMENT_IN" then Some("REPLACEMENT_OUT")
    else None
  }

  function If(raised: bool, r: Reason): set<Reason>
  {
    if raised then {r} else {}
  }

  // ---------------------------------------------------------------- the application's own tables

  /** One row of the application's policy table. */
  datatype PolicyRow = PolicyRow(eventType: string, sourceType: string, sourceRole: string, targetType: string)

  const POLICIES: seq<PolicyRow> :=
    [PolicyRow("SPIN_OFF", "SPIN_OFF", "SOURCE_POSITION_REDUCE", "SPIN_IN"),
     PolicyRow("DEMERGER", "DEMERGER_OUT", "SOURCE_POSITION_REDUCE", "DEMERGER_IN"),
     PolicyRow("MERGER", "MERGER_OUT", "SOURCE_POSITION_CLOSE", "MERGER_IN"),
     PolicyRow("MANDATORY_EXCHANGE", "EXCHANGE_OUT", "SOURCE_POSITION_CLOSE", "EXCHANGE_IN"),
     PolicyRow("SECURITY_REPLACEMENT", "REPLACEMENT_OUT", "SOURCE_POSITION_CLOSE", "REPLACEMENT_IN")]

  /** The policy by event type; of two rows for one type the later one holds. */
  function LookUp(rows: seq<PolicyRow>, eventType: string): Option<Policy>
  {
    if rows == [] then None
    else
      var last := rows[|rows| - 1];
      if last.eventType == eventType then Some(Policy(last.sourceType, last.sourceRole, last.targetType))
      else LookUp(rows[..|rows| - 1], eventType)
  }

  function ApplicationPolicy(eventType: string): Option<Policy>
  {
    LookUp(POLICIES, eventType)
  }

  /** The role of a child that is neither source nor target, by type. */
  function NonPositionRole(typ: string): Option<string>
  {
    if typ == "CASH_CONSIDERATION" then Some("CASH_CONSIDERATION")
    else if typ == "CASH_IN_LIEU" then Some("CASH_IN_LIEU")
    else if typ == "ADJUSTMENT" then Some("CASH_SETTLEMENT")
    else if typ == "FEE" then Some("CHARGE")
    else if typ == "TAX" then Some("TAX")
    else None
  }

  const OVERLAY_TYPES := {"CASH_CONSIDERATION", "CASH_IN_LIEU", "ADJUSTMENT", "FEE", "TAX"}

  function ConsiderationChildren(cs: seq<Child>): set<string>
  {
    set i | 0 <= i < |cs| && cs[i].typ in {"CASH_CONSIDERATION", "CASH_IN_LIEU"} :: cs[i].id
  }

  lemma LookUpStep(rows: seq<PolicyRow>, row: PolicyRow, eventType: string)
    ensures LookUp(rows + [row], eventType) ==
              if row.eventType == eventType then Some(Policy(row.sourceType, row.sourceRole, row.targetType))
              else LookUp(rows, eventType)
  {
    assert (rows + [row])[..|rows|] == rows;
  }

  /** Both sides have one policy table. */
  lemma PoliciesAgree(eventType: string)
    ensures ApplicationPolicy(eventType) == PolicyOf(eventType)
  {
    hide LookUp;
    LookUpStep([], POLICIES[0], eventType);
    LookUpStep(POLICIES[..1], POLICIES[1], eventType);
    LookUpStep(POLICIES[..2], POLICIES[2], eventType);
    LookUpStep(POLICIES[..3], POLICIES[3], eventType);
    LookUpStep(POLICIES[..4], POLICIES[4], eventType);
    assert POLICIES[..1] == [] + [POLICIES[0]] && POLICIES[..2] == POLICIES[..1] + [POLICIES[1]];
    assert POLICIES[..3] == POLICIES[..2] + [POLICIES[2]] && POLICIES[..4] == POLICIES[..3] + [POLICIES[3]];
    assert POLICIES == POLICIES[..4] + [POLICIES[4]];
    NoRows(eventType);
  }

  lemma NoRows(eventType: string)
    ensures LookUp([], eventType) == None
  {
  }

  /** And one table of overlay types and roles. */
  lemma OverlaysAgree(typ: string)
    ensures typ in OVERLAY_TYPES <==> Overlay(typ)
    ensures NonPositionRole(typ) == if Overlay(typ) then Some(OverlayRole(typ)) else None
  {
  }

  lemma ConsiderationsAgree(cs: seq<Child>)
    ensures ConsiderationChildren(cs) == ConsiderationIds(cs)
  {
    assert forall i | 0 <= i < |cs| ::
             Consideration(cs[i].typ) <==> cs[i].typ in {"CASH_CONSIDERATION", "CASH_IN_LIEU"};
  }

  // ---------------------------------------------------------------- the findings

  predicate Allowed(p: Policy, typ: string)
  {
    typ == p.sourceType || typ == p.targetType || typ in OVERLAY_TYPES
  }

  function ShapeFindings(p: Policy, cs: seq<Child>): set<Reason>
  {
    If(exists i | 0 <= i < |cs| :: !Allowed(p, cs[i].typ), ChildTypeNotAllowed)
    + (if OfType(cs, p.sourceType) == {} then {SourceChildRequired}
       else If(|OfType(cs, p.sourceType)| != 1, SourceChildCardinality))
    + If(OfType(cs, p.targetType) == {}, TargetChildRequired)
  }

  function SourceFindings(p: Policy, c: Child): set<Reason>
  {
    If(c.role != p.sourceRole, InvalidRole)
    + If(c.source.None?, SourceInstrumentRequired)
    + (if c.instrument.None? then {SourceInstrumentRequired}
       else If(c.source.Some? && c.instrument != c.source, SourceChildInstrumentMismatch))
  }

  /** Children by id; the last declaration of an id wins. */
  function ById(cs: seq<Child>): map<string, Child>
  {
    if cs == [] then map[] else ById(cs[..|cs| - 1])[cs[|cs| - 1].id := cs[|cs| - 1]]
  }

  /** The places in the dependency list that name a child of the type. */
  function CompatibleAt(cs: seq<Child>, c: Child, typ: string): set<nat>
  {
    set j: nat | j < |c.deps| && c.deps[j] in ById(cs) && ById(cs)[c.deps[j]].typ == typ
  }

  function TargetColumnFindings(c: Child): set<Reason>
  {
    If(c.role != "TARGET_POSITION_ADD", InvalidRole)
    + If(c.source.None?, SourceInstrumentRequired)
    + (if c.target.None? then {TargetInstrumentRequired} else If(c.target == c.source, TargetInstrumentEqualsSource))
    + (if c.instrument.None? then {TargetInstrumentRequired}
       else If(c.target.Some? && c.instrument != c.target, TargetChildInstrumentMismatch))
  }

  function TargetPlaceFindings(cs: seq<Child>, c: Child, sourceType: string): set<Reason>
  {
    var compatible := CompatibleAt(cs, c, sourceType);
    if |compatible| != 1 then {TargetSourceDependencyRequired}
    else If(exists j | j in compatible :: c.source != ById(cs)[c.deps[j]].instrument, TargetSourceInstrumentMismatch)
  }

  function TargetFindings(cs: seq<Child>, c: Child, sourceType: string): set<Reason>
  {
    TargetColumnFindings(c) + TargetPlaceFindings(cs, c, sourceType)
  }

  predicate GovernedDependencies(p: Policy, cs: seq<Child>, c: Child)
  {
    var deps := set d | d in c.deps;
    var targets, considerations := TargetIds(p, cs), ConsiderationChildren(cs);
    if c.typ == "CASH_CONSIDERATION" then targets <= deps
    else if c.typ == "CASH_IN_LIEU" then
      exists i | 0 <= i < |cs| :: cs[i].typ == p.targetType && cs[i].instrument == c.instrument && cs[i].id in deps
    else if c.typ == "ADJUSTMENT" then |deps| == 1 && deps <= considerations
    else targets + considerations != {} && targets + considerations <= deps
  }

  function NonPositionFindings(p: Policy, cs: seq<Child>, c: Child): set<Reason>
  {
    if NonPositionRole(c.typ) != Some(c.role) then {InvalidRole}
    else If(!GovernedDependencies(p, cs, c), NonPositionDependencyRequired)
  }

  function ChildFindings(p: Policy, cs: seq<Child>, c: Child): set<Reason>
  {
    if SourceType(c.typ) then SourceFindings(p, c)
    else if ExpectedSource(c.typ).Some? then TargetFindings(cs, c, ExpectedSource(c.typ).value)
    else NonPositionFindings(p, cs, c)
  }

  /** The children a finding about the whole cohort names. */
  function Named(p: Policy, cs: seq<Child>, r: Reason): set<string>
  {
    match r
    case ChildTypeNotAllowed => set i | 0 <= i < |cs| && !Allowed(p, cs[i].typ) :: cs[i].id
    case SourceChildCardinality => set i | 0 <= i < |cs| && cs[i].typ == p.sourceType :: cs[i].id
    case _ => {}
  }

  /** `_semantic_findings`: each reason with the children it names. */
  function SemanticFindings(eventType: string, cs: seq<Child>): set<(Reason, set<string>)>
  {
    match ApplicationPolicy(eventType)
    case None => {(UnsupportedType, {})}
    case Some(p) =>
      (set r | r in ShapeFindings(p, cs) :: (r, Named(p, cs, r)))
      + (set i, r | 0 <= i < |cs| && r in ChildFindings(p, cs, cs[i]) :: (r, {cs[i].id}))
  }

  // ---------------------------------------------------------------- what a family's types are

  lemma FamilyTypes(eventType: string, p: Policy)
    requires PolicyOf(eventType) == Some(p)
    ensures SourceType(p.sourceType) && !SourceType(p.targetType) && ExpectedSource(p.targetType) == Some(p.sourceType)
    ensures !Overlay(p.sourceType) && !Overlay(p.targetType) && p.sourceType != p.targetType
  {
  }

  lemma OverlayIsNonPosition(typ: string)
    requires Overlay(typ)
    ensures !SourceType(typ) && ExpectedSource(typ).None?
  {
  }

  lemma FindingsEmpty(eventType: string, p: Policy, cs: seq<Child>)
    requires PolicyOf(eventType) == Some(p)
    ensures SemanticFindings(eventType, cs) == {} <==>
              ShapeFindings(p, cs) == {} && forall i | 0 <= i < |cs| :: ChildFindings(p, cs, cs[i]) == {}
  {
    hide ShapeFindings, ChildFindings, PolicyOf, ApplicationPolicy;
    PoliciesAgree(eventType);
    var all := SemanticFindings(eventType, cs);
    forall r | r in ShapeFindings(p, cs) ensures (r, Named(p, cs, r)) in all {}
    forall i, r | 0 <= i < |cs| && r in ChildFindings(p, cs, cs[i]) ensures (r, {cs[i].id}) in all {}
    if all == {} {
      forall i | 0 <= i < |cs| ensures ChildFindings(p, cs, cs[i]) == {} {
        assert forall r :: r !in ChildFindings(p, cs, cs[i]);
      }
      assert forall r :: r !in ShapeFindings(p, cs);
    }
  }

  lemma ShapeAgrees(p: Policy, cs: seq<Child>)
    ensures ShapeFindings(p, cs) == {} <==> ShapeOk(p, cs)
  {
    forall typ: string ensures typ in OVERLAY_TYPES <==> Overlay(typ) { OverlaysAgree(typ); }
  }

  // ---------------------------------------------------------------- child by child

  /** No later child has this one's id. */
  ghost predicate Last(cs: seq<Child>, i: nat)
    requires i < |cs|
  {
    forall k | i < k < |cs| :: cs[k].id != cs[i].id
  }

  lemma {:induction false} ByIdHolds(cs: seq<Child>)
    ensures forall i: nat | i < |cs| && Last(cs, i) :: cs[i].id in ById(cs) && ById(cs)[cs[i].id] == cs[i]
    ensures forall d | d in ById(cs) :: exists i: nat | i < |cs| :: Last(cs, i) && cs[i].id == d
  {
    if cs != [] {
      var rest := cs[..|cs| - 1];
      ByIdHolds(rest);
      forall i: nat | i < |cs| && Last(cs, i) ensures cs[i].id in ById(cs) && ById(cs)[cs[i].id] == cs[i] {
        if i < |rest| { assert Last(rest, i) && cs[i].id != cs[|cs| - 1].id; }
      }
      forall d | d in ById(cs) ensures exists i: nat | i < |cs| :: Last(cs, i) && cs[i].id == d {
        if d == cs[|cs| - 1].id {
          assert Last(cs, |cs| - 1);
        } else {
          var i: nat :| i < |rest| && Last(rest, i) && rest[i].id == d;
          LastKept(cs, i);
        }
      }
    }
  }

  lemma LastKept(cs: seq<Child>, i: nat)
    requires i + 1 < |cs| && Last(cs[..|cs| - 1], i) && cs[|cs| - 1].id != cs[i].id
    ensures Last(cs, i)
  {
    forall k | i < k < |cs| ensures cs[k].id != cs[i].id {
      if k < |cs| - 1 { assert cs[..|cs| - 1][k] == cs[k]; }
    }
  }

  /** With one source, the compatible places are those naming it, unless a later child took its id. */
  lemma CompatiblePlace(p: Policy, cs: seq<Child>, src: nat, c: Child, j: nat)
    requires src < |cs| && OfType(cs, p.sourceType) == {src}
    ensures j in CompatibleAt(cs, c, p.sourceType) <==> j < |c.deps| && c.deps[j] == cs[src].id && Last(cs, src)
    ensures j in CompatibleAt(cs, c, p.sourceType) ==> c.deps[j] in ById(cs) && ById(cs)[c.deps[j]] == cs[src]
  {
    hide ById, Last;
    ByIdHolds(cs);
    assert src in OfType(cs, p.sourceType);
    if j < |c.deps| && c.deps[j] in ById(cs) {
      var i: nat :| i < |cs| && Last(cs, i) && cs[i].id == c.deps[j];
      assert ById(cs)[c.deps[j]] == cs[i];
      assert cs[i].typ == p.sourceType <==> i in OfType(cs, p.sourceType);
    }
  }

  /** The list does not name the id twice. */
  ghost predicate NamedOnce(deps: seq<string>, id: string)
  {
    forall i, j | 0 <= i < j < |deps| && deps[i] == id :: deps[j] != id
  }

  lemma OnePlace(deps: seq<string>, places: set<nat>, id: string)
    requires forall j: nat :: j in places <==> j < |deps| && deps[j] == id
    ensures |places| == 1 <==> id in deps && NamedOnce(deps, id)
  {
    if id in deps {
      var j: nat :| j < |deps| && deps[j] == id;
      if NamedOnce(deps, id) {
        assert places == {j};
      } else {
        var a: nat, b: nat :| a < b < |deps| && deps[a] == id && deps[b] == id;
        assert a in places && b in places - {a};
        assert |places| == |places - {a}| + 1 && places - {a} != {};
      }
    } else {
      assert forall j :: j !in places;
      assert places == {};
    }
  }

  lemma CompatibleIsSource(p: Policy, cs: seq<Child>, src: nat, c: Child)
    requires src < |cs| && OfType(cs, p.sourceType) == {src}
    ensures |CompatibleAt(cs, c, p.sourceType)| == 1 <==>
              cs[src].id in c.deps && NamedOnce(c.deps, cs[src].id) && Last(cs, src)
    ensures forall j | j in CompatibleAt(cs, c, p.sourceType) :: c.deps[j] in ById(cs) && ById(cs)[c.deps[j]] == cs[src]
  {
    hide CompatibleAt, ById, Last, OfType, NamedOnce;
    var places := CompatibleAt(cs, c, p.sourceType);
    forall j: nat
      ensures j in places <==> j < |c.deps| && c.deps[j] == cs[src].id && Last(cs, src)
      ensures j in places ==> c.deps[j] in ById(cs) && ById(cs)[c.deps[j]] == cs[src]
    {
      CompatiblePlace(p, cs, src, c, j);
    }
    if Last(cs, src) { OnePlace(c.deps, places, cs[src].id); } else { assert places == {}; }
  }

  /** The application's rule for a target is the database's, that the source is not named twice, and that
      no later child has the source's id. */
  lemma TargetAgrees(p: Policy, cs: seq<Child>, src: nat, c: Child)
    requires src < |cs| && OfType(cs, p.sourceType) == {src}
    ensures TargetFindings(cs, c, p.sourceType) == {} <==>
              TargetOk(cs[src], c) && NamedOnce(c.deps, cs[src].id) && Last(cs, src)
  {
    hide CompatibleAt, ById, NamedOnce, Last;
    CompatibleIsSource(p, cs, src, c);
    var places := CompatibleAt(cs, c, p.sourceType);
    if |places| == 1 { var j :| j in places; }
  }

  lemma SourceAgrees(p: Policy, c: Child)
    ensures SourceFindings(p, c) == {} <==> SourceOk(p, c)
  {
  }

  /** A target after which no target has its id. */
  ghost predicate LastTarget(p: Policy, cs: seq<Child>, i: nat)
    requires i < |cs|
  {
    cs[i].typ == p.targetType && forall k | i < k < |cs| && cs[k].typ == p.targetType :: cs[k].id != cs[i].id
  }

  lemma {:induction false} TargetInstrumentsHold(p: Policy, cs: seq<Child>)
    ensures forall i: nat | i < |cs| && LastTarget(p, cs, i) ::
              cs[i].id in TargetInstruments(p, cs) && TargetInstruments(p, cs)[cs[i].id] == cs[i].instrument
    ensures forall d | d in TargetInstruments(p, cs) ::
              exists i: nat | i < |cs| :: LastTarget(p, cs, i) && cs[i].id == d
  {
    if cs != [] {
      var rest, last := cs[..|cs| - 1], cs[|cs| - 1];
      TargetInstrumentsHold(p, rest);
      forall i: nat | i < |cs| && LastTarget(p, cs, i)
        ensures cs[i].id in TargetInstruments(p, cs) && TargetInstruments(p, cs)[cs[i].id] == cs[i].instrument
      {
        if i < |rest| { assert LastTarget(p, rest, i) && (last.typ == p.targetType ==> cs[i].id != last.id); }
      }
      forall d | d in TargetInstruments(p, cs)
        ensures exists i: nat | i < |cs| :: LastTarget(p, cs, i) && cs[i].id == d
      {
        if last.typ == p.targetType && d == last.id {
          assert LastTarget(p, cs, |cs| - 1);
        } else {
          var i: nat :| i < |rest| && LastTarget(p, rest, i) && rest[i].id == d;
          LastTargetKept(p, cs, i);
        }
      }
    }
  }

  lemma LastTargetKept(p: Policy, cs: seq<Child>, i: nat)
    requires i + 1 < |cs| && LastTarget(p, cs[..|cs| - 1], i)
    requires cs[|cs| - 1].typ == p.targetType ==> cs[|cs| - 1].id != cs[i].id
    ensures LastTarget(p, cs, i)
  {
    forall k | i < k < |cs| && cs[k].typ == p.targetType ensures cs[k].id != cs[i].id {
      if k < |cs| - 1 { assert cs[..|cs| - 1][k] == cs[k]; }
    }
  }

  /** The child names a target of its own instrument. */
  predicate NamesTarget(p: Policy, cs: seq<Child>, c: Child, i: nat)
    requires i < |cs|
  {
    cs[i].typ == p.targetType && cs[i].instrument == c.instrument && cs[i].id in c.deps
  }

  /** If the child names a target of its own instrument, it names one whose id no later target took. */
  ghost predicate TargetShown(p: Policy, cs: seq<Child>, c: Child)
  {
    (exists i: nat | i < |cs| :: NamesTarget(p, cs, c, i)) ==>
      exists i: nat | i < |cs| :: NamesTarget(p, cs, c, i) && LastTarget(p, cs, i)
  }

  /** Cash in lieu follows a target of its own instrument; the database looks only at the last target of
      an id. */
  lemma CashInLieuAgrees(p: Policy, cs: seq<Child>, c: Child)
    requires c.typ == CASH_IN_LIEU
    requires forall i | 0 <= i < |cs| && cs[i].typ == p.targetType :: cs[i].instrument.Some?
    ensures GovernedDependencies(p, cs, c) && TargetShown(p, cs, c) <==>
              exists d | d in c.deps ::
                d in TargetInstruments(p, cs) && c.instrument.Some? && TargetInstruments(p, cs)[d] == c.instrument
  {
    hide TargetInstruments, LastTarget;
    var m := TargetInstruments(p, cs);
    TargetInstrumentsHold(p, cs);
    GovernedCash(p, cs, c);
    if d :| d in c.deps && d in m && c.instrument.Some? && m[d] == c.instrument {
      var i: nat :| i < |cs| && LastTarget(p, cs, i) && cs[i].id == d;
      LastIsTarget(p, cs, i);
      assert NamesTarget(p, cs, c, i);
    }
    if i: nat :| i < |cs| && NamesTarget(p, cs, c, i) && LastTarget(p, cs, i) {
      assert cs[i].id in m;
    }
  }

  lemma LastIsTarget(p: Policy, cs: seq<Child>, i: nat)
    requires i < |cs| && LastTarget(p, cs, i)
    ensures cs[i].typ == p.targetType
  {
  }

  lemma GovernedCash(p: Policy, cs: seq<Child>, c: Child)
    requires c.typ == CASH_IN_LIEU
    ensures GovernedDependencies(p, cs, c) <==> exists i: nat | i < |cs| :: NamesTarget(p, cs, c, i)
  {
    if GovernedDependencies(p, cs, c) {
      var i :| 0 <= i < |cs| && cs[i].typ == p.targetType && cs[i].instrument == c.instrument && cs[i].id in c.deps;
      assert NamesTarget(p, cs, c, i);
    }
    if i: nat :| i < |cs| && NamesTarget(p, cs, c, i) {
      assert cs[i].id in set d | d in c.deps;
    }
  }

  lemma {:induction false} SetSize(xs: seq<string>)
    ensures |set x | x in xs| <= |xs|
    ensures Schedule.Distinct(xs) ==> |set x | x in xs| == |xs|
  {
    Schedule.SetCoversCardinality(xs, set x | x in xs);
    if Schedule.Distinct(xs) { Schedule.DistinctCardinality(xs, set x | x in xs); }
  }

  /** The database's rule for a settlement is the application's, and that nothing is named twice. */
  lemma AdjustmentAgrees(p: Policy, cs: seq<Child>, c: Child)
    requires c.typ == ADJUSTMENT
    ensures GovernedDependencies(p, cs, c) && Schedule.Distinct(c.deps) <==>
              |c.deps| == 1 && c.deps[0] in ConsiderationIds(cs)
  {
    SetSize(c.deps);
    ConsiderationsAgree(cs);
    if |c.deps| == 1 {
      assert forall d | d in c.deps :: d == c.deps[0];
      assert (set d | d in c.deps) == {c.deps[0]};
    }
  }

  /** What the database asks of a settlement or of cash in lieu beyond the application's rule. */
  ghost predicate OverlayPlain(p: Policy, cs: seq<Child>, c: Child)
  {
    && (c.typ == ADJUSTMENT ==> Schedule.Distinct(c.deps))
    && (c.typ == CASH_IN_LIEU ==> TargetShown(p, cs, c))
  }

  /** Of the other children only those two are judged differently. */
  lemma OverlayAgrees(p: Policy, cs: seq<Child>, c: Child)
    requires Overlay(c.typ) && OfType(cs, p.targetType) != {}
    requires forall i | 0 <= i < |cs| && cs[i].typ == p.targetType :: cs[i].instrument.Some?
    ensures NonPositionFindings(p, cs, c) == {} && OverlayPlain(p, cs, c) <==> OverlayOk(p, cs, c)
  {
    OverlaysAgree(c.typ);
    ConsiderationsAgree(cs);
    if c.typ == CASH_IN_LIEU {
      CashInLieuAgrees(p, cs, c);
    } else if c.typ == ADJUSTMENT {
      AdjustmentAgrees(p, cs, c);
    } else {
      var i :| i in OfType(cs, p.targetType);
      assert cs[i].id in TargetIds(p, cs);
      hide TargetIds, ConsiderationIds;
      assert Contains(c.deps, TargetIds(p, cs)) <==> TargetIds(p, cs) <= set d | d in c.deps;
    }
  }

  // ---------------------------------------------------------------- the theorem

  ghost predicate NoSettlementRepeats(cs: seq<Child>)
  {
    forall i | 0 <= i < |cs| && cs[i].typ == ADJUSTMENT :: Schedule.Distinct(cs[i].deps)
  }

  ghost predicate NoTargetRepeatsSource(eventType: string, cs: seq<Child>)
  {
    PolicyOf(eventType).Some? ==>
      var p := PolicyOf(eventType).value;
      forall i, k | 0 <= i < |cs| && cs[i].typ == p.targetType && 0 <= k < |cs| && cs[k].typ == p.sourceType ::
        NamedOnce(cs[i].deps, cs[k].id)
  }

  /** No later child takes the source's id. */
  ghost predicate SourceShown(eventType: string, cs: seq<Child>)
  {
    PolicyOf(eventType).Some? ==>
      forall k: nat | k < |cs| && cs[k].typ == PolicyOf(eventType).value.sourceType :: Last(cs, k)
  }

  /** No later target takes the id of the only target a cash in lieu goes by. */
  ghost predicate TargetsShown(eventType: string, cs: seq<Child>)
  {
    PolicyOf(eventType).Some? ==>
      forall i: nat | i < |cs| && cs[i].typ == CASH_IN_LIEU :: TargetShown(PolicyOf(eventType).value, cs, cs[i])
  }

  lemma SourceChildAgrees(eventType: string, p: Policy, cs: seq<Child>, src: nat)
    requires PolicyOf(eventType) == Some(p) && OfType(cs, p.sourceType) == {src} && src < |cs|
    ensures (forall i | 0 <= i < |cs| && cs[i].typ == p.sourceType :: ChildFindings(p, cs, cs[i]) == {})
            <==> SourceOk(p, cs[src])
  {
    hide SourceFindings, SourceOk, PolicyOf;
    FamilyTypes(eventType, p);
    SourceAgrees(p, cs[src]);
    assert src in OfType(cs, p.sourceType);
    forall i: nat | i < |cs| && cs[i].typ == p.sourceType ensures i == src { assert i in OfType(cs, p.sourceType); }
  }

  lemma TargetChildAgrees(eventType: string, p: Policy, cs: seq<Child>, src: nat, i: nat)
    requires PolicyOf(eventType) == Some(p) && OfType(cs, p.sourceType) == {src} && src < |cs|
    requires i < |cs| && cs[i].typ == p.targetType
    ensures ChildFindings(p, cs, cs[i]) == {} <==>
              TargetOk(cs[src], cs[i]) && NamedOnce(cs[i].deps, cs[src].id) && Last(cs, src)
  {
    hide TargetFindings, TargetOk, PolicyOf, NamedOnce, Last;
    FamilyTypes(eventType, p);
    TargetAgrees(p, cs, src, cs[i]);
  }

  lemma OverlayChildAgrees(p: Policy, cs: seq<Child>, src: nat, i: nat)
    requires ShapeOk(p, cs) && src < |cs|
    requires forall k | 0 <= k < |cs| && cs[k].typ == p.targetType :: TargetOk(cs[src], cs[k])
    requires i < |cs| && Overlay(cs[i].typ)
    ensures ChildFindings(p, cs, cs[i]) == {} && OverlayPlain(p, cs, cs[i]) <==> OverlayOk(p, cs, cs[i])
  {
    hide NonPositionFindings, OverlayOk, OverlayPlain;
    OverlayIsNonPosition(cs[i].typ);
    OverlayAgrees(p, cs, cs[i]);
  }

  lemma CheckMeans(eventType: string, p: Policy, cs: seq<Child>, src: nat)
    requires PolicyOf(eventType) == Some(p) && ShapeOk(p, cs) && src == SourceIndex(p, cs)
    ensures Check(eventType, cs).Ok? <==>
              && SourceOk(p, cs[src])
              && (forall i | 0 <= i < |cs| && cs[i].typ == p.targetType :: TargetOk(cs[src], cs[i]))
              && (forall i | 0 <= i < |cs| && Overlay(cs[i].typ) :: OverlayOk(p, cs, cs[i]))
  {
  }

  /** What the two clauses about the source ask of a shaped cohort. */
  lemma SourceClauses(eventType: string, p: Policy, cs: seq<Child>, src: nat)
    requires PolicyOf(eventType) == Some(p) && src < |cs| && OfType(cs, p.sourceType) == {src}
    ensures NoTargetRepeatsSource(eventType, cs) <==>
              forall i | 0 <= i < |cs| && cs[i].typ == p.targetType :: NamedOnce(cs[i].deps, cs[src].id)
    ensures SourceShown(eventType, cs) <==> Last(cs, src)
  {
    hide NamedOnce, PolicyOf, Last;
    assert src in OfType(cs, p.sourceType);
    forall k: nat | k < |cs| && cs[k].typ == p.sourceType ensures k == src { assert k in OfType(cs, p.sourceType); }
  }

  lemma OverlayClauses(eventType: string, p: Policy, cs: seq<Child>)
    requires PolicyOf(eventType) == Some(p)
    ensures NoSettlementRepeats(cs) && TargetsShown(eventType, cs) <==>
              forall i: nat | i < |cs| && Overlay(cs[i].typ) :: OverlayPlain(p, cs, cs[i])
  {
    hide PolicyOf, TargetShown, Schedule.Distinct;
    assert Overlay(ADJUSTMENT) && Overlay(CASH_IN_LIEU);
  }

  ghost predicate NoChildFinding(p: Policy, cs: seq<Child>)
  {
    forall i | 0 <= i < |cs| :: ChildFindings(p, cs, cs[i]) == {}
  }

  lemma ShapedAgree(eventType: string, p: Policy, cs: seq<Child>)
    requires PolicyOf(eventType) == Some(p) && ShapeOk(p, cs)
    ensures NoChildFinding(p, cs) && NoSettlementRepeats(cs) && TargetsShown(eventType, cs) <==>
              Check(eventType, cs).Ok? && NoTargetRepeatsSource(eventType, cs) && SourceShown(eventType, cs)
    ensures NoChildFinding(p, cs) ==> NoTargetRepeatsSource(eventType, cs) && SourceShown(eventType, cs)
    ensures Check(eventType, cs).Ok? ==> NoSettlementRepeats(cs) && TargetsShown(eventType, cs)
  {
    hide PolicyOf, ChildFindings, SourceOk, TargetOk, OverlayOk, Check, NoTargetRepeatsSource, SourceShown;
    hide Overlay, OverlayPlain, OfType, NamedOnce, Last, NoSettlementRepeats, TargetsShown;
    var src := SourceIndex(p, cs);
    CheckMeans(eventType, p, cs, src);
    SourceChildAgrees(eventType, p, cs, src);
    SourceClauses(eventType, p, cs, src);
    OverlayClauses(eventType, p, cs);
    forall i: nat | i < |cs| && cs[i].typ == p.targetType
      ensures ChildFindings(p, cs, cs[i]) == {} <==>
                TargetOk(cs[src], cs[i]) && NamedOnce(cs[i].deps, cs[src].id) && Last(cs, src)
    {
      TargetChildAgrees(eventType, p, cs, src, i);
    }
    var target: nat :| target in OfType(cs, p.targetType) by { SomeOfType(p, cs); }
    assert target < |cs| && cs[target].typ == p.targetType by { TypedAt(cs, p.targetType, target); }
    if forall i | 0 <= i < |cs| && cs[i].typ == p.targetType :: TargetOk(cs[src], cs[i]) {
      forall i: nat | i < |cs| && Overlay(cs[i].typ)
        ensures ChildFindings(p, cs, cs[i]) == {} && OverlayPlain(p, cs, cs[i]) <==> OverlayOk(p, cs, cs[i])
      {
        OverlayChildAgrees(p, cs, src, i);
      }
    }
  }

  lemma SomeOfType(p: Policy, cs: seq<Child>)
    requires ShapeOk(p, cs)
    ensures exists i: nat :: i in OfType(cs, p.targetType)
  {
    assert OfType(cs, p.targetType) != {};
  }

  lemma TypedAt(cs: seq<Child>, typ: string, i: nat)
    requires i in OfType(cs, typ)
    ensures i < |cs| && cs[i].typ == typ
  {
  }

  /** The two verdicts on a cohort differ only over repetitions. The application also wants every target to
      name the source once and no later child to take the source's id; the database also wants every
      settlement to name nothing twice and no later target to take the id a cash in lieu goes by. */
  lemma FindingsAgreeExactly(eventType: string, cs: seq<Child>)
    ensures SemanticFindings(eventType, cs) == {} && NoSettlementRepeats(cs) && TargetsShown(eventType, cs) <==>
              Check(eventType, cs).Ok? && NoTargetRepeatsSource(eventType, cs) && SourceShown(eventType, cs)
    ensures SemanticFindings(eventType, cs) == {} ==> NoTargetRepeatsSource(eventType, cs) && SourceShown(eventType, cs)
    ensures Check(eventType, cs).Ok? ==> NoSettlementRepeats(cs) && TargetsShown(eventType, cs)
  {
    hide SemanticFindings, Check, NoSettlementRepeats, NoTargetRepeatsSource, SourceShown, TargetsShown;
    hide ShapeOk, ShapeFindings;
    match PolicyOf(eventType) {
      case None => Ungoverned(eventType, cs);
      case Some(p) =>
        FindingsEmpty(eventType, p, cs);
        ShapeAgrees(p, cs);
        if ShapeOk(p, cs) { ShapedAgree(eventType, p, cs); } else { Misshapen(eventType, p, cs); }
    }
  }

  lemma Ungoverned(eventType: string, cs: seq<Child>)
    requires PolicyOf(eventType).None?
    ensures SemanticFindings(eventType, cs) != {} && Check(eventType, cs).Err?
  {
    hide ApplicationPolicy;
    PoliciesAgree(eventType);
  }

  lemma Misshapen(eventType: string, p: Policy, cs: seq<Child>)
    requires PolicyOf(eventType) == Some(p) && !ShapeOk(p, cs)
    ensures Check(eventType, cs).Err?
  {
  }

  /** Each side refuses what the other takes exactly for its own repetitions. */
  lemma VerdictsDifferExactly(eventType: string, cs: seq<Child>)
    ensures SemanticFindings(eventType, cs) == {} ==>
              (Check(eventType, cs).Err? <==> !NoSettlementRepeats(cs) || !TargetsShown(eventType, cs))
    ensures Check(eventType, cs).Ok? ==>
              (SemanticFindings(eventType, cs) != {} <==>
                 !NoTargetRepeatsSource(eventType, cs) || !SourceShown(eventType, cs))
  {
    hide SemanticFindings, Check, NoSettlementRepeats, NoTargetRepeatsSource, SourceShown, TargetsShown;
    FindingsAgreeExactly(eventType, cs);
  }

  /** With distinct ids nothing is taken by a later child. */
  lemma DistinctShown(eventType: string, cs: seq<Child>)
    requires DistinctIds(cs)
    ensures SourceShown(eventType, cs) && TargetsShown(eventType, cs)
  {
    hide PolicyOf;
    if PolicyOf(eventType).Some? {
      var p := PolicyOf(eventType).value;
      forall i: nat | i < |cs| && cs[i].typ == CASH_IN_LIEU ensures TargetShown(p, cs, cs[i]) {
        if k: nat :| k < |cs| && NamesTarget(p, cs, cs[i], k) { assert LastTarget(p, cs, k); }
      }
    }
  }

  // ---------------------------------------------------------------- the four failures

  function Leg(typ: string, role: string, id: string, deps: seq<string>, instrument: string,
               target: Option<string>): Child
  {
    Child(role, None, deps, Some(instrument), Some("A"), target, id, typ)
  }

  /** A spin-off whose target `t` names the source `s` twice. */
  function DoubledTarget(s: string, t: string): seq<Child>
  {
    [Leg("SPIN_OFF", "SOURCE_POSITION_REDUCE", s, [], "A", None),
     Leg("SPIN_IN", "TARGET_POSITION_ADD", t, [s, s], "B", Some("B"))]
  }

  /** The database takes it, the application does not. */
  lemma DoubledTargetDiffers(s: string, t: string)
    requires s != t
    ensures DistinctIds(DoubledTarget(s, t))
    ensures Check("SPIN_OFF", DoubledTarget(s, t)).Ok? && SemanticFindings("SPIN_OFF", DoubledTarget(s, t)) != {}
  {
    hide SemanticFindings;
    var cs := DoubledTarget(s, t);
    var p := PolicyOf("SPIN_OFF").value;
    assert OfType(cs, "SPIN_OFF") == {0} && OfType(cs, "SPIN_IN") == {1};
    assert ShapeOk(p, cs) && SourceIndex(p, cs) == 0;
    CheckMeans("SPIN_OFF", p, cs, 0);
    assert cs[1].deps[0] == cs[0].id && cs[1].deps[1] == cs[0].id;
    assert !NamedOnce(cs[1].deps, cs[0].id);
    VerdictsDifferExactly("SPIN_OFF", cs);
  }

  /** A merger whose settlement `x` names its consideration `c` twice. */
  function DoubledSettlement(s: string, t: string, c: string, x: string): seq<Child>
  {
    [Leg("MERGER_OUT", "SOURCE_POSITION_CLOSE", s, [], "A", None),
     Leg("MERGER_IN", "TARGET_POSITION_ADD", t, [s], "B", Some("B")),
     Leg(CASH_CONSIDERATION, "CASH_CONSIDERATION", c, [t], "A", None),
     Leg(ADJUSTMENT, "CASH_SETTLEMENT", x, [c, c], "A", None)]
  }

  lemma DoubledSettlementShape(p: Policy, cs: seq<Child>, s: string, t: string, c: string, x: string)
    requires PolicyOf("MERGER") == Some(p) && cs == DoubledSettlement(s, t, c, x)
    ensures ShapeOk(p, cs) && OfType(cs, p.sourceType) == {0}
    ensures TargetIds(p, cs) == {t} && ConsiderationIds(cs) == {c}
  {
    assert OfType(cs, "MERGER_OUT") == {0} && OfType(cs, "MERGER_IN") == {1};
    assert cs[1].id in TargetIds(p, cs) && cs[2].id in ConsiderationIds(cs);
  }

  lemma ConsiderationTaken(p: Policy, cs: seq<Child>, c: Child, t: string)
    requires c.typ == CASH_CONSIDERATION && c.role == "CASH_CONSIDERATION" && c.deps == [t] && TargetIds(p, cs) == {t}
    ensures ChildFindings(p, cs, c) == {}
  {
    hide TargetIds, ConsiderationIds, ConsiderationChildren;
    OverlayIsNonPosition(c.typ);
    ConsiderationsAgree(cs);
    assert t in c.deps;
  }

  lemma SettlementTaken(p: Policy, cs: seq<Child>, c: Child, x: string)
    requires c.typ == ADJUSTMENT && c.role == "CASH_SETTLEMENT" && c.deps == [x, x] && x in ConsiderationIds(cs)
    ensures ChildFindings(p, cs, c) == {}
  {
    hide TargetIds, ConsiderationIds, ConsiderationChildren;
    OverlayIsNonPosition(c.typ);
    ConsiderationsAgree(cs);
    assert (set d | d in c.deps) == {x};
  }

  lemma DoubledSettlementPositions(p: Policy, cs: seq<Child>, s: string, t: string, c: string, x: string)
    requires PolicyOf("MERGER") == Some(p) && cs == DoubledSettlement(s, t, c, x) && DistinctIds(cs)
    ensures ChildFindings(p, cs, cs[0]) == {} && ChildFindings(p, cs, cs[1]) == {}
  {
    DoubledSettlementShape(p, cs, s, t, c, x);
    SourceChildAgrees("MERGER", p, cs, 0);
    TargetChildAgrees("MERGER", p, cs, 0, 1);
    hide ChildFindings;
  }

  /** The application takes it, the database does not. */
  lemma DoubledSettlementDiffers(s: string, t: string, c: string, x: string)
    requires s != t && s != c && s != x && t != c && t != x && c != x
    ensures DistinctIds(DoubledSettlement(s, t, c, x))
    ensures SemanticFindings("MERGER", DoubledSettlement(s, t, c, x)) == {}
    ensures Check("MERGER", DoubledSettlement(s, t, c, x)).Err?
  {
    hide SemanticFindings, ChildFindings, ShapeFindings, Check, OfType, TargetIds, ConsiderationIds, ShapeOk;
    var cs, p := DoubledSettlement(s, t, c, x), PolicyOf("MERGER").value;
    DoubledSettlementShape(p, cs, s, t, c, x);
    DoubledSettlementPositions(p, cs, s, t, c, x);
    ConsiderationTaken(p, cs, cs[2], t);
    SettlementTaken(p, cs, cs[3], c);
    FindingsEmpty("MERGER", p, cs);
    ShapeAgrees(p, cs);
    assert cs[3].deps[0] == cs[3].deps[1];
    VerdictsDifferExactly("MERGER", cs);
  }

  /** A spin-off in which a cash consideration after the target `t` takes the id of the source `s`. */
  function HiddenSource(s: string, t: string): seq<Child>
  {
    [Leg("SPIN_OFF", "SOURCE_POSITION_REDUCE", s, [], "A", None),
     Leg("SPIN_IN", "TARGET_POSITION_ADD", t, [s], "B", Some("B")),
     Leg(CASH_CONSIDERATION, "CASH_CONSIDERATION", s, [t], "A", None)]
  }

  lemma HiddenSourceShape(p: Policy, cs: seq<Child>, s: string, t: string)
    requires PolicyOf("SPIN_OFF") == Some(p) && cs == HiddenSource(s, t)
    ensures ShapeOk(p, cs) && OfType(cs, p.sourceType) == {0} && TargetIds(p, cs) == {t}
  {
    assert OfType(cs, "SPIN_OFF") == {0} && OfType(cs, "SPIN_IN") == {1};
    assert cs[1].id in TargetIds(p, cs);
  }

  /** The database takes it, the application does not, and no dependency is repeated. */
  lemma HiddenSourceDiffers(s: string, t: string)
    requires s != t
    ensures var cs := HiddenSource(s, t);
            && Check("SPIN_OFF", cs).Ok? && SemanticFindings("SPIN_OFF", cs) != {}
            && NoSettlementRepeats(cs) && NoTargetRepeatsSource("SPIN_OFF", cs)
  {
    hide SemanticFindings, Check, ShapeOk, OfType, TargetIds, ConsiderationIds, TargetInstruments;
    var cs, p := HiddenSource(s, t), PolicyOf("SPIN_OFF").value;
    HiddenSourceShape(p, cs, s, t);
    CheckMeans("SPIN_OFF", p, cs, 0);
    assert t in cs[2].deps;
    assert s in cs[1].deps;
    assert cs[2].id == cs[0].id && !Last(cs, 0);
    VerdictsDifferExactly("SPIN_OFF", cs);
  }

  /** A merger in which the target `t` is declared for two instruments, and cash in lieu `x` is for the first. */
  function HiddenTarget(s: string, t: string, x: string): seq<Child>
  {
    [Leg("MERGER_OUT", "SOURCE_POSITION_CLOSE", s, [], "A", None),
     Leg("MERGER_IN", "TARGET_POSITION_ADD", t, [s], "B", Some("B")),
     Leg("MERGER_IN", "TARGET_POSITION_ADD", t, [s], "C", Some("C")),
     Leg(CASH_IN_LIEU, "CASH_IN_LIEU", x, [t], "B", None)]
  }

  lemma HiddenTargetShape(p: Policy, cs: seq<Child>, s: string, t: string, x: string)
    requires PolicyOf("MERGER") == Some(p) && cs == HiddenTarget(s, t, x)
    ensures ShapeOk(p, cs) && OfType(cs, p.sourceType) == {0}
  {
    assert OfType(cs, "MERGER_OUT") == {0} && OfType(cs, "MERGER_IN") == {1, 2};
  }

  lemma HiddenTargetPositions(p: Policy, cs: seq<Child>, s: string, t: string, x: string)
    requires PolicyOf("MERGER") == Some(p) && cs == HiddenTarget(s, t, x) && s != t && s != x
    ensures ChildFindings(p, cs, cs[0]) == {} && ChildFindings(p, cs, cs[1]) == {} && ChildFindings(p, cs, cs[2]) == {}
  {
    hide ChildFindings, ShapeOk;
    HiddenTargetShape(p, cs, s, t, x);
    SourceChildAgrees("MERGER", p, cs, 0);
    TargetChildAgrees("MERGER", p, cs, 0, 1);
    TargetChildAgrees("MERGER", p, cs, 0, 2);
    assert s in cs[1].deps && s in cs[2].deps;
  }

  lemma CashTaken(p: Policy, cs: seq<Child>, c: Child, i: nat)
    requires c.typ == CASH_IN_LIEU && c.role == "CASH_IN_LIEU" && i < |cs| && NamesTarget(p, cs, c, i)
    ensures ChildFindings(p, cs, c) == {}
  {
    hide TargetIds, ConsiderationIds, GovernedDependencies;
    OverlayIsNonPosition(c.typ);
    OverlaysAgree(c.typ);
    GovernedCash(p, cs, c);
  }

  /** The application takes it, the database does not. */
  lemma HiddenTargetDiffers(s: string, t: string, x: string)
    requires s != t && s != x && t != x
    ensures var cs := HiddenTarget(s, t, x);
            && SemanticFindings("MERGER", cs) == {} && Check("MERGER", cs).Err?
            && NoSettlementRepeats(cs) && NoTargetRepeatsSource("MERGER", cs)
  {
    hide SemanticFindings, ChildFindings, ShapeFindings, Check, OfType, TargetIds, ConsiderationIds, ShapeOk;
    var cs, p := HiddenTarget(s, t, x), PolicyOf("MERGER").value;
    HiddenTargetShape(p, cs, s, t, x);
    HiddenTargetPositions(p, cs, s, t, x);
    assert t in cs[3].deps && NamesTarget(p, cs, cs[3], 1);
    CashTaken(p, cs, cs[3], 1);
    FindingsEmpty("MERGER", p, cs);
    ShapeAgrees(p, cs);
    forall i: nat | i < |cs| && NamesTarget(p, cs, cs[3], i) ensures !LastTarget(p, cs, i) {
      assert cs[2].id == cs[i].id;
    }
    assert !TargetShown(p, cs, cs[3]);
    VerdictsDifferExactly("MERGER", cs);
  }
}
