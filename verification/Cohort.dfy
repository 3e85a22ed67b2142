/** The governed cohort of a corporate action: one source leg, one or more target legs,
    and cash, settlement, fee and tax overlays with prescribed dependencies. */
module Cohort {
  import opened Wrappers
  import opened ChildPayload
  import opened Schedule

  datatype Policy = Policy(sourceType: string, sourceRole: string, targetType: string)

  datatype CohortError = NoPolicy | CohortShape | SourceChild | TargetChild | OverlayChild

  const CASH_CONSIDERATION := "CASH_CONSIDERATION"
  const CASH_IN_LIEU := "CASH_IN_LIEU"
  const ADJUSTMENT := "ADJUSTMENT"
  const FEE := "FEE"
  const TAX := "TAX"

  function PolicyOf(eventType: string): Option<Policy>
  {
    if eventType == "SPIN_OFF" then Some(Policy("SPIN_OFF", "SOURCE_POSITION_REDUCE", "SPIN_IN"))
    else if eventType == "DEMERGER" then Some(Policy("DEMERGER_OUT", "SOURCE_POSITION_REDUCE", "DEMERGER_IN"))
    else if eventType == "MERGER" then Some(Policy("MERGER_OUT", "SOURCE_POSITION_CLOSE", "MERGER_IN"))
    else if eventType == "MANDATORY_EXCHANGE" then Some(Policy("EXCHANGE_OUT", "SOURCE_POSITION_CLOSE", "EXCHANGE_IN"))
    else if eventType == "SECURITY_REPLACEMENT" then
      Some(Policy("REPLACEMENT_OUT", "SOURCE_POSITION_CLOSE", "REPLACEMENT_IN"))
    else None
  }

  predicate Overlay(typ: string)
  {
    typ in {CASH_CONSIDERATION, CASH_IN_LIEU, ADJUSTMENT, FEE, TAX}
  }

  predicate Consideration(typ: string)
  {
    typ in {CASH_CONSIDERATION, CASH_IN_LIEU}
  }

  function OverlayRole(typ: string): string
  {
    if typ == CASH_CONSIDERATION then "CASH_CONSIDERATION"
    else if typ == CASH_IN_LIEU then "CASH_IN_LIEU"
    else if typ == ADJUSTMENT then "CASH_SETTLEMENT"
    else if typ == FEE then "CHARGE"
    else "TAX"
  }

  /** The positions holding children of one type: `count(*) ... WHERE transaction_type = typ`. */
  function OfType(cs: seq<Child>, typ: string): set<nat>
  {
    set i: nat | i < |cs| && cs[i].typ == typ
  }

  function TargetIds(p: Policy, cs: seq<Child>): set<string>
  {
    set i | 0 <= i < |cs| && cs[i].typ == p.targetType :: cs[i].id
  }

  function ConsiderationIds(cs: seq<Child>): set<string>
  {
    set i | 0 <= i < |cs| && Consideration(cs[i].typ) :: cs[i].id
  }

  /** `jsonb_object_agg(id, instrument)` over the targets: the last of equal keys wins. */
  function TargetInstruments(p: Policy, cs: seq<Child>): map<string, Option<string>>
  {
    if cs == [] then map[]
    else
      var last := cs[|cs| - 1];
      var before := TargetInstruments(p, cs[..|cs| - 1]);
      if last.typ == p.targetType then before[last.id := last.instrument] else before
  }

  predicate ShapeOk(p: Policy, cs: seq<Child>)
  {
    && (forall i | 0 <= i < |cs| :: cs[i].typ == p.sourceType || cs[i].typ == p.targetType || Overlay(cs[i].typ))
    && |OfType(cs, p.sourceType)| == 1
    && |OfType(cs, p.targetType)| >= 1
  }

  predicate SourceOk(p: Policy, c: Child)
  {
    c.role == p.sourceRole && c.source.Some? && c.instrument.Some? && c.instrument == c.source
  }

  predicate TargetOk(src: Child, c: Child)
  {
    && c.role == "TARGET_POSITION_ADD"
    && c.source.Some? && c.target.Some? && c.instrument.Some?
    && c.target != c.source && c.instrument == c.target
    && src.id in c.deps && c.source == src.instrument
  }

  predicate Contains(deps: seq<string>, ids: set<string>)
  {
    forall x | x in ids :: x in deps
  }

  predicate OverlayOk(p: Policy, cs: seq<Child>, c: Child)
  {
    && c.role == OverlayRole(c.typ)
    && (c.typ == CASH_CONSIDERATION ==> Contains(c.deps, TargetIds(p, cs)))
    && (c.typ == CASH_IN_LIEU ==>
          exists d | d in c.deps ::
            d in TargetInstruments(p, cs) && c.instrument.Some? && TargetInstruments(p, cs)[d] == c.instrument)
    && (c.typ == ADJUSTMENT ==> |c.deps| == 1 && c.deps[0] in ConsiderationIds(cs))
    && (c.typ in {FEE, TAX} ==> Contains(c.deps, TargetIds(p, cs) + ConsiderationIds(cs)))
  }

  /** The single source child of a well-shaped cohort. */
  function SourceIndex(p: Policy, cs: seq<Child>): (k: nat)
    requires ShapeOk(p, cs)
    ensures k < |cs| && OfType(cs, p.sourceType) == {k}
  {
    SingletonExists(OfType(cs, p.sourceType));
    var k :| k in OfType(cs, p.sourceType) && OfType(cs, p.sourceType) == {k};
    k
  }

  lemma SingletonExists(s: set<nat>)
    requires |s| == 1
    ensures exists k :: k in s && s == {k}
  {
    var k :| k in s;
    assert |s - {k}| == 0;
    assert s == {k};
  }

  /** `assert_ca_manifest_semantics`, in its order. */
  function Check(eventType: string, cs: seq<Child>): Result<Policy, CohortError>
  {
    match PolicyOf(eventType)
    case None => Err(NoPolicy)
    case Some(p) =>
      if !ShapeOk(p, cs) then Err(CohortShape)
      else
        var src := cs[SourceIndex(p, cs)];
        if !SourceOk(p, src) then Err(SourceChild)
        else if exists i | 0 <= i < |cs| :: cs[i].typ == p.targetType && !TargetOk(src, cs[i]) then Err(TargetChild)
        else if exists i | 0 <= i < |cs| :: Overlay(cs[i].typ) && !OverlayOk(p, cs, cs[i]) then Err(OverlayChild)
        else Ok(p)
  }

  // ---------------------------------------------------------------- what the cohort implies for every order

  /** The dependency graph the children declare. */
  ghost function Dependencies(cs: seq<Child>): Graph
  {
    Graph(set i | 0 <= i < |cs| :: cs[i].id,
          set i, j | 0 <= i < |cs| && 0 <= j < |cs[i].deps| :: (cs[i].deps[j], cs[i].id))
  }

  ghost predicate DistinctIds(cs: seq<Child>)
  {
    forall i, j | 0 <= i < j < |cs| :: cs[i].id != cs[j].id
  }

  /** `a` is ordered before `b`. */
  ghost predicate Precedes(order: seq<string>, a: string, b: string)
  {
    exists i, j | 0 <= i < j < |order| :: order[i] == a && order[j] == b
  }

  lemma DependencyPrecedes(cs: seq<Child>, order: seq<string>, i: nat, a: string)
    requires Topological(Dependencies(cs), order) && i < |cs| && a in cs[i].deps && a in Dependencies(cs).ids
    ensures Precedes(order, a, cs[i].id)
  {
    var g := Dependencies(cs);
    var j :| 0 <= j < |cs[i].deps| && cs[i].deps[j] == a;
    assert (cs[i].deps[j], cs[i].id) in g.edges;
    assert cs[i].id in g.ids;
    assert a in order && cs[i].id in order;
    var x :| 0 <= x < |order| && order[x] == a;
    var y :| 0 <= y < |order| && order[y] == cs[i].id;
    assert (order[x], order[y]) in g.edges;
  }

  lemma PrecedesTransitive(order: seq<string>, a: string, b: string, c: string)
    requires Distinct(order) && Precedes(order, a, b) && Precedes(order, b, c)
    ensures Precedes(order, a, c)
  {
  }

  lemma {:induction false} TargetInstrumentKeys(p: Policy, cs: seq<Child>, d: string)
    requires d in TargetInstruments(p, cs)
    ensures d in TargetIds(p, cs)
    decreases |cs|
  {
    var last, before := cs[|cs| - 1], cs[..|cs| - 1];
    if last.typ == p.targetType && d == last.id {
    } else {
      TargetInstrumentKeys(p, before, d);
      var i :| 0 <= i < |before| && before[i].typ == p.targetType && before[i].id == d;
      assert cs[i] == before[i];
    }
  }

  /** The facts about one accepted cohort that the ordering results use. */
  ghost predicate Governed(p: Policy, cs: seq<Child>, src: nat)
  {
    && ShapeOk(p, cs) && src < |cs| && OfType(cs, p.sourceType) == {src}
    && (forall i | 0 <= i < |cs| && cs[i].typ == p.targetType :: TargetOk(cs[src], cs[i]))
    && (forall i | 0 <= i < |cs| && Overlay(cs[i].typ) :: OverlayOk(p, cs, cs[i]))
  }

  lemma CheckGoverns(eventType: string, cs: seq<Child>)
    requires Check(eventType, cs).Ok?
    ensures var p := Check(eventType, cs).value;
            PolicyOf(eventType) == Some(p) && ShapeOk(p, cs) && Governed(p, cs, SourceIndex(p, cs))
  {
  }

  /** A supported family: event type, source type, source role and target type. */
  predicate Family(eventType: string, sourceType: string, sourceRole: string, targetType: string)
  {
    || (eventType, sourceType, sourceRole, targetType) == ("SPIN_OFF", "SPIN_OFF", "SOURCE_POSITION_REDUCE", "SPIN_IN")
    || (eventType, sourceType, sourceRole, targetType)
         == ("DEMERGER", "DEMERGER_OUT", "SOURCE_POSITION_REDUCE", "DEMERGER_IN")
    || (eventType, sourceType, sourceRole, targetType) == ("MERGER", "MERGER_OUT", "SOURCE_POSITION_CLOSE", "MERGER_IN")
    || (eventType, sourceType, sourceRole, targetType)
         == ("MANDATORY_EXCHANGE", "EXCHANGE_OUT", "SOURCE_POSITION_CLOSE", "EXCHANGE_IN")
    || (eventType, sourceType, sourceRole, targetType)
         == ("SECURITY_REPLACEMENT", "REPLACEMENT_OUT", "SOURCE_POSITION_CLOSE", "REPLACEMENT_IN")
  }

  /** The types and roles an accepted cohort of the family has, by name. */
  ghost predicate HasRoles(sourceType: string, sourceRole: string, targetType: string, cs: seq<Child>)
  {
    && (exists k: nat | k < |cs| :: cs[k].typ == sourceType && cs[k].role == sourceRole
          && forall i | 0 <= i < |cs| && cs[i].typ == sourceType :: i == k)
    && (exists k | 0 <= k < |cs| :: cs[k].typ == targetType)
    && forall i | 0 <= i < |cs| && cs[i].typ != sourceType ::
         (cs[i].typ, cs[i].role) in {(targetType, "TARGET_POSITION_ADD"), ("CASH_CONSIDERATION", "CASH_CONSIDERATION"),
                                     ("CASH_IN_LIEU", "CASH_IN_LIEU"), ("ADJUSTMENT", "CASH_SETTLEMENT"),
                                     ("FEE", "CHARGE"), ("TAX", "TAX")}
  }

  /** The five families, and their policies. */
  lemma FamiliesExactly(eventType: string, sourceType: string, sourceRole: string, targetType: string)
    ensures Family(eventType, sourceType, sourceRole, targetType) <==>
              PolicyOf(eventType) == Some(Policy(sourceType, sourceRole, targetType))
  {
  }

  /** What passes has exactly the types and roles of its family. */
  lemma AcceptedFamily(eventType: string, cs: seq<Child>)
    requires Check(eventType, cs).Ok?
    ensures exists s, r, t :: Family(eventType, s, r, t) && HasRoles(s, r, t, cs)
  {
    hide Family, PolicyOf, TargetOk;
    var p := Check(eventType, cs).value;
    var src := SourceIndex(p, cs);
    FamiliesExactly(eventType, p.sourceType, p.sourceRole, p.targetType);
    assert src in OfType(cs, p.sourceType);
    forall i: nat | i < |cs| && cs[i].typ == p.sourceType ensures i == src { assert i in OfType(cs, p.sourceType); }
    var target := SomeTarget(p, cs);
    forall i: nat | i < |cs| && cs[i].typ == p.targetType ensures cs[i].role == "TARGET_POSITION_ADD" {
      assert TargetOk(cs[src], cs[i]);
      TargetRole(cs[src], cs[i]);
    }
    assert HasRoles(p.sourceType, p.sourceRole, p.targetType, cs);
  }

  lemma TargetRole(src: Child, c: Child)
    requires TargetOk(src, c)
    ensures c.role == "TARGET_POSITION_ADD"
  {
  }

  /** The smallest cohort of a family: `a` is replaced by `b`. */
  function TwoLegs(sourceType: string, sourceRole: string, targetType: string, s: string, t: string, a: string,
                   b: string): seq<Child>
  {
    [Child(sourceRole, None, [], Some(a), Some(a), None, s, sourceType),
     Child("TARGET_POSITION_ADD", None, [s], Some(b), Some(a), Some(b), t, targetType)]
  }

  /** It passes, in every family. */
  lemma TwoLegsAccepted(eventType: string, sourceType: string, sourceRole: string, targetType: string, s: string,
                        t: string, a: string, b: string)
    requires Family(eventType, sourceType, sourceRole, targetType) && a != b
    ensures Check(eventType, TwoLegs(sourceType, sourceRole, targetType, s, t, a, b)).Ok?
  {
    FamilyTypes(eventType, sourceType, sourceRole, targetType);
    FamiliesExactly(eventType, sourceType, sourceRole, targetType);
    hide Family, PolicyOf, Overlay;
    var cs, p := TwoLegs(sourceType, sourceRole, targetType, s, t, a, b), Policy(sourceType, sourceRole, targetType);
    assert OfType(cs, sourceType) == {0} && OfType(cs, targetType) == {1};
    assert s in cs[1].deps;
    assert ShapeOk(p, cs) && SourceIndex(p, cs) == 0;
  }

  lemma FamilyTypes(eventType: string, sourceType: string, sourceRole: string, targetType: string)
    requires Family(eventType, sourceType, sourceRole, targetType)
    ensures sourceType != targetType && !Overlay(sourceType) && !Overlay(targetType)
  {
  }

  lemma TargetAfterSource(p: Policy, cs: seq<Child>, src: nat, order: seq<string>, i: nat)
    requires Governed(p, cs, src) && Topological(Dependencies(cs), order)
    requires i < |cs| && cs[i].typ == p.targetType
    ensures Precedes(order, cs[src].id, cs[i].id)
  {
    assert cs[src].id in Dependencies(cs).ids;
    DependencyPrecedes(cs, order, i, cs[src].id);
  }

  /** Anything that depends on a target comes after the source. */
  lemma AfterTargetAfterSource(p: Policy, cs: seq<Child>, src: nat, order: seq<string>, i: nat, t: string)
    requires Governed(p, cs, src) && Topological(Dependencies(cs), order)
    requires i < |cs| && t in cs[i].deps && t in TargetIds(p, cs)
    ensures Precedes(order, t, cs[i].id) && Precedes(order, cs[src].id, cs[i].id)
  {
    var k :| 0 <= k < |cs| && cs[k].typ == p.targetType && cs[k].id == t;
    assert t in Dependencies(cs).ids;
    DependencyPrecedes(cs, order, i, t);
    TargetAfterSource(p, cs, src, order, k);
    PrecedesTransitive(order, cs[src].id, t, cs[i].id);
  }

  lemma SomeTarget(p: Policy, cs: seq<Child>) returns (t: string)
    requires ShapeOk(p, cs)
    ensures t in TargetIds(p, cs)
  {
    assert OfType(cs, p.targetType) != {};
    var k :| k in OfType(cs, p.targetType);
    t := cs[k].id;
  }

  lemma ConsiderationAfterSource(p: Policy, cs: seq<Child>, src: nat, order: seq<string>, i: nat)
    requires Governed(p, cs, src) && Topological(Dependencies(cs), order)
    requires i < |cs| && Consideration(cs[i].typ)
    ensures Precedes(order, cs[src].id, cs[i].id)
  {
    assert OverlayOk(p, cs, cs[i]);
    var t;
    if cs[i].typ == CASH_CONSIDERATION {
      t := SomeTarget(p, cs);
    } else {
      t :| t in cs[i].deps && t in TargetInstruments(p, cs);
      TargetInstrumentKeys(p, cs, t);
    }
    AfterTargetAfterSource(p, cs, src, order, i, t);
  }

  lemma AdjustmentAfterConsideration(p: Policy, cs: seq<Child>, src: nat, order: seq<string>, i: nat)
    requires Governed(p, cs, src) && Topological(Dependencies(cs), order)
    requires i < |cs| && cs[i].typ == ADJUSTMENT
    ensures |cs[i].deps| == 1 && cs[i].deps[0] in ConsiderationIds(cs)
    ensures Precedes(order, cs[i].deps[0], cs[i].id) && Precedes(order, cs[src].id, cs[i].id)
  {
    assert OverlayOk(p, cs, cs[i]);
    var d := cs[i].deps[0];
    var k :| 0 <= k < |cs| && Consideration(cs[k].typ) && cs[k].id == d;
    assert d in Dependencies(cs).ids;
    DependencyPrecedes(cs, order, i, d);
    ConsiderationAfterSource(p, cs, src, order, k);
    PrecedesTransitive(order, cs[src].id, d, cs[i].id);
  }

  lemma EveryoneAfterSource(p: Policy, cs: seq<Child>, src: nat, order: seq<string>, i: nat)
    requires Governed(p, cs, src) && Topological(Dependencies(cs), order)
    requires i < |cs| && i != src
    ensures Precedes(order, cs[src].id, cs[i].id)
  {
    assert i !in OfType(cs, p.sourceType);
    if cs[i].typ == p.targetType {
      TargetAfterSource(p, cs, src, order, i);
    } else if Consideration(cs[i].typ) {
      ConsiderationAfterSource(p, cs, src, order, i);
    } else if cs[i].typ == ADJUSTMENT {
      AdjustmentAfterConsideration(p, cs, src, order, i);
    } else {
      assert OverlayOk(p, cs, cs[i]);
      var t := SomeTarget(p, cs);
      AfterTargetAfterSource(p, cs, src, order, i, t);
    }
  }

  /** Nothing forbids the source child from declaring dependencies, but in any topological
      order of a governed cohort it is first. */
  lemma SourceIsFirst(p: Policy, cs: seq<Child>, src: nat, order: seq<string>)
    requires Governed(p, cs, src) && Topological(Dependencies(cs), order)
    ensures order != [] && order[0] == cs[src].id
  {
    var g := Dependencies(cs);
    assert cs[src].id in g.ids;
    assert cs[src].id in order;
    assert order[0] in g.ids;
    var i :| 0 <= i < |cs| && cs[i].id == order[0];
    if i != src {
      EveryoneAfterSource(p, cs, src, order, i);
    }
  }

  /** The economic order every plan of a governed cohort respects. */
  ghost predicate EconomicOrder(p: Policy, cs: seq<Child>, src: nat, order: seq<string>)
    requires src < |cs|
  {
    && order != [] && order[0] == cs[src].id
    && (forall i, j | 0 <= i < |cs| && 0 <= j < |cs| && cs[i].typ == p.targetType && cs[j].typ == CASH_CONSIDERATION ::
          Precedes(order, cs[i].id, cs[j].id))
    && (forall i, j | 0 <= i < |cs| && 0 <= j < |cs| && cs[i].typ == p.targetType && cs[j].typ in {FEE, TAX} ::
          Precedes(order, cs[i].id, cs[j].id))
    && (forall i, j | 0 <= i < |cs| && 0 <= j < |cs| && Consideration(cs[i].typ) && cs[j].typ in {FEE, TAX} ::
          Precedes(order, cs[i].id, cs[j].id))
    && (forall j | 0 <= j < |cs| && cs[j].typ == ADJUSTMENT ::
          |cs[j].deps| == 1 && cs[j].deps[0] in ConsiderationIds(cs) && Precedes(order, cs[j].deps[0], cs[j].id))
  }

  lemma ContainedPrecedes(cs: seq<Child>, order: seq<string>, i: nat, j: nat, ids: set<string>)
    requires Topological(Dependencies(cs), order) && i < |cs| && j < |cs|
    requires cs[i].id in ids && Contains(cs[j].deps, ids)
    ensures Precedes(order, cs[i].id, cs[j].id)
  {
    assert cs[i].id in Dependencies(cs).ids;
    DependencyPrecedes(cs, order, j, cs[i].id);
  }

  lemma GovernedPlanOrder(p: Policy, cs: seq<Child>, src: nat, order: seq<string>)
    requires Governed(p, cs, src) && Topological(Dependencies(cs), order)
    ensures EconomicOrder(p, cs, src, order)
  {
    SourceIsFirst(p, cs, src, order);
    forall i, j | 0 <= i < |cs| && 0 <= j < |cs| && cs[i].typ == p.targetType && cs[j].typ == CASH_CONSIDERATION
      ensures Precedes(order, cs[i].id, cs[j].id)
    {
      assert OverlayOk(p, cs, cs[j]);
      ContainedPrecedes(cs, order, i, j, TargetIds(p, cs));
    }
    forall i, j | && 0 <= i < |cs| && 0 <= j < |cs| && cs[j].typ in {FEE, TAX}
                  && (cs[i].typ == p.targetType || Consideration(cs[i].typ))
      ensures Precedes(order, cs[i].id, cs[j].id)
    {
      assert OverlayOk(p, cs, cs[j]);
      ContainedPrecedes(cs, order, i, j, TargetIds(p, cs) + ConsiderationIds(cs));
    }
    forall j | 0 <= j < |cs| && cs[j].typ == ADJUSTMENT
      ensures |cs[j].deps| == 1 && cs[j].deps[0] in ConsiderationIds(cs) && Precedes(order, cs[j].deps[0], cs[j].id)
    {
      AdjustmentAfterConsideration(p, cs, src, order, j);
    }
  }
}
