/** The lot-evidence tables, their restrictive foreign keys, and the cleanup plan run against them. */
module LotCleanup {
  import opened Wrappers
  import L = LikePattern

  // ---------------------------------------------------------------- tables

  /** A lot and its eight nullable carry columns. */
  datatype Lot = Lot(id: nat, lot: string, portfolio: string, security: string,
                     profile: Option<string>, version: Option<nat>, contentHash: Option<string>,
                     recognizedThrough: Option<int>, scheduledLocal: Option<int>, carryingLocal: Option<int>,
                     carryingBase: Option<int>, fxRate: Option<int>)
  datatype Profile = Profile(id: nat, profile: string, version: nat, lot: string, portfolio: string, security: string)
  datatype Period = Period(id: nat, profile: string, version: nat, ordinal: nat)
  datatype Authority = Authority(id: nat, lot: string, portfolio: string, security: string)
  datatype Receipt = Receipt(id: nat, receipt: string, version: nat, portfolio: string, security: string)
  datatype Disposal = Disposal(id: nat, receipt: string, version: nat, portfolio: string, security: string,
                               lot: string, profile: Option<string>, profileVersion: Option<nat>)
  datatype Transfer = Transfer(id: nat, receipt: string, version: nat, portfolio: string, security: string, lot: string)

  datatype Tables = Tables(lots: set<Lot>, profiles: set<Profile>, periods: set<Period>, authority: set<Authority>,
                           disposalReceipts: set<Receipt>, disposals: set<Disposal>,
                           transferReceipts: set<Receipt>, transfers: set<Transfer>)

  /** All eight carry columns are null, or none is. */
  predicate CarryShape(l: Lot)
  {
    || (l.profile.None? && l.version.None? && l.contentHash.None? && l.recognizedThrough.None?
        && l.scheduledLocal.None? && l.carryingLocal.None? && l.carryingBase.None? && l.fxRate.None?)
    || (l.profile.Some? && l.version.Some? && l.contentHash.Some? && l.recognizedThrough.Some?
        && l.scheduledLocal.Some? && l.carryingLocal.Some? && l.carryingBase.Some? && l.fxRate.Some?)
  }

  // ---------------------------------------------------------------- foreign keys

  predicate HasLot(t: Tables, lot: string, portfolio: string, security: string)
  {
    exists l | l in t.lots :: l.lot == lot && l.portfolio == portfolio && l.security == security
  }

  predicate HasProfile(t: Tables, profile: string, version: nat, lot: string, portfolio: string, security: string)
  {
    exists p | p in t.profiles ::
      && p.profile == profile && p.version == version
      && p.lot == lot && p.portfolio == portfolio && p.security == security
  }

  predicate HasReceipt(rs: set<Receipt>, receipt: string, version: nat, portfolio: string, security: string)
  {
    exists r | r in rs ::
      r.receipt == receipt && r.version == version && r.portfolio == portfolio && r.security == security
  }

  /** A key with a null part references nothing. */
  predicate LotProfileKey(t: Tables)
  {
    forall l | l in t.lots && l.profile.Some? && l.version.Some? ::
      HasProfile(t, l.profile.value, l.version.value, l.lot, l.portfolio, l.security)
  }

  predicate ProfileLotKey(t: Tables)
  {
    forall p | p in t.profiles :: HasLot(t, p.lot, p.portfolio, p.security)
  }

  predicate PeriodProfileKey(t: Tables)
  {
    forall q | q in t.periods ::
      exists p | p in t.profiles :: p.profile == q.profile && p.version == q.version
  }

  predicate AuthorityLotKey(t: Tables)
  {
    forall a | a in t.authority :: HasLot(t, a.lot, a.portfolio, a.security)
  }

  predicate DisposalKeys(t: Tables)
  {
    forall d | d in t.disposals ::
      && HasReceipt(t.disposalReceipts, d.receipt, d.version, d.portfolio, d.security)
      && HasLot(t, d.lot, d.portfolio, d.security)
      && (d.profile.Some? && d.profileVersion.Some? ==>
            HasProfile(t, d.profile.value, d.profileVersion.value, d.lot, d.portfolio, d.security))
  }

  predicate TransferKeys(t: Tables)
  {
    forall x | x in t.transfers ::
      && HasReceipt(t.transferReceipts, x.receipt, x.version, x.portfolio, x.security)
      && HasLot(t, x.lot, x.portfolio, x.security)
  }

  /** (profile_id, profile_version) is unique. */
  predicate ProfileVersionsUnique(t: Tables)
  {
    forall p, q | p in t.profiles && q in t.profiles && p.profile == q.profile && p.version == q.version :: p == q
  }

  predicate Consistent(t: Tables)
  {
    && LotProfileKey(t) && ProfileLotKey(t) && PeriodProfileKey(t) && AuthorityLotKey(t)
    && DisposalKeys(t) && TransferKeys(t) && ProfileVersionsUnique(t)
    && forall l | l in t.lots :: CarryShape(l)
  }

  ghost predicate LotOf(t: Tables, lot: string, portfolio: string, security: string)
  {
    exists l :: l in t.lots && (l.lot, l.portfolio, l.security) == (lot, portfolio, security)
  }

  ghost predicate ReceiptOf(receipts: set<Receipt>, a: Receipt)
  {
    exists r :: r in receipts && r == a.(id := r.id)
  }

  ghost predicate ProfileOf(t: Tables, a: Profile)
  {
    exists p :: p in t.profiles && p == a.(id := p.id)
  }

  /** The declared keys bind within one holding: a lot's profile is of that lot, portfolio and security, and so are
      the lot and the profile of an allocation and the lot of an authority; receipts are of the same portfolio and
      security. A lot has all carry columns or none. */
  ghost predicate Bound(t: Tables)
  {
    && (forall l | l in t.lots ::
          || (&& l.profile == None && l.version == None && l.contentHash == None && l.recognizedThrough == None
              && l.scheduledLocal == None && l.carryingLocal == None && l.carryingBase == None && l.fxRate == None)
          || (&& l.profile != None && l.version != None && l.contentHash != None && l.recognizedThrough != None
              && l.scheduledLocal != None && l.carryingLocal != None && l.carryingBase != None && l.fxRate != None
              && ProfileOf(t, Profile(0, l.profile.value, l.version.value, l.lot, l.portfolio, l.security))))
    && (forall p | p in t.profiles :: LotOf(t, p.lot, p.portfolio, p.security))
    && (forall p, q | p in t.profiles && q in t.profiles && p != q :: (p.profile, p.version) != (q.profile, q.version))
    && (forall q | q in t.periods :: exists p :: p in t.profiles && (p.profile, p.version) == (q.profile, q.version))
    && (forall a | a in t.authority :: LotOf(t, a.lot, a.portfolio, a.security))
    && (forall d | d in t.disposals ::
          && LotOf(t, d.lot, d.portfolio, d.security)
          && ReceiptOf(t.disposalReceipts, Receipt(0, d.receipt, d.version, d.portfolio, d.security))
          && (d.profile == None || d.profileVersion == None ||
              ProfileOf(t, Profile(0, d.profile.value, d.profileVersion.value, d.lot, d.portfolio, d.security))))
    && (forall x | x in t.transfers ::
          && LotOf(t, x.lot, x.portfolio, x.security)
          && ReceiptOf(t.transferReceipts, Receipt(0, x.receipt, x.version, x.portfolio, x.security)))
  }

  lemma ConsistentExactly(t: Tables)
    ensures Consistent(t) <==> Bound(t)
  {
    if Bound(t) { BoundConsistent(t); } else if Consistent(t) { ConsistentBound(t); }
  }

  lemma ConsistentBound(t: Tables)
    requires Consistent(t)
    ensures Bound(t)
  {
  }

  lemma BoundConsistent(t: Tables)
    requires Bound(t)
    ensures Consistent(t)
  {
  }

  // ---------------------------------------------------------------- statements

  /** The WHERE clause on portfolio_id. */
  datatype Selector = Equals(value: string) | Like(pattern: string)

  predicate Selects(w: Selector, portfolio: string)
  {
    match w
    case Equals(v) => portfolio == v
    case Like(p) => L.Like(p, portfolio)
  }

  datatype Statement =
    | ClearCarry(w: Selector)
    | DeleteDisposals(w: Selector)
    | DeleteTransfers(w: Selector)
    | DeletePeriods(w: Selector)
    | DeleteDisposalReceipts(w: Selector)
    | DeleteTransferReceipts(w: Selector)
    | DeleteAuthority(w: Selector)
    | DeleteProfiles(w: Selector)
    | DeleteLots(w: Selector)

  function Cleared(l: Lot): Lot
  {
    l.(profile := None, version := None, contentHash := None, recognizedThrough := None,
       scheduledLocal := None, carryingLocal := None, carryingBase := None, fxRate := None)
  }

  /** The subquery of the period delete. */
  predicate PeriodSelected(t: Tables, w: Selector, q: Period)
  {
    exists p | p in t.profiles :: Selects(w, p.portfolio) && p.profile == q.profile && p.version == q.version
  }

  /** What a statement does to the rows, before the constraints are checked. */
  function Apply(t: Tables, s: Statement): Tables
  {
    match s
    case ClearCarry(w) => t.(lots := set l | l in t.lots :: if Selects(w, l.portfolio) then Cleared(l) else l)
    case DeleteDisposals(w) => t.(disposals := set d | d in t.disposals && !Selects(w, d.portfolio))
    case DeleteTransfers(w) => t.(transfers := set x | x in t.transfers && !Selects(w, x.portfolio))
    case DeletePeriods(w) => t.(periods := set q | q in t.periods && !PeriodSelected(t, w, q))
    case DeleteDisposalReceipts(w) =>
      t.(disposalReceipts := set r | r in t.disposalReceipts && !Selects(w, r.portfolio))
    case DeleteTransferReceipts(w) =>
      t.(transferReceipts := set r | r in t.transferReceipts && !Selects(w, r.portfolio))
    case DeleteAuthority(w) => t.(authority := set a | a in t.authority && !Selects(w, a.portfolio))
    case DeleteProfiles(w) => t.(profiles := set p | p in t.profiles && !Selects(w, p.portfolio))
    case DeleteLots(w) => t.(lots := set l | l in t.lots && !Selects(w, l.portfolio))
  }

  datatype PlanError = UnsupportedMatch | ForeignKeyViolation

  function Plan(w: Selector, preserve: bool): seq<Statement>
  {
    [ClearCarry(w), DeleteDisposals(w), DeleteTransfers(w)]
    + (if preserve then [] else [DeletePeriods(w)])
    + [DeleteDisposalReceipts(w), DeleteTransferReceipts(w)]
    + (if preserve then [] else [DeleteAuthority(w), DeleteProfiles(w)])
  }

  function SelectorOf(selector: string, mode: string): Result<Selector, PlanError>
  {
    if mode == "exact" then Ok(Equals(selector))
    else if mode == "prefix" then Ok(Like(selector + "%"))
    else Err(UnsupportedMatch)
  }

  /** Exact mode selects one portfolio and prefix mode, for a selector without special characters, those that
      start with it; there is no other mode. */
  lemma SelectionExactly(selector: string, mode: string, portfolio: string)
    ensures SelectorOf(selector, mode).Ok? <==> mode == "exact" || mode == "prefix"
    ensures mode == "exact" ==> (Selects(SelectorOf(selector, mode).value, portfolio) <==> portfolio == selector)
    ensures mode == "prefix" && L.Literal(selector) ==>
              (Selects(SelectorOf(selector, mode).value, portfolio) <==> selector <= portfolio)
  {
    if L.Literal(selector) { L.LiteralPrefix(selector, portfolio); }
  }

  /** The plan builder. */
  function BuildPlan(selector: string, mode: string, preserve: bool): Result<seq<Statement>, PlanError>
  {
    match SelectorOf(selector, mode)
    case Err(e) => Err(e)
    case Ok(w) => Ok(Plan(w, preserve))
  }

  // ---------------------------------------------------------------- when one statement is safe

  predicate NoneSelected(ps: set<string>, w: Selector)
  {
    forall p | p in ps :: !Selects(w, p)
  }

  function ProfilePortfolios(t: Tables): set<string> { set p | p in t.profiles :: p.portfolio }
  function AuthorityPortfolios(t: Tables): set<string> { set a | a in t.authority :: a.portfolio }
  function DisposalPortfolios(t: Tables): set<string> { set d | d in t.disposals :: d.portfolio }
  function TransferPortfolios(t: Tables): set<string> { set x | x in t.transfers :: x.portfolio }

  /** Clearing the binding and deleting rows nothing references is always safe. */
  lemma LeafStatementsSafe(t: Tables, s: Statement)
    requires Consistent(t)
    requires s.ClearCarry? || s.DeleteDisposals? || s.DeleteTransfers? || s.DeletePeriods? || s.DeleteAuthority?
    ensures Consistent(Apply(t, s))
  {
  }

  /** Receipts may go exactly when none of their allocations is left. */
  lemma DisposalReceiptsSafeExactly(t: Tables, w: Selector)
    requires Consistent(t)
    ensures Consistent(Apply(t, DeleteDisposalReceipts(w))) <==> NoneSelected(DisposalPortfolios(t), w)
  {
  }

  lemma TransferReceiptsSafeExactly(t: Tables, w: Selector)
    requires Consistent(t)
    ensures Consistent(Apply(t, DeleteTransferReceipts(w))) <==> NoneSelected(TransferPortfolios(t), w)
  {
  }

  /** No period, lot or disposal still refers to a selected profile. */
  predicate ProfilesUnreferenced(t: Tables, w: Selector)
  {
    && (forall q | q in t.periods :: !PeriodSelected(t, w, q))
    && (forall l | l in t.lots && l.profile.Some? && l.version.Some? :: !Selects(w, l.portfolio))
    && (forall d | d in t.disposals && d.profile.Some? && d.profileVersion.Some? :: !Selects(w, d.portfolio))
  }

  /** Profiles may go exactly when nothing refers to a selected one. */
  lemma ProfilesSafeExactly(t: Tables, w: Selector)
    requires Consistent(t)
    ensures Consistent(Apply(t, DeleteProfiles(w))) <==> ProfilesUnreferenced(t, w)
  {
  }

  /** No selected evidence row is left that refers to a lot. */
  predicate LotsUnreferenced(t: Tables, w: Selector)
  {
    && NoneSelected(ProfilePortfolios(t), w) && NoneSelected(AuthorityPortfolios(t), w)
    && NoneSelected(DisposalPortfolios(t), w) && NoneSelected(TransferPortfolios(t), w)
  }

  /** Lots may go exactly when no selected evidence row is left. */
  lemma LotsSafeExactly(t: Tables, w: Selector)
    requires Consistent(t)
    ensures Consistent(Apply(t, DeleteLots(w))) <==> LotsUnreferenced(t, w)
  {
  }

  /** The cycle the plan has to break: while a selected lot is bound to a profile, neither table can go first. */
  lemma BoundLotBlocksBoth(t: Tables, w: Selector, l: Lot)
    requires Consistent(t) && l in t.lots && Selects(w, l.portfolio) && l.profile.Some?
    ensures !Consistent(Apply(t, DeleteProfiles(w))) && !Consistent(Apply(t, DeleteLots(w)))
  {
  }

  // ---------------------------------------------------------------- the whole plan

  /** The tables after the first n statements. */
  function After(t: Tables, plan: seq<Statement>, n: nat): Tables
    requires n <= |plan|
  {
    if n == 0 then t else Apply(After(t, plan, n - 1), plan[n - 1])
  }

  /** What the plan leaves: unselected rows as they were, selected lots unbound, selected evidence gone,
      and in preserve mode the profiles, periods and authority untouched. */
  function Cleaned(t: Tables, w: Selector, preserve: bool): Tables
  {
    Tables((set l | l in t.lots :: if Selects(w, l.portfolio) then Cleared(l) else l),
           if preserve then t.profiles else (set p | p in t.profiles && !Selects(w, p.portfolio)),
           if preserve then t.periods else (set q | q in t.periods && !PeriodSelected(t, w, q)),
           if preserve then t.authority else (set a | a in t.authority && !Selects(w, a.portfolio)),
           (set r | r in t.disposalReceipts && !Selects(w, r.portfolio)),
           (set d | d in t.disposals && !Selects(w, d.portfolio)),
           (set r | r in t.transferReceipts && !Selects(w, r.portfolio)),
           (set x | x in t.transfers && !Selects(w, x.portfolio)))
  }

  lemma AfterStep(t: Tables, plan: seq<Statement>, n: nat)
    requires n < |plan|
    ensures After(t, plan, n + 1) == Apply(After(t, plan, n), plan[n])
  {
  }

  /** The part both variants share: after the two allocation deletes. */
  lemma AllocationsGone(t: Tables, w: Selector, plan: seq<Statement>)
    requires Consistent(t) && |plan| >= 3 && plan[..3] == [ClearCarry(w), DeleteDisposals(w), DeleteTransfers(w)]
    ensures forall n: nat | n <= 3 :: Consistent(After(t, plan, n))
    ensures var u := After(t, plan, 3);
            u == t.(lots := Cleaned(t, w, true).lots, disposals := Cleaned(t, w, true).disposals,
                    transfers := Cleaned(t, w, true).transfers)
  {
    hide Consistent, Selects;
    assert plan[0] == plan[..3][0] && plan[1] == plan[..3][1] && plan[2] == plan[..3][2];
    AfterStep(t, plan, 0);
    AfterStep(t, plan, 1);
    AfterStep(t, plan, 2);
    LeafStatementsSafe(t, plan[0]);
    LeafStatementsSafe(After(t, plan, 1), plan[1]);
    LeafStatementsSafe(After(t, plan, 2), plan[2]);
  }

  /** Deleting both kinds of receipt once their allocations are gone. */
  lemma ReceiptsGone(t: Tables, w: Selector, plan: seq<Statement>, n: nat)
    requires n + 2 <= |plan| && plan[n] == DeleteDisposalReceipts(w) && plan[n + 1] == DeleteTransferReceipts(w)
    requires var u := After(t, plan, n);
             Consistent(u) && NoneSelected(DisposalPortfolios(u), w) && NoneSelected(TransferPortfolios(u), w)
    ensures Consistent(After(t, plan, n + 1)) && Consistent(After(t, plan, n + 2))
    ensures var u := After(t, plan, n);
            After(t, plan, n + 2) ==
            u.(disposalReceipts := (set r | r in u.disposalReceipts && !Selects(w, r.portfolio)),
               transferReceipts := (set r | r in u.transferReceipts && !Selects(w, r.portfolio)))
  {
  }

  lemma PreservingPlan(t: Tables, w: Selector)
    requires Consistent(t)
    ensures var plan := Plan(w, true);
            && |plan| == 5 && After(t, plan, 5) == Cleaned(t, w, true)
            && forall n: nat | n <= 5 :: Consistent(After(t, plan, n))
  {
    hide Consistent;
    var plan := Plan(w, true);
    AllocationsGone(t, w, plan);
    ReceiptsGone(t, w, plan, 3);
  }

  /** Deleting authority and then profiles once periods, bindings and disposals are gone. */
  lemma ProfilesGone(t: Tables, w: Selector, plan: seq<Statement>, n: nat)
    requires n + 2 <= |plan| && plan[n] == DeleteAuthority(w) && plan[n + 1] == DeleteProfiles(w)
    requires var u := After(t, plan, n); Consistent(u) && ProfilesUnreferenced(u, w)
    ensures Consistent(After(t, plan, n + 1)) && Consistent(After(t, plan, n + 2))
    ensures var u := After(t, plan, n);
            After(t, plan, n + 2) ==
            u.(authority := (set a | a in u.authority && !Selects(w, a.portfolio)),
               profiles := (set p | p in u.profiles && !Selects(w, p.portfolio)))
  {
  }

  /** The periods delete, in the middle of the plan. */
  lemma PeriodsGone(t: Tables, w: Selector, plan: seq<Statement>, n: nat)
    requires n < |plan| && plan[n] == DeletePeriods(w) && Consistent(After(t, plan, n))
    ensures Consistent(After(t, plan, n + 1))
    ensures var u := After(t, plan, n);
            After(t, plan, n + 1) == u.(periods := set q | q in u.periods && !PeriodSelected(u, w, q))
  {
  }

  lemma FullPlan(t: Tables, w: Selector)
    requires Consistent(t)
    ensures var plan := Plan(w, false);
            && |plan| == 8 && After(t, plan, 8) == Cleaned(t, w, false)
            && forall n: nat | n <= 8 :: Consistent(After(t, plan, n))
  {
    hide Consistent, After;
    var plan := Plan(w, false);
    AllocationsGone(t, w, plan);
    PeriodsGone(t, w, plan, 3);
    ReceiptsGone(t, w, plan, 4);
    var u := After(t, plan, 6);
    assert forall q | q in u.periods :: !PeriodSelected(t, w, q) && !PeriodSelected(u, w, q);
    ProfilesGone(t, w, plan, 6);
  }

  /** Every prefix of either plan keeps every foreign key and the all-or-none shape, on every
      consistent database and for every selector; and the plan ends in the cleaned tables. */
  lemma PlanIsSafe(t: Tables, w: Selector, preserve: bool, n: nat)
    requires Consistent(t) && n <= |Plan(w, preserve)|
    ensures Consistent(After(t, Plan(w, preserve), n))
    ensures After(t, Plan(w, preserve), |Plan(w, preserve)|) == Cleaned(t, w, preserve)
  {
    hide Consistent, After, Cleaned;
    if preserve { PreservingPlan(t, w); } else { FullPlan(t, w); }
  }

  // ---------------------------------------------------------------- what is left

  /** No selected evidence is left, and unselected rows are exactly the ones there were. */
  lemma CleanedMeans(t: Tables, w: Selector, preserve: bool)
    requires Consistent(t)
    ensures var u := Cleaned(t, w, preserve);
            && NoneSelected(DisposalPortfolios(u), w) && NoneSelected(TransferPortfolios(u), w)
            && (forall r | r in u.disposalReceipts + u.transferReceipts :: !Selects(w, r.portfolio))
            && (forall l | l in u.lots && Selects(w, l.portfolio) :: l.profile.None?)
            && (forall l: Lot | !Selects(w, l.portfolio) :: l in u.lots <==> l in t.lots)
            && (forall l | l in t.lots && Selects(w, l.portfolio) :: Cleared(l) in u.lots)
            && (forall l | l in u.lots && Selects(w, l.portfolio) :: exists o | o in t.lots :: l == Cleared(o))
            && (forall r: Receipt | !Selects(w, r.portfolio) :: r in u.disposalReceipts <==> r in t.disposalReceipts)
            && (forall r: Receipt | !Selects(w, r.portfolio) :: r in u.transferReceipts <==> r in t.transferReceipts)
            && (forall d: Disposal | !Selects(w, d.portfolio) :: d in u.disposals <==> d in t.disposals)
            && (forall x: Transfer | !Selects(w, x.portfolio) :: x in u.transfers <==> x in t.transfers)
            && (forall p: Profile | !Selects(w, p.portfolio) :: p in u.profiles <==> p in t.profiles)
            && (forall a: Authority | !Selects(w, a.portfolio) :: a in u.authority <==> a in t.authority)
    ensures var u := Cleaned(t, w, true);
            u.profiles == t.profiles && u.periods == t.periods && u.authority == t.authority
    ensures var u := Cleaned(t, w, false);
            && NoneSelected(ProfilePortfolios(u), w) && NoneSelected(AuthorityPortfolios(u), w)
            && forall q | q in t.periods ::
                 q in u.periods <==> exists p | p in u.profiles :: p.profile == q.profile && p.version == q.version
  {
  }

  /** The lot delete that follows the full plan never violates a key. In preserve mode it is safe
      exactly when the admission query counts no profile and no authority. */
  lemma LotDeleteAfterPlan(t: Tables, w: Selector, preserve: bool)
    requires Consistent(t)
    ensures Consistent(Apply(Cleaned(t, w, preserve), DeleteLots(w))) <==>
              !preserve || (SelectedProfiles(t, w) == 0 && SelectedAuthority(t, w) == 0)
  {
    hide Consistent;
    var u := Cleaned(t, w, preserve);
    assert Consistent(u) by { PlanIsSafe(t, w, preserve, |Plan(w, preserve)|); }
    LotsSafeExactly(u, w);
    ZeroCounts(t, w);
  }

  /** The two counts of the replay admission. */
  function SelectedProfiles(t: Tables, w: Selector): nat
  {
    |set p | p in t.profiles && Selects(w, p.portfolio)|
  }

  function SelectedAuthority(t: Tables, w: Selector): nat
  {
    |set a | a in t.authority && Selects(w, a.portfolio)|
  }

  lemma ZeroCounts(t: Tables, w: Selector)
    ensures SelectedProfiles(t, w) == 0 <==> NoneSelected(ProfilePortfolios(t), w)
    ensures SelectedAuthority(t, w) == 0 <==> NoneSelected(AuthorityPortfolios(t), w)
  {
    var ps := set p | p in t.profiles && Selects(w, p.portfolio);
    var qs := set a | a in t.authority && Selects(w, a.portfolio);
    if ps != {} { var p :| p in ps; assert p.portfolio in ProfilePortfolios(t); }
    if qs != {} { var a :| a in qs; assert a.portfolio in AuthorityPortfolios(t); }
    forall f | f in ProfilePortfolios(t) && Selects(w, f) ensures ps != {} {
      var p :| p in t.profiles && p.portfolio == f;
      assert p in ps;
    }
    forall f | f in AuthorityPortfolios(t) && Selects(w, f) ensures qs != {} {
      var a :| a in t.authority && a.portfolio == f;
      assert a in qs;
    }
  }

  // ---------------------------------------------------------------- running it

  /** A database session: each statement changes the tables in place, or raises and changes nothing. */
  class Session {
    var tables: Tables

    constructor (t: Tables)
      ensures tables == t
    {
      tables := t;
    }

    method Execute(s: Statement) returns (r: Result<(), PlanError>)
      modifies this
      ensures r == if Consistent(Apply(old(tables), s)) then Ok(()) else Err(ForeignKeyViolation)
      ensures tables == if r.Ok? then Apply(old(tables), s) else old(tables)
    {
      var next := Apply(tables, s);
      if !Consistent(next) { return Err(ForeignKeyViolation); }
      tables := next;
      r := Ok(());
    }

    /** Builds the plan and runs it: the only failure is an unsupported match mode. */
    method Cleanup(selector: string, mode: string, preserve: bool) returns (r: Result<(), PlanError>)
      requires Consistent(tables)
      modifies this
      ensures r.Ok? <==> mode == "exact" || mode == "prefix"
      ensures r.Err? ==> r.error == UnsupportedMatch && tables == old(tables)
      ensures r.Ok? ==> tables == Cleaned(old(tables), SelectorOf(selector, mode).value, preserve)
      ensures Consistent(tables)
    {
      var built := BuildPlan(selector, mode, preserve);
      if built.Err? { return Err(built.error); }
      var plan := built.value;
      ghost var w, start := SelectorOf(selector, mode).value, tables;
      var i := 0;
      while i < |plan|
        invariant 0 <= i <= |plan| && tables == After(start, plan, i) && Consistent(tables)
      {
        PlanIsSafe(start, w, preserve, i + 1);
        r := Execute(plan[i]);
        i := i + 1;
      }
      PlanIsSafe(start, w, preserve, i);
      r := Ok(());
    }
  }

  datatype ResetError = Refused | Failed

  /** Reset of one portfolio's lots: the admission of a bounded replay, the cleanup, then the lots. */
  method ResetLots(db: Session, portfolio: string, boundedReplay: bool) returns (r: Result<(), ResetError>)
    requires Consistent(db.tables)
    modifies db
    ensures r == if boundedReplay && (SelectedProfiles(old(db.tables), Equals(portfolio)) != 0
                                      || SelectedAuthority(old(db.tables), Equals(portfolio)) != 0)
                 then Err(Refused) else Ok(())
    ensures Consistent(db.tables)
    ensures var w := Equals(portfolio);
            db.tables == if r.Err? then old(db.tables)
                         else Apply(Cleaned(old(db.tables), w, boundedReplay), DeleteLots(w))
  {
    ghost var start := db.tables;
    if boundedReplay
       && (SelectedProfiles(db.tables, Equals(portfolio)) != 0 || SelectedAuthority(db.tables, Equals(portfolio)) != 0)
    {
      return Err(Refused);
    }
    LotDeleteAfterPlan(start, Equals(portfolio), boundedReplay);
    var cleaned := db.Cleanup(portfolio, "exact", boundedReplay);
    if cleaned.Err? { return Err(Failed); }
    var deleted := db.Execute(DeleteLots(Equals(portfolio)));
    r := if deleted.Ok? then Ok(()) else Err(Failed);
  }
}
