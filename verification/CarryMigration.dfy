/** The migration that separates amortized book carry from lot cost, its guard and its inverse.
    A Numeric(18, 10) amount is the number of its 10^-10 units. */
module CarryMigration {
  import opened Wrappers
  import opened Decimal
  import Text
  import M = ManifestPayload

  // ---------------------------------------------------------------- rows

  /** A lot with its carry columns; the last two exist only after the upgrade. */
  datatype Lot = Lot(source: string, portfolio: string, security: string, acquired: int,
                     originalQuantity: int, openQuantity: int, costLocal: int, costBase: int,
                     profile: Option<string>, version: Option<int>, contentHash: Option<string>,
                     recognizedThrough: Option<int>, scheduledLocal: Option<int>, fxRate: Option<int>,
                     carryingLocal: Option<int>, carryingBase: Option<int>)

  datatype Trade = Trade(typ: string, portfolio: string, security: string, date: int,
                         quantity: Option<int>, netCostLocal: Option<int>, netCostBase: Option<int>)

  const LIMIT: int := 1_000_000_000_000_000_000

  predicate InRange(units: int)
  {
    -LIMIT < units < LIMIT
  }

  predicate OptionInRange(units: Option<int>)
  {
    units.Some? ==> InRange(units.value)
  }

  /** The constraints that do not change: ranges, signs and quantities. */
  predicate LotChecks(l: Lot)
  {
    && 0 <= l.openQuantity <= l.originalQuantity && InRange(l.originalQuantity)
    && 0 <= l.costLocal && InRange(l.costLocal) && 0 <= l.costBase && InRange(l.costBase)
    && OptionInRange(l.carryingLocal) && OptionInRange(l.carryingBase)
  }

  /** All carry columns null or none of them. */
  predicate CarryShape(l: Lot, independent: bool)
  {
    && l.profile.Some? == l.version.Some? == l.contentHash.Some? == l.recognizedThrough.Some?
    && l.profile.Some? == l.scheduledLocal.Some? == l.fxRate.Some?
    && (independent ==> l.profile.Some? == l.carryingLocal.Some? == l.carryingBase.Some?)
  }

  predicate CarryValues(l: Lot, independent: bool)
    requires CarryShape(l, independent)
  {
    l.profile.Some? ==>
      && l.openQuantity > 0 && l.version.value >= 1
      && Text.Trimmed(l.profile.value) && l.profile.value != ""
      && M.HexDigest(l.contentHash.value) && l.recognizedThrough.value >= l.acquired
      && l.scheduledLocal.value >= 0 && l.fxRate.value > 0
      && (independent ==> l.carryingLocal.value >= 0 && l.carryingBase.value >= 0)
  }

  predicate Checks(l: Lot, independent: bool)
  {
    LotChecks(l) && CarryShape(l, independent) && CarryValues(l, independent)
  }

  predicate TradeInRange(s: Trade)
  {
    OptionInRange(s.quantity) && OptionInRange(s.netCostLocal) && OptionInRange(s.netCostBase)
  }

  // ---------------------------------------------------------------- the guard

  /** A zero-quantity basis mutation of the lot's holding on or after its acquisition. */
  predicate Mutates(m: Trade, l: Lot, source: Trade)
  {
    && m.portfolio == l.portfolio && m.security == l.security
    && m.typ in {"SPIN_OFF", "DEMERGER_OUT"} && m.quantity == Some(0) && m.date >= source.date
  }

  predicate Evidenced(l: Lot, trades: map<string, Trade>)
  {
    && l.source in trades
    && var s := trades[l.source];
    && s.typ == "BUY" && s.quantity.Some? && s.quantity.value > 0
    && s.netCostLocal.Some? && s.netCostBase.Some? && s.netCostLocal.value >= 0 && s.netCostBase.value >= 0
    && l.openQuantity <= s.quantity.value
    && forall m | m in trades :: !Mutates(trades[m], l, s)
  }

  predicate Guard(lots: map<nat, Lot>, trades: map<string, Trade>)
  {
    forall i | i in lots && lots[i].profile.Some? :: Evidenced(lots[i], trades)
  }

  /** The guard's own condition on a row joined with its source: a null or a missing source counts against it. */
  ghost predicate Unproven(l: Lot, trades: map<string, Trade>)
  {
    || l.source !in trades
    || var s := trades[l.source];
       || s.typ != "BUY" || s.quantity == None || s.quantity.value <= 0
       || s.netCostLocal == None || s.netCostBase == None || s.netCostLocal.value < 0 || s.netCostBase.value < 0
       || l.openQuantity > s.quantity.value
       || exists m :: && m in trades && trades[m].portfolio == l.portfolio && trades[m].security == l.security
                      && (trades[m].typ == "SPIN_OFF" || trades[m].typ == "DEMERGER_OUT")
                      && trades[m].quantity == Some(0) && trades[m].date >= s.date
  }

  /** The upgrade is refused exactly when some carried lot is unproven. */
  lemma GuardExactly(lots: map<nat, Lot>, trades: map<string, Trade>)
    ensures Guard(lots, trades) <==> !exists i :: i in lots && lots[i].profile != None && Unproven(lots[i], trades)
  {
    forall i | i in lots ensures Evidenced(lots[i], trades) <==> !Unproven(lots[i], trades) {
      UnprovenExactly(lots[i], trades);
    }
  }

  lemma UnprovenExactly(l: Lot, trades: map<string, Trade>)
    ensures Evidenced(l, trades) <==> !Unproven(l, trades)
  {
    if l.source in trades && !Evidenced(l, trades) {
      var s := trades[l.source];
      if m :| m in trades && Mutates(trades[m], l, s) { assert trades[m].portfolio == l.portfolio; }
    }
  }

  // ---------------------------------------------------------------- the constraints as declared

  /** The shape constraint: every carry column is null, or every one is present. */
  ghost predicate DeclaredShape(l: Lot, independent: bool)
  {
    || (&& l.profile == None && l.version == None && l.contentHash == None && l.recognizedThrough == None
        && l.scheduledLocal == None && l.fxRate == None
        && (independent ==> l.carryingLocal == None && l.carryingBase == None))
    || (&& l.profile != None && l.version != None && l.contentHash != None && l.recognizedThrough != None
        && l.scheduledLocal != None && l.fxRate != None
        && (independent ==> l.carryingLocal != None && l.carryingBase != None))
  }

  /** The value constraint. */
  ghost predicate DeclaredValues(l: Lot, independent: bool)
    requires DeclaredShape(l, independent)
  {
    || l.profile == None
    || (&& 0 < l.openQuantity && 1 <= l.version.value
        && |l.profile.value| > 0 && l.profile.value[0] != ' ' && l.profile.value[|l.profile.value| - 1] != ' '
        && |l.contentHash.value| == 64 && (forall c | c in l.contentHash.value :: c in "0123456789abcdef")
        && l.acquired <= l.recognizedThrough.value && 0 <= l.scheduledLocal.value && 0 < l.fxRate.value
        && (independent ==> 0 <= l.carryingLocal.value && 0 <= l.carryingBase.value))
  }

  lemma HexCharacters(s: string)
    ensures M.HexDigest(s) <==> |s| == 64 && forall c | c in s :: c in "0123456789abcdef"
  {
    forall c: char ensures c in "0123456789abcdef" <==> '0' <= c <= '9' || 'a' <= c <= 'f' { HexCharacter(c); }
    if |s| == 64 && forall c | c in s :: c in "0123456789abcdef" {
      forall i | 0 <= i < 64 ensures '0' <= s[i] <= '9' || 'a' <= s[i] <= 'f' { assert s[i] in s; }
    }
  }

  lemma HexCharacter(c: char)
    ensures c in "0123456789abcdef" <==> '0' <= c <= '9' || 'a' <= c <= 'f'
  {
    var d := "0123456789abcdef";
    if '0' <= c <= '9' { assert d[c as int - '0' as int] == c; }
    if 'a' <= c <= 'f' { assert d[c as int - 'a' as int + 10] == c; }
  }

  /** A numeric of eighteen digits, eight before the point. */
  ghost predicate EighteenDigits(units: Option<int>)
  {
    units == None || (units.value < Pow10(18) && -units.value < Pow10(18))
  }

  /** The older checks, and the column types. */
  ghost predicate DeclaredAmounts(l: Lot)
  {
    && 0 <= l.openQuantity && l.openQuantity <= l.originalQuantity && 0 <= l.costLocal && 0 <= l.costBase
    && forall units | units in {Some(l.originalQuantity), Some(l.costLocal), Some(l.costBase), l.carryingLocal,
                                l.carryingBase} :: EighteenDigits(units)
  }

  lemma AmountsExactly(l: Lot)
    ensures LotChecks(l) <==> DeclaredAmounts(l)
  {
    assert Pow10(6) == 1_000_000 && Pow10(12) == 1_000_000 * Pow10(6) && Pow10(18) == 1_000_000 * Pow10(12);
    assert DeclaredAmounts(l) ==> EighteenDigits(Some(l.originalQuantity)) && EighteenDigits(Some(l.costLocal))
                                  && EighteenDigits(Some(l.costBase)) && EighteenDigits(l.carryingLocal)
                                  && EighteenDigits(l.carryingBase);
  }

  lemma ConstraintsExactly(l: Lot, independent: bool)
    ensures CarryShape(l, independent) <==> DeclaredShape(l, independent)
    ensures CarryShape(l, independent) ==> (CarryValues(l, independent) <==> DeclaredValues(l, independent))
  {
    hide M.HexDigest;
    if l.contentHash.Some? { HexCharacters(l.contentHash.value); }
  }

  // ---------------------------------------------------------------- rounding

  /** Division rounded to the nearest integer, halves away from zero. */
  function RoundDiv(a: int, b: int): int
    requires b > 0
  {
    if a >= 0 then (2 * a + b) / (2 * b) else -((-2 * a + b) / (2 * b))
  }

  /** The CAST of net * open / quantity: the quotient is first rounded to `extra` digits below the
      column's scale, then to the scale itself. */
  function Rebased(net: int, open: int, quantity: int, extra: nat): int
    requires quantity > 0
  {
    RoundDiv(RoundDiv(net * open * Pow10(extra), quantity), Pow10(extra))
  }

  lemma RoundDivNearest(a: int, b: int)
    requires b > 0 && a >= 0
    ensures RoundDiv(a, b) >= 0
    ensures -b <= 2 * (RoundDiv(a, b) * b - a) <= b
  {
  }

  lemma TimesMonotone(x: int, y: int, b: int)
    requires x <= y && b > 0
    ensures x * b <= y * b
  {
  }

  /** The nearest integer, and of two the one further from zero. */
  ghost predicate Nearest(a: int, b: int, r: int)
  {
    if a >= 0 then -b < 2 * (r * b - a) <= b else -b <= 2 * (r * b - a) < b
  }

  lemma HalvesUp(a: int, b: int)
    requires b > 0 && a >= 0
    ensures Nearest(a, b, (2 * a + b) / (2 * b))
  {
    var n, d := 2 * a + b, 2 * b;
    assert n == d * (n / d) + n % d && 0 <= n % d < d;
    assert d * (n / d) == 2 * ((n / d) * b);
  }

  lemma RoundDivIsNearest(a: int, b: int)
    requires b > 0
    ensures Nearest(a, b, RoundDiv(a, b))
  {
    if a >= 0 {
      HalvesUp(a, b);
    } else {
      HalvesUp(-a, b);
      var r := (-2 * a + b) / (2 * b);
      assert (-r) * b == -(r * b);
    }
  }

  lemma NearestUnique(a: int, b: int, q: int, r: int)
    requires b > 0 && Nearest(a, b, q) && Nearest(a, b, r)
    ensures q == r
  {
    if q < r { TimesMonotone(q + 1, r, b); } else if r < q { TimesMonotone(r + 1, q, b); }
  }

  lemma RoundDivExactly(a: int, b: int, r: int)
    requires b > 0
    ensures r == RoundDiv(a, b) <==> Nearest(a, b, r)
  {
    hide Nearest, RoundDiv;
    RoundDivIsNearest(a, b);
    if Nearest(a, b, r) { NearestUnique(a, b, r, RoundDiv(a, b)); }
  }

  lemma NearestAtMost(r: int, a: int, b: int, k: int)
    requires b > 0 && 2 * (r * b - a) <= b && a <= k * b
    ensures r <= k
  {
    if r > k { TimesMonotone(k + 1, r, b); }
  }

  lemma NearestAtLeast(r: int, a: int, b: int, k: int)
    requires b > 0 && -b <= 2 * (r * b - a) && k * b <= a
    ensures k <= r
  {
    if r < k { TimesMonotone(r, k - 1, b); }
  }

  /** Rounding never goes past an integer bound. */
  lemma RoundDivAtMost(a: int, b: int, k: int)
    requires b > 0 && 0 <= a <= k * b
    ensures RoundDiv(a, b) <= k
  {
    hide RoundDiv;
    RoundDivNearest(a, b);
    NearestAtMost(RoundDiv(a, b), a, b, k);
  }

  lemma RoundDivExact(k: int, b: int)
    requires b > 0 && k >= 0
    ensures RoundDiv(k * b, b) == k
  {
    hide RoundDiv;
    TimesMonotone(0, k, b);
    RoundDivNearest(k * b, b);
    NearestAtMost(RoundDiv(k * b, b), k * b, b, k);
    NearestAtLeast(RoundDiv(k * b, b), k * b, b, k);
  }

  /** Each rebased cost lies between zero and the source's net cost, after both roundings. */
  lemma RebasedBounds(net: int, open: int, quantity: int, extra: nat)
    requires net >= 0 && 0 <= open <= quantity && quantity > 0
    ensures 0 <= Rebased(net, open, quantity, extra) <= net
  {
    var p := Pow10(extra);
    var exact := net * open * p;
    assert 0 <= net * open <= net * quantity;
    assert 0 <= exact <= (net * p) * quantity by {
      assert net * open * p <= net * quantity * p;
      assert net * quantity * p == (net * p) * quantity;
    }
    RoundDivNearest(exact, quantity);
    RoundDivAtMost(exact, quantity, net * p);
    RoundDivNearest(RoundDiv(exact, quantity), p);
    RoundDivAtMost(RoundDiv(exact, quantity), p, net);
  }

  /** A lot that is still fully open is rebased to the source's net cost exactly. */
  lemma FullyOpenIsExact(net: int, quantity: int, extra: nat)
    requires net >= 0 && quantity > 0
    ensures Rebased(net, quantity, quantity, extra) == net
  {
    hide RoundDiv, Pow10;
    var p := Pow10(extra);
    assert net * quantity * p == (net * p) * quantity;
    TimesMonotone(0, net, p);
    RoundDivExact(net * p, quantity);
    RoundDivExact(net, p);
  }

  /** The two roundings together stay within half a unit, plus half a unit of the finer scale, of
      the exact proportional cost. */
  lemma RebasedNearest(net: int, open: int, quantity: int, extra: nat)
    requires net >= 0 && open >= 0 && quantity > 0
    ensures var p := Pow10(extra);
            var error := Rebased(net, open, quantity, extra) * quantity - net * open;
            -(quantity * (p + 1)) <= 2 * p * error <= quantity * (p + 1)
  {
    hide RoundDiv, Pow10;
    var p := Pow10(extra);
    var exact := net * open * p;
    assert net * open >= 0 && exact >= 0;
    var fine := RoundDiv(exact, quantity);
    RoundDivNearest(exact, quantity);
    RoundDivNearest(fine, p);
    TwoRoundings(net * open, quantity, p, fine, RoundDiv(fine, p));
  }

  lemma TwoRoundings(value: int, q: int, p: int, fine: int, r: int)
    requires q > 0 && p > 0
    requires -q <= 2 * (fine * q - value * p) <= q && -p <= 2 * (r * p - fine) <= p
    ensures -(q * (p + 1)) <= 2 * p * (r * q - value) <= q * (p + 1)
  {
    var d := 2 * (r * p - fine);
    TimesMonotone(d, p, q);
    TimesMonotone(-p, d, q);
    assert 2 * p * (r * q - value) == d * q + 2 * (fine * q - value * p) by {
      assert d * q == 2 * (r * p * q) - 2 * (fine * q);
      assert 2 * p * (r * q - value) == 2 * (r * p * q) - 2 * (value * p);
    }
    assert p * q + q == q * (p + 1);
  }

  // ---------------------------------------------------------------- the two updates

  /** The open share of a net cost; `digits` stands for the scale the engine divides at. */
  function OpenShare(net: int, open: int, quantity: int, digits: (int, int) -> nat): int
    requires quantity > 0
  {
    Rebased(net, open, quantity, digits(net * open, quantity))
  }

  /** The UPDATE of one row. */
  function Upgraded(l: Lot, trades: map<string, Trade>, digits: (int, int) -> nat): Lot
    requires l.profile.Some? ==> Evidenced(l, trades)
  {
    if l.profile.None? then l
    else
      var s := trades[l.source];
      var q := s.quantity.value;
      l.(carryingLocal := Some(l.costLocal), carryingBase := Some(l.costBase),
         costLocal := OpenShare(s.netCostLocal.value, l.openQuantity, q, digits),
         costBase := OpenShare(s.netCostBase.value, l.openQuantity, q, digits))
  }

  function UpgradedAll(lots: map<nat, Lot>, trades: map<string, Trade>, digits: (int, int) -> nat): map<nat, Lot>
    requires Guard(lots, trades)
  {
    map i | i in lots :: Upgraded(lots[i], trades, digits)
  }

  /** The UPDATE back, and the two columns dropped. */
  function Downgraded(l: Lot): Lot
    requires l.profile.Some? ==> l.carryingLocal.Some? && l.carryingBase.Some?
  {
    (if l.profile.None? then l else l.(costLocal := l.carryingLocal.value, costBase := l.carryingBase.value))
    .(carryingLocal := None, carryingBase := None)
  }

  function DowngradedAll(lots: map<nat, Lot>): map<nat, Lot>
    requires forall i | i in lots :: CarryShape(lots[i], true)
  {
    map i | i in lots :: assert CarryShape(lots[i], true); Downgraded(lots[i])
  }

  /** Before the upgrade the two columns do not exist. */
  predicate Combined(l: Lot)
  {
    Checks(l, false) && l.carryingLocal.None? && l.carryingBase.None?
  }

  /** A guarded row meets every constraint after the update, and its new costs are at most the net costs. */
  lemma UpgradedRow(l: Lot, trades: map<string, Trade>, digits: (int, int) -> nat)
    requires Combined(l) && (l.profile.Some? ==> Evidenced(l, trades) && TradeInRange(trades[l.source]))
    ensures Checks(Upgraded(l, trades, digits), true)
    ensures l.profile.None? ==> Upgraded(l, trades, digits) == l
    ensures l.profile.Some? ==>
              var u, s := Upgraded(l, trades, digits), trades[l.source];
              && 0 <= u.costLocal <= s.netCostLocal.value && 0 <= u.costBase <= s.netCostBase.value
              && u.carryingLocal == Some(l.costLocal) && u.carryingBase == Some(l.costBase)
  {
    hide Rebased;
    if l.profile.Some? {
      var s := trades[l.source];
      var q := s.quantity.value;
      RebasedBounds(s.netCostLocal.value, l.openQuantity, q, digits(s.netCostLocal.value * l.openQuantity, q));
      RebasedBounds(s.netCostBase.value, l.openQuantity, q, digits(s.netCostBase.value * l.openQuantity, q));
    }
  }

  /** Upgrade then downgrade restores every row. */
  lemma UpgradeDowngrade(lots: map<nat, Lot>, trades: map<string, Trade>, digits: (int, int) -> nat)
    requires Guard(lots, trades) && (forall i | i in lots :: Combined(lots[i]))
    ensures forall i | i in lots :: CarryShape(UpgradedAll(lots, trades, digits)[i], true)
    ensures DowngradedAll(UpgradedAll(lots, trades, digits)) == lots
  {
  }

  /** The other way round is the identity exactly when every carried lot's cost is already its open
      share of the net cost: the downgrade forgets the cost the lot had. */
  lemma DowngradeUpgradeExactly(l: Lot, trades: map<string, Trade>, digits: (int, int) -> nat)
    requires Checks(l, true) && (l.profile.Some? ==> Evidenced(Downgraded(l), trades))
    ensures Upgraded(Downgraded(l), trades, digits) == l <==>
              (l.profile.Some? ==>
                 var s := trades[l.source];
                 && l.costLocal == OpenShare(s.netCostLocal.value, l.openQuantity, s.quantity.value, digits)
                 && l.costBase == OpenShare(s.netCostBase.value, l.openQuantity, s.quantity.value, digits))
  {
  }

  /** For a lot that is still fully open, that is exactly when its costs are the net costs. */
  lemma DowngradeUpgradeFullyOpen(l: Lot, trades: map<string, Trade>, digits: (int, int) -> nat)
    requires Checks(l, true) && l.profile.Some? && Evidenced(Downgraded(l), trades)
    requires trades[l.source].quantity == Some(l.openQuantity)
    ensures Upgraded(Downgraded(l), trades, digits) == l <==>
              Some(l.costLocal) == trades[l.source].netCostLocal && Some(l.costBase) == trades[l.source].netCostBase
  {
    hide Rebased, Upgraded, Checks;
    var s, q := trades[l.source], l.openQuantity;
    DowngradeUpgradeExactly(l, trades, digits);
    FullyOpenIsExact(s.netCostLocal.value, q, digits(s.netCostLocal.value * q, q));
    FullyOpenIsExact(s.netCostBase.value, q, digits(s.netCostBase.value * q, q));
  }

  /** One unit bought for two units of cost. */
  function Purchase(): map<string, Trade>
  {
    map["b" := Trade("BUY", "p", "s", 0, Some(1), Some(2), Some(2))]
  }

  /** The lot of that purchase, carried at nothing under a profile, with a cost of its own. */
  function CarriedLot(digest: string, cost: int): Lot
  {
    Lot("b", "p", "s", 0, 1, 1, cost, cost, Some("profile"), Some(1), Some(digest), Some(0), Some(0), Some(1),
        Some(0), Some(0))
  }

  /** A cost of one unit comes back as two. */
  lemma CostForgotten(digest: string, digits: (int, int) -> nat)
    requires M.HexDigest(digest)
    ensures var l := CarriedLot(digest, 1);
            && Checks(l, true) && Evidenced(Downgraded(l), Purchase())
            && Upgraded(Downgraded(l), Purchase(), digits) == CarriedLot(digest, 2) != l
  {
    hide Rebased, M.HexDigest;
    FullyOpenIsExact(2, 1, digits(2, 1));
  }

  /** A lot that survives the detour has costs within one unit of the exact share of the net costs. */
  lemma DowngradeUpgradeNearest(l: Lot, trades: map<string, Trade>, digits: (int, int) -> nat)
    requires Checks(l, true) && l.profile.Some? && Evidenced(Downgraded(l), trades)
    requires Upgraded(Downgraded(l), trades, digits) == l
    ensures var s := trades[l.source];
            var q := s.quantity.value;
            && -q <= l.costLocal * q - s.netCostLocal.value * l.openQuantity <= q
            && -q <= l.costBase * q - s.netCostBase.value * l.openQuantity <= q
  {
    hide Rebased, Pow10;
    var s := trades[l.source];
    var q := s.quantity.value;
    ShareNearest(s.netCostLocal.value, l.openQuantity, q, digits(s.netCostLocal.value * l.openQuantity, q));
    ShareNearest(s.netCostBase.value, l.openQuantity, q, digits(s.netCostBase.value * l.openQuantity, q));
  }

  lemma ShareNearest(net: int, open: int, quantity: int, extra: nat)
    requires net >= 0 && open >= 0 && quantity > 0
    ensures -quantity <= Rebased(net, open, quantity, extra) * quantity - net * open <= quantity
  {
    hide Rebased, Pow10;
    RebasedNearest(net, open, quantity, extra);
    WithinUnit(Rebased(net, open, quantity, extra) * quantity - net * open, quantity, Pow10(extra));
  }

  lemma WithinUnit(error: int, q: int, p: int)
    requires q > 0 && p > 0 && -(q * (p + 1)) <= 2 * p * error <= q * (p + 1)
    ensures -q <= error <= q
  {
    assert q * (p + 1) <= 2 * p * q by { assert q * (p - 1) >= 0; }
    if error > q { TimesMonotone(q + 1, error, 2 * p); }
    if error < -q { TimesMonotone(error, -q - 1, 2 * p); }
  }

  /** The detour settles: taken a second time it changes nothing. */
  lemma DowngradeUpgradeSettles(l: Lot, trades: map<string, Trade>, digits: (int, int) -> nat)
    requires Checks(l, true) && (l.profile.Some? ==> Evidenced(Downgraded(l), trades))
    ensures var once := Upgraded(Downgraded(l), trades, digits);
            && (once.profile.Some? ==> once.carryingLocal.Some? && once.carryingBase.Some?)
            && Downgraded(once) == Downgraded(l) && Upgraded(Downgraded(once), trades, digits) == once
  {
  }

  /** The lot is one that an upgrade writes. */
  ghost predicate Written(l: Lot, trades: map<string, Trade>, digits: (int, int) -> nat)
  {
    exists o :: Combined(o) && (o.profile.Some? ==> Evidenced(o, trades)) && Upgraded(o, trades, digits) == l
  }

  /** A lot comes back from downgrade and upgrade exactly when an upgrade wrote it. */
  lemma DowngradeUpgradeWritten(l: Lot, trades: map<string, Trade>, digits: (int, int) -> nat)
    requires Checks(l, true) && (l.profile.Some? ==> Evidenced(Downgraded(l), trades))
    ensures Upgraded(Downgraded(l), trades, digits) == l <==> Written(l, trades, digits)
  {
    hide Evidenced, OpenShare;
    assert Combined(Downgraded(l));
    if Written(l, trades, digits) {
      var o :| Combined(o) && (o.profile.Some? ==> Evidenced(o, trades)) && Upgraded(o, trades, digits) == l;
      assert Downgraded(l) == o;
    }
  }

  // ---------------------------------------------------------------- the migration

  datatype MigrationError = IncompleteEvidence | ConstraintViolation

  /** The lot table, rewritten in place; a raising migration leaves it as it was. */
  class LotTable {
    var lots: map<nat, Lot>
    var independent: bool
    const trades: map<string, Trade>

    ghost predicate Valid()
      reads this
    {
      && (forall m | m in trades :: TradeInRange(trades[m]))
      && forall i | i in lots :: if independent then Checks(lots[i], true) else Combined(lots[i])
    }

    constructor (lots: map<nat, Lot>, trades: map<string, Trade>)
      requires forall m | m in trades :: TradeInRange(trades[m])
      requires forall i | i in lots :: Combined(lots[i])
      ensures Valid() && !independent && this.lots == lots && this.trades == trades
    {
      this.lots, this.independent, this.trades := lots, false, trades;
    }

    /** Fails exactly when the guard does: creating the constraints afterwards cannot. */
    method Upgrade(digits: (int, int) -> nat) returns (r: Result<(), MigrationError>)
      requires Valid() && !independent
      modifies this
      ensures Valid()
      ensures r == if Guard(old(lots), trades) then Ok(()) else Err(IncompleteEvidence)
      ensures r.Ok? ==> independent && lots == UpgradedAll(old(lots), trades, digits)
      ensures r.Err? ==> !independent && lots == old(lots)
    {
      if !Guard(lots, trades) { return Err(IncompleteEvidence); }
      var updated := UpgradedAll(lots, trades, digits);
      forall i | i in lots ensures Checks(updated[i], true) { UpgradedRow(lots[i], trades, digits); }
      if exists i | i in updated :: !Checks(updated[i], true) { return Err(ConstraintViolation); }
      lots, independent := updated, true;
      r := Ok(());
    }

    method Downgrade() returns (r: Result<(), MigrationError>)
      requires Valid() && independent
      modifies this
      ensures Valid() && r == Ok(()) && !independent
      ensures old(forall i | i in lots :: CarryShape(lots[i], true)) && lots == DowngradedAll(old(lots))
    {
      var restored := DowngradedAll(lots);
      if exists i | i in restored :: !Checks(restored[i], false) { return Err(ConstraintViolation); }
      lots, independent := restored, false;
      r := Ok(());
    }
  }

  /** Both migrations in a row leave the table as it was. */
  method RoundTrip(t: LotTable, digits: (int, int) -> nat) returns (r: Result<(), MigrationError>)
    requires t.Valid() && !t.independent
    modifies t
    ensures t.Valid() && !t.independent && t.lots == old(t.lots)
    ensures r.Ok? <==> Guard(old(t.lots), t.trades)
  {
    ghost var before := t.lots;
    r := t.Upgrade(digits);
    if r.Ok? {
      UpgradeDowngrade(before, t.trades, digits);
      r := t.Downgrade();
    }
  }
}
