/** A manifest that can be READY: a spin-off with one source and one target child. */
module ReadyExample {
  import opened Wrappers
  import opened Json
  import opened Schedule
  import opened Readiness
  import opened ReadinessSpec
  import opened ReadyAttainable
  import PA = PlanAgreement
  import EG = EventGraph
  import Cohort
  import Decimal
  import C = ChildPayload
  import M = ManifestPayload
  import R = ManifestRoundTrip
  import Text
  import Timestamp
  import Calendar

  /** The ids of the two children, and the hash and the observation time of the source evidence. */
  datatype Sample = Sample(source: string, target: string, digest: string, observedAt: string)

  predicate Sound(x: Sample)
  {
    && x.source != x.target && Text.Normalized(x.source) && Text.Normalized(x.target)
    && M.HexDigest(x.digest) && Text.Normalized(x.digest) && Timestamp.TimestampText(x.observedAt)
  }

  function Source(x: Sample): C.Child
  {
    C.Child("SOURCE_POSITION_REDUCE", None, [], Some("A"), Some("A"), None, x.source, "SPIN_OFF")
  }

  function Target(x: Sample): C.Child
  {
    C.Child("TARGET_POSITION_ADD", None, [x.source], Some("B"), Some("A"), Some("B"), x.target, "SPIN_IN")
  }

  function Children(x: Sample): seq<C.Child>
  {
    [Source(x), Target(x)]
  }

  function Manifest(x: Sample): M.Manifest
  {
    M.Manifest(true, "ev", "SPIN_OFF", "grp", "ref", "pf", 1,
               M.Evidence(x.observedAt, x.digest, "rec", "1", "sys"), None, Children(x))
  }

  lemma SourceNames()
    ensures Text.Normalized("SOURCE_POSITION_REDUCE") && Text.Normalized("SPIN_OFF") && Text.Normalized("A")
  {
  }

  lemma TargetNames()
    ensures Text.Normalized("TARGET_POSITION_ADD") && Text.Normalized("SPIN_IN") && Text.Normalized("B")
  {
  }

  lemma ChildrenValid(x: Sample)
    requires Sound(x)
    ensures C.Valid(Source(x)) && C.Valid(Target(x))
  {
    SourceNames();
    TargetNames();
    hide Timestamp.TimestampText, Text.Normalized, M.HexDigest;
  }

  lemma CohortAccepts(x: Sample)
    requires Sound(x)
    ensures Cohort.Check("SPIN_OFF", Children(x)).Ok?
  {
    var p := Cohort.PolicyOf("SPIN_OFF").value;
    assert Cohort.OfType(Children(x), "SPIN_OFF") == {0};
    assert Cohort.OfType(Children(x), "SPIN_IN") == {1};
    assert Cohort.ShapeOk(p, Children(x));
    assert Cohort.SourceOk(p, Source(x)) && Cohort.TargetOk(Source(x), Target(x));
    assert !Cohort.Overlay("SPIN_OFF") && !Cohort.Overlay("SPIN_IN");
  }

  lemma PayloadAccepted(x: Sample)
    requires Sound(x)
    ensures M.AcceptForward(Obj(R.Members(Manifest(x))), true) == Ok(Manifest(x))
  {
    hide Cohort.Check, C.Valid, R.Members, M.AcceptForward, Timestamp.TimestampText;
    Timestamp.TimestampNormalized(x.observedAt);
    ChildrenValid(x);
    CohortAccepts(x);
    R.AcceptComplete(Manifest(x));
  }

  /** One child that depends on another. */
  lemma PairSound(c: C.Child, d: C.Child)
    requires c.id != d.id && c.deps == [] && d.deps == [c.id]
    ensures EG.Sound(PA.DirectedNodes([c, d], ["", ""]))
  {
    hide PA.ApplicationRank, Decimal.Digits;
    var ns := PA.DirectedNodes([c, d], ["", ""]);
    assert ns[0] == PA.DirectedNode(c, "") && ns[1] == PA.DirectedNode(d, "");
    assert ns[0] in ns;
  }

  lemma PairOrdered(c: C.Child, d: C.Child)
    requires c.id != d.id && c.deps == [] && d.deps == [c.id]
    ensures Topological(Cohort.Dependencies([c, d]), [c.id, d.id])
  {
    var cs := [c, d];
    assert cs[0].id in Cohort.Dependencies(cs).ids && cs[1].id in Cohort.Dependencies(cs).ids;
  }

  lemma Planned(x: Sample)
    requires Sound(x)
    ensures EG.Sound(PA.DirectedNodes(Children(x), ["", ""]))
    ensures EG.Expected(PA.DirectedNodes(Children(x), ["", ""])).Ok?
  {
    hide EG.Sound, Topological, CanonicalOrder, PA.DirectedNodes;
    var ns := PA.DirectedNodes(Children(x), ["", ""]);
    PairSound(Source(x), Target(x));
    PairOrdered(Source(x), Target(x));
    PA.DirectedGraph(Children(x), ["", ""]);
    EG.GraphShape(ns);
    EG.EarlierIsTotalOrder(EG.Index(ns));
    CanonicalOrderIsLeast(EG.GraphOf(ns), EG.Earlier(EG.Index(ns)), [x.source, x.target]);
  }

  function Zeros(n: nat): (s: string)
    ensures |s| == n && forall i | 0 <= i < n :: s[i] == '0'
  {
    if n == 0 then "" else "0" + Zeros(n - 1)
  }

  /** The text of the start of a year. */
  function NewYear(y: nat): string
  {
    Decimal.Digits(y, 4) + "-01-01T00:00:00+00:00"
  }

  /** It is what the database renders then. */
  lemma NewYearRendered(y: nat)
    requires 1 <= y <= 9999
    ensures Timestamp.Rendered(Calendar.YearStart(y)) == NewYear(y) && Timestamp.TimestampText(NewYear(y))
  {
    hide Timestamp.Rendered, Timestamp.TimestampText, Calendar.CivilOf, Calendar.InstantOf, Decimal.Digits;
    var c := Calendar.Civil(y, 1, 1, 0, 0, 0, 0);
    Calendar.CivilUnique(c);
    Timestamp.RenderedIs(Calendar.InstantOf(c));
    NewYearDigits();
    Timestamp.YearsInColumn(c);
    Timestamp.RenderedText(Calendar.InstantOf(c));
  }

  lemma NewYearDigits()
    ensures Decimal.Digits(1, 2) == "01" && Decimal.Digits(0, 2) == "00"
  {
  }

  lemma ZerosDigest(d: string)
    requires |d| == 64 && forall i | 0 <= i < 64 :: d[i] == '0'
    ensures M.HexDigest(d) && Text.Normalized(d)
  {
  }

  lemma SoundSample(d: string, y: nat)
    requires 1 <= y <= 9999
    requires |d| == 64 && forall i | 0 <= i < 64 :: d[i] == '0'
    ensures Sound(Sample("S", "T", d, NewYear(y)))
  {
    hide Timestamp.TimestampText, Timestamp.Rendered, Calendar.YearStart, M.HexDigest, NewYear;
    NewYearRendered(y);
    ZerosDigest(d);
  }

  lemma IdentityCollisionFree(h: string -> string)
    requires forall s :: h(s) == s
    ensures CollisionFree(h)
  {
  }

  lemma SampleFits(x: Sample)
    requires Sound(x)
    ensures ColumnsFit(Manifest(x))
  {
    hide Timestamp.TimestampText;
    var cs := Children(x);
    assert cs[..1] == [Source(x)];
    assert DependencyCount(cs[..1]) == DependencyCount(cs[..1][..0]) + 0;
    assert DependencyCount(cs) == DependencyCount(cs[..1]) + 1;
  }

  lemma SampleReady(x: Sample, h: string -> string, current: bool)
    requires Sound(x) && CollisionFree(h)
    ensures exists plan :: CanBeReady(h, Obj(R.Members(Manifest(x))), plan, current)
  {
    hide EG.Sound, EG.Expected, CollisionFree, CanBeReady, M.AcceptForward, R.Members, Sound, PA.DirectedNodes;
    hide ColumnsFit;
    SampleFits(x);
    PayloadAccepted(x);
    Planned(x);
    Attained(h, Manifest(x), Obj(R.Members(Manifest(x))), ["", ""],
             EG.Expected(PA.DirectedNodes(Children(x), ["", ""])).value, current);
  }

  /** A collision-free hash and a READY payload exist, with and without a current version in the event, so
      the results about READY are not empty. */
  lemma ReadyIsPossible(current: bool)
    ensures exists h, p, plan :: CollisionFree(h) && CanBeReady(h, p, plan, current)
  {
    hide CanBeReady, CollisionFree, Sound, R.Members, Zeros, NewYear;
    var h := (s: string) => s;
    var d, y: nat := Zeros(64), 2026;
    var x := Sample("S", "T", d, NewYear(y));
    IdentityCollisionFree(h);
    SoundSample(d, y);
    SampleReady(x, h, current);
  }
}
