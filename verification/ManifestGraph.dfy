/** The stored graph of one manifest version, and the scheduling key of its nodes. */
module ManifestGraph {
  import opened Wrappers
  import opened Ledger
  import opened Schedule
  import C = ChildPayload
  import Json
  import Text

  function NodesOf(t: Tables, k: nat): set<NodeRow>
  {
    set n | n in t.nodes && n.manifest == k
  }

  function EdgesOf(t: Tables, k: nat): set<EdgeRow>
  {
    set e | e in t.edges && e.manifest == k
  }

  function GraphOf(t: Tables, k: nat): Graph
  {
    Graph(set n | n in t.nodes && n.manifest == k :: n.id,
          set e | e in t.edges && e.manifest == k :: (e.predecessor, e.successor))
  }

  // ---------------------------------------------------------------- scheduling key

  function Rank(typ: string): nat
  {
    if typ in {"SPIN_OFF", "DEMERGER_OUT", "RIGHTS_ANNOUNCE", "RIGHTS_ALLOCATE"} then 0
    else if typ in {"SPIN_IN", "DEMERGER_IN", "RIGHTS_SUBSCRIBE", "RIGHTS_OVERSUBSCRIBE", "RIGHTS_SELL",
                    "RIGHTS_EXPIRE", "RIGHTS_ADJUSTMENT"} then 1
    else if typ in {"CASH_CONSIDERATION", "RIGHTS_SHARE_DELIVERY"} then 2
    else if typ == "RIGHTS_REFUND" then 3
    else 4
  }

  /** The five columns of the ORDER BY. */
  datatype Key = Key(rank: nat, hint: nat, target: string, role: string, id: string)

  const NO_HINT: nat := 2147483647

  function KeyOf(n: NodeRow): Key
  {
    Key(Rank(n.typ), if n.hint.None? then NO_HINT else n.hint.value,
        if n.target.None? then "-" else n.target.value, n.role, n.id)
  }

  predicate KeyLeq(a: Key, b: Key)
  {
    if a.rank != b.rank then a.rank < b.rank else RestLeq(a, b)
  }

  /** The four columns after the rank. */
  predicate RestLeq(a: Key, b: Key)
  {
    if a.hint != b.hint then a.hint < b.hint
    else if a.target != b.target then Text.Leq(a.target, b.target)
    else if a.role != b.role then Text.Leq(a.role, b.role)
    else Text.Leq(a.id, b.id)
  }

  /** Within a rank, a node with a hint comes before one without, unless the hint is the largest integer:
      then the columns after the hint decide. */
  lemma HintedFirst(a: NodeRow, b: NodeRow)
    requires Rank(a.typ) == Rank(b.typ) && a.hint.Some? && a.hint.value <= 2147483647 && b.hint.None?
    ensures a.hint.value < 2147483647 ==> KeyLeq(KeyOf(a), KeyOf(b)) && !KeyLeq(KeyOf(b), KeyOf(a))
    ensures a.hint.value == 2147483647 ==>
              (KeyLeq(KeyOf(a), KeyOf(b)) <==> RestLeq(KeyOf(a.(hint := None)), KeyOf(b)))
  {
    hide Rank, Text.Leq;
  }

  lemma KeyTotal(a: Key, b: Key)
    ensures KeyLeq(a, b) || KeyLeq(b, a)
  {
    Text.LeqTotal(a.target, b.target);
    Text.LeqTotal(a.role, b.role);
    Text.LeqTotal(a.id, b.id);
  }

  lemma KeyAntisymmetric(a: Key, b: Key)
    requires KeyLeq(a, b) && KeyLeq(b, a)
    ensures a == b
  {
    if a.rank == b.rank && a.hint == b.hint {
      if a.target != b.target {
        Text.LeqAntisymmetric(a.target, b.target);
      } else if a.role != b.role {
        Text.LeqAntisymmetric(a.role, b.role);
      } else {
        Text.LeqAntisymmetric(a.id, b.id);
      }
    }
  }

  /** One column of a lexicographic order. */
  lemma ColumnTransitive(a: string, b: string, c: string)
    requires Text.Leq(a, b) && Text.Leq(b, c) && (a != b || b != c)
    ensures Text.Leq(a, c) && a != c
  {
    Text.LeqTransitive(a, b, c);
    if a == c { Text.LeqAntisymmetric(a, b); }
  }

  lemma KeyTransitive(a: Key, b: Key, c: Key)
    requires KeyLeq(a, b) && KeyLeq(b, c)
    ensures KeyLeq(a, c)
  {
    Text.LeqReflexive(a.target);
    Text.LeqReflexive(b.target);
    Text.LeqReflexive(a.role);
    Text.LeqReflexive(b.role);
    if a.rank == b.rank == c.rank && a.hint == b.hint == c.hint {
      if a.target != b.target || b.target != c.target {
        ColumnTransitive(a.target, b.target, c.target);
      } else if a.role != b.role || b.role != c.role {
        ColumnTransitive(a.role, b.role, c.role);
      } else {
        Text.LeqTransitive(a.id, b.id, c.id);
      }
    }
  }

  /** The ORDER BY on the transaction ids of one manifest's nodes. */
  function Before(nodes: set<NodeRow>): (string, string) -> bool
  {
    (x: string, y: string) =>
      exists a, b | a in nodes && b in nodes :: a.id == x && b.id == y && KeyLeq(KeyOf(a), KeyOf(b))
  }

  ghost predicate IdsUnique(nodes: set<NodeRow>)
  {
    forall a, b | a in nodes && b in nodes && a.id == b.id :: a == b
  }

  function Ids(nodes: set<NodeRow>): set<string>
  {
    set n | n in nodes :: n.id
  }

  lemma BeforeIs(nodes: set<NodeRow>, a: NodeRow, b: NodeRow)
    requires IdsUnique(nodes) && a in nodes && b in nodes
    ensures Before(nodes)(a.id, b.id) <==> KeyLeq(KeyOf(a), KeyOf(b))
  {
  }

  lemma BeforePair(nodes: set<NodeRow>, a: NodeRow, b: NodeRow)
    requires IdsUnique(nodes) && a in nodes && b in nodes
    ensures Before(nodes)(a.id, b.id) || Before(nodes)(b.id, a.id)
    ensures Before(nodes)(a.id, b.id) && Before(nodes)(b.id, a.id) ==> a.id == b.id
  {
    BeforeIs(nodes, a, b);
    BeforeIs(nodes, b, a);
    var x, y := KeyOf(a), KeyOf(b);
    KeyTotal(x, y);
    if KeyLeq(x, y) && KeyLeq(y, x) { KeyAntisymmetric(x, y); }
  }

  lemma BeforeTransitive(nodes: set<NodeRow>, a: NodeRow, b: NodeRow, c: NodeRow)
    requires IdsUnique(nodes) && a in nodes && b in nodes && c in nodes
    requires Before(nodes)(a.id, b.id) && Before(nodes)(b.id, c.id)
    ensures Before(nodes)(a.id, c.id)
  {
    BeforeIs(nodes, a, b);
    BeforeIs(nodes, b, c);
    BeforeIs(nodes, a, c);
    KeyTransitive(KeyOf(a), KeyOf(b), KeyOf(c));
  }

  lemma BeforeIsTotalOrder(nodes: set<NodeRow>)
    requires IdsUnique(nodes)
    ensures TotalOrderOn(Ids(nodes), Before(nodes))
  {
    forall x, y | x in Ids(nodes) && y in Ids(nodes)
      ensures Before(nodes)(x, y) || Before(nodes)(y, x)
      ensures Before(nodes)(x, y) && Before(nodes)(y, x) ==> x == y
    {
      var a :| a in nodes && a.id == x;
      var b :| b in nodes && b.id == y;
      BeforePair(nodes, a, b);
    }
    forall x, y, z | x in Ids(nodes) && y in Ids(nodes) && z in Ids(nodes)
                     && Before(nodes)(x, y) && Before(nodes)(y, z)
      ensures Before(nodes)(x, z)
    {
      var a :| a in nodes && a.id == x;
      var b :| b in nodes && b.id == y;
      var c :| c in nodes && c.id == z;
      BeforeTransitive(nodes, a, b, c);
    }
  }

  // ---------------------------------------------------------------- what the tables guarantee

  lemma StoredShape(t: Tables, k: nat)
    requires Inv(t)
    ensures IdsUnique(NodesOf(t, k)) && GraphOf(t, k).ids == Ids(NodesOf(t, k)) && Closed(GraphOf(t, k))
  {
  }

  lemma StoredGraph(t: Tables, k: nat)
    requires Inv(t)
    ensures IdsUnique(NodesOf(t, k)) && GraphOf(t, k).ids == Ids(NodesOf(t, k)) && Closed(GraphOf(t, k))
    ensures TotalOrderOn(GraphOf(t, k).ids, Before(NodesOf(t, k)))
  {
    hide TotalOrderOn, Before;
    StoredShape(t, k);
    BeforeIsTotalOrder(NodesOf(t, k));
  }

  // ---------------------------------------------------------------- a node read back as a child

  function Predecessors(t: Tables, k: nat, id: string): set<string>
  {
    set e | e in t.edges && e.manifest == k && e.successor == id :: e.predecessor
  }

  /** The child rebuilt from a node row and the edges into it, dependencies in C order. */
  function NodeChild(t: Tables, n: NodeRow): C.Child
  {
    C.Child(n.role, n.hint, Json.SortedKeys(Predecessors(t, n.manifest, n.id)),
            n.instrument, n.source, n.target, n.id, n.typ)
  }

}
