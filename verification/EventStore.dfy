/** The event-graph tables as a database sees them: statements arrive one at a time, a refused one
    changes nothing, and the tables are always those of some run of accepted statements. */
module EventStore {
  import opened Ledger

  lemma {:induction false} RunExtends(start: Tables, steps: seq<Step>, end: Tables, s: Step)
    requires IsRun(start, steps, end) && Enabled(end, s)
    ensures IsRun(start, steps + [s], Apply(end, s))
    decreases |steps|
  {
    hide Enabled, Apply;
    var longer := steps + [s];
    if steps == [] {
      assert longer[0] == s && longer[1..] == [];
    } else {
      assert longer[0] == steps[0] && longer[1..] == steps[1..] + [s];
      RunExtends(Apply(start, steps[0]), steps[1..], end, s);
    }
  }

  lemma ReachableExtends(t: Tables, s: Step)
    requires Reachable(t) && Enabled(t, s)
    ensures Reachable(Apply(t, s))
  {
    hide Enabled, Apply;
    var transactions, steps :| IsRun(Empty(transactions), steps, t);
    RunExtends(Empty(transactions), steps, t, s);
  }

  /** The tables after a sequence of statements of which the refused ones are skipped. */
  function Outcome(t: Tables, steps: seq<Step>): Tables
  {
    if steps == [] then t
    else
      var before := Outcome(t, steps[..|steps| - 1]);
      var s := steps[|steps| - 1];
      if Enabled(before, s) then Apply(before, s) else before
  }

  class Database {
    var tables: Tables

    ghost predicate Valid()
      reads this
    {
      Reachable(tables)
    }

    constructor (transactions: map<string, string>)
      ensures tables == Empty(transactions) && Valid()
    {
      tables := Empty(transactions);
      new;
      assert IsRun(Empty(transactions), [], tables);
    }

    /** One guarded statement. */
    method Execute(s: Step) returns (accepted: bool)
      requires Valid()
      modifies this
      ensures accepted <==> Enabled(old(tables), s)
      ensures tables == if accepted then Apply(old(tables), s) else old(tables)
      ensures Valid() && Inv(tables)
    {
      hide Inv;
      accepted := Enabled(tables, s);
      if accepted {
        ReachableExtends(tables, s);
        tables := Apply(tables, s);
      }
      ReachableInv(tables);
    }

    /** A whole workload. Whatever is submitted, every invariant of the tables holds after it. */
    method Submit(steps: seq<Step>) returns (accepted: seq<bool>)
      requires Valid()
      modifies this
      ensures |accepted| == |steps| && tables == Outcome(old(tables), steps)
      ensures forall i | 0 <= i < |steps| :: accepted[i] <==> Enabled(Outcome(old(tables), steps[..i]), steps[i])
      ensures Valid() && Inv(tables)
    {
      hide Inv, Enabled, Apply;
      accepted := [];
      ghost var start := tables;
      for i := 0 to |steps|
        invariant |accepted| == i && Valid() && tables == Outcome(start, steps[..i])
        invariant forall j | 0 <= j < i :: accepted[j] <==> Enabled(Outcome(start, steps[..j]), steps[j])
      {
        assert steps[..i + 1][..i] == steps[..i] && steps[..i + 1][i] == steps[i];
        var taken := Execute(steps[i]);
        accepted := accepted + [taken];
      }
      assert steps[..|steps|] == steps;
      ReachableInv(tables);
    }
  }
}
