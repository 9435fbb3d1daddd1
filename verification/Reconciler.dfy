/** The quota reconciler: recorded usage is corrected, by deltas, to what the mailboxes hold. */
module Reconciler {
  import opened Prelude

  type Pubkey = string
  type Usage = map<Pubkey, int>

  function Of(m: Usage, p: Pubkey): int {
    if p in m then m[p] else 0
  }

  /** The mailboxes whose recorded usage is wrong. */
  function Drift(measured: Usage, recorded: Usage): set<Pubkey> {
    set p | p in measured.Keys + recorded.Keys && Of(measured, p) != Of(recorded, p)
  }

  // -------------------------------------------------------------------- totals

  ghost function SumOver(keys: set<Pubkey>, m: Usage): int {
    if keys == {} then 0
    else
      var p :| p in keys;
      Of(m, p) + SumOver(keys - {p}, m)
  }

  ghost function Total(m: Usage): int {
    SumOver(m.Keys, m)
  }

  /** The sum does not depend on the order it is taken in. */
  lemma {:induction false} TakeOut(keys: set<Pubkey>, m: Usage, p: Pubkey)
    requires p in keys
    ensures SumOver(keys, m) == Of(m, p) + SumOver(keys - {p}, m)
    decreases |keys|
  {
    var q :| q in keys && SumOver(keys, m) == Of(m, q) + SumOver(keys - {q}, m);
    if q != p {
      TakeOut(keys - {q}, m, p);
      TakeOut(keys - {p}, m, q);
      assert keys - {q} - {p} == keys - {p} - {q};
    }
  }

  lemma {:induction false} SumOfSame(keys: set<Pubkey>, m: Usage, n: Usage)
    requires forall p <- keys :: Of(m, p) == Of(n, p)
    ensures SumOver(keys, m) == SumOver(keys, n)
    decreases |keys|
  {
    if keys != {} {
      var p :| p in keys;
      TakeOut(keys, m, p);
      TakeOut(keys, n, p);
      SumOfSame(keys - {p}, m, n);
    }
  }

  lemma TotalUpdate(m: Usage, p: Pubkey, v: int)
    ensures Total(m[p := v]) == Total(m) - Of(m, p) + v
  {
    var n := m[p := v];
    TakeOut(n.Keys, n, p);
    SumOfSame(n.Keys - {p}, m, n);
    if p in m {
      assert n.Keys == m.Keys;
      TakeOut(m.Keys, m, p);
    } else {
      assert n.Keys - {p} == m.Keys;
    }
  }

  // ---------------------------------------------------------------- reconciling

  datatype Result = Result(mailboxes: nat, corrected: nat, netBytes: int)

  /** The platform's record of this service's share; it only takes deltas. */
  class Recorder {
    var recorded: Usage

    constructor (recorded: Usage)
      ensures this.recorded == recorded
    {
      this.recorded := recorded;
    }

    method RecordUsage(p: Pubkey, delta: int)
      modifies this
      ensures recorded == old(recorded)[p := Of(old(recorded), p) + delta]
    {
      recorded := recorded[p := Of(recorded, p) + delta];
    }
  }

  /** The pass over the mailboxes of `order`, which has a write fail for those in `failing`. */
  datatype Pass = Pass(usage: Usage, result: Result)

  function Walk(measured: Usage, recorded: Usage, failing: set<Pubkey>, order: seq<Pubkey>): Pass {
    if order == [] then Pass(recorded, Result(0, 0, 0))
    else
      var p := order[|order| - 1];
      var before := Walk(measured, recorded, failing, order[..|order| - 1]);
      var r := before.result;
      var delta := Of(measured, p) - Of(recorded, p);
      if delta == 0 || p in failing then Pass(before.usage, Result(r.mailboxes + 1, r.corrected, r.netBytes))
      else Pass(before.usage[p := Of(before.usage, p) + delta],
                Result(r.mailboxes + 1, r.corrected + 1, r.netBytes + delta))
  }

  /** One more mailbox, before its write. */
  lemma WalkStep(measured: Usage, recorded: Usage, failing: set<Pubkey>, order: seq<Pubkey>, i: nat)
    requires i < |order|
    ensures var before, p := Walk(measured, recorded, failing, order[..i]), order[i];
            var delta := Of(measured, p) - Of(recorded, p);
            Walk(measured, recorded, failing, order[..i + 1])
            == if delta == 0 || p in failing
               then Pass(before.usage, before.result.(mailboxes := before.result.mailboxes + 1))
               else Pass(before.usage[p := Of(before.usage, p) + delta],
                         Result(before.result.mailboxes + 1, before.result.corrected + 1, before.result.netBytes + delta))
  {
    assert order[..i + 1][..i] == order[..i];
  }

  class Reconciler {
    const recorder: Recorder

    constructor (recorder: Recorder)
      ensures this.recorder == recorder
    {
      this.recorder := recorder;
    }

    /** `order` is the order in which the map of mailboxes happens to be walked; `failing` are the
        mailboxes whose write fails. */
    method Reconcile(measured: Usage, order: seq<Pubkey>, failing: set<Pubkey>) returns (result: Result)
      requires Distinct(order) && forall p :: p in order <==> p in measured || p in recorder.recorded
      modifies recorder
      ensures recorder.recorded == Walk(measured, old(recorder.recorded), failing, order).usage
      ensures result == Walk(measured, old(recorder.recorded), failing, order).result
    {
      var recorded := recorder.recorded;
      var actual := Union(measured, recorded);
      result := Result(0, 0, 0);
      for i := 0 to |order|
        invariant recorder.recorded == Walk(measured, recorded, failing, order[..i]).usage
        invariant result == Walk(measured, recorded, failing, order[..i]).result
      {
        WalkStep(measured, recorded, failing, order, i);
        var p := order[i];
        result := result.(mailboxes := result.mailboxes + 1);
        var delta := actual[p] - Of(recorded, p);
        if delta == 0 {
          continue;
        }
        if p in failing {
          continue;
        }
        recorder.RecordUsage(p, delta);
        result := result.(corrected := result.corrected + 1, netBytes := result.netBytes + delta);
      }
      assert order[..|order|] == order;
    }

    /** The measured map with a zero for every mailbox that is only on record. */
    method Union(measured: Usage, recorded: Usage) returns (actual: Usage)
      ensures actual.Keys == measured.Keys + recorded.Keys
      ensures forall p <- actual :: actual[p] == Of(measured, p)
    {
      actual := measured;
      var todo := recorded.Keys;
      while todo != {}
        invariant todo <= recorded.Keys
        invariant actual.Keys == measured.Keys + (recorded.Keys - todo)
        invariant forall p <- actual :: actual[p] == Of(measured, p)
        decreases todo
      {
        var p :| p in todo;
        todo := todo - {p};
        if p !in actual {
          actual := actual[p := 0];
        }
      }
    }
  }

  function Corrected(measured: Usage, recorded: Usage, failing: set<Pubkey>, order: seq<Pubkey>): seq<Pubkey> {
    if order == [] then []
    else
      var p := order[|order| - 1];
      Corrected(measured, recorded, failing, order[..|order| - 1])
      + if Of(measured, p) == Of(recorded, p) || p in failing then [] else [p]
  }

  lemma {:induction false} CorrectedMembers(measured: Usage, recorded: Usage, failing: set<Pubkey>, order: seq<Pubkey>)
    requires Distinct(order)
    ensures var c := Corrected(measured, recorded, failing, order);
            && Distinct(c)
            && forall p :: p in c <==> p in order && p !in failing && Of(measured, p) != Of(recorded, p)
  {
    if order != [] {
      CorrectedMembers(measured, recorded, failing, order[..|order| - 1]);
    }
  }

  lemma {:induction false} WalkSets(measured: Usage, recorded: Usage, failing: set<Pubkey>, order: seq<Pubkey>, q: Pubkey)
    requires Distinct(order)
    ensures Of(Walk(measured, recorded, failing, order).usage, q)
            == if q in order && q !in failing then Of(measured, q) else Of(recorded, q)
  {
    if order != [] {
      WalkSets(measured, recorded, failing, order[..|order| - 1], q);
    }
  }

  lemma {:induction false} WalkCounts(measured: Usage, recorded: Usage, failing: set<Pubkey>, order: seq<Pubkey>)
    ensures var r := Walk(measured, recorded, failing, order).result;
            r.mailboxes == |order| && r.corrected == |Corrected(measured, recorded, failing, order)|
  {
    if order != [] {
      WalkCounts(measured, recorded, failing, order[..|order| - 1]);
    }
  }

  lemma {:induction false} WalkSums(measured: Usage, recorded: Usage, failing: set<Pubkey>, order: seq<Pubkey>)
    ensures var w := Walk(measured, recorded, failing, order);
            w.result.netBytes == Total(w.usage) - Total(recorded)
  {
    if order != [] {
      var n := |order| - 1;
      var p, before := order[n], Walk(measured, recorded, failing, order[..n]).usage;
      WalkSums(measured, recorded, failing, order[..n]);
      TotalUpdate(before, p, Of(before, p) + (Of(measured, p) - Of(recorded, p)));
    }
  }

  /** A walk over every mailbox sets each one it can write to its measured value, and its figures
      say how many it changed and by how much in all. */
  lemma WholeWalk(measured: Usage, recorded: Usage, failing: set<Pubkey>, order: seq<Pubkey>)
    requires Distinct(order) && forall p :: p in order <==> p in measured || p in recorded
    ensures var w := Walk(measured, recorded, failing, order);
            && Reconciled(measured, recorded, failing, w.usage)
            && w.result.mailboxes == |measured.Keys + recorded.Keys|
            && w.result.corrected == |Drift(measured, recorded) - failing|
            && w.result.netBytes == Total(w.usage) - Total(recorded)
  {
    forall p ensures Of(Walk(measured, recorded, failing, order).usage, p)
                     == if p in failing then Of(recorded, p) else Of(measured, p) {
      WalkSets(measured, recorded, failing, order, p);
    }
    assert forall p :: p in order <==> p in measured.Keys + recorded.Keys;
    WalkCounts(measured, recorded, failing, order);
    WalkSums(measured, recorded, failing, order);
    DistinctCount(order, measured.Keys + recorded.Keys);
    CorrectedCount(measured, recorded, failing, order);
  }

  lemma CorrectedCount(measured: Usage, recorded: Usage, failing: set<Pubkey>, order: seq<Pubkey>)
    requires Distinct(order) && forall p :: p in order <==> p in measured.Keys + recorded.Keys
    ensures |Corrected(measured, recorded, failing, order)| == |Drift(measured, recorded) - failing|
  {
    CorrectedMembers(measured, recorded, failing, order);
    DistinctCount(Corrected(measured, recorded, failing, order), Drift(measured, recorded) - failing);
  }

  /** What one pass leaves on record: the measured value of every mailbox whose write did not fail. */
  ghost predicate Reconciled(measured: Usage, before: Usage, failing: set<Pubkey>, after: Usage) {
    forall p :: Of(after, p) == if p in failing then Of(before, p) else Of(measured, p)
  }

  /** Only failed writes are left for the next pass. */
  lemma DriftLeft(measured: Usage, before: Usage, failing: set<Pubkey>, after: Usage)
    requires Reconciled(measured, before, failing, after)
    ensures Drift(measured, after) == Drift(measured, before) * failing
  {
    forall p
      ensures p in Drift(measured, after) <==> p in Drift(measured, before) * failing
    {
      assert p in Drift(measured, after) <==> Of(measured, p) != Of(after, p);
      assert p in Drift(measured, before) <==> Of(measured, p) != Of(before, p);
    }
  }

  /** A walk over mailboxes that are all right changes nothing, whatever would fail in it. */
  lemma {:induction false} IdleWalk(measured: Usage, recorded: Usage, failing: set<Pubkey>, order: seq<Pubkey>)
    requires forall p <- order :: Of(measured, p) == Of(recorded, p)
    ensures Walk(measured, recorded, failing, order) == Pass(recorded, Result(|order|, 0, 0))
  {
    if order != [] {
      IdleWalk(measured, recorded, failing, order[..|order| - 1]);
    }
  }

  /** After a pass in which no write failed, a second pass over unchanged mail corrects nothing and leaves
      the record as it is, whatever its order and whatever would fail in it. */
  lemma SecondPassIdle(measured: Usage, recorded: Usage, first: seq<Pubkey>, second: seq<Pubkey>,
                       failing: set<Pubkey>)
    requires Distinct(first) && forall p :: p in first <==> p in measured || p in recorded
    ensures var between := Walk(measured, recorded, {}, first).usage;
            Walk(measured, between, failing, second) == Pass(between, Result(|second|, 0, 0))
  {
    var between := Walk(measured, recorded, {}, first).usage;
    WholeWalk(measured, recorded, {}, first);
    forall p | p in second ensures Of(measured, p) == Of(between, p) {
    }
    IdleWalk(measured, between, failing, second);
  }
}
