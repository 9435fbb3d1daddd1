/** The life of one message, from the INSERT of Enqueue to its end, with every column said outright. */
module QueueLife {
  import opened Prelude
  import opened OutboundQueue
  import opened QueueRuns

  // ------------------------------------------------------- what one statement does

  /** The limit a message comes with, or the queue's own when it comes with none. */
  lemma AcceptedRow(cfg: Config, s: System, step: Step)
    requires step.Enqueue? && Enabled(cfg, s, step)
    ensures var t, msg := Next(cfg, s, step), step.message;
            && t.rows.Keys == s.rows.Keys + {step.id} && (forall id <- s.rows :: t.rows[id] == s.rows[id])
            && var row := t.rows[step.id];
               && row.envelope == msg.envelope && row.status == Pending && row.attempts == msg.attempts
               && (msg.maxAttempts == 0 ==> row.maxAttempts == cfg.maxAttempts)
               && (msg.maxAttempts != 0 ==> row.maxAttempts == msg.maxAttempts)
               && row.nextAttempt == row.createdAt == s.now && row.Due(s.now)
               && row.lastAttempt == None && row.lastError == ""
  {
  }

  predicate From(row: Row, sender: Pubkey) {
    "sender_pubkey" in row.envelope.metadata && row.envelope.metadata["sender_pubkey"] == sender
  }

  /** A hold parks the sender's waiting messages and no other row. */
  lemma HeldExactly(cfg: Config, s: System, step: Step, id: Id)
    requires step.Hold? && id in s.rows
    ensures var t := Next(cfg, s, step);
            && id in t.rows
            && (t.rows[id] != s.rows[id]
                <==> From(s.rows[id], step.sender) && (s.rows[id].status == Pending || s.rows[id].status == Retry))
            && (t.rows[id] != s.rows[id] ==> t.rows[id] == s.rows[id].(status := Held))
  {
  }

  /** A release frees the sender's held messages, due at once, and no other row. */
  lemma ReleasedExactly(cfg: Config, s: System, step: Step, id: Id)
    requires step.Release? && id in s.rows
    ensures var t := Next(cfg, s, step);
            && id in t.rows
            && (t.rows[id] != s.rows[id] <==> From(s.rows[id], step.sender) && s.rows[id].status == Held)
            && (t.rows[id] != s.rows[id] ==> t.rows[id] == s.rows[id].(status := Pending, nextAttempt := s.now))
  {
  }

  /** A purge removes the sent and the failed rows created before its cutoff, and no other. */
  lemma PurgedExactly(cfg: Config, s: System, step: Step, id: Id)
    requires step.Purge? && id in s.rows
    ensures var row, t := s.rows[id], Next(cfg, s, step);
            && (id !in t.rows
                <==> (row.status == Sent || row.status == Failed) && row.createdAt < s.now - step.olderThan)
            && (id in t.rows ==> t.rows[id] == row)
  {
  }

  /** A dequeue takes as many of the due rows that nobody has locked as its limit allows, the earliest due ones,
      and takes nothing else. */
  lemma BatchIsFull(cfg: Config, s: System, step: Step)
    requires step.Dequeue? && Enabled(cfg, s, step)
    ensures var ready := set id | id in s.rows && id !in step.locked && s.rows[id].nextAttempt <= s.now
                                  && (s.rows[id].status == Pending || s.rows[id].status == Retry);
            var room := Max(0, if step.limit > 0 then step.limit else cfg.processBatch);
            && |step.picked| == (if room < |ready| then room else |ready|)
            && (forall id <- step.picked :: id in ready)
            && (forall id <- step.picked, other <- ready :: other !in step.picked ==>
                  s.rows[id].nextAttempt <= s.rows[other].nextAttempt)
  {
    PickIsFull(s.rows, s.now, BatchLimit(cfg, step.limit), step.locked, step.picked);
  }

  lemma PickIsFull(rows: Rows, now: int, n: int, locked: set<Id>, picked: seq<Id>)
    requires LegalPick(rows, now, n, locked, picked)
    ensures var ready := set id | id in rows && id !in locked && rows[id].nextAttempt <= now
                                  && (rows[id].status == Pending || rows[id].status == Retry);
            && |picked| == (if Max(0, n) < |ready| then Max(0, n) else |ready|)
            && (forall id <- picked :: id in ready)
            && (forall id <- picked, other <- ready :: other !in picked ==>
                  rows[id].nextAttempt <= rows[other].nextAttempt)
  {
    var ready := set id | id in rows && id !in locked && rows[id].nextAttempt <= now
                          && (rows[id].status == Pending || rows[id].status == Retry);
    var taken := set id | id in picked;
    DistinctCount(picked, taken);
    SplitCount(ready, taken, ready - taken);
    if ready - taken != {} {
      var other :| other in ready - taken;
      assert rows[other].Due(now);
    }
  }

  // ------------------------------------------------------------- from end to end

  predicate NoPurge(steps: seq<Step>) {
    forall step <- steps :: !step.Purge?
  }

  function LimitOf(cfg: Config, msg: Message): int {
    if msg.maxAttempts != 0 then msg.maxAttempts else cfg.maxAttempts
  }

  /** From the INSERT on, whatever else goes on: the message keeps its envelope, once it is sent no more tries
      were used than it had, and once it has failed it was all of them. */
  lemma FromEndToEnd(cfg: Config, s: System, step: Step, steps: seq<Step>, t: System)
    requires Ownership(s) && Ledger(s) && step.Enqueue? && Enabled(cfg, s, step)
    requires Reaches(cfg, Next(cfg, s, step), steps, t) && Survives(Next(cfg, s, step), t, step.id)
    ensures var row, msg := t.rows[step.id], step.message;
            var all := Max(msg.attempts + 1, LimitOf(cfg, msg));
            && row.envelope == msg.envelope && row.createdAt == s.now
            && (row.status == Sent ==> msg.attempts < row.attempts <= all)
            && (row.status == Failed ==> row.attempts == all)
            && (!row.Terminal() ==> row.attempts < all)
  {
    StepKeeps(cfg, s, step);
    var u := Next(cfg, s, step);
    RowLife(cfg, u, steps, t, step.id);
    LedgerAlways(cfg, u, steps, t);
    assert Accounted(t.rows[step.id], t.tracks[step.id]);
  }

  lemma {:induction false} LedgerAlways(cfg: Config, s: System, steps: seq<Step>, t: System)
    requires Ownership(s) && Ledger(s) && Reaches(cfg, s, steps, t)
    ensures Ownership(t) && Ledger(t)
    decreases |steps|
  {
    if steps != [] {
      StepKeeps(cfg, s, steps[0]);
      LedgerAlways(cfg, Next(cfg, s, steps[0]), steps[1..], t);
    }
  }

  // ------------------------------------------------------------ what a bounce says

  /** The bounce of a failed message that is still here. */
  ghost predicate Tells(s: System, w: WorkerId, id: Id) {
    w in s.calls.due && id in s.rows && id in s.tracks && s.tracks[id].birth == s.calls.due[w].birth ==>
      && s.rows[id].status == Failed
      && s.calls.due[w].bounce == Bounce(id, s.rows[id].envelope, s.rows[id].attempts, s.rows[id].lastError)
  }

  ghost predicate Told(s: System) {
    forall w, id :: Tells(s, w, id)
  }

  lemma ToldStep(cfg: Config, s: System, step: Step)
    requires Inv(cfg, s) && Told(s) && Enabled(cfg, s, step)
    ensures Told(Next(cfg, s, step))
  {
    forall w, id ensures Tells(Next(cfg, s, step), w, id) {
      assert Tells(s, w, id);
      if step.WriteFailure? {
        TellsWrite(cfg, s, step, w, id);
      } else {
        TellsOther(cfg, s, step, w, id);
      }
    }
  }

  lemma TellsWrite(cfg: Config, s: System, step: Step, w: WorkerId, id: Id)
    requires Ownership(s) && Called(s) && Tells(s, w, id) && Enabled(cfg, s, step) && step.WriteFailure?
    ensures Tells(Next(cfg, s, step), w, id)
  {
    assert HasFront(s, step.w, s.workers[step.w].batch[0]);
  }

  lemma TellsOther(cfg: Config, s: System, step: Step, w: WorkerId, id: Id)
    requires Ownership(s) && Ledger(s) && Called(s) && Tells(s, w, id)
    requires Enabled(cfg, s, step) && !step.WriteFailure?
    ensures Tells(Next(cfg, s, step), w, id)
  {
    MovedByStep(cfg, s, step);
    var t := Next(cfg, s, step);
    if w in t.calls.due && id in t.rows && id in s.rows {
      LivesMove(cfg, s.now, s.rows[id], s.tracks[id], t.rows[id], t.tracks[id]);
    }
  }

  lemma {:induction false} ToldAlways(cfg: Config, s: System, steps: seq<Step>, t: System)
    requires Inv(cfg, s) && Told(s) && Reaches(cfg, s, steps, t)
    ensures Inv(cfg, t) && Told(t)
    decreases |steps|
  {
    if steps != [] {
      ReachesBy(cfg, s, steps[0]);
      InvAlways(cfg, s, [steps[0]], Next(cfg, s, steps[0]));
      ToldStep(cfg, s, steps[0]);
      ToldAlways(cfg, Next(cfg, s, steps[0]), steps[1..], t);
    }
  }

  /** The callback is told of a message that failed for good: its envelope, all its tries, and its last error. */
  lemma CallbackTells(cfg: Config, start: System, past: seq<Step>, s: System, call: Step, id: Id)
    requires Initial(start) && Reaches(cfg, start, past, s) && call.Callback? && Enabled(cfg, s, call)
    requires id in s.rows && id in s.tracks && s.tracks[id].birth == s.calls.due[call.w].birth
    ensures var row := s.rows[id];
            && row.status == Failed && row.attempts == Max(s.tracks[id].initial + 1, row.maxAttempts)
            && Next(cfg, s, call).calls.bounces
               == s.calls.bounces + [Bounce(id, row.envelope, row.attempts, row.lastError)]
  {
    InitialInv(cfg, start);
    ToldAlways(cfg, start, past, s);
    assert Tells(s, call.w, id) && Accounted(s.rows[id], s.tracks[id]);
  }

  // ------------------------------------------------- which messages can still be sent

  /** The failed delivery of its last try is about to be written. */
  ghost predicate Condemned(s: System, id: Id) {
    exists w :: FailsBy(s, w, id)
  }

  ghost predicate FailsBy(s: System, w: WorkerId, id: Id) {
    && HasFront(s, w, id) && s.workers[w].batch[0] == id && s.workers[w].read.Some?
    && id in s.rows && s.rows[id].attempts + 1 >= s.rows[id].maxAttempts
  }

  /** A message that will not be delivered any more. */
  ghost predicate Doomed(s: System, id: Id) {
    id in s.rows && (s.rows[id].status == Failed || id in s.lost || Condemned(s, id))
  }

  lemma FailedStep(cfg: Config, s: System, step: Step, id: Id)
    requires Ownership(s) && Ledger(s) && Enabled(cfg, s, step) && id in s.rows && s.rows[id].status == Failed
    ensures var t := Next(cfg, s, step); id in t.rows ==> t.rows[id].status == Failed
  {
    MovedByStep(cfg, s, step);
  }

  lemma DoomedStep(cfg: Config, s: System, step: Step, id: Id)
    requires Ownership(s) && Ledger(s) && Enabled(cfg, s, step) && Doomed(s, id)
    ensures var t := Next(cfg, s, step); id in t.rows ==> Doomed(t, id)
  {
    if s.rows[id].status == Failed {
      FailedStep(cfg, s, step, id);
    } else if id in s.lost {
      LostStep(cfg, s, step, id);
    } else {
      var w :| FailsBy(s, w, id);
      CondemnedStep(cfg, s, step, w, id);
    }
  }

  lemma CondemnedStep(cfg: Config, s: System, step: Step, w: WorkerId, id: Id)
    requires Ownership(s) && Enabled(cfg, s, step) && FailsBy(s, w, id)
    ensures var t := Next(cfg, s, step); id in t.rows && Doomed(t, id)
  {
    var t := Next(cfg, s, step);
    if step.MarkSent? || step.ReadForFailure? || step.WriteFailure? || step.Abandon? {
      assert HasFront(s, step.w, s.workers[step.w].batch[0]);
      assert step.w != w ==> FailsBy(t, w, id);
    } else {
      CondemnedKept(cfg, s, step, w, id);
    }
  }

  lemma CondemnedKept(cfg: Config, s: System, step: Step, w: WorkerId, id: Id)
    requires Ownership(s) && Enabled(cfg, s, step) && FailsBy(s, w, id)
    requires !step.MarkSent? && !step.ReadForFailure? && !step.WriteFailure? && !step.Abandon?
    ensures FailsBy(Next(cfg, s, step), w, id)
  {
  }

  lemma {:induction false} DoomedForEver(cfg: Config, s: System, steps: seq<Step>, t: System, id: Id)
    requires Ownership(s) && Ledger(s) && Reaches(cfg, s, steps, t) && Doomed(s, id) && Survives(s, t, id)
    ensures Doomed(t, id)
    decreases |steps|
  {
    if steps != [] {
      var u := Next(cfg, s, steps[0]);
      MovedByStep(cfg, s, steps[0]);
      StepKeeps(cfg, s, steps[0]);
      DoomedStep(cfg, s, steps[0], id);
      if id in u.rows {
        LivesMove(cfg, s.now, s.rows[id], s.tracks[id], u.rows[id], u.tracks[id]);
        DoomedForEver(cfg, u, steps[1..], t, id);
      } else {
        NewcomersAreYounger(cfg, u, steps[1..], t, id, u.counts.enqueued);
      }
    }
  }

  lemma DoomedIsUnsent(s: System, id: Id)
    requires Ownership(s) && Doomed(s, id)
    ensures s.rows[id].status != Sent
  {
  }

  lemma OthersWait(cfg: Config, s: System, w: WorkerId, id: Id)
    requires Ownership(s) && w in s.workers && (w in s.calls.due || s.workers[w].batch != [])
    requires id in s.rows && s.rows[id].status != Processing
    ensures Enabled(cfg, s, NextOf(s, w))
    ensures var u := Next(cfg, s, NextOf(s, w));
            && w in u.workers && id in u.rows && u.rows[id] == s.rows[id]
            && (if w in s.calls.due then u.workers == s.workers && w !in u.calls.due
                else |u.workers[w].batch| < |s.workers[w].batch|)
  {
    if w !in s.calls.due {
      assert HasFront(s, w, s.workers[w].batch[0]);
    }
  }

  /** The way out of a batch that leaves this message alone. */
  lemma {:induction false} WorkerIdles(cfg: Config, s: System, w: WorkerId, id: Id)
    returns (steps: seq<Step>, t: System)
    requires Ownership(s) && Ledger(s) && w in s.workers && id in s.rows && s.rows[id].status != Processing
    ensures Reaches(cfg, s, steps, t) && NoPurge(steps) && Ownership(t) && Ledger(t)
    ensures w in t.workers && t.workers[w].batch == [] && w !in t.calls.due
    ensures id in t.rows && t.rows[id] == s.rows[id]
    decreases |s.workers[w].batch|, if w in s.calls.due then 1 else 0
  {
    if w !in s.calls.due && s.workers[w].batch == [] {
      return [], s;
    }
    var step := NextOf(s, w);
    OthersWait(cfg, s, w, id);
    var u := Next(cfg, s, step);
    StepKeeps(cfg, s, step);
    steps, t := WorkerIdles(cfg, u, w, id);
    ReachesOn(cfg, s, [step], u, steps, t);
    steps := [step] + steps;
  }

  /** The worker comes to the message, and unless its failure is being written, marks it sent. */
  lemma {:induction false} WorkerSends(cfg: Config, s: System, w: WorkerId, id: Id)
    returns (steps: seq<Step>, t: System)
    requires Ownership(s) && Ledger(s) && HasFront(s, w, id)
    requires s.workers[w].batch[0] == id ==> s.workers[w].read.None?
    ensures Reaches(cfg, s, steps, t) && NoPurge(steps) && id in t.rows && t.rows[id].status == Sent
    decreases |s.workers[w].batch|, if w in s.calls.due then 1 else 0
  {
    var step, front := NextOf(s, w), s.workers[w].batch[0];
    assert HasFront(s, w, front);
    var u := Next(cfg, s, step);
    StepKeeps(cfg, s, step);
    if step.Callback? || front != id {
      assert HasFront(u, w, id);
      steps, t := WorkerSends(cfg, u, w, id);
      ReachesOn(cfg, s, [step], u, steps, t);
      steps := [step] + steps;
    } else {
      steps, t := [step], u;
    }
  }

  lemma {:induction false} InSomeOrder(ids: set<Id>) returns (order: seq<Id>)
    ensures Distinct(order) && |order| == |ids| && forall id :: id in order <==> id in ids
  {
    order := [];
    if ids != {} {
      var id :| id in ids;
      order := InSomeOrder(ids - {id});
      order := order + [id];
    }
  }

  /** An idle worker takes every message that is due. */
  lemma TakeAll(cfg: Config, s: System, w: WorkerId, id: Id) returns (step: Step)
    requires w in s.workers && s.workers[w].batch == [] && w !in s.calls.due
    requires id in s.rows && s.rows[id].Due(s.now)
    ensures step.Dequeue? && Enabled(cfg, s, step)
    ensures HasFront(Next(cfg, s, step), w, id) && Next(cfg, s, step).workers[w].read.None?
  {
    var due := set other | other in s.rows && s.rows[other].Due(s.now);
    var picked := InSomeOrder(due);
    SplitCount(s.rows.Keys, due, s.rows.Keys - due);
    assert id in due;
    step := Dequeue(w, |s.rows.Keys|, {}, picked);
    assert |s.rows.Keys| > 0;
  }

  lemma DueIsSent(cfg: Config, s: System, w: WorkerId, id: Id) returns (steps: seq<Step>, t: System)
    requires Ownership(s) && Ledger(s) && w in s.workers && s.workers[w].batch == [] && w !in s.calls.due
    requires id in s.rows && s.rows[id].Due(s.now)
    ensures Reaches(cfg, s, steps, t) && NoPurge(steps) && id in t.rows && t.rows[id].status == Sent
  {
    var take := TakeAll(cfg, s, w, id);
    var u := Next(cfg, s, take);
    StepKeeps(cfg, s, take);
    steps, t := WorkerSends(cfg, u, w, id);
    ReachesOn(cfg, s, [take], u, steps, t);
    steps := [take] + steps;
  }

  lemma WaitingIsSent(cfg: Config, s: System, w: WorkerId, id: Id) returns (steps: seq<Step>, t: System)
    requires Ownership(s) && Ledger(s) && w in s.workers && s.workers[w].batch == [] && w !in s.calls.due
    requires id in s.rows && (s.rows[id].status == Pending || s.rows[id].status == Retry)
    ensures Reaches(cfg, s, steps, t) && NoPurge(steps) && id in t.rows && t.rows[id].status == Sent
  {
    var wait := Tick(Max(0, s.rows[id].nextAttempt - s.now));
    var u := Next(cfg, s, wait);
    StepKeeps(cfg, s, wait);
    steps, t := DueIsSent(cfg, u, w, id);
    ReachesOn(cfg, s, [wait], u, steps, t);
    steps := [wait] + steps;
  }

  lemma ParkedIsSent(cfg: Config, s: System, w: WorkerId, id: Id) returns (steps: seq<Step>, t: System)
    requires Ownership(s) && Ledger(s) && w in s.workers && s.workers[w].batch == [] && w !in s.calls.due
    requires id in s.rows && s.rows[id].status == Held && SENDER_KEY in s.rows[id].envelope.metadata
    ensures Reaches(cfg, s, steps, t) && NoPurge(steps) && id in t.rows && t.rows[id].status == Sent
  {
    var free := Release(s.rows[id].envelope.metadata[SENDER_KEY]);
    var u := Next(cfg, s, free);
    StepKeeps(cfg, s, free);
    ReleaseFrees(cfg, s, free, id);
    steps, t := WaitingIsSent(cfg, u, w, id);
    ReachesOn(cfg, s, [free], u, steps, t);
    steps := [free] + steps;
  }

  ghost predicate HeldHasSender(s: System) {
    forall id <- s.rows :: s.rows[id].status == Held ==> SENDER_KEY in s.rows[id].envelope.metadata
  }

  lemma HeldOnlyByHold(cfg: Config, s: System, step: Step, id: Id)
    requires Ownership(s) && Enabled(cfg, s, step) && !step.Hold?
    requires var t := Next(cfg, s, step); id in t.rows && t.rows[id].status == Held
    ensures id in s.rows && Next(cfg, s, step).rows[id] == s.rows[id]
  {
    if step.MarkSent? || step.WriteFailure? {
      assert HasFront(s, step.w, s.workers[step.w].batch[0]);
    }
  }

  lemma HeldHasSenderStep(cfg: Config, s: System, step: Step)
    requires Ownership(s) && HeldHasSender(s) && Enabled(cfg, s, step)
    ensures HeldHasSender(Next(cfg, s, step))
  {
    var t := Next(cfg, s, step);
    if !step.Hold? {
      forall id | id in t.rows && t.rows[id].status == Held ensures SENDER_KEY in t.rows[id].envelope.metadata {
        HeldOnlyByHold(cfg, s, step, id);
      }
    }
  }

  lemma {:induction false} HeldHasSenderAlways(cfg: Config, s: System, steps: seq<Step>, t: System)
    requires Ownership(s) && Ledger(s) && HeldHasSender(s) && Reaches(cfg, s, steps, t)
    ensures HeldHasSender(t)
    decreases |steps|
  {
    if steps != [] {
      HeldHasSenderStep(cfg, s, steps[0]);
      StepKeeps(cfg, s, steps[0]);
      HeldHasSenderAlways(cfg, Next(cfg, s, steps[0]), steps[1..], t);
    }
  }

  lemma RestingIsSent(cfg: Config, s: System, w: WorkerId, id: Id) returns (steps: seq<Step>, t: System)
    requires Ownership(s) && Ledger(s) && HeldHasSender(s) && w in s.workers
    requires id in s.rows && s.rows[id].status != Processing && s.rows[id].status != Failed
    ensures Reaches(cfg, s, steps, t) && NoPurge(steps) && id in t.rows && t.rows[id].status == Sent
  {
    if s.rows[id].status == Sent {
      return [], s;
    }
    var idle, u := WorkerIdles(cfg, s, w, id);
    if s.rows[id].status == Held {
      steps, t := ParkedIsSent(cfg, u, w, id);
    } else {
      steps, t := WaitingIsSent(cfg, u, w, id);
    }
    ReachesOn(cfg, s, idle, u, steps, t);
    steps := idle + steps;
  }

  /** A failure that is being written, but not the last, puts the message back in line. */
  lemma RetriedIsSent(cfg: Config, s: System, w: WorkerId, id: Id) returns (steps: seq<Step>, t: System)
    requires Ownership(s) && Ledger(s) && HeldHasSender(s) && HasFront(s, w, id) && w !in s.calls.due
    requires s.workers[w].batch[0] == id && s.workers[w].read.Some? && !FailsBy(s, w, id)
    ensures Reaches(cfg, s, steps, t) && NoPurge(steps) && id in t.rows && t.rows[id].status == Sent
  {
    var write := WriteFailure(w, "");
    var u := Next(cfg, s, write);
    StepKeeps(cfg, s, write);
    HeldHasSenderStep(cfg, s, write);
    steps, t := RestingIsSent(cfg, u, w, id);
    ReachesOn(cfg, s, [write], u, steps, t);
    steps := [write] + steps;
  }

  lemma TakenIsSent(cfg: Config, s: System, w: WorkerId, id: Id) returns (steps: seq<Step>, t: System)
    requires Ownership(s) && Ledger(s) && HeldHasSender(s) && HasFront(s, w, id) && !FailsBy(s, w, id)
    ensures Reaches(cfg, s, steps, t) && NoPurge(steps) && id in t.rows && t.rows[id].status == Sent
  {
    if s.workers[w].batch[0] != id || s.workers[w].read.None? {
      steps, t := WorkerSends(cfg, s, w, id);
    } else if w !in s.calls.due {
      steps, t := RetriedIsSent(cfg, s, w, id);
    } else {
      var call := Callback(w);
      var u := Next(cfg, s, call);
      StepKeeps(cfg, s, call);
      HeldHasSenderStep(cfg, s, call);
      steps, t := RetriedIsSent(cfg, u, w, id);
      ReachesOn(cfg, s, [call], u, steps, t);
      steps := [call] + steps;
    }
  }

  ghost predicate SentBySteps(cfg: Config, s: System, id: Id, steps: seq<Step>, t: System) {
    Reaches(cfg, s, steps, t) && Survives(s, t, id) && t.rows[id].status == Sent
  }

  /** While there is a worker, a message can still come to be sent exactly when it has not failed for good, was
      not lost, and the failure of its last try is not about to be written. */
  lemma CanStillBeSent(cfg: Config, start: System, past: seq<Step>, s: System, id: Id)
    requires Initial(start) && Reaches(cfg, start, past, s) && s.workers != map[] && id in s.rows
    ensures (exists steps, t :: SentBySteps(cfg, s, id, steps, t)) <==> !Doomed(s, id)
  {
    InvReachable(cfg, start, past, s);
    HeldHasSenderAlways(cfg, start, past, s);
    if Doomed(s, id) {
      forall steps, t | Reaches(cfg, s, steps, t) && Survives(s, t, id)
        ensures !SentBySteps(cfg, s, id, steps, t)
      {
        DoomedForEver(cfg, s, steps, t, id);
        LedgerAlways(cfg, s, steps, t);
        DoomedIsUnsent(t, id);
      }
    } else {
      var steps, t := NotDoomedIsSent(cfg, s, id);
      RowLife(cfg, s, steps, t, id);
      assert SentBySteps(cfg, s, id, steps, t);
    }
  }

  lemma NotDoomedIsSent(cfg: Config, s: System, id: Id) returns (steps: seq<Step>, t: System)
    requires Ownership(s) && Ledger(s) && HeldHasSender(s) && s.workers != map[]
    requires id in s.rows && !Doomed(s, id)
    ensures Reaches(cfg, s, steps, t) && NoPurge(steps) && id in t.rows && t.rows[id].status == Sent
  {
    var w: WorkerId;
    if s.rows[id].status == Processing {
      assert Owned(s, id);
      w :| HasFront(s, w, id);
      steps, t := TakenIsSent(cfg, s, w, id);
    } else {
      w :| w in s.workers;
      steps, t := RestingIsSent(cfg, s, w, id);
    }
  }
}
