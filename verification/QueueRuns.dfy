/** Any number of workers draining the queue while senders are held and released: a step system
    over the statements of OutboundQueue, and what every run of it keeps. */
module QueueRuns {
  import opened Prelude
  import opened OutboundQueue

  type WorkerId = nat

  /** What MarkFailed's SELECT returned. */
  datatype Snapshot = Snapshot(attempts: int, maxAttempts: int)

  /** A worker works its batch off from the front. `read` is set between the two statements of
      MarkFailed for the message in front. */
  datatype Worker = Worker(batch: seq<Id>, read: Option<Snapshot>)

  datatype Try = Try(dequeuedAt: int, failedAt: int)

  /** The history of one row. `birth` tells apart two rows that had the same id one after the other. */
  datatype Track = Track(birth: nat, initial: int, tries: seq<Try>, delivered: nat, everHeld: bool)
  {
    function Marks(): nat {
      |tries| + delivered
    }

    function Failing(row: Row, now: int): Track {
      Track(birth, initial, tries + [Try(row.lastAttempt.GetOr(now), now)], delivered, everHeld)
    }
  }

  /** `lost` holds messages whose worker went away, or whose mark did not reach the database. */
  datatype System = System(now: int, rows: Rows, workers: map<WorkerId, Worker>, lost: set<Id>,
                           tracks: map<Id, Track>, counts: Counts, calls: Calls)

  /** Totals since the start. */
  datatype Counts = Counts(enqueued: nat, delivered: nat, failed: nat, purgedSent: nat, purgedFailed: nat)

  /** A call of the permanent-failure callback that a worker is about to make. */
  datatype Due = Due(birth: nat, bounce: Bounce)

  /** The callback's calls: `due` by worker, `made` by birth, `bounces` in order. `missed` holds the births
      of messages whose worker stopped between the final UPDATE and the call. */
  datatype Calls = Calls(due: map<WorkerId, Due>, made: multiset<nat>, bounces: seq<Bounce>, missed: set<nat>)

  datatype Step =
    | Tick(elapsed: nat)
    | Enqueue(id: Id, message: Message)
    | Dequeue(w: WorkerId, limit: int, locked: set<Id>, picked: seq<Id>)
    | MarkSent(w: WorkerId)
    | ReadForFailure(w: WorkerId)
    | WriteFailure(w: WorkerId, err: string)
    | Callback(w: WorkerId)
    | SkipCallback(w: WorkerId)
    | Abandon(w: WorkerId)
    | Hold(sender: Pubkey)
    | Release(sender: Pubkey)
    | Purge(olderThan: int)

  ghost predicate Busy(s: System, w: WorkerId) {
    w in s.workers && s.workers[w].batch != [] && s.workers[w].batch[0] in s.rows && w !in s.calls.due
  }

  ghost predicate Enabled(cfg: Config, s: System, step: Step) {
    match step
    case Tick(_) => true
    case Enqueue(id, _) => id !in s.rows
    case Dequeue(w, limit, locked, picked) =>
      w in s.workers && s.workers[w].batch == [] && w !in s.calls.due
      && LegalPick(s.rows, s.now, BatchLimit(cfg, limit), locked, picked)
    case MarkSent(w) => Busy(s, w) && s.workers[w].read.None?
    case ReadForFailure(w) => Busy(s, w) && s.workers[w].read.None?
    case WriteFailure(w, _) => Busy(s, w) && s.workers[w].read.Some?
    case Callback(w) => w in s.calls.due
    case SkipCallback(w) => w in s.calls.due
    case Abandon(w) => Busy(s, w)
    case Hold(_) => true
    case Release(_) => true
    case Purge(_) => true
  }

  function FinishFront(s: System, w: WorkerId): map<WorkerId, Worker>
    requires w in s.workers && s.workers[w].batch != []
  {
    s.workers[w := Worker(s.workers[w].batch[1..], None)]
  }

  function AfterTick(s: System, elapsed: nat): System {
    System(s.now + elapsed, s.rows, s.workers, s.lost, s.tracks, s.counts, s.calls)
  }

  function AfterEnqueue(cfg: Config, s: System, id: Id, message: Message): System {
    var n := s.counts.enqueued;
    System(s.now, s.rows[id := NewRow(cfg, message, s.now)], s.workers, s.lost,
           s.tracks[id := Track(n, message.attempts, [], 0, false)], s.counts.(enqueued := n + 1), s.calls)
  }

  function AfterDequeue(s: System, w: WorkerId, picked: seq<Id>): System {
    System(s.now, Dequeued(s.rows, (set id | id in picked), s.now), s.workers[w := Worker(picked, None)], s.lost,
           s.tracks, s.counts, s.calls)
  }

  function AfterMarkSent(s: System, w: WorkerId): System
    requires w in s.workers && s.workers[w].batch != []
  {
    var id := s.workers[w].batch[0];
    System(s.now, MarkedSent(s.rows, id), FinishFront(s, w), s.lost,
           if id in s.tracks then s.tracks[id := s.tracks[id].(delivered := s.tracks[id].delivered + 1)] else s.tracks,
           s.counts.(delivered := s.counts.delivered + 1), s.calls)
  }

  function AfterRead(s: System, w: WorkerId): System
    requires w in s.workers && s.workers[w].batch != [] && s.workers[w].batch[0] in s.rows
  {
    var row := s.rows[s.workers[w].batch[0]];
    System(s.now, s.rows,
           s.workers[w := Worker(s.workers[w].batch, Some(Snapshot(row.attempts, row.maxAttempts)))], s.lost,
           s.tracks, s.counts, s.calls)
  }

  function AfterWrite(cfg: Config, s: System, w: WorkerId, err: string): System
    requires w in s.workers && s.workers[w].batch != [] && s.workers[w].batch[0] in s.rows
    requires s.workers[w].read.Some?
  {
    var id := s.workers[w].batch[0];
    var read := s.workers[w].read.value;
    var final := read.attempts + 1 >= read.maxAttempts;
    System(s.now, MarkedFailed(cfg, s.rows, id, read.attempts, read.maxAttempts, err, s.now),
           FinishFront(s, w), s.lost,
           if id in s.tracks then s.tracks[id := s.tracks[id].Failing(s.rows[id], s.now)] else s.tracks,
           s.counts.(failed := s.counts.failed + if final then 1 else 0),
           if final && id in s.tracks
           then Owing(s.calls, w, Due(s.tracks[id].birth, Bounce(id, s.rows[id].envelope, read.attempts + 1, err)))
           else s.calls)
  }

  function Owing(c: Calls, w: WorkerId, due: Due): Calls {
    Calls(c.due[w := due], c.made, c.bounces, c.missed)
  }

  function AfterCallback(s: System, w: WorkerId): System
    requires w in s.calls.due
  {
    var c := s.calls;
    System(s.now, s.rows, s.workers, s.lost, s.tracks, s.counts,
           Calls(c.due - {w}, c.made + multiset{c.due[w].birth}, c.bounces + [c.due[w].bounce], c.missed))
  }

  function AfterSkip(s: System, w: WorkerId): System
    requires w in s.calls.due
  {
    var c := s.calls;
    System(s.now, s.rows, s.workers, s.lost, s.tracks, s.counts,
           Calls(c.due - {w}, c.made, c.bounces, c.missed + {c.due[w].birth}))
  }

  function AfterAbandon(s: System, w: WorkerId): System
    requires w in s.workers && s.workers[w].batch != []
  {
    System(s.now, s.rows, FinishFront(s, w), s.lost + {s.workers[w].batch[0]}, s.tracks, s.counts, s.calls)
  }

  function AfterHold(s: System, sender: Pubkey): System {
    System(s.now, HeldFor(s.rows, sender), s.workers, s.lost,
           map id | id in s.tracks ::
             if id in s.rows && HeldFor(s.rows, sender)[id] != s.rows[id]
             then s.tracks[id].(everHeld := true) else s.tracks[id],
           s.counts, s.calls)
  }

  function AfterRelease(s: System, sender: Pubkey): System {
    System(s.now, ReleasedFor(s.rows, sender, s.now), s.workers, s.lost, s.tracks, s.counts, s.calls)
  }

  function Cutoff(s: System, olderThan: int): int {
    s.now - olderThan
  }

  function AfterPurge(s: System, olderThan: int): System {
    var cutoff := Cutoff(s, olderThan);
    var sent, failed := Expired(s.rows, Sent, cutoff), Expired(s.rows, Failed, cutoff);
    System(s.now, Purged(s.rows, cutoff), s.workers, s.lost, s.tracks - (sent + failed),
           Counts(s.counts.enqueued, s.counts.delivered, s.counts.failed,
                  s.counts.purgedSent + |sent|, s.counts.purgedFailed + |failed|), s.calls)
  }

  ghost function Next(cfg: Config, s: System, step: Step): System
    requires Enabled(cfg, s, step)
  {
    if step.Tick? then AfterTick(s, step.elapsed)
    else if step.Enqueue? then AfterEnqueue(cfg, s, step.id, step.message)
    else if step.Dequeue? then AfterDequeue(s, step.w, step.picked)
    else if step.MarkSent? then AfterMarkSent(s, step.w)
    else if step.ReadForFailure? then AfterRead(s, step.w)
    else if step.WriteFailure? then AfterWrite(cfg, s, step.w, step.err)
    else if step.Callback? then AfterCallback(s, step.w)
    else if step.SkipCallback? then AfterSkip(s, step.w)
    else if step.Abandon? then AfterAbandon(s, step.w)
    else if step.Hold? then AfterHold(s, step.sender)
    else if step.Release? then AfterRelease(s, step.sender)
    else AfterPurge(s, step.olderThan)
  }

  ghost predicate Initial(s: System) {
    && s.rows == map[] && s.tracks == map[] && s.lost == {}
    && (forall w <- s.workers :: s.workers[w] == Worker([], None))
    && s.counts == Counts(0, 0, 0, 0, 0) && s.calls == Calls(map[], multiset{}, [], {})
  }

  ghost predicate Reaches(cfg: Config, s: System, steps: seq<Step>, t: System)
    decreases |steps|
  {
    if steps == [] then s == t
    else Enabled(cfg, s, steps[0]) && Reaches(cfg, Next(cfg, s, steps[0]), steps[1..], t)
  }

  // ---------------------------------------------------------------- ownership

  ghost predicate HasFront(s: System, w: WorkerId, id: Id) {
    w in s.workers && id in s.workers[w].batch
  }

  ghost predicate Owned(s: System, id: Id) {
    exists w :: HasFront(s, w, id)
  }

  /** A message is processing exactly when one worker has it or it was lost; what a worker has read
      of its front message is still what the row says. */
  ghost predicate Ownership(s: System) {
    && (forall w <- s.workers :: Distinct(s.workers[w].batch))
    && (forall w, v, id :: HasFront(s, w, id) && HasFront(s, v, id) ==> w == v)
    && (forall w, id :: HasFront(s, w, id) ==> id in s.rows && s.rows[id].status == Processing && id !in s.lost)
    && (forall id <- s.lost :: id in s.rows && s.rows[id].status == Processing)
    && (forall id <- s.rows :: s.rows[id].status == Processing ==> id in s.lost || Owned(s, id))
    && (forall w <- s.workers :: s.workers[w].read.Some? ==>
          && s.workers[w].batch != [] && s.workers[w].batch[0] in s.rows
          && var row := s.rows[s.workers[w].batch[0]];
             s.workers[w].read.value == Snapshot(row.attempts, row.maxAttempts))
  }

  ghost predicate IsProcessing(rows: Rows, id: Id) {
    id in rows && rows[id].status == Processing
  }

  lemma OwnershipStep(cfg: Config, s: System, step: Step)
    requires Ownership(s) && Enabled(cfg, s, step)
    ensures Ownership(Next(cfg, s, step))
  {
    if step.Dequeue? {
      OwnershipDequeue(cfg, s, step);
    } else if step.MarkSent? || step.WriteFailure? || step.Abandon? {
      OwnershipFinish(s, Next(cfg, s, step), step.w);
    } else if step.Hold? || step.Release? || step.Purge? {
      OwnershipSweep(cfg, s, step);
    } else {
      OwnershipKept(s, Next(cfg, s, step));
    }
  }

  lemma OwnershipSweep(cfg: Config, s: System, step: Step)
    requires Ownership(s) && Enabled(cfg, s, step) && (step.Hold? || step.Release? || step.Purge?)
    ensures Ownership(Next(cfg, s, step))
  {
    OwnershipKept(s, Next(cfg, s, step));
  }

  /** Steps that leave every batch and every processing row alone. */
  lemma OwnershipKept(s: System, t: System)
    requires Ownership(s)
    requires t.workers.Keys == s.workers.Keys && t.lost == s.lost
    requires forall w <- s.workers :: t.workers[w].batch == s.workers[w].batch
    requires forall w <- s.workers :: t.workers[w].read == s.workers[w].read
               || (s.workers[w].batch != [] && s.workers[w].batch[0] in s.rows
                   && var row := s.rows[s.workers[w].batch[0]];
                      t.workers[w].read == Some(Snapshot(row.attempts, row.maxAttempts)))
    requires forall id :: IsProcessing(s.rows, id) == IsProcessing(t.rows, id)
    requires forall id :: IsProcessing(s.rows, id) ==> IsProcessing(t.rows, id) && t.rows[id] == s.rows[id]
    ensures Ownership(t)
  {
    forall w, id
      ensures HasFront(t, w, id) == HasFront(s, w, id)
    {
    }
    forall id | IsProcessing(t.rows, id)
      ensures id in t.lost || Owned(t, id)
    {
      if id !in s.lost {
        assert IsProcessing(s.rows, id);
        var w :| HasFront(s, w, id);
        assert HasFront(t, w, id);
      }
    }
    forall w | w in t.workers && t.workers[w].batch != []
      ensures IsProcessing(s.rows, t.workers[w].batch[0])
    {
      assert HasFront(s, w, s.workers[w].batch[0]);
    }
  }

  lemma OwnershipDequeue(cfg: Config, s: System, step: Step)
    requires Ownership(s) && Enabled(cfg, s, step) && step.Dequeue?
    ensures Ownership(Next(cfg, s, step))
  {
    var t := Next(cfg, s, step);
    var w, picked := step.w, step.picked;
    forall v, id
      ensures HasFront(t, v, id) <==> (if v == w then id in picked else HasFront(s, v, id))
    {
    }
    forall id | id in t.rows && t.rows[id].status == Processing
      ensures id in t.lost || Owned(t, id)
    {
      if id in picked {
        assert HasFront(t, w, id);
      } else if id !in s.lost {
        var v :| HasFront(s, v, id);
        assert HasFront(t, v, id);
      }
    }
  }

  /** Taking the front message off a batch, and either ending its processing or losing it. */
  lemma OwnershipFinish(s: System, t: System, w: WorkerId)
    requires Ownership(s) && w in s.workers && s.workers[w].batch != []
    requires t.workers == FinishFront(s, w)
    requires var id := s.workers[w].batch[0];
             && id in s.rows && id in t.rows && t.rows == s.rows[id := t.rows[id]]
             && ((t.rows[id].status != Processing && t.lost == s.lost)
                 || (t.rows == s.rows && t.lost == s.lost + {id}))
    ensures Ownership(t)
  {
    var front, rest := s.workers[w].batch[0], s.workers[w].batch[1..];
    assert HasFront(s, w, front);
    assert s.workers[w].batch == [front] + rest && front !in rest;
    forall v, id
      ensures HasFront(t, v, id) <==> HasFront(s, v, id) && id != front
    {
      assert v != w ==> !HasFront(s, v, front);
    }
    forall id | id in t.rows && t.rows[id].status == Processing
      ensures id in t.lost || Owned(t, id)
    {
      if id != front && id !in s.lost {
        var v :| HasFront(s, v, id);
        assert HasFront(t, v, id);
      }
    }
    forall v | v in t.workers && t.workers[v].read.Some?
      ensures t.workers[v].batch != [] && t.workers[v].batch[0] != front
    {
      assert HasFront(s, v, s.workers[v].batch[0]);
    }
  }

  lemma {:induction false} OwnershipAlways(cfg: Config, s: System, steps: seq<Step>, t: System)
    requires Ownership(s) && Reaches(cfg, s, steps, t)
    ensures Ownership(t)
    decreases |steps|
  {
    if steps != [] {
      OwnershipStep(cfg, s, steps[0]);
      OwnershipAlways(cfg, Next(cfg, s, steps[0]), steps[1..], t);
    }
  }

  // ------------------------------------------------- attempts and terminal states

  /** What the history of a row says about its columns. */
  ghost predicate Accounted(row: Row, track: Track) {
    && row.attempts == track.initial + track.Marks()
    && track.delivered == (if row.status == Sent then 1 else 0)
    && row.attempts <= Max(track.initial + 1, row.maxAttempts)
    && (!row.Terminal() ==> track.tries == [] || row.attempts < row.maxAttempts)
    && (row.status == Failed ==> track.tries != [] && row.attempts >= row.maxAttempts)
  }

  ghost predicate Ledger(s: System) {
    && s.tracks.Keys == s.rows.Keys
    && (forall id <- s.rows :: Accounted(s.rows[id], s.tracks[id]))
    && (forall id <- s.rows :: s.tracks[id].birth < s.counts.enqueued)
  }

  function FailedRow(cfg: Config, row: Row, err: string, now: int): Row {
    if row.attempts + 1 >= row.maxAttempts then
      row.(status := Failed, attempts := row.attempts + 1, lastError := err, nextAttempt := now)
    else
      row.(status := Retry, attempts := row.attempts + 1, lastError := err,
           nextAttempt := now + RetryDelay(cfg, row.attempts + 1))
  }

  /** All that a step can do to a row it does not remove. */
  ghost predicate RowMove(cfg: Config, now: int, r: Row, k: Track, r': Row, k': Track) {
    || (r' == r && k' == k)
    || (r.Due(now) && r' == r.(status := Processing, lastAttempt := Some(now)) && k' == k)
    || (r.status == Processing && r' == r.(status := Sent, attempts := r.attempts + 1)
        && k' == k.(delivered := k.delivered + 1))
    || (r.status == Processing && r' == FailedRow(cfg, r, r'.lastError, now)
        && k' == k.Failing(r, now))
    || ((r.status == Pending || r.status == Retry) && r' == r.(status := Held) && k' == k.(everHeld := true))
    || (r.status == Held && r' == r.(status := Pending, nextAttempt := now) && k' == k)
  }

  /** The rows of t and their tracks, seen from s: moved, new, or purged once final. */
  ghost predicate Moved(cfg: Config, s: System, step: Step, t: System) {
    && t.tracks.Keys == t.rows.Keys
    && (forall id <- s.rows :: id in t.rows ==>
          id in s.tracks && RowMove(cfg, s.now, s.rows[id], s.tracks[id], t.rows[id], t.tracks[id]))
    && (forall id <- t.rows :: id !in s.rows ==>
          step.Enqueue? && step.id == id && t.rows[id] == NewRow(cfg, step.message, s.now)
          && t.tracks[id] == Track(s.counts.enqueued, step.message.attempts, [], 0, false)
          && t.counts.enqueued == s.counts.enqueued + 1)
    && (forall id <- s.rows :: id !in t.rows ==> step.Purge? && s.rows[id].Terminal())
  }

  lemma MovedByWorker(cfg: Config, s: System, step: Step)
    requires Ownership(s) && s.tracks.Keys == s.rows.Keys && Enabled(cfg, s, step)
    requires step.MarkSent? || step.ReadForFailure? || step.WriteFailure? || step.Abandon?
    ensures Moved(cfg, s, step, Next(cfg, s, step))
  {
    assert HasFront(s, step.w, s.workers[step.w].batch[0]);
  }

  lemma MovedByQueue(cfg: Config, s: System, step: Step)
    requires s.tracks.Keys == s.rows.Keys && Enabled(cfg, s, step)
    requires step.Dequeue? || step.Hold? || step.Release? || step.Purge?
    ensures Moved(cfg, s, step, Next(cfg, s, step))
  {
  }

  lemma MovedByStep(cfg: Config, s: System, step: Step)
    requires Ownership(s) && s.tracks.Keys == s.rows.Keys && Enabled(cfg, s, step)
    ensures Moved(cfg, s, step, Next(cfg, s, step))
  {
    if step.MarkSent? || step.ReadForFailure? || step.WriteFailure? || step.Abandon? {
      MovedByWorker(cfg, s, step);
    } else if step.Dequeue? || step.Hold? || step.Release? || step.Purge? {
      MovedByQueue(cfg, s, step);
    }
  }

  lemma LedgerStep(cfg: Config, s: System, step: Step)
    requires Ownership(s) && Ledger(s) && Enabled(cfg, s, step)
    ensures Ledger(Next(cfg, s, step))
  {
    var t := Next(cfg, s, step);
    MovedByStep(cfg, s, step);
    forall id | id in t.rows
      ensures Accounted(t.rows[id], t.tracks[id]) && t.tracks[id].birth < t.counts.enqueued
    {
      if id in s.rows {
        AccountedMove(cfg, s.now, s.rows[id], s.tracks[id], t.rows[id], t.tracks[id]);
        assert t.tracks[id].birth == s.tracks[id].birth;
      }
    }
  }

  lemma AccountedMove(cfg: Config, now: int, r: Row, k: Track, r': Row, k': Track)
    requires Accounted(r, k) && RowMove(cfg, now, r, k, r', k')
    ensures Accounted(r', k')
  {
  }

  function WithStatus(rows: Rows, status: Status): set<Id> {
    set id | id in rows && rows[id].status == status
  }

  /** Every message ever accepted is still here or was purged, and every delivery and every final failure
      belongs to one row that is, or was, in that final state. */
  ghost predicate Conserved(s: System) {
    && s.counts.enqueued == |s.rows.Keys| + s.counts.purgedSent + s.counts.purgedFailed
    && s.counts.delivered == |WithStatus(s.rows, Sent)| + s.counts.purgedSent
    && s.counts.failed == |WithStatus(s.rows, Failed)| + s.counts.purgedFailed
  }

  lemma ConservedStep(cfg: Config, s: System, step: Step)
    requires Ownership(s) && Conserved(s) && Enabled(cfg, s, step)
    ensures Conserved(Next(cfg, s, step))
  {
    if step.Purge? {
      ConservedPurge(cfg, s, step);
    } else if step.MarkSent? || step.WriteFailure? {
      ConservedMark(cfg, s, step);
    } else if step.Enqueue? {
      ConservedEnqueue(cfg, s, step);
    } else if step.Dequeue? {
      ConservedDequeue(cfg, s, step);
    } else if step.Hold? {
      ConservedHold(cfg, s, step);
    } else if step.Release? {
      ConservedRelease(cfg, s, step);
    } else {
      ConservedIdle(cfg, s, step);
    }
  }

  lemma ConservedIdle(cfg: Config, s: System, step: Step)
    requires Conserved(s) && Enabled(cfg, s, step)
    requires step.Tick? || step.ReadForFailure? || step.Callback? || step.SkipCallback? || step.Abandon?
    ensures Conserved(Next(cfg, s, step))
  {
  }

  lemma ConservedEnqueue(cfg: Config, s: System, step: Step)
    requires Conserved(s) && Enabled(cfg, s, step) && step.Enqueue?
    ensures Conserved(Next(cfg, s, step))
  {
    var rows := s.rows[step.id := NewRow(cfg, step.message, s.now)];
    assert rows.Keys == s.rows.Keys + {step.id};
    SameFinal(s.rows, rows);
  }

  /** The statements that rewrite many rows touch no final one. */
  lemma ConservedDequeue(cfg: Config, s: System, step: Step)
    requires Conserved(s) && Enabled(cfg, s, step) && step.Dequeue?
    ensures Conserved(Next(cfg, s, step))
  {
    ConservedRewrite(s, Next(cfg, s, step));
  }

  lemma HeldRewrite(rows: Rows, sender: Pubkey)
    ensures HeldFor(rows, sender).Keys == rows.Keys
    ensures forall id <- rows :: HeldFor(rows, sender)[id] == rows[id]
              || !(HeldFor(rows, sender)[id].Terminal() || rows[id].Terminal())
  {
  }

  lemma ConservedHold(cfg: Config, s: System, step: Step)
    requires Conserved(s) && Enabled(cfg, s, step) && step.Hold?
    ensures Conserved(Next(cfg, s, step))
  {
    HeldRewrite(s.rows, step.sender);
    ConservedRewrite(s, Next(cfg, s, step));
  }

  lemma ConservedRelease(cfg: Config, s: System, step: Step)
    requires Conserved(s) && Enabled(cfg, s, step) && step.Release?
    ensures Conserved(Next(cfg, s, step))
  {
    ConservedRewrite(s, Next(cfg, s, step));
  }

  lemma ConservedRewrite(s: System, t: System)
    requires Conserved(s) && t.rows.Keys == s.rows.Keys && t.counts == s.counts
    requires forall id <- s.rows :: t.rows[id] == s.rows[id] || !(t.rows[id].Terminal() || s.rows[id].Terminal())
    ensures Conserved(t)
  {
    SameFinal(s.rows, t.rows);
  }

  lemma ConservedMark(cfg: Config, s: System, step: Step)
    requires Ownership(s) && Conserved(s) && Enabled(cfg, s, step) && (step.MarkSent? || step.WriteFailure?)
    ensures Conserved(Next(cfg, s, step))
  {
    var t := Next(cfg, s, step);
    var id := s.workers[step.w].batch[0];
    assert HasFront(s, step.w, id);
    assert t.rows == s.rows[id := t.rows[id]];
    assert t.rows.Keys == s.rows.Keys;
    RewriteStatus(s.rows, id, t.rows[id], Sent);
    RewriteStatus(s.rows, id, t.rows[id], Failed);
  }

  /** Rewriting one row that was not final. */
  lemma RewriteStatus(rows: Rows, id: Id, row: Row, status: Status)
    requires id in rows && rows[id].status != status
    ensures |WithStatus(rows[id := row], status)|
            == |WithStatus(rows, status)| + (if row.status == status then 1 else 0)
  {
    if row.status == status {
      assert WithStatus(rows[id := row], status) == WithStatus(rows, status) + {id};
    } else {
      assert WithStatus(rows[id := row], status) == WithStatus(rows, status);
    }
  }

  lemma SameFinal(rows: Rows, rows': Rows)
    requires forall id :: id in rows && rows[id].Terminal() ==> id in rows' && rows'[id] == rows[id]
    requires forall id :: id in rows' && rows'[id].Terminal() ==> id in rows && rows'[id] == rows[id]
    ensures WithStatus(rows', Sent) == WithStatus(rows, Sent)
    ensures WithStatus(rows', Failed) == WithStatus(rows, Failed)
  {
    forall status | status == Sent || status == Failed
      ensures WithStatus(rows', status) == WithStatus(rows, status)
    {
      forall id ensures id in WithStatus(rows', status) <==> id in WithStatus(rows, status) {
      }
    }
  }

  lemma PurgedStatus(rows: Rows, cutoff: int, status: Status)
    requires status == Sent || status == Failed
    ensures |WithStatus(rows, status)|
            == |WithStatus(Purged(rows, cutoff), status)| + |Expired(rows, status, cutoff)|
  {
    SplitCount(WithStatus(rows, status), WithStatus(Purged(rows, cutoff), status), Expired(rows, status, cutoff));
  }

  lemma PurgedKeys(rows: Rows, cutoff: int)
    ensures |rows.Keys|
            == |Purged(rows, cutoff).Keys| + |Expired(rows, Sent, cutoff)| + |Expired(rows, Failed, cutoff)|
  {
    var sent := Expired(rows, Sent, cutoff);
    var failed := Expired(rows, Failed, cutoff);
    SplitCount(sent + failed, sent, failed);
    SplitCount(rows.Keys, Purged(rows, cutoff).Keys, sent + failed);
  }

  lemma ConservedAfterPurge(s: System, olderThan: int)
    requires Conserved(s)
    ensures Conserved(AfterPurge(s, olderThan))
  {
    var cutoff := Cutoff(s, olderThan);
    PurgedKeys(s.rows, cutoff);
    PurgedStatus(s.rows, cutoff, Sent);
    PurgedStatus(s.rows, cutoff, Failed);
  }

  lemma ConservedPurge(cfg: Config, s: System, step: Step)
    requires Conserved(s) && Enabled(cfg, s, step) && step.Purge?
    ensures Conserved(Next(cfg, s, step))
  {
    ConservedAfterPurge(s, step.olderThan);
  }

  // ------------------------------------------------------------------ callbacks

  ghost predicate IsDue(c: Calls, birth: nat) {
    exists w :: w in c.due && c.due[w].birth == birth
  }

  /** The message of this birth has failed for good: its call was made, is due, or was missed. */
  ghost predicate Settled(c: Calls, birth: nat) {
    birth in c.made || birth in c.missed || IsDue(c, birth)
  }

  /** No message is called back twice, or has its call in two of the three places. */
  ghost predicate NoneTwice(c: Calls, births: nat) {
    && (forall b :: c.made[b] <= 1)
    && (forall b <- c.made :: b < births && b !in c.missed)
    && (forall b <- c.missed :: b < births)
    && (forall w <- c.due :: c.due[w].birth < births && c.due[w].birth !in c.made && c.due[w].birth !in c.missed)
    && (forall w, v :: w in c.due && v in c.due && c.due[w].birth == c.due[v].birth ==> w == v)
  }

  ghost predicate OwnBirths(tracks: map<Id, Track>) {
    forall id, id' :: id in tracks && id' in tracks && tracks[id].birth == tracks[id'].birth ==> id == id'
  }

  function Tally(c: Calls): nat {
    |c.made| + |c.due.Keys| + |c.missed|
  }

  /** Exactly the failed messages have a call, and each has one: made, due, or missed by its worker. */
  ghost predicate Called(s: System) {
    && NoneTwice(s.calls, s.counts.enqueued)
    && OwnBirths(s.tracks)
    && (forall id <- s.rows :: id in s.tracks && (s.rows[id].status == Failed <==> Settled(s.calls, s.tracks[id].birth)))
    && s.counts.failed == Tally(s.calls)
  }

  lemma CalledStep(cfg: Config, s: System, step: Step)
    requires Ownership(s) && Ledger(s) && Called(s) && Enabled(cfg, s, step)
    ensures Called(Next(cfg, s, step))
  {
    if step.Callback? {
      CalledCallback(s, step.w);
    } else if step.SkipCallback? {
      CalledSkip(s, step.w);
    } else if step.Enqueue? {
      CalledEnqueue(cfg, s, step);
    } else if step.WriteFailure? {
      CalledWrite(cfg, s, step);
    } else {
      StatusKept(cfg, s, step);
      CalledKept(s, Next(cfg, s, step));
    }
  }

  /** The other steps fail no message and call nothing. */
  lemma StatusKept(cfg: Config, s: System, step: Step)
    requires Ownership(s) && Ledger(s) && Enabled(cfg, s, step)
    requires !step.Callback? && !step.SkipCallback? && !step.Enqueue? && !step.WriteFailure?
    ensures SameCalls(s, Next(cfg, s, step))
  {
    if step.MarkSent? || step.Abandon? || step.ReadForFailure? {
      StatusKeptByWorker(cfg, s, step);
    } else if step.Hold? {
      StatusKeptByHold(cfg, s, step);
    }
  }

  lemma StatusKeptByHold(cfg: Config, s: System, step: Step)
    requires s.tracks.Keys == s.rows.Keys && Enabled(cfg, s, step) && step.Hold?
    ensures SameCalls(s, Next(cfg, s, step))
  {
  }

  lemma StatusKeptByWorker(cfg: Config, s: System, step: Step)
    requires Ownership(s) && Ledger(s) && Enabled(cfg, s, step)
    requires step.MarkSent? || step.Abandon? || step.ReadForFailure?
    ensures SameCalls(s, Next(cfg, s, step))
  {
    assert HasFront(s, step.w, s.workers[step.w].batch[0]);
  }

  ghost predicate SameCalls(s: System, t: System) {
    && t.calls == s.calls && t.counts.enqueued == s.counts.enqueued && t.counts.failed == s.counts.failed
    && (forall id <- t.tracks :: id in s.tracks && t.tracks[id].birth == s.tracks[id].birth)
    && (forall id <- t.rows :: id in s.rows && id in t.tracks
                              && (t.rows[id].status == Failed <==> s.rows[id].status == Failed))
  }

  lemma CalledKept(s: System, t: System)
    requires Called(s) && SameCalls(s, t)
    ensures Called(t)
  {
  }

  lemma CalledEnqueue(cfg: Config, s: System, step: Step)
    requires Ledger(s) && Called(s) && Enabled(cfg, s, step) && step.Enqueue?
    ensures Called(Next(cfg, s, step))
  {
  }

  /** Taking a worker's due call away. */
  lemma DueTaken(c: Calls, w: WorkerId, c': Calls)
    requires w in c.due && c'.due == c.due - {w}
    requires forall v :: v in c.due && c.due[v].birth == c.due[w].birth ==> v == w
    ensures |c'.due.Keys| == |c.due.Keys| - 1
    ensures forall b :: IsDue(c, b) <==> IsDue(c', b) || b == c.due[w].birth
    ensures !IsDue(c', c.due[w].birth)
  {
    assert c'.due.Keys == c.due.Keys - {w};
    forall b ensures IsDue(c, b) <==> IsDue(c', b) || b == c.due[w].birth {
      if v :| v in c.due && c.due[v].birth == b {
        assert v != w ==> v in c'.due;
      }
    }
  }

  lemma CalledCallback(s: System, w: WorkerId)
    requires Called(s) && w in s.calls.due
    ensures Called(AfterCallback(s, w))
  {
    var c, c' := s.calls, AfterCallback(s, w).calls;
    DueTaken(c, w, c');
    CalledAgain(s, c');
  }

  lemma CalledSkip(s: System, w: WorkerId)
    requires Called(s) && w in s.calls.due
    ensures Called(AfterSkip(s, w))
  {
    var c, c' := s.calls, AfterSkip(s, w).calls;
    DueTaken(c, w, c');
    CalledAgain(s, c');
  }

  /** The place of a call does not matter. */
  lemma CalledAgain(s: System, c: Calls)
    requires Called(s) && NoneTwice(c, s.counts.enqueued) && Tally(c) == Tally(s.calls)
    requires forall b :: Settled(c, b) <==> Settled(s.calls, b)
    ensures Called(System(s.now, s.rows, s.workers, s.lost, s.tracks, s.counts, c))
  {
  }

  lemma DueAdded(c: Calls, w: WorkerId, due: Due)
    requires w !in c.due
    ensures |Owing(c, w, due).due.Keys| == |c.due.Keys| + 1
    ensures forall b :: IsDue(Owing(c, w, due), b) <==> IsDue(c, b) || b == due.birth
  {
    var c' := Owing(c, w, due);
    assert c'.due.Keys == c.due.Keys + {w};
    assert c'.due[w].birth == due.birth;
    forall b ensures IsDue(c', b) <==> IsDue(c, b) || b == due.birth {
      if v :| v in c.due && c.due[v].birth == b {
        assert v in c'.due && c'.due[v].birth == b;
      }
    }
  }

  lemma OwingOnce(c: Calls, w: WorkerId, due: Due, births: nat)
    requires NoneTwice(c, births) && w !in c.due && due.birth < births && !Settled(c, due.birth)
    ensures NoneTwice(Owing(c, w, due), births)
  {
    var c' := Owing(c, w, due);
    forall v | v in c'.due && v != w ensures c'.due[v] == c.due[v] && c.due[v].birth != due.birth {
      assert v in c.due && IsDue(c, c.due[v].birth);
    }
  }

  /** What the UPDATE of MarkFailed does, seen from the callbacks: it may fail one message, no other. */
  ghost predicate FailsOne(s: System, t: System, w: WorkerId, id: Id) {
    && id in s.rows && id in s.tracks && s.rows[id].status == Processing
    && t.counts.enqueued == s.counts.enqueued
    && (forall other <- t.tracks :: other in s.tracks && t.tracks[other].birth == s.tracks[other].birth)
    && (forall other <- t.rows :: other in s.rows && other in t.tracks)
    && (forall other <- t.rows :: other != id ==> t.rows[other].status == s.rows[other].status)
    && id in t.rows && (t.rows[id].status == Failed <==> LastTry(s.rows[id]))
    && t.counts.failed == s.counts.failed + (if LastTry(s.rows[id]) then 1 else 0)
    && (if LastTry(s.rows[id])
        then exists due: Due :: due.birth == s.tracks[id].birth && t.calls == Owing(s.calls, w, due)
        else t.calls == s.calls)
  }

  lemma WriteFailsOne(cfg: Config, s: System, step: Step)
    requires Ownership(s) && Ledger(s) && Enabled(cfg, s, step) && step.WriteFailure?
    ensures FailsOne(s, Next(cfg, s, step), step.w, s.workers[step.w].batch[0])
  {
    assert HasFront(s, step.w, s.workers[step.w].batch[0]);
  }

  lemma CalledWrite(cfg: Config, s: System, step: Step)
    requires Ownership(s) && Ledger(s) && Called(s) && Enabled(cfg, s, step) && step.WriteFailure?
    ensures Called(Next(cfg, s, step))
  {
    var t, id := Next(cfg, s, step), s.workers[step.w].batch[0];
    WriteFailsOne(cfg, s, step);
    if LastTry(s.rows[id]) {
      var due: Due :| due.birth == s.tracks[id].birth && t.calls == Owing(s.calls, step.w, due);
      CalledFinal(s, t, step.w, id, due);
    } else {
      CalledKept(s, t);
    }
  }

  lemma CalledFinal(s: System, t: System, w: WorkerId, id: Id, due: Due)
    requires Called(s) && FailsOne(s, t, w, id) && w !in s.calls.due && due.birth < s.counts.enqueued
    requires LastTry(s.rows[id]) && due.birth == s.tracks[id].birth && t.calls == Owing(s.calls, w, due)
    ensures Called(t)
  {
    OwingOnce(s.calls, w, due, s.counts.enqueued);
    DueAdded(s.calls, w, due);
    assert OwnBirths(t.tracks);
    forall other | other in t.rows
      ensures t.rows[other].status == Failed <==> Settled(t.calls, t.tracks[other].birth)
    {
      assert Settled(t.calls, t.tracks[other].birth)
             <==> Settled(s.calls, s.tracks[other].birth) || s.tracks[other].birth == due.birth;
    }
  }

  /** Whatever workers do and wherever they stop, no message is called back twice, none that has not failed
      is called back at all, and a failed one is called back exactly once, unless its worker is still about
      to or stopped just before. */
  lemma CallbackOnce(cfg: Config, s: System, steps: seq<Step>, t: System, id: Id)
    requires Initial(s) && Reaches(cfg, s, steps, t) && id in t.rows
    ensures id in t.tracks
    ensures var b := t.tracks[id].birth;
            t.calls.made[b] == if t.rows[id].status == Failed && !IsDue(t.calls, b) && b !in t.calls.missed then 1 else 0
    ensures t.counts.failed == |t.calls.made| + |t.calls.due.Keys| + |t.calls.missed|
  {
    InvReachable(cfg, s, steps, t);
  }

  // ------------------------------------------------------------------- backoff

  /** The instants of a row that was never held: tries do not overlap, and every failed try but the
      last was followed by its full retry delay before the next dequeue. */
  ghost predicate Spaced(cfg: Config, row: Row, track: Track, now: int) {
    var n := |track.tries|;
    && (forall k :: 0 <= k < n ==> track.tries[k].dequeuedAt <= track.tries[k].failedAt <= now)
    && (forall k :: 0 < k < n ==>
          track.tries[k].dequeuedAt >= track.tries[k - 1].failedAt + RetryDelay(cfg, track.initial + k))
    && (row.status == Pending ==> n == 0)
    && (row.status == Retry ==>
          n > 0 && row.nextAttempt == track.tries[n - 1].failedAt + RetryDelay(cfg, track.initial + n))
    && (row.status == Processing ==>
          && row.lastAttempt.Some? && row.lastAttempt.value <= now
          && (n > 0 ==>
                row.lastAttempt.value >= track.tries[n - 1].failedAt + RetryDelay(cfg, track.initial + n)))
    && row.status != Held
  }

  ghost predicate Backoff(cfg: Config, s: System) {
    forall id <- s.rows :: id in s.tracks &&
      (s.tracks[id].everHeld || Spaced(cfg, s.rows[id], s.tracks[id], s.now))
  }

  lemma BackoffStep(cfg: Config, s: System, step: Step)
    requires Ownership(s) && Ledger(s) && Backoff(cfg, s) && Enabled(cfg, s, step)
    ensures Backoff(cfg, Next(cfg, s, step))
  {
    var t := Next(cfg, s, step);
    MovedByStep(cfg, s, step);
    forall id | id in t.rows
      ensures id in t.tracks && (t.tracks[id].everHeld || Spaced(cfg, t.rows[id], t.tracks[id], t.now))
    {
      if id in s.rows {
        SpacedMove(cfg, s.now, s.rows[id], s.tracks[id], t.rows[id], t.tracks[id], t.now);
      }
    }
  }

  lemma SpacedMove(cfg: Config, now: int, r: Row, k: Track, r': Row, k': Track, later: int)
    requires Accounted(r, k) && RowMove(cfg, now, r, k, r', k') && now <= later
    requires k.everHeld || Spaced(cfg, r, k, now)
    ensures k'.everHeld || Spaced(cfg, r', k', later)
  {
  }

  // ------------------------------------------------------------ the whole invariant

  ghost predicate Inv(cfg: Config, s: System) {
    Ownership(s) && Ledger(s) && Conserved(s) && Called(s) && Backoff(cfg, s)
  }

  lemma {:induction false} InvAlways(cfg: Config, s: System, steps: seq<Step>, t: System)
    requires Inv(cfg, s) && Reaches(cfg, s, steps, t)
    ensures Inv(cfg, t)
    decreases |steps|
  {
    if steps != [] {
      OwnershipStep(cfg, s, steps[0]);
      LedgerStep(cfg, s, steps[0]);
      ConservedStep(cfg, s, steps[0]);
      CalledStep(cfg, s, steps[0]);
      BackoffStep(cfg, s, steps[0]);
      InvAlways(cfg, Next(cfg, s, steps[0]), steps[1..], t);
    }
  }

  lemma InitialInv(cfg: Config, s: System)
    requires Initial(s)
    ensures Inv(cfg, s)
  {
  }

  lemma InvReachable(cfg: Config, s: System, steps: seq<Step>, t: System)
    requires Initial(s) && Reaches(cfg, s, steps, t)
    ensures Inv(cfg, t)
  {
    InitialInv(cfg, s);
    InvAlways(cfg, s, steps, t);
  }

  lemma ConservedReachable(cfg: Config, s: System, steps: seq<Step>, t: System)
    requires Initial(s) && Reaches(cfg, s, steps, t)
    ensures Conserved(t)
  {
    InvReachable(cfg, s, steps, t);
  }

  lemma BackoffReachable(cfg: Config, s: System, steps: seq<Step>, t: System)
    requires Initial(s) && Reaches(cfg, s, steps, t)
    ensures Ledger(t) && Backoff(cfg, t)
  {
    InvReachable(cfg, s, steps, t);
  }

  // ------------------------------------------------------- what every run keeps

  /** MarkFailed reads and writes in two statements, yet writes what one atomic statement would. */
  lemma SplitFailureIsAtomic(cfg: Config, s: System, step: Step)
    requires Ownership(s) && Enabled(cfg, s, step) && step.WriteFailure?
    ensures var id := s.workers[step.w].batch[0];
            && Next(cfg, s, step).rows == s.rows[id := FailedRow(cfg, s.rows[id], step.err, s.now)]
            && Next(cfg, s, step).rows[id].attempts == s.rows[id].attempts + 1
            && (forall w <- s.workers :: id in s.workers[w].batch ==> w == step.w)
  {
    var id := s.workers[step.w].batch[0];
    assert HasFront(s, step.w, id);
    forall w | w in s.workers && id in s.workers[w].batch
      ensures w == step.w
    {
      assert HasFront(s, w, id);
    }
  }

  /** The message of s under this id is still the one under it in t. */
  ghost predicate Survives(s: System, t: System, id: Id) {
    id in s.tracks && id in t.rows && id in t.tracks && t.tracks[id].birth == s.tracks[id].birth
  }

  ghost predicate Lives(r: Row, k: Track, r': Row, k': Track) {
    && r'.envelope == r.envelope && r'.maxAttempts == r.maxAttempts && r'.createdAt == r.createdAt
    && k'.initial == k.initial
    && r.attempts <= r'.attempts
    && (r.Terminal() ==> r' == r && k' == k)
  }

  lemma {:induction false} NewcomersAreYounger(cfg: Config, s: System, steps: seq<Step>, t: System, id: Id,
                                                 bound: nat)
    requires Ownership(s) && Ledger(s) && Reaches(cfg, s, steps, t)
    requires id in t.rows && (id !in s.rows || s.tracks[id].birth >= bound) && bound <= s.counts.enqueued
    ensures id in t.tracks && t.tracks[id].birth >= bound
    decreases |steps|
  {
    if steps != [] {
      var u := Next(cfg, s, steps[0]);
      MovedByStep(cfg, s, steps[0]);
      OwnershipStep(cfg, s, steps[0]);
      LedgerStep(cfg, s, steps[0]);
      NewcomersAreYounger(cfg, u, steps[1..], t, id, bound);
    }
  }

  /** Along any run, what was sent stays what was queued: envelope, limits and creation time of a
      message never change, its attempts never fall, and nothing rewrites it once sent or failed. */
  lemma {:induction false} RowLife(cfg: Config, s: System, steps: seq<Step>, t: System, id: Id)
    requires Ownership(s) && Ledger(s) && Reaches(cfg, s, steps, t) && id in s.rows
    ensures Survives(s, t, id) ==> Lives(s.rows[id], s.tracks[id], t.rows[id], t.tracks[id])
    ensures (forall step <- steps :: !step.Purge?) ==> Survives(s, t, id)
    decreases |steps|
  {
    if steps != [] {
      var u := Next(cfg, s, steps[0]);
      MovedByStep(cfg, s, steps[0]);
      OwnershipStep(cfg, s, steps[0]);
      LedgerStep(cfg, s, steps[0]);
      if id in u.rows {
        LivesMove(cfg, s.now, s.rows[id], s.tracks[id], u.rows[id], u.tracks[id]);
        RowLife(cfg, u, steps[1..], t, id);
      } else if id in t.rows {
        NewcomersAreYounger(cfg, u, steps[1..], t, id, u.counts.enqueued);
      }
    }
  }

  lemma LivesMove(cfg: Config, now: int, r: Row, k: Track, r': Row, k': Track)
    requires RowMove(cfg, now, r, k, r', k')
    ensures Lives(r, k, r', k') && k'.birth == k.birth
  {
  }

  /** A held message stays exactly as it is until its own sender is released. */
  lemma {:induction false} HeldUntilReleased(cfg: Config, s: System, steps: seq<Step>, t: System, id: Id)
    requires Ownership(s) && Ledger(s) && Reaches(cfg, s, steps, t)
    requires id in s.rows && s.rows[id].status == Held
    requires forall step <- steps :: step.Release? ==> !s.rows[id].SentBy(step.sender)
    ensures id in t.rows && t.rows[id] == s.rows[id] && id in t.tracks && t.tracks[id] == s.tracks[id]
    decreases |steps|
  {
    if steps != [] {
      HeldStep(cfg, s, steps[0], id);
      MovedByStep(cfg, s, steps[0]);
      OwnershipStep(cfg, s, steps[0]);
      LedgerStep(cfg, s, steps[0]);
      HeldUntilReleased(cfg, Next(cfg, s, steps[0]), steps[1..], t, id);
    }
  }

  ghost predicate Same(s: System, t: System, id: Id) {
    id in s.rows && id in t.rows && t.rows[id] == s.rows[id]
    && id in s.tracks && id in t.tracks && t.tracks[id] == s.tracks[id]
  }

  lemma HeldStep(cfg: Config, s: System, step: Step, id: Id)
    requires Ownership(s) && Ledger(s) && Enabled(cfg, s, step)
    requires id in s.rows && s.rows[id].status == Held
    requires step.Release? ==> !s.rows[id].SentBy(step.sender)
    ensures Same(s, Next(cfg, s, step), id)
  {
    if step.MarkSent? || step.ReadForFailure? || step.WriteFailure? || step.Abandon? {
      assert HasFront(s, step.w, s.workers[step.w].batch[0]);
    } else if step.Dequeue? || step.Hold? || step.Release? || step.Purge? {
      HeldByQueue(cfg, s, step, id);
    }
  }

  lemma HeldByQueue(cfg: Config, s: System, step: Step, id: Id)
    requires s.tracks.Keys == s.rows.Keys && Enabled(cfg, s, step)
    requires step.Dequeue? || step.Hold? || step.Release? || step.Purge?
    requires id in s.rows && s.rows[id].status == Held
    requires step.Release? ==> !s.rows[id].SentBy(step.sender)
    ensures Same(s, Next(cfg, s, step), id)
  {
  }

  /** The hold of a message that waits, and the release of one that is held. */
  lemma HoldParks(cfg: Config, s: System, hold: Step, id: Id)
    requires hold.Hold? && id in s.rows && s.rows[id].SentBy(hold.sender)
    requires s.rows[id].status == Pending || s.rows[id].status == Retry
    ensures var t := Next(cfg, s, hold); id in t.rows && t.rows[id] == s.rows[id].(status := Held)
  {
  }

  lemma ReleaseFrees(cfg: Config, s: System, release: Step, id: Id)
    requires release.Release? && id in s.rows && s.rows[id].SentBy(release.sender) && s.rows[id].status == Held
    ensures var t := Next(cfg, s, release);
            id in t.rows && t.rows[id] == s.rows[id].(status := Pending, nextAttempt := s.now)
  {
  }

  /** Hold, then anything but a release of the same sender, then release: the message is what it
      was before the hold, due at once. */
  lemma HoldThenRelease(cfg: Config, s: System, hold: Step, between: seq<Step>, u: System, release: Step, id: Id)
    requires Ownership(s) && Ledger(s) && hold.Hold? && release.Release? && hold.sender == release.sender
    requires Reaches(cfg, Next(cfg, s, hold), between, u)
    requires forall step <- between :: step.Release? ==> step.sender != hold.sender
    requires id in s.rows && s.rows[id].SentBy(hold.sender)
    requires s.rows[id].status == Pending || s.rows[id].status == Retry
    ensures var t := Next(cfg, u, release);
            id in t.rows && t.rows[id] == s.rows[id].(status := Pending, nextAttempt := u.now)
  {
    var held := Next(cfg, s, hold);
    HoldParks(cfg, s, hold, id);
    assert Ownership(held) && Ledger(held) by {
      StepKeeps(cfg, s, hold);
    }
    HeldUntilReleased(cfg, held, between, u, id);
    ReleaseFrees(cfg, u, release, id);
  }

  /** Nothing takes a lost message up again: it stays processing, unchanged, for ever. */
  lemma {:induction false} LostForEver(cfg: Config, s: System, steps: seq<Step>, t: System, id: Id)
    requires Ownership(s) && Ledger(s) && Reaches(cfg, s, steps, t) && id in s.lost
    ensures id in t.lost && id in t.rows && t.rows[id] == s.rows[id] && t.rows[id].status == Processing
    decreases |steps|
  {
    if steps != [] {
      LostStep(cfg, s, steps[0], id);
      OwnershipStep(cfg, s, steps[0]);
      LedgerStep(cfg, s, steps[0]);
      LostForEver(cfg, Next(cfg, s, steps[0]), steps[1..], t, id);
    }
  }

  lemma LostStep(cfg: Config, s: System, step: Step, id: Id)
    requires Ownership(s) && Ledger(s) && Enabled(cfg, s, step) && id in s.lost
    ensures var t := Next(cfg, s, step); id in t.lost && id in t.rows && t.rows[id] == s.rows[id]
  {
    if step.MarkSent? || step.WriteFailure? {
      assert HasFront(s, step.w, s.workers[step.w].batch[0]);
    }
  }

  /** What a worker does next for its front message; a delivery that failed is marked with no error text. */
  function NextOf(s: System, w: WorkerId): Step
    requires w in s.workers
  {
    if w in s.calls.due then Callback(w)
    else if s.workers[w].read.Some? then WriteFailure(w, "")
    else MarkSent(w)
  }

  /** A worker that goes on comes to every message of its batch. */
  lemma {:induction false} WorkerGetsThere(cfg: Config, s: System, w: WorkerId, id: Id)
    returns (steps: seq<Step>, t: System)
    requires Ownership(s) && HasFront(s, w, id)
    ensures Reaches(cfg, s, steps, t) && id in t.rows && t.rows[id].status != Processing
    decreases |s.workers[w].batch|, if w in s.calls.due then 1 else 0
  {
    var step, front := NextOf(s, w), s.workers[w].batch[0];
    assert HasFront(s, w, front);
    var u := Next(cfg, s, step);
    OwnershipStep(cfg, s, step);
    ReachesBy(cfg, s, step);
    if step.Callback? || front != id {
      assert HasFront(u, w, id);
      steps, t := WorkerGetsThere(cfg, u, w, id);
      ReachesOn(cfg, s, [step], u, steps, t);
      steps := [step] + steps;
    } else {
      steps, t := [step], u;
    }
  }

  ghost predicate GetsOut(cfg: Config, s: System, id: Id, steps: seq<Step>, t: System) {
    Reaches(cfg, s, steps, t) && !IsProcessing(t.rows, id)
  }

  /** A processing message can still leave that state exactly when it was not lost. */
  lemma LeavesUnlessLost(cfg: Config, s: System, id: Id)
    requires Ownership(s) && Ledger(s) && IsProcessing(s.rows, id)
    ensures (exists steps, t :: GetsOut(cfg, s, id, steps, t)) <==> id !in s.lost
  {
    if id in s.lost {
      forall steps, t | Reaches(cfg, s, steps, t) ensures !GetsOut(cfg, s, id, steps, t) {
        LostForEver(cfg, s, steps, t, id);
      }
    } else {
      assert Owned(s, id);
      var w :| HasFront(s, w, id);
      var steps, t := WorkerGetsThere(cfg, s, w, id);
      assert GetsOut(cfg, s, id, steps, t);
    }
  }

  /** Of the messages ever accepted, each is waiting, being delivered, held, final or purged. */
  lemma NothingVanishes(cfg: Config, s: System, steps: seq<Step>, t: System)
    requires Initial(s) && Reaches(cfg, s, steps, t)
    ensures var live := set id | id in t.rows && !t.rows[id].Terminal();
            t.counts.enqueued == |live| + |WithStatus(t.rows, Sent)| + |WithStatus(t.rows, Failed)|
                                 + t.counts.purgedSent + t.counts.purgedFailed
    ensures t.counts.failed == |WithStatus(t.rows, Failed)| + t.counts.purgedFailed
  {
    ConservedReachable(cfg, s, steps, t);
    var live := set id | id in t.rows && !t.rows[id].Terminal();
    var sent, failed := WithStatus(t.rows, Sent), WithStatus(t.rows, Failed);
    SplitCount(sent + failed, sent, failed);
    SplitCount(t.rows.Keys, live, sent + failed);
  }

  /** The sum of the delays after failed attempts `from`, ..., `to - 1`. */
  function DelaySum(cfg: Config, from: int, to: int): int
    decreases to - from
  {
    if from >= to then 0 else DelaySum(cfg, from, to - 1) + RetryDelay(cfg, to - 1)
  }

  lemma {:induction false} TriesSpread(cfg: Config, row: Row, track: Track, now: int, k: nat)
    requires Spaced(cfg, row, track, now) && k < |track.tries|
    ensures track.tries[k].dequeuedAt - track.tries[0].dequeuedAt
            >= DelaySum(cfg, track.initial + 1, track.initial + 1 + k)
  {
    if k > 0 {
      TriesSpread(cfg, row, track, now, k - 1);
    }
  }

  /** A message that was never held and failed for good used up its tries, and they were spread
      over at least the sum of the delays between them. */
  lemma FailedOnlyAfterBackoff(cfg: Config, s: System, steps: seq<Step>, t: System, id: Id)
    requires Initial(s) && Reaches(cfg, s, steps, t)
    requires id in t.rows && t.rows[id].status == Failed && id in t.tracks && !t.tracks[id].everHeld
    ensures var row, track, n := t.rows[id], t.tracks[id], |t.tracks[id].tries|;
            && row.attempts == Max(track.initial + 1, row.maxAttempts) == track.initial + n
            && track.tries[n - 1].dequeuedAt - track.tries[0].dequeuedAt
               >= DelaySum(cfg, track.initial + 1, row.attempts)
  {
    BackoffReachable(cfg, s, steps, t);
    TriesSpread(cfg, t.rows[id], t.tracks[id], t.now, |t.tracks[id].tries| - 1);
  }

  /** With the default schedule that is 81 minutes. */
  lemma DefaultBackoff()
    ensures DelaySum(DEFAULT_CONFIG, 1, DEFAULT_CONFIG.maxAttempts) == 81 * MINUTE
  {
    assert DelaySum(DEFAULT_CONFIG, 1, 2) == MINUTE;
    assert DelaySum(DEFAULT_CONFIG, 1, 3) == 6 * MINUTE;
    assert DelaySum(DEFAULT_CONFIG, 1, 4) == 21 * MINUTE;
  }

  // ------------------------------------------------------ the worker's own loop

  function PassTimes(now: int, waits: seq<nat>): (times: seq<int>)
    ensures |times| == |waits|
    decreases |waits|
  {
    if waits == [] then [] else [now + waits[0]] + PassTimes(now + waits[0], waits[1..])
  }

  lemma {:induction false} ReachesOn(cfg: Config, s: System, first: seq<Step>, u: System, more: seq<Step>, t: System)
    requires Reaches(cfg, s, first, u) && Reaches(cfg, u, more, t)
    ensures Reaches(cfg, s, first + more, t)
    decreases |first|
  {
    if first == [] {
      assert first + more == more;
    } else {
      assert (first + more)[1..] == first[1..] + more;
      ReachesOn(cfg, Next(cfg, s, first[0]), first[1..], u, more, t);
    }
  }

  lemma ReachesBy(cfg: Config, s: System, step: Step)
    requires Enabled(cfg, s, step)
    ensures Reaches(cfg, s, [step], Next(cfg, s, step))
  {
    assert [step][1..] == [];
  }

  /** A statement or callback of this worker, or the passing of time. */
  predicate OwnStep(step: Step, w: WorkerId) {
    || step.Tick? || step == MarkSent(w) || step == ReadForFailure(w)
    || (step.WriteFailure? && step.w == w) || step == Callback(w)
  }

  ghost predicate OwnRun(steps: seq<Step>, w: WorkerId) {
    forall step <- steps :: OwnStep(step, w)
  }

  function DrainOf(s: System): Drain {
    Drain(s.rows, s.calls.bounces)
  }

  /** The worker is between two messages of its batch. */
  ghost predicate Ready(s: System, w: WorkerId) {
    Ownership(s) && Ledger(s) && w in s.workers && s.workers[w].read.None? && w !in s.calls.due
  }

  lemma StepKeeps(cfg: Config, s: System, step: Step)
    requires Ownership(s) && Ledger(s) && Enabled(cfg, s, step)
    ensures Ownership(Next(cfg, s, step)) && Ledger(Next(cfg, s, step))
    ensures Reaches(cfg, s, [step], Next(cfg, s, step))
  {
    OwnershipStep(cfg, s, step);
    LedgerStep(cfg, s, step);
    ReachesBy(cfg, s, step);
  }

  /** What the two statements of MarkFailed, one after the other, come to. */
  ghost predicate FailureWritten(cfg: Config, s: System, w: WorkerId, err: string, u: System)
    requires w in s.workers && s.workers[w].batch != []
  {
    var id := s.workers[w].batch[0];
    && u.now == s.now && u.workers == FinishFront(s, w)
    && id in s.rows
    && u.rows == MarkedFailed(cfg, s.rows, id, s.rows[id].attempts, s.rows[id].maxAttempts, err, s.now)
    && u.calls.bounces == s.calls.bounces
    && (w in u.calls.due <==> LastTry(s.rows[id]))
    && (w in u.calls.due ==> u.calls.due[w].bounce == BounceFor(id, s.rows[id], err))
  }

  lemma ReadThenWrite(cfg: Config, s: System, w: WorkerId, err: string)
    requires Ready(s, w) && s.workers[w].batch != [] && s.workers[w].batch[0] in s.rows
    ensures FailureWritten(cfg, s, w, err, AfterWrite(cfg, AfterRead(s, w), w, err))
  {
  }

  lemma UndisturbedUpdate(cfg: Config, s: System, w: WorkerId, err: string) returns (steps: seq<Step>, u: System)
    requires Ready(s, w) && s.workers[w].batch != []
    ensures Reaches(cfg, s, steps, u) && OwnRun(steps, w) && Ownership(u) && Ledger(u)
    ensures FailureWritten(cfg, s, w, err, u)
  {
    assert HasFront(s, w, s.workers[w].batch[0]);
    var read, write := ReadForFailure(w), WriteFailure(w, err);
    var m := Next(cfg, s, read);
    StepKeeps(cfg, s, read);
    u := Next(cfg, m, write);
    StepKeeps(cfg, m, write);
    ReadThenWrite(cfg, s, w, err);
    ReachesOn(cfg, s, [read], m, [write], u);
    steps := [read] + [write];
  }

  lemma UndisturbedFailure(cfg: Config, s: System, w: WorkerId, err: string) returns (steps: seq<Step>, u: System)
    requires Ready(s, w) && s.workers[w].batch != []
    ensures Reaches(cfg, s, steps, u) && OwnRun(steps, w)
    ensures u.now == s.now && u.workers == FinishFront(s, w) && Ready(u, w)
    ensures DrainOf(u) == Marked(cfg, DrainOf(s), s.workers[w].batch[0], Some(err), s.now)
  {
    steps, u := UndisturbedUpdate(cfg, s, w, err);
    if w in u.calls.due {
      var call, v := Callback(w), u;
      u := Next(cfg, v, call);
      StepKeeps(cfg, v, call);
      ReachesOn(cfg, s, steps, v, [call], u);
      steps := steps + [call];
    }
  }

  lemma UndisturbedSent(cfg: Config, s: System, w: WorkerId) returns (steps: seq<Step>, u: System)
    requires Ready(s, w) && s.workers[w].batch != []
    ensures Reaches(cfg, s, steps, u) && OwnRun(steps, w)
    ensures u.now == s.now && u.workers == FinishFront(s, w) && Ready(u, w)
    ensures DrainOf(u) == Marked(cfg, DrainOf(s), s.workers[w].batch[0], None, s.now)
  {
    assert HasFront(s, w, s.workers[w].batch[0]);
    var sent := MarkSent(w);
    u := Next(cfg, s, sent);
    StepKeeps(cfg, s, sent);
    steps := [sent];
  }

  lemma UndisturbedWait(cfg: Config, s: System, w: WorkerId, tick: Step) returns (u: System)
    requires Ready(s, w) && tick.Tick?
    ensures Reaches(cfg, s, [tick], u) && Ready(u, w)
    ensures u.now == s.now + tick.elapsed && u.workers == s.workers && DrainOf(u) == DrainOf(s)
  {
    u := Next(cfg, s, tick);
    StepKeeps(cfg, s, tick);
  }

  lemma UndisturbedMark(cfg: Config, s: System, w: WorkerId, error: Option<string>)
    returns (steps: seq<Step>, u: System)
    requires Ready(s, w) && s.workers[w].batch != []
    ensures Reaches(cfg, s, steps, u) && OwnRun(steps, w)
    ensures u.now == s.now && u.workers == FinishFront(s, w) && Ready(u, w)
    ensures DrainOf(u) == Marked(cfg, DrainOf(s), s.workers[w].batch[0], error, u.now)
  {
    if error.Some? {
      steps, u := UndisturbedFailure(cfg, s, w, error.value);
    } else {
      steps, u := UndisturbedSent(cfg, s, w);
    }
  }

  lemma UndisturbedMessage(cfg: Config, s: System, w: WorkerId, error: Option<string>, tick: Step)
    returns (steps: seq<Step>, u: System)
    requires Ready(s, w) && s.workers[w].batch != [] && tick.Tick?
    ensures Reaches(cfg, s, steps, u) && OwnRun(steps, w)
    ensures u.now == s.now + tick.elapsed && u.workers == FinishFront(s, w) && Ready(u, w)
    ensures DrainOf(u) == Marked(cfg, DrainOf(s), s.workers[w].batch[0], error, u.now)
  {
    var m := UndisturbedWait(cfg, s, w, tick);
    assert m.workers[w].batch[0] == s.workers[w].batch[0];
    steps, u := UndisturbedMark(cfg, m, w, error);
    ReachesOn(cfg, s, [tick], m, steps, u);
    steps := [tick] + steps;
  }

  lemma DrainedOn(cfg: Config, before: Drain, batch: seq<Id>, errors: seq<Option<string>>, now: int, waits: seq<nat>,
                  later: int, after: Drain)
    requires |batch| == |errors| == |waits| > 0 && later == now + waits[0]
    requires after == Drained(cfg, Marked(cfg, before, batch[0], errors[0], later), batch[1..], errors[1..],
                              PassTimes(later, waits[1..]))
    ensures after == Drained(cfg, before, batch, errors, PassTimes(now, waits))
  {
    assert PassTimes(now, waits)[1..] == PassTimes(later, waits[1..]);
  }

  /** Undisturbed, a worker's statements and callbacks do what Queue.DrainBatch does. */
  lemma {:induction false} UndisturbedPass(cfg: Config, s: System, w: WorkerId, errors: seq<Option<string>>,
                                           waits: seq<nat>)
    returns (steps: seq<Step>, t: System)
    requires Ready(s, w) && |s.workers[w].batch| == |errors| == |waits|
    ensures Reaches(cfg, s, steps, t) && OwnRun(steps, w)
    ensures DrainOf(t) == Drained(cfg, DrainOf(s), s.workers[w].batch, errors, PassTimes(s.now, waits))
    decreases |errors|
  {
    if errors == [] {
      return [], s;
    }
    var u;
    steps, u := UndisturbedMessage(cfg, s, w, errors[0], Tick(waits[0]));
    var rest;
    rest, t := UndisturbedPass(cfg, u, w, errors[1..], waits[1..]);
    ReachesOn(cfg, s, steps, u, rest, t);
    steps := steps + rest;
    DrainedOn(cfg, DrainOf(s), s.workers[w].batch, errors, s.now, waits, u.now, DrainOf(t));
  }
}
