/** The persistent outbound queue: rows, and what each statement does to them. */
module OutboundQueue {
  import opened Prelude

  type Id = string
  type Pubkey = string

  datatype Status = Pending | Processing | Sent | Failed | Retry | Held

  /** The columns no statement ever rewrites. */
  datatype Envelope = Envelope(messageId: string, from: string, to: seq<string>, raw: string,
                               metadata: map<string, string>)

  datatype Row = Row(envelope: Envelope, status: Status, attempts: int, maxAttempts: int,
                     lastAttempt: Option<int>, nextAttempt: int, lastError: string, createdAt: int)
  {
    predicate Terminal() {
      status == Sent || status == Failed
    }

    predicate SentBy(sender: Pubkey) {
      SENDER_KEY in envelope.metadata && envelope.metadata[SENDER_KEY] == sender
    }

    predicate Due(now: int) {
      (status == Pending || status == Retry) && nextAttempt <= now
    }
  }

  type Rows = map<Id, Row>

  /** What a caller hands to Enqueue. An empty id asks for a generated one. */
  datatype Message = Message(id: Id, envelope: Envelope, attempts: int, maxAttempts: int)

  datatype Config = Config(maxAttempts: int, retryDelays: seq<int>, processBatch: int)

  const SENDER_KEY := "sender_pubkey"
  const MINUTE := 60
  const DEFAULT_CONFIG := Config(5, [MINUTE, 5 * MINUTE, 15 * MINUTE, 60 * MINUTE, 240 * MINUTE], 10)

  function RetryDelay(cfg: Config, attempt: int): (delay: int)
    ensures 1 <= attempt <= |cfg.retryDelays| ==> delay == cfg.retryDelays[attempt - 1]
    ensures attempt > |cfg.retryDelays| > 0 ==> delay == cfg.retryDelays[|cfg.retryDelays| - 1]
    ensures attempt < 1 || cfg.retryDelays == [] ==> delay == MINUTE
  {
    if attempt <= 0 || |cfg.retryDelays| == 0 then MINUTE
    else if attempt - 1 >= |cfg.retryDelays| then cfg.retryDelays[|cfg.retryDelays| - 1]
    else cfg.retryDelays[attempt - 1]
  }

  function NewRow(cfg: Config, msg: Message, now: int): Row {
    Row(msg.envelope, Pending, msg.attempts,
        if msg.maxAttempts == 0 then cfg.maxAttempts else msg.maxAttempts,
        None, now, "", now)
  }

  function BatchLimit(cfg: Config, limit: int): int {
    if limit <= 0 then cfg.processBatch else limit
  }

  /** An answer the locking SELECT may give while other transactions have `locked` some rows: distinct due
      rows that nobody locked, at most n, no other such row left out while there is room for it, and none
      left out that is due before one taken. */
  ghost predicate LegalPick(rows: Rows, now: int, n: int, locked: set<Id>, picked: seq<Id>) {
    && Distinct(picked)
    && |picked| <= Max(n, 0)
    && (forall id <- picked :: id in rows && rows[id].Due(now) && id !in locked)
    && (forall id <- rows :: rows[id].Due(now) && id !in locked && id !in picked ==>
          |picked| == Max(n, 0) && forall p <- picked :: rows[p].nextAttempt <= rows[id].nextAttempt)
  }

  function Dequeued(rows: Rows, picked: set<Id>, now: int): Rows {
    map id | id in rows ::
      if id in picked then rows[id].(status := Processing, lastAttempt := Some(now)) else rows[id]
  }

  function MarkedSent(rows: Rows, id: Id): Rows {
    if id in rows then rows[id := rows[id].(status := Sent, attempts := rows[id].attempts + 1)] else rows
  }

  /** The UPDATE of MarkFailed, computed from the attempts and limit its SELECT had read. */
  function MarkedFailed(cfg: Config, rows: Rows, id: Id, read: int, limit: int, err: string, now: int): Rows {
    if id !in rows then rows
    else if read + 1 >= limit then
      rows[id := rows[id].(status := Failed, attempts := read + 1, lastError := err, nextAttempt := now)]
    else
      rows[id := rows[id].(status := Retry, attempts := read + 1, lastError := err,
                           nextAttempt := now + RetryDelay(cfg, read + 1))]
  }

  function HeldFor(rows: Rows, sender: Pubkey): Rows {
    map id | id in rows ::
      if rows[id].SentBy(sender) && (rows[id].status == Pending || rows[id].status == Retry)
      then rows[id].(status := Held) else rows[id]
  }

  function ReleasedFor(rows: Rows, sender: Pubkey, now: int): Rows {
    map id | id in rows ::
      if rows[id].SentBy(sender) && rows[id].status == Held
      then rows[id].(status := Pending, nextAttempt := now) else rows[id]
  }

  function Expired(rows: Rows, status: Status, cutoff: int): set<Id> {
    set id | id in rows && rows[id].status == status && rows[id].createdAt < cutoff
  }

  function Purged(rows: Rows, cutoff: int): Rows {
    rows - (Expired(rows, Sent, cutoff) + Expired(rows, Failed, cutoff))
  }

  /** One call of the permanent-failure callback. */
  datatype Bounce = Bounce(id: Id, envelope: Envelope, attempts: int, err: string)

  function BounceFor(id: Id, row: Row, err: string): Bounce {
    Bounce(id, row.envelope, row.attempts + 1, err)
  }

  /** The failed delivery of a message that is there uses up its last attempt. */
  predicate LastTry(row: Row) {
    row.attempts + 1 >= row.maxAttempts
  }

  datatype Drain = Drain(rows: Rows, bounces: seq<Bounce>)

  /** What marking one message does: error is what delivering it returned, now the instant of the mark. */
  function Marked(cfg: Config, before: Drain, id: Id, error: Option<string>, now: int): Drain {
    if error.None? then Drain(MarkedSent(before.rows, id), before.bounces)
    else if id !in before.rows then before
    else
      var row := before.rows[id];
      Drain(MarkedFailed(cfg, before.rows, id, row.attempts, row.maxAttempts, error.value, now),
            if LastTry(row) then before.bounces + [BounceFor(id, row, error.value)] else before.bounces)
  }

  /** What one worker's pass over a batch does: errors[i] is the delivery error of batch[i], and times[i]
      the instant it is marked. */
  function Drained(cfg: Config, before: Drain, batch: seq<Id>, errors: seq<Option<string>>, times: seq<int>): Drain
    requires |batch| == |errors| == |times|
    decreases |batch|
  {
    if batch == [] then before
    else Drained(cfg, Marked(cfg, before, batch[0], errors[0], times[0]), batch[1..], errors[1..], times[1..])
  }

  class Queue {
    const cfg: Config
    var rows: Rows
    var bounces: seq<Bounce>

    constructor (cfg: Config)
      ensures this.cfg == cfg && rows == map[] && bounces == []
    {
      this.cfg := cfg;
      rows := map[];
      bounces := [];
    }

    /** False when the row cannot be inserted because its id is taken. */
    method Enqueue(msg: Message, generated: Id, now: int) returns (ok: bool)
      modifies this`rows
      ensures var id := if msg.id == "" then generated else msg.id;
              && ok == (id !in old(rows))
              && rows == if ok then old(rows)[id := NewRow(cfg, msg, now)] else old(rows)
    {
      var id := if msg.id == "" then generated else msg.id;
      ok := id !in rows;
      if ok {
        rows := rows[id := NewRow(cfg, msg, now)];
      }
    }

    /** `picked` is the database's answer to the inner SELECT ... FOR UPDATE SKIP LOCKED. */
    method Dequeue(limit: int, ghost locked: set<Id>, picked: seq<Id>, now: int) returns (messages: seq<(Id, Row)>)
      requires LegalPick(rows, now, BatchLimit(cfg, limit), locked, picked)
      modifies this`rows
      ensures rows == Dequeued(old(rows), (set id | id in picked), now)
      ensures |messages| == |picked|
      ensures forall i :: 0 <= i < |picked| ==> messages[i].0 == picked[i]
      ensures forall i :: 0 <= i < |picked| ==>
                messages[i].1 == old(rows)[picked[i]].(status := Processing, lastAttempt := Some(now))
    {
      rows := Dequeued(rows, (set id | id in picked), now);
      messages := [];
      for i := 0 to |picked|
        invariant rows == Dequeued(old(rows), (set id | id in picked), now)
        invariant |messages| == i
        invariant forall j :: 0 <= j < i ==>
          messages[j] == (picked[j], old(rows)[picked[j]].(status := Processing, lastAttempt := Some(now)))
      {
        messages := messages + [(picked[i], rows[picked[i]])];
      }
    }

    method MarkSent(id: Id)
      modifies this`rows
      ensures rows == MarkedSent(old(rows), id)
    {
      if id in rows {
        rows := rows[id := rows[id].(status := Sent, attempts := rows[id].attempts + 1)];
      }
    }

    /** False when the row is gone. No other statement runs between the read and the write here;
        QueueRuns takes the two apart. */
    method MarkFailed(id: Id, err: string, now: int) returns (ok: bool)
      modifies this
      ensures ok == (id in old(rows))
      ensures rows == if ok then MarkedFailed(cfg, old(rows), id, old(rows)[id].attempts,
                                              old(rows)[id].maxAttempts, err, now)
                      else old(rows)
      ensures bounces == if ok && LastTry(old(rows)[id]) then old(bounces) + [BounceFor(id, old(rows)[id], err)]
                         else old(bounces)
    {
      ok := id in rows;
      if !ok {
        return;
      }
      var row := rows[id];
      var attempts := row.attempts + 1;
      var isPermanent := attempts >= row.maxAttempts;
      var status, nextAttempt := Failed, now;
      if !isPermanent {
        status, nextAttempt := Retry, now + RetryDelay(cfg, attempts);
      }
      rows := rows[id := row.(status := status, attempts := attempts, lastError := err, nextAttempt := nextAttempt)];
      if isPermanent {
        bounces := bounces + [Bounce(id, row.envelope, attempts, err)];
      }
    }

    method HoldForSender(sender: Pubkey) returns (held: nat)
      modifies this`rows
      ensures rows == HeldFor(old(rows), sender)
      ensures held == |set id | id in rows && rows[id] != old(rows)[id]|
    {
      var parked := set id | id in rows && rows[id].SentBy(sender)
                             && (rows[id].status == Pending || rows[id].status == Retry);
      rows := HeldFor(rows, sender);
      assert parked == set id | id in rows && rows[id] != old(rows)[id];
      held := |parked|;
    }

    method ReleaseForSender(sender: Pubkey, now: int) returns (released: nat)
      modifies this`rows
      ensures rows == ReleasedFor(old(rows), sender, now)
      ensures released == |set id | id in rows && rows[id] != old(rows)[id]|
    {
      var freed := set id | id in rows && rows[id].SentBy(sender) && rows[id].status == Held;
      rows := ReleasedFor(rows, sender, now);
      assert freed == set id | id in rows && rows[id] != old(rows)[id];
      released := |freed|;
    }

    method PurgeOld(olderThan: int, now: int) returns (count: nat)
      modifies this`rows
      ensures rows == Purged(old(rows), now - olderThan)
      ensures forall id <- old(rows) ::
                if (old(rows)[id].status == Sent || old(rows)[id].status == Failed)
                   && old(rows)[id].createdAt < now - olderThan
                then id !in rows else id in rows && rows[id] == old(rows)[id]
      ensures count == |old(rows).Keys| - |rows.Keys|
    {
      var gone := Expired(rows, Sent, now - olderThan) + Expired(rows, Failed, now - olderThan);
      rows := Purged(rows, now - olderThan);
      SplitCount(old(rows).Keys, rows.Keys, gone);
      count := |gone|;
    }

    /** The batch loop of a worker's tick: errors[i] is what delivering batch[i] returned. */
    method DrainBatch(batch: seq<Id>, errors: seq<Option<string>>, times: seq<int>)
      requires |batch| == |errors| == |times|
      modifies this
      ensures Drain(rows, bounces) == Drained(cfg, Drain(old(rows), old(bounces)), batch, errors, times)
    {
      for i := 0 to |batch|
        invariant Drained(cfg, Drain(rows, bounces), batch[i..], errors[i..], times[i..])
                  == Drained(cfg, Drain(old(rows), old(bounces)), batch, errors, times)
      {
        assert batch[i..][1..] == batch[i + 1..];
        assert errors[i..][1..] == errors[i + 1..];
        assert times[i..][1..] == times[i + 1..];
        if errors[i].Some? {
          var _ := MarkFailed(batch[i], errors[i].value, times[i]);
        } else {
          MarkSent(batch[i]);
        }
      }
    }
  }
}
