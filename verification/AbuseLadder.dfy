/** The abuse ladder: the mark store, the mailbox send gate and the queue it moves together. */
module AbuseLadder {
  import opened Prelude
  import opened OutboundQueue

  type Rung = r: int | 0 <= r <= 4

  const NONE: Rung := 0
  const WARN: Rung := 1
  const THROTTLE: Rung := 2
  const HOLD: Rung := 3
  const SUSPEND: Rung := 4

  datatype Mark = Mark(rung: Rung, reason: string, at: int)

  datatype Entry = Entry(mark: Mark, expiresAt: Option<int>)

  type Marks = map<Pubkey, Entry>

  /** The two send columns of a mailbox row. */
  datatype Gate = Gate(enabled: bool, suspendedAt: Option<int>)

  type Gates = map<Pubkey, Gate>

  datatype Policy = Policy(allowAutoSuspend: bool, throttleTTL: int, warnTTL: int, autoReleaseHold: bool,
                           minHoldDuration: int)

  // ------------------------------------------------------------------- stores

  function Standing(marks: Marks, p: Pubkey, now: int): Option<Mark> {
    if p !in marks then None
    else if marks[p].expiresAt.Some? && now > marks[p].expiresAt.value then None
    else Some(marks[p].mark)
  }

  /** The rung an account is on: none when no mark stands. */
  function StandingRung(marks: Marks, p: Pubkey, now: int): Rung {
    match Standing(marks, p, now)
    case Some(mark) => mark.rung
    case None => NONE
  }

  function WithMark(marks: Marks, p: Pubkey, mark: Mark, ttl: int, now: int): Marks {
    marks[p := Entry(mark, if ttl > 0 then Some(now + ttl) else None)]
  }

  /** The UPDATE of the send columns; without a mailbox row it changes nothing. */
  function WithGate(gates: Gates, p: Pubkey, enabled: bool, at: Option<int>): Gates {
    if p in gates then gates[p := Gate(enabled, at)] else gates
  }

  predicate Closed(gates: Gates, p: Pubkey) {
    p in gates && !gates[p].enabled
  }

  function RungTTL(policy: Policy, rung: Rung): int {
    if rung == WARN then policy.warnTTL
    else if rung == THROTTLE then policy.throttleTTL
    else 0
  }

  // ----------------------------------------------------------------- verdicts

  /** What happens to the gate and to queued mail. */
  datatype Move = Stay | Close | Open

  datatype Change = Leave | Put(mark: Mark) | Drop

  /** Everything one Apply does to an account, and the rung it reports. */
  datatype Verdict = Verdict(move: Move, change: Change, rung: Rung)

  function Clamp(policy: Policy, warranted: Rung): Rung {
    if warranted == SUSPEND && !policy.allowAutoSuspend then HOLD else warranted
  }

  function EscalateVerdict(rung: Rung, reason: string, now: int): Verdict {
    Verdict(if rung >= HOLD then Close else Stay, Put(Mark(rung, reason, now)), rung)
  }

  function RenewVerdict(current: Mark, reason: string): Verdict {
    Verdict(Stay, Put(if reason != "" then current.(reason := reason) else current), current.rung)
  }

  /** A hold may be lifted only where the policy says so and once it has lasted long enough. */
  predicate Liftable(policy: Policy, current: Mark, now: int) {
    policy.autoReleaseHold && now - current.at >= policy.minHoldDuration
  }

  function DeescalateVerdict(policy: Policy, current: Mark, warranted: Rung, now: int): Verdict {
    if current.rung >= SUSPEND || (current.rung >= HOLD && !Liftable(policy, current, now)) then
      Verdict(Stay, Leave, current.rung)
    else
      Verdict(if current.rung >= HOLD then Open else Stay,
              if warranted == NONE then Drop else Put(Mark(warranted, current.reason, now)),
              warranted)
  }

  function ApplyVerdict(policy: Policy, current: Option<Mark>, warranted: Rung, reason: string, now: int): Verdict {
    var applied := Clamp(policy, warranted);
    if current.Some? && applied < current.value.rung then
      DeescalateVerdict(policy, current.value, applied, now)
    else if applied == NONE then Verdict(Stay, Leave, NONE)
    else if current.Some? && applied == current.value.rung then RenewVerdict(current.value, reason)
    else EscalateVerdict(applied, reason, now)
  }

  function MarksAfter(policy: Policy, marks: Marks, p: Pubkey, change: Change, now: int): Marks {
    match change
    case Leave => marks
    case Put(mark) => WithMark(marks, p, mark, RungTTL(policy, mark.rung), now)
    case Drop => marks - {p}
  }

  function GatesAfter(gates: Gates, p: Pubkey, move: Move, now: int): Gates {
    match move
    case Stay => gates
    case Close => WithGate(gates, p, false, Some(now))
    case Open => WithGate(gates, p, true, None)
  }

  function RowsAfter(rows: Rows, p: Pubkey, move: Move, now: int): Rows {
    match move
    case Stay => rows
    case Close => HeldFor(rows, p)
    case Open => ReleasedFor(rows, p, now)
  }

  // -------------------------------------------------------------- the objects

  class MemoryMarkStore {
    var marks: Marks

    constructor ()
      ensures marks == map[]
    {
      marks := map[];
    }

    method Get(p: Pubkey, now: int) returns (mark: Option<Mark>)
      ensures mark == Standing(marks, p, now)
    {
      if p !in marks {
        return None;
      }
      var entry := marks[p];
      if entry.expiresAt.Some? && now > entry.expiresAt.value {
        return None;
      }
      return Some(entry.mark);
    }

    method Set(p: Pubkey, mark: Mark, ttl: int, now: int)
      modifies this
      ensures marks == WithMark(old(marks), p, mark, ttl, now)
    {
      var entry := Entry(mark, None);
      if ttl > 0 {
        entry := entry.(expiresAt := Some(now + ttl));
      }
      marks := marks[p := entry];
    }

    method Clear(p: Pubkey)
      modifies this
      ensures marks == old(marks) - {p}
    {
      marks := marks - {p};
    }

    method Throttled(p: Pubkey, now: int) returns (throttled: bool)
      ensures throttled == (StandingRung(marks, p, now) >= THROTTLE)
    {
      var mark := Get(p, now);
      throttled := mark.Some? && mark.value.rung >= THROTTLE;
    }
  }

  class Mailboxes {
    var gates: Gates

    constructor (gates: Gates)
      ensures this.gates == gates
    {
      this.gates := gates;
    }

    method SetMailboxSendEnabled(p: Pubkey, enabled: bool, suspendedAt: Option<int>)
      modifies this
      ensures gates == WithGate(old(gates), p, enabled, suspendedAt)
    {
      if p in gates {
        gates := gates[p := Gate(enabled, suspendedAt)];
      }
    }
  }

  class Ladder {
    const policy: Policy
    const marks: MemoryMarkStore
    const state: Mailboxes
    const queue: Queue?

    constructor (policy: Policy, marks: MemoryMarkStore, state: Mailboxes, queue: Queue?)
      ensures this.policy == policy && this.marks == marks && this.state == state && this.queue == queue
    {
      this.policy := policy;
      this.marks := marks;
      this.state := state;
      this.queue := queue;
    }

    /** `unreadable` is true when the mark store fails to answer; every other call succeeds. */
    method Apply(p: Pubkey, warranted: Rung, reason: string, unreadable: bool, now: int) returns (rung: Rung)
      modifies marks, state
      modifies if queue == null then {} else {queue}
      ensures var current := if unreadable then None else Standing(old(marks.marks), p, now);
              var v := ApplyVerdict(policy, current, warranted, reason, now);
              && rung == v.rung
              && marks.marks == MarksAfter(policy, old(marks.marks), p, v.change, now)
              && state.gates == GatesAfter(old(state.gates), p, v.move, now)
              && (queue != null ==> queue.rows == RowsAfter(old(queue.rows), p, v.move, now))
    {
      var current := None;
      if !unreadable {
        current := marks.Get(p, now);
      }
      var applied := warranted;
      if applied == SUSPEND && !policy.allowAutoSuspend {
        applied := HOLD;
      }
      if current.Some? && applied < current.value.rung {
        rung := Deescalate(p, current.value, applied, now);
      } else if applied == NONE {
        rung := NONE;
      } else if current.Some? && applied == current.value.rung {
        Renew(p, current.value, reason, now);
        rung := applied;
      } else {
        Escalate(p, applied, reason, now);
        rung := applied;
      }
    }

    method Renew(p: Pubkey, current: Mark, reason: string, now: int)
      modifies marks
      ensures marks.marks == MarksAfter(policy, old(marks.marks), p, RenewVerdict(current, reason).change, now)
    {
      var renewed := current;
      if reason != "" {
        renewed := renewed.(reason := reason);
      }
      marks.Set(p, renewed, RungTTL(policy, current.rung), now);
    }

    method Escalate(p: Pubkey, rung: Rung, reason: string, now: int)
      modifies marks, state
      modifies if queue == null then {} else {queue}
      ensures var v := EscalateVerdict(rung, reason, now);
              && marks.marks == MarksAfter(policy, old(marks.marks), p, v.change, now)
              && state.gates == GatesAfter(old(state.gates), p, v.move, now)
              && (queue != null ==> queue.rows == RowsAfter(old(queue.rows), p, v.move, now))
    {
      if rung == HOLD || rung == SUSPEND {
        state.SetMailboxSendEnabled(p, false, Some(now));
        if queue != null {
          var _ := queue.HoldForSender(p);
        }
      }
      marks.Set(p, Mark(rung, reason, now), RungTTL(policy, rung), now);
    }

    method Deescalate(p: Pubkey, current: Mark, warranted: Rung, now: int) returns (rung: Rung)
      modifies marks, state
      modifies if queue == null then {} else {queue}
      ensures var v := DeescalateVerdict(policy, current, warranted, now);
              && rung == v.rung
              && marks.marks == MarksAfter(policy, old(marks.marks), p, v.change, now)
              && state.gates == GatesAfter(old(state.gates), p, v.move, now)
              && (queue != null ==> queue.rows == RowsAfter(old(queue.rows), p, v.move, now))
    {
      if current.rung >= SUSPEND {
        return current.rung;
      }
      if current.rung >= HOLD {
        if !policy.autoReleaseHold {
          return current.rung;
        }
        if now - current.at < policy.minHoldDuration {
          return current.rung;
        }
        Release(p, now);
      }
      if warranted == NONE {
        marks.Clear(p);
        return NONE;
      }
      marks.Set(p, Mark(warranted, current.reason, now), RungTTL(policy, warranted), now);
      rung := warranted;
    }

    method Release(p: Pubkey, now: int)
      modifies state
      modifies if queue == null then {} else {queue}
      ensures state.gates == GatesAfter(old(state.gates), p, Open, now)
      ensures queue != null ==> queue.rows == RowsAfter(old(queue.rows), p, Open, now)
    {
      state.SetMailboxSendEnabled(p, true, None);
      if queue != null {
        var _ := queue.ReleaseForSender(p, now);
      }
    }

    method ReleaseManual(p: Pubkey, now: int)
      modifies marks, state
      modifies if queue == null then {} else {queue}
      ensures marks.marks == MarksAfter(policy, old(marks.marks), p, Drop, now)
      ensures state.gates == GatesAfter(old(state.gates), p, Open, now)
      ensures queue != null ==> queue.rows == RowsAfter(old(queue.rows), p, Open, now)
    {
      Release(p, now);
      marks.Clear(p);
    }
  }
}
