/** Detector scans, operator releases and queue workers over one shared state. */
module LadderRuns {
  import opened Prelude
  import opened OutboundQueue
  import QR = QueueRuns
  import opened AbuseLadder

  /** `queued` is false for a ladder built without a queue. */
  datatype Env = Env(policy: Policy, queued: bool, cfg: Config)

  datatype World = World(q: QR.System, marks: Marks, gates: Gates)
  {
    function Rung(p: Pubkey): AbuseLadder.Rung {
      StandingRung(marks, p, q.now)
    }
  }

  datatype Act =
    | Work(step: QR.Step)
    | Apply(p: Pubkey, warranted: AbuseLadder.Rung, reason: string, unreadable: bool)
    | ReleaseManual(p: Pubkey)

  /** Apart from the ladder nothing holds or releases mail, and the ladder meets only accounts that
      have a mailbox row. */
  ghost predicate Enabled(env: Env, w: World, act: Act) {
    match act
    case Work(step) => !step.Hold? && !step.Release? && QR.Enabled(env.cfg, w.q, step)
    case Apply(p, _, _, _) => p in w.gates
    case ReleaseManual(p) => p in w.gates
  }

  function QueueAfter(env: Env, q: QR.System, p: Pubkey, move: Move): QR.System {
    if !env.queued || move == Stay then q
    else if move == Close then QR.AfterHold(q, p)
    else QR.AfterRelease(q, p)
  }

  function Read(w: World, p: Pubkey, unreadable: bool): Option<Mark> {
    if unreadable then None else Standing(w.marks, p, w.q.now)
  }

  function VerdictFor(env: Env, w: World, act: Act): Verdict
    requires act.Apply?
  {
    ApplyVerdict(env.policy, Read(w, act.p, act.unreadable), act.warranted, act.reason, w.q.now)
  }

  function Enact(env: Env, w: World, p: Pubkey, v: Verdict): World {
    World(QueueAfter(env, w.q, p, v.move),
          MarksAfter(env.policy, w.marks, p, v.change, w.q.now),
          GatesAfter(w.gates, p, v.move, w.q.now))
  }

  ghost function Next(env: Env, w: World, act: Act): World
    requires Enabled(env, w, act)
  {
    if act.Work? then World(QR.Next(env.cfg, w.q, act.step), w.marks, w.gates)
    else if act.Apply? then Enact(env, w, act.p, VerdictFor(env, w, act))
    else Enact(env, w, act.p, Verdict(Open, Drop, NONE))
  }

  ghost predicate Reaches(env: Env, w: World, acts: seq<Act>, z: World)
    decreases |acts|
  {
    if acts == [] then w == z
    else Enabled(env, w, acts[0]) && Reaches(env, Next(env, w, acts[0]), acts[1..], z)
  }

  /** Nobody is marked, every gate is open, the queue has not started. */
  ghost predicate Clean(w: World) {
    QR.Initial(w.q) && w.marks == map[] && forall p <- w.gates :: w.gates[p].enabled
  }

  // -------------------------------------------------------------- consistency

  /** The three stores agree about one account: its gate is closed exactly while it is marked hold
      or worse, such a mark never expires, and mail of it is parked only under such a mark. */
  ghost predicate Agrees(w: World, p: Pubkey) {
    && (p in w.gates ==> (Closed(w.gates, p) <==> w.Rung(p) >= HOLD))
    && (p in w.marks && w.marks[p].mark.rung >= HOLD ==> w.marks[p].expiresAt.None?)
    && (forall id <- w.q.rows :: w.q.rows[id].status == Held && w.q.rows[id].SentBy(p) ==> w.Rung(p) >= HOLD)
  }

  /** A ladder without a queue parks nothing. */
  ghost predicate ParksOnlyQueued(env: Env, w: World) {
    !env.queued ==> forall id <- w.q.rows :: w.q.rows[id].status != Held
  }

  ghost predicate AllAgree(env: Env, w: World) {
    ParksOnlyQueued(env, w) && forall p :: Agrees(w, p)
  }

  lemma OnlyHoldHolds(cfg: Config, s: QR.System, step: QR.Step, id: Id)
    requires QR.Enabled(cfg, s, step) && !step.Hold?
    requires id in QR.Next(cfg, s, step).rows && QR.Next(cfg, s, step).rows[id].status == Held
    ensures id in s.rows && s.rows[id] == QR.Next(cfg, s, step).rows[id]
  {
  }

  lemma AgreesAfterWork(env: Env, w: World, act: Act, p: Pubkey)
    requires Agrees(w, p) && Enabled(env, w, act) && act.Work?
    ensures Agrees(Next(env, w, act), p)
  {
    var z := Next(env, w, act);
    assert z.q.now >= w.q.now;
    forall id | id in z.q.rows && z.q.rows[id].status == Held && z.q.rows[id].SentBy(p)
      ensures z.Rung(p) >= HOLD
    {
      OnlyHoldHolds(env.cfg, w.q, act.step, id);
    }
  }

  /** Another account's verdict does not touch this one: mail carries one sender. */
  lemma AgreesElsewhere(env: Env, w: World, p: Pubkey, v: Verdict, other: Pubkey)
    requires Agrees(w, other) && p != other
    ensures Agrees(Enact(env, w, p, v), other)
  {
    var z := Enact(env, w, p, v);
    assert z.Rung(other) == w.Rung(other);
    forall id | id in z.q.rows && z.q.rows[id].status == Held && z.q.rows[id].SentBy(other)
      ensures id in w.q.rows && w.q.rows[id].status == Held && w.q.rows[id].SentBy(other)
    {
    }
  }

  /** What makes a verdict safe to enact on an account whose stores agree. */
  predicate Sound(rung: AbuseLadder.Rung, v: Verdict) {
    && (v.change.Leave? ==> v.move == Stay && v.rung == rung)
    && (v.change.Put? ==> v.change.mark.rung == v.rung)
    && (v.change.Drop? ==> v.rung == NONE)
    && (v.move == Close ==> v.rung >= HOLD)
    && (v.move == Open ==> v.rung < HOLD)
    && (v.move == Stay ==> (v.rung >= HOLD <==> rung >= HOLD))
  }

  lemma AgreesAfterSound(env: Env, w: World, p: Pubkey, v: Verdict)
    requires ParksOnlyQueued(env, w) && Agrees(w, p) && p in w.gates && Sound(w.Rung(p), v)
    ensures Agrees(Enact(env, w, p, v), p) && Enact(env, w, p, v).Rung(p) == v.rung
  {
  }

  lemma ReadableIsSound(env: Env, w: World, act: Act)
    requires act.Apply? && !act.unreadable
    ensures Sound(w.Rung(act.p), VerdictFor(env, w, act))
  {
  }

  lemma ParksOnlyQueuedStep(env: Env, w: World, act: Act)
    requires ParksOnlyQueued(env, w) && Enabled(env, w, act)
    ensures ParksOnlyQueued(env, Next(env, w, act))
  {
    var z := Next(env, w, act);
    if act.Work? && !env.queued {
      forall id | id in z.q.rows ensures z.q.rows[id].status != Held {
        if z.q.rows[id].status == Held {
          OnlyHoldHolds(env.cfg, w.q, act.step, id);
        }
      }
    }
  }

  /** An Apply that takes a held account, whose mark it cannot read, for one that deserves less. */
  predicate Blind(w: World, act: Act) {
    && act.Apply? && act.unreadable && w.Rung(act.p) >= HOLD
    && (act.warranted == WARN || act.warranted == THROTTLE)
  }

  /** When the mark cannot be read, Apply takes the account for unmarked. Its stores still agree
      afterwards except where the account is held and the new judgement is a warning or a throttle:
      that overwrites the hold mark and leaves the gate closed. */
  lemma UnreadableMarkAgrees(env: Env, w: World, act: Act)
    requires ParksOnlyQueued(env, w) && Enabled(env, w, act) && act.Apply? && act.unreadable && Agrees(w, act.p)
    ensures Agrees(Next(env, w, act), act.p) <==> !Blind(w, act)
  {
    var z := Next(env, w, act);
    if Blind(w, act) {
      assert Closed(z.gates, act.p) && z.Rung(act.p) < HOLD;
    } else if act.warranted != NONE {
      var v := VerdictFor(env, w, act);
      assert Sound(w.Rung(act.p), v);
      AgreesAfterSound(env, w, act.p, v);
    }
  }

  /** What a verdict does to the stores of its own account. */
  lemma EnactedAgrees(env: Env, w: World, act: Act)
    requires ParksOnlyQueued(env, w) && Enabled(env, w, act) && !act.Work? && Agrees(w, act.p)
    ensures Agrees(Next(env, w, act), act.p) <==> !Blind(w, act)
    ensures act.Apply? && !act.unreadable ==> Next(env, w, act).Rung(act.p) == VerdictFor(env, w, act).rung
  {
    if act.ReleaseManual? {
      AgreesAfterSound(env, w, act.p, Verdict(Open, Drop, NONE));
    } else if !act.unreadable {
      ReadableIsSound(env, w, act);
      AgreesAfterSound(env, w, act.p, VerdictFor(env, w, act));
    } else {
      UnreadableMarkAgrees(env, w, act);
    }
  }

  /** A step keeps the stores in agreement about one account exactly when it is not blind to that account,
      whatever it does to others. */
  lemma AgreesStep(env: Env, w: World, act: Act, p: Pubkey)
    requires ParksOnlyQueued(env, w) && Agrees(w, p) && Enabled(env, w, act)
    ensures ParksOnlyQueued(env, Next(env, w, act))
    ensures Agrees(Next(env, w, act), p) <==> !(Blind(w, act) && act.p == p)
  {
    ParksOnlyQueuedStep(env, w, act);
    if act.Work? {
      AgreesAfterWork(env, w, act, p);
    } else if act.p == p {
      EnactedAgrees(env, w, act);
    } else {
      AgreesElsewhere(env, w, act.p, if act.Apply? then VerdictFor(env, w, act) else Verdict(Open, Drop, NONE), p);
    }
  }

  /** A step keeps the stores of all accounts in agreement exactly when it is not blind, and a readable
      Apply reports the rung of the mark then standing. */
  lemma AllAgreeStep(env: Env, w: World, act: Act)
    requires AllAgree(env, w) && Enabled(env, w, act)
    ensures AllAgree(env, Next(env, w, act)) <==> !Blind(w, act)
    ensures act.Apply? && !act.unreadable ==> Next(env, w, act).Rung(act.p) == VerdictFor(env, w, act).rung
  {
    forall p ensures Agrees(Next(env, w, act), p) <==> !(Blind(w, act) && act.p == p) {
      AgreesStep(env, w, act, p);
    }
    ParksOnlyQueuedStep(env, w, act);
    if act.Apply? {
      EnactedAgrees(env, w, act);
    }
  }

  ghost predicate AgreesThroughout(env: Env, w: World, acts: seq<Act>, p: Pubkey)
    decreases |acts|
  {
    Agrees(w, p)
    && (acts == [] || (Enabled(env, w, acts[0]) && AgreesThroughout(env, Next(env, w, acts[0]), acts[1..], p)))
  }

  ghost predicate NeverBlindTo(env: Env, w: World, acts: seq<Act>, p: Pubkey)
    decreases |acts|
  {
    acts == []
    || (Enabled(env, w, acts[0]) && !(Blind(w, acts[0]) && acts[0].p == p)
        && NeverBlindTo(env, Next(env, w, acts[0]), acts[1..], p))
  }

  /** The stores agree about one account throughout a run exactly when no Apply in it is blind to that
      account; what happens to others does not matter. */
  lemma {:induction false} AccountAgrees(env: Env, w: World, acts: seq<Act>, z: World, p: Pubkey)
    requires ParksOnlyQueued(env, w) && Agrees(w, p) && Reaches(env, w, acts, z)
    ensures AgreesThroughout(env, w, acts, p) <==> NeverBlindTo(env, w, acts, p)
    ensures NeverBlindTo(env, w, acts, p) ==> Agrees(z, p)
    decreases |acts|
  {
    if acts != [] {
      AgreesStep(env, w, acts[0], p);
      if Blind(w, acts[0]) && acts[0].p == p {
        assert !AgreesThroughout(env, Next(env, w, acts[0]), acts[1..], p);
      } else {
        AccountAgrees(env, Next(env, w, acts[0]), acts[1..], z, p);
      }
    }
  }

  ghost predicate AgreeThroughout(env: Env, w: World, acts: seq<Act>)
    decreases |acts|
  {
    AllAgree(env, w)
    && (acts == [] || (Enabled(env, w, acts[0]) && AgreeThroughout(env, Next(env, w, acts[0]), acts[1..])))
  }

  ghost predicate NeverBlind(env: Env, w: World, acts: seq<Act>)
    decreases |acts|
  {
    acts == []
    || (Enabled(env, w, acts[0]) && !Blind(w, acts[0]) && NeverBlind(env, Next(env, w, acts[0]), acts[1..]))
  }

  /** The stores agree about every account throughout a run exactly when no Apply in it is blind. */
  lemma {:induction false} StoresAgree(env: Env, w: World, acts: seq<Act>, z: World)
    requires AllAgree(env, w) && Reaches(env, w, acts, z)
    ensures AgreeThroughout(env, w, acts) <==> NeverBlind(env, w, acts)
    ensures NeverBlind(env, w, acts) ==> AllAgree(env, z)
    decreases |acts|
  {
    if acts != [] {
      AllAgreeStep(env, w, acts[0]);
      if Blind(w, acts[0]) {
        assert !AgreeThroughout(env, Next(env, w, acts[0]), acts[1..]);
      } else {
        StoresAgree(env, Next(env, w, acts[0]), acts[1..], z);
      }
    }
  }

  lemma CleanAgrees(env: Env, w: World)
    requires Clean(w)
    ensures AllAgree(env, w)
  {
  }

  /** The rung Apply reports is the one the account is then on, unless an unreadable mark was
      standing and nothing was warranted. */
  lemma ReportedRung(env: Env, w: World, act: Act)
    requires ParksOnlyQueued(env, w) && Enabled(env, w, act) && act.Apply? && Agrees(w, act.p)
    ensures Next(env, w, act).Rung(act.p) == VerdictFor(env, w, act).rung
            <==> !(act.unreadable && act.warranted == NONE && w.Rung(act.p) != NONE)
  {
    if !act.unreadable {
      EnactedAgrees(env, w, act);
    }
  }

  // --------------------------------------------------------------- persistence

  /** Suspended, or held since t0 or later. */
  ghost predicate HeldSince(w: World, p: Pubkey, t0: int) {
    && p in w.marks && w.marks[p].expiresAt.None?
    && (w.marks[p].mark.rung == SUSPEND || (w.marks[p].mark.rung == HOLD && w.marks[p].mark.at >= t0))
  }

  /** The Apply of a scan that cannot read the account's mark and finds a warning or a throttle. */
  predicate Overwrites(act: Act, p: Pubkey) {
    act.Apply? && act.p == p && act.unreadable && (act.warranted == WARN || act.warranted == THROTTLE)
  }

  /** The Apply that lifts a standing hold. */
  ghost predicate Lifts(env: Env, w: World, act: Act, p: Pubkey) {
    && act.Apply? && act.p == p && !act.unreadable && act.warranted < HOLD
    && p in w.marks && w.marks[p].mark.rung == HOLD && Liftable(env.policy, w.marks[p].mark, w.q.now)
  }

  /** What ends a hold or a suspend: the operator, a mark overwritten unread, or a lift that is due. */
  lemma HeldSinceStep(env: Env, w: World, act: Act, p: Pubkey, t0: int)
    requires HeldSince(w, p, t0) && t0 <= w.q.now && Enabled(env, w, act)
    ensures HeldSince(Next(env, w, act), p, t0)
       <==> !(act.ReleaseManual? && act.p == p) && !Overwrites(act, p) && !Lifts(env, w, act, p)
  {
  }

  /** Held since t0 exactly. */
  ghost predicate HeldAt(w: World, p: Pubkey, t0: int) {
    p in w.marks && w.marks[p].expiresAt.None? && w.marks[p].mark.rung == HOLD && w.marks[p].mark.at == t0
  }

  /** A step after which a hold of p is still there, with the beginning it had: not the operator's, not the
      lift that is due, not a suspend, and no Apply that re-applies a rung because it could not read the mark,
      unless it re-applies the hold in the very instant it began. */
  ghost predicate KeepsBeginning(env: Env, w: World, act: Act, p: Pubkey, t0: int) {
    && !(act.ReleaseManual? && act.p == p) && !Lifts(env, w, act, p)
    && (act.Apply? && act.p == p ==>
          && Clamp(env.policy, act.warranted) != SUSPEND
          && (act.unreadable ==>
                act.warranted == NONE || (Clamp(env.policy, act.warranted) == HOLD && w.q.now == t0)))
  }

  lemma BeginningStep(env: Env, w: World, act: Act, p: Pubkey, t0: int)
    requires HeldAt(w, p, t0) && Enabled(env, w, act)
    ensures HeldAt(Next(env, w, act), p, t0) <==> KeepsBeginning(env, w, act, p, t0)
  {
  }

  ghost predicate HeldAtThroughout(env: Env, w: World, acts: seq<Act>, p: Pubkey, t0: int)
    decreases |acts|
  {
    HeldAt(w, p, t0)
    && (acts == [] || (Enabled(env, w, acts[0]) && HeldAtThroughout(env, Next(env, w, acts[0]), acts[1..], p, t0)))
  }

  ghost predicate AllKeepBeginning(env: Env, w: World, acts: seq<Act>, p: Pubkey, t0: int)
    decreases |acts|
  {
    acts == []
    || (Enabled(env, w, acts[0]) && KeepsBeginning(env, w, acts[0], p, t0)
        && AllKeepBeginning(env, Next(env, w, acts[0]), acts[1..], p, t0))
  }

  /** Throughout a run a hold keeps the instant it began exactly when every step does. */
  lemma {:induction false} BeginningLasts(env: Env, w: World, acts: seq<Act>, z: World, p: Pubkey, t0: int)
    requires HeldAt(w, p, t0) && Reaches(env, w, acts, z)
    ensures HeldAtThroughout(env, w, acts, p, t0) <==> AllKeepBeginning(env, w, acts, p, t0)
    ensures AllKeepBeginning(env, w, acts, p, t0) ==> HeldAt(z, p, t0)
    decreases |acts|
  {
    if acts != [] {
      BeginningStep(env, w, acts[0], p, t0);
      if KeepsBeginning(env, w, acts[0], p, t0) {
        BeginningLasts(env, Next(env, w, acts[0]), acts[1..], z, p, t0);
      }
    }
  }

  /** A readable Apply that warrants the hold still, and so renews it, moves its beginning no more than
      anything else does that is not about this account. */
  lemma RenewalKeepsBeginning(env: Env, w: World, act: Act, p: Pubkey, t0: int)
    requires HeldAt(w, p, t0) && Enabled(env, w, act)
    requires act.Work? || act.p != p || (act.Apply? && !act.unreadable && Clamp(env.policy, act.warranted) == HOLD)
    ensures HeldAt(Next(env, w, act), p, t0)
  {
    BeginningStep(env, w, act, p, t0);
  }

  /** An unreadable mark under which the hold is warranted starts it anew. */
  lemma UnreadHoldRestarts(env: Env, w: World, act: Act, p: Pubkey, t0: int)
    requires HeldAt(w, p, t0) && t0 < w.q.now && Enabled(env, w, act)
    requires act.Apply? && act.p == p && act.unreadable && Clamp(env.policy, act.warranted) == HOLD
    ensures HeldAt(Next(env, w, act), p, w.q.now) && !HeldAt(Next(env, w, act), p, t0)
  {
  }

  /** Parked mail of an account that stays held is not touched. */
  lemma ParkedStep(env: Env, w: World, act: Act, p: Pubkey, t0: int, id: Id)
    requires Enabled(env, w, act) && HeldSince(w, p, t0) && HeldSince(Next(env, w, act), p, t0)
    requires QR.Ownership(w.q) && QR.Ledger(w.q)
    requires id in w.q.rows && w.q.rows[id].SentBy(p) && w.q.rows[id].status == Held
    ensures var z := Next(env, w, act); id in z.q.rows && z.q.rows[id] == w.q.rows[id]
  {
    if act.Work? {
      QR.HeldStep(env.cfg, w.q, act.step, id);
    }
  }

  lemma QueueInvStep(cfg: Config, s: QR.System, step: QR.Step)
    requires QR.Inv(cfg, s) && QR.Enabled(cfg, s, step)
    ensures QR.Inv(cfg, QR.Next(cfg, s, step))
    ensures QR.Next(cfg, s, step).now >= s.now
  {
    QR.OwnershipStep(cfg, s, step);
    QR.LedgerStep(cfg, s, step);
    QR.ConservedStep(cfg, s, step);
    QR.CalledStep(cfg, s, step);
    QR.BackoffStep(cfg, s, step);
  }

  lemma QueueInvHold(cfg: Config, s: QR.System, step: QR.Step)
    requires QR.Inv(cfg, s) && step.Hold?
    ensures QR.Inv(cfg, QR.AfterHold(s, step.sender))
  {
    QueueInvStep(cfg, s, step);
  }

  lemma QueueInvRelease(cfg: Config, s: QR.System, step: QR.Step)
    requires QR.Inv(cfg, s) && step.Release?
    ensures QR.Inv(cfg, QR.AfterRelease(s, step.sender))
  {
    QueueInvStep(cfg, s, step);
  }

  lemma QueueInvMove(env: Env, q: QR.System, p: Pubkey, move: Move)
    requires QR.Inv(env.cfg, q)
    ensures QR.Inv(env.cfg, QueueAfter(env, q, p, move)) && QueueAfter(env, q, p, move).now == q.now
  {
    if move == Close {
      QueueInvHold(env.cfg, q, QR.Hold(p));
    } else if move == Open {
      QueueInvRelease(env.cfg, q, QR.Release(p));
    }
  }

  lemma QueueStep(env: Env, w: World, act: Act)
    requires QR.Inv(env.cfg, w.q) && Enabled(env, w, act)
    ensures QR.Inv(env.cfg, Next(env, w, act).q)
    ensures Next(env, w, act).q.now >= w.q.now
  {
    if act.Work? {
      QueueInvStep(env.cfg, w.q, act.step);
    } else {
      QueueInvMove(env, w.q, act.p, if act.Apply? then VerdictFor(env, w, act).move else Open);
    }
  }

  /** No hold is lifted automatically before it has lasted minHoldDuration, however often it was
      renewed, and until then every parked message of the account stays as it is. With automatic
      release switched off that holds for ever. Marks may be unreadable, as long as that makes no scan
      overwrite the hold by less. */
  lemma {:induction false} HoldLasts(env: Env, w: World, acts: seq<Act>, z: World, p: Pubkey, t0: int, parked: set<Id>)
    requires QR.Inv(env.cfg, w.q) && HeldSince(w, p, t0) && t0 <= w.q.now && Reaches(env, w, acts, z)
    requires forall act <- acts :: !(act.ReleaseManual? && act.p == p) && !Overwrites(act, p)
    requires !env.policy.autoReleaseHold || z.q.now < t0 + env.policy.minHoldDuration
    requires forall id <- parked :: id in w.q.rows && w.q.rows[id].SentBy(p) && w.q.rows[id].status == Held
    ensures HeldSince(z, p, t0) && z.Rung(p) >= HOLD
    ensures forall id <- parked :: id in z.q.rows && z.q.rows[id] == w.q.rows[id]
    decreases |acts|
  {
    if acts != [] {
      var u := Next(env, w, acts[0]);
      QueueStep(env, w, acts[0]);
      TimeGoesOn(env, u, acts[1..], z);
      HeldSinceStep(env, w, acts[0], p, t0);
      forall id | id in parked
        ensures id in u.q.rows && u.q.rows[id] == w.q.rows[id]
      {
        ParkedStep(env, w, acts[0], p, t0, id);
      }
      HoldLasts(env, u, acts[1..], z, p, t0, parked);
    }
  }

  lemma ClockStep(env: Env, w: World, act: Act)
    requires Enabled(env, w, act)
    ensures Next(env, w, act).q.now >= w.q.now
  {
  }

  lemma {:induction false} TimeGoesOn(env: Env, w: World, acts: seq<Act>, z: World)
    requires Reaches(env, w, acts, z)
    ensures w.q.now <= z.q.now
    decreases |acts|
  {
    if acts != [] {
      ClockStep(env, w, acts[0]);
      TimeGoesOn(env, Next(env, w, acts[0]), acts[1..], z);
    }
  }

  /** A standing hold falls in one Apply exactly when less is warranted, the policy lifts holds and
      this one is old enough. */
  lemma HoldFallsExactlyWhen(env: Env, w: World, act: Act)
    requires ParksOnlyQueued(env, w) && Enabled(env, w, act) && act.Apply? && !act.unreadable
    requires Agrees(w, act.p) && w.Rung(act.p) == HOLD
    ensures Next(env, w, act).Rung(act.p) < HOLD
            <==> && act.warranted < HOLD && env.policy.autoReleaseHold
                 && w.q.now - w.marks[act.p].mark.at >= env.policy.minHoldDuration
    ensures Next(env, w, act).Rung(act.p) < HOLD ==> !Closed(Next(env, w, act).gates, act.p)
  {
    EnactedAgrees(env, w, act);
  }

  ghost predicate Suspended(w: World, p: Pubkey) {
    p in w.marks && w.marks[p].expiresAt.None? && w.marks[p].mark.rung == SUSPEND
  }

  /** The Apply of a scan that cannot read the account's mark and puts a lower one in its place. */
  predicate Demotes(env: Env, act: Act, p: Pubkey) {
    act.Apply? && act.p == p && act.unreadable && NONE < Clamp(env.policy, act.warranted) < SUSPEND
  }

  /** One step ends a suspend exactly when it is the operator's or demotes the account unread. */
  lemma SuspendStep(env: Env, w: World, act: Act, p: Pubkey)
    requires Suspended(w, p) && Enabled(env, w, act)
    ensures Suspended(Next(env, w, act), p) <==> !(act.ReleaseManual? && act.p == p) && !Demotes(env, act, p)
  {
  }

  /** Without these a suspend lasts for ever. */
  lemma {:induction false} SuspendLasts(env: Env, w: World, acts: seq<Act>, z: World, p: Pubkey)
    requires Suspended(w, p) && Reaches(env, w, acts, z)
    requires forall act <- acts :: !(act.ReleaseManual? && act.p == p) && !Demotes(env, act, p)
    ensures Suspended(z, p)
    decreases |acts|
  {
    if acts != [] {
      SuspendStep(env, w, acts[0], p);
      SuspendLasts(env, Next(env, w, acts[0]), acts[1..], z, p);
    }
  }

  /** An unread demotion undoes a suspend without the operator: a scan that warrants a hold puts one in its
      place, and once that is old enough a quiet scan opens the gate. */
  lemma SuspendSlips(env: Env, w: World, p: Pubkey, reason: string) returns (acts: seq<Act>, z: World)
    requires Agrees(w, p) && Suspended(w, p) && p in w.gates
    requires env.policy.autoReleaseHold && env.policy.minHoldDuration >= 0
    ensures Reaches(env, w, acts, z) && forall act <- acts :: !act.ReleaseManual?
    ensures Closed(w.gates, p) && !Closed(z.gates, p) && z.Rung(p) == NONE
  {
    var demote, wait := Apply(p, HOLD, reason, true), Work(QR.Tick(env.policy.minHoldDuration));
    var quiet := Apply(p, NONE, "", false);
    var held := Next(env, w, demote);
    var waited := Next(env, held, wait);
    z := Next(env, waited, quiet);
    assert Agrees(w, p);
    acts := [demote] + ([wait] + [quiet]);
    assert [quiet][1..] == [] && ([wait] + [quiet])[1..] == [quiet] && acts[1..] == [wait] + [quiet];
    assert Reaches(env, z, [], z);
    assert Reaches(env, waited, [quiet], z);
    assert Reaches(env, held, [wait] + [quiet], z);
  }

  ghost predicate BelowSuspend(w: World, p: Pubkey) {
    p in w.marks ==> w.marks[p].mark.rung < SUSPEND
  }

  /** With automatic suspension off, no run suspends an account that is not suspended, whatever marks could
      not be read. */
  lemma {:induction false} NoAutoSuspend(env: Env, w: World, acts: seq<Act>, z: World, p: Pubkey)
    requires !env.policy.allowAutoSuspend && BelowSuspend(w, p) && Reaches(env, w, acts, z)
    ensures BelowSuspend(z, p)
    decreases |acts|
  {
    if acts != [] {
      NoSuspendStep(env, w, acts[0], p);
      NoAutoSuspend(env, Next(env, w, acts[0]), acts[1..], z, p);
    }
  }

  lemma NoSuspendStep(env: Env, w: World, act: Act, p: Pubkey)
    requires !env.policy.allowAutoSuspend && BelowSuspend(w, p) && Enabled(env, w, act)
    ensures BelowSuspend(Next(env, w, act), p)
  {
  }
}
