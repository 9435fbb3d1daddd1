/** What one Apply and one release do to an account, as a table, and how long a mark lasts. */
module LadderTable {
  import opened Prelude
  import opened OutboundQueue
  import QR = QueueRuns
  import opened AbuseLadder
  import opened LadderRuns

  /** Suspends are for the operator unless the policy leaves them to the ladder. */
  function Warranted(env: Env, act: Act): AbuseLadder.Rung
    requires act.Apply?
  {
    if act.warranted == SUSPEND && !env.policy.allowAutoSuspend then HOLD else act.warranted
  }

  /** The mark that the ladder sees: the standing one, if it can be read. */
  function Seen(w: World, act: Act): Option<Mark>
    requires act.Apply?
  {
    if act.unreadable || act.p !in w.marks then None
    else
      var e := w.marks[act.p];
      if e.expiresAt.Some? && e.expiresAt.value < w.q.now then None else Some(e.mark)
  }

  /** An account goes up at once. It comes down from a warning or a throttle at once, from a hold only where
      the policy lifts holds and this one has lasted long enough, and from a suspend not at all. */
  function RungNow(env: Env, w: World, act: Act): AbuseLadder.Rung
    requires act.Apply?
  {
    var to := Warranted(env, act);
    match Seen(w, act)
    case None => to
    case Some(mark) =>
      if to >= mark.rung then to
      else if mark.rung == SUSPEND then SUSPEND
      else if mark.rung == HOLD
           && !(env.policy.autoReleaseHold && w.q.now >= mark.at + env.policy.minHoldDuration) then HOLD
      else to
  }

  /** The rung that Apply reports is the one in the table. */
  lemma ReportedByTable(env: Env, w: World, act: Act)
    requires act.Apply?
    ensures VerdictFor(env, w, act).rung == RungNow(env, w, act)
  {
  }

  /** What is on record afterwards, when the mark was read or there was none. A new rung is marked afresh, its
      reason the new one on the way up and the old one on the way down; a rung that is still warranted keeps
      its instant, and its reason unless a new one is given; a mark too high to fall stays. */
  lemma MarkedByTable(env: Env, w: World, act: Act)
    requires act.Apply? && Enabled(env, w, act)
    ensures var seen, to, marks := Seen(w, act), RungNow(env, w, act), Next(env, w, act).marks;
            && (seen.None? && to == NONE ==> marks == w.marks)
            && (seen.Some? && Warranted(env, act) < seen.value.rung && to == seen.value.rung ==> marks == w.marks)
            && (seen.Some? && seen.value.rung > NONE && to == NONE ==> act.p !in marks)
            && (to != NONE && (seen.None? || seen.value.rung < to) ==>
                  act.p in marks && marks[act.p].mark == Mark(to, act.reason, w.q.now))
            && (seen.Some? && Warranted(env, act) == seen.value.rung != NONE ==>
                  act.p in marks
                  && marks[act.p].mark == Mark(to, if act.reason == "" then seen.value.reason else act.reason,
                                               seen.value.at))
            && (seen.Some? && NONE < to < seen.value.rung ==>
                  act.p in marks && marks[act.p].mark == Mark(to, seen.value.reason, w.q.now))
            && forall other :: other != act.p ==> (other in marks <==> other in w.marks)
                                                  && (other in marks ==> marks[other] == w.marks[other])
  {
  }

  /** What an Apply that changes the gate leaves in the mailbox row: closed, with the instant, or open. */
  lemma GatedByTable(env: Env, w: World, act: Act)
    requires act.Apply? && Enabled(env, w, act)
    ensures var seen, to, gates := Seen(w, act), RungNow(env, w, act), Next(env, w, act).gates;
            var before := if seen.Some? then seen.value.rung else NONE;
            && (to >= HOLD && to > before ==> gates == w.gates[act.p := Gate(false, Some(w.q.now))])
            && (before >= HOLD && to < HOLD ==> gates == w.gates[act.p := Gate(true, None)])
            && (!(to >= HOLD && to > before) && !(before >= HOLD && to < HOLD) ==> gates == w.gates)
  {
  }

  /** The operator's release leaves no mark, an open gate, and no parked mail of the account. */
  lemma ReleasedByOperator(env: Env, w: World, act: Act)
    requires act.ReleaseManual? && Enabled(env, w, act)
    ensures var z := Next(env, w, act);
            && z.Rung(act.p) == NONE && act.p !in z.marks && z.gates == w.gates[act.p := Gate(true, None)]
            && (env.queued ==> forall id <- z.q.rows :: z.q.rows[id].SentBy(act.p) ==> z.q.rows[id].status != Held)
  {
  }

  /** The objects' Apply and the step of a run are the same: marks, gates and, where there is a queue, rows. */
  lemma ApplyIsAStep(env: Env, w: World, act: Act)
    requires act.Apply? && Enabled(env, w, act)
    ensures var v, z := VerdictFor(env, w, act), Next(env, w, act);
            && v == ApplyVerdict(env.policy, Seen(w, act), act.warranted, act.reason, w.q.now)
            && z.marks == MarksAfter(env.policy, w.marks, act.p, v.change, w.q.now)
            && z.gates == GatesAfter(w.gates, act.p, v.move, w.q.now)
            && (env.queued ==> z.q.rows == RowsAfter(w.q.rows, act.p, v.move, w.q.now))
  {
  }

  // ------------------------------------------------------------ how long it lasts

  /** How long a warning or a throttle stands without being renewed; a time that is not positive is for ever. */
  function Stands(env: Env, rung: AbuseLadder.Rung, since: int, now: int): bool {
    && (rung == WARN && env.policy.warnTTL > 0 ==> now <= since + env.policy.warnTTL)
    && (rung == THROTTLE && env.policy.throttleTTL > 0 ==> now <= since + env.policy.throttleTTL)
  }

  ghost predicate LeftAlone(acts: seq<Act>, p: Pubkey) {
    forall act <- acts :: act.Work? || act.p != p
  }

  ghost predicate MarkedSince(env: Env, w: World, p: Pubkey, rung: AbuseLadder.Rung, since: int) {
    p in w.marks && w.marks[p].mark.rung == rung
    && forall now :: Standing(w.marks, p, now).Some? <==> Stands(env, rung, since, now)
  }

  lemma {:induction false} MarkKept(env: Env, w: World, acts: seq<Act>, z: World, p: Pubkey,
                                    rung: AbuseLadder.Rung, since: int)
    requires MarkedSince(env, w, p, rung, since) && Reaches(env, w, acts, z) && LeftAlone(acts, p)
    ensures MarkedSince(env, z, p, rung, since)
    decreases |acts|
  {
    if acts != [] {
      assert acts[0] in acts;
      assert Next(env, w, acts[0]).marks == w.marks || acts[0].p != p;
      MarkKeptStep(env, w, acts[0], p, rung, since);
      MarkKept(env, Next(env, w, acts[0]), acts[1..], z, p, rung, since);
    }
  }

  lemma MarkKeptStep(env: Env, w: World, act: Act, p: Pubkey, rung: AbuseLadder.Rung, since: int)
    requires MarkedSince(env, w, p, rung, since) && Enabled(env, w, act) && (act.Work? || act.p != p)
    ensures MarkedSince(env, Next(env, w, act), p, rung, since)
  {
    var z := Next(env, w, act);
    assert p in z.marks && z.marks[p] == w.marks[p];
    forall now ensures Standing(z.marks, p, now) == Standing(w.marks, p, now) {
    }
  }

  /** A warning or a throttle that an Apply puts on an account stands, whatever happens to others and to the
      queue, for exactly the time that the policy gives to its rung; then the account is unmarked. */
  lemma MarkExpires(env: Env, w: World, act: Act, acts: seq<Act>, z: World)
    requires act.Apply? && Enabled(env, w, act) && (RungNow(env, w, act) == WARN || RungNow(env, w, act) == THROTTLE)
    requires Reaches(env, Next(env, w, act), acts, z) && LeftAlone(acts, act.p)
    ensures z.Rung(act.p) == if Stands(env, RungNow(env, w, act), w.q.now, z.q.now) then RungNow(env, w, act) else NONE
  {
    var u, rung := Next(env, w, act), RungNow(env, w, act);
    ReportedByTable(env, w, act);
    forall now ensures Standing(u.marks, act.p, now).Some? <==> Stands(env, rung, w.q.now, now) {
    }
    MarkKept(env, u, acts, z, act.p, rung, w.q.now);
    assert Standing(z.marks, act.p, z.q.now).Some? <==> Stands(env, rung, w.q.now, z.q.now);
  }
}
