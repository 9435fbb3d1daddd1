/** The abuse ladder and the send gate over one platform: what a hold, a suspend and a throttle do to the
    sends that are asked for meanwhile. */
module GateRuns {
  import opened Prelude
  import opened OutboundQueue
  import opened AbuseLadder
  import LR = LadderRuns
  import SG = SendGate
  import GP = GatePolicy
  import RL = RateLimit

  datatype Platform = Platform(world: LR.World, gate: SG.GateState)

  datatype Event = Moderate(act: LR.Act) | Send(call: SG.GateCall)

  /** What GetMailboxSendState says of the gate: a mailbox without a row is not closed. */
  function Enabled(gates: Gates, p: Pubkey): bool {
    p in gates ==> gates[p].enabled
  }

  /** The gate's lookups, where they do not fail, read the ladder's stores. */
  ghost predicate ReadsStores(w: LR.World, call: SG.GateCall) {
    && (call.lookups.state.Some? ==> call.lookups.state.value.enabled == Enabled(w.gates, call.pubkey))
    && (call.lookups.throttled.Some? ==> call.lookups.throttled.value == (w.Rung(call.pubkey) >= THROTTLE))
  }

  ghost predicate Can(env: LR.Env, s: Platform, e: Event) {
    match e
    case Moderate(act) => LR.Enabled(env, s.world, act)
    case Send(call) => |call.clock.incrs| >= 7 && ReadsStores(s.world, call)
  }

  ghost function Next(env: LR.Env, base: RL.Limits, s: Platform, e: Event): Platform
    requires Can(env, s, e)
  {
    match e
    case Moderate(act) => Platform(LR.Next(env, s.world, act), s.gate)
    case Send(call) => Platform(s.world, SG.AfterCheck(base, s.gate, call))
  }

  ghost predicate Reaches(env: LR.Env, base: RL.Limits, s: Platform, events: seq<Event>, t: Platform)
    decreases |events|
  {
    if events == [] then s == t
    else Can(env, s, events[0]) && Reaches(env, base, Next(env, base, s, events[0]), events[1..], t)
  }

  /** The permits of t that s did not have are not of this account. */
  ghost predicate NothingNewOf(s: SG.GateState, t: SG.GateState, p: Pubkey) {
    s.permits <= t.permits && forall x <- t.permits[|s.permits|..] :: x.send.pubkey != p
  }

  lemma NothingNewOn(s: SG.GateState, u: SG.GateState, t: SG.GateState, p: Pubkey)
    requires NothingNewOf(s, u, p) && NothingNewOf(u, t, p)
    ensures NothingNewOf(s, t, p)
  {
    forall x | x in t.permits[|s.permits|..] ensures x.send.pubkey != p {
      var i :| |s.permits| <= i < |t.permits| && t.permits[i] == x;
      if i < |u.permits| {
        assert u.permits[i] == x && x in u.permits[|s.permits|..];
      } else {
        assert x in t.permits[|u.permits|..];
      }
    }
  }

  /** While its gate is closed nothing of an account is permitted. */
  lemma ClosedIsRefused(env: LR.Env, base: RL.Limits, s: Platform, e: Event)
    requires Can(env, s, e) && e.Send? && Closed(s.world.gates, e.call.pubkey)
    ensures !SG.Answer(base, s.gate.entries, e.call).Permitted? && Next(env, base, s, e).gate == s.gate
  {
    GP.EntitledStep(base, s.gate, e.call);
  }

  /** A permit of an account on the throttle or above, whose throttle lookup answered, met its small caps. */
  lemma ThrottleBites(env: LR.Env, base: RL.Limits, s: Platform, e: Event)
    requires Can(env, s, e) && e.Send? && s.world.Rung(e.call.pubkey) >= THROTTLE && e.call.lookups.throttled.Some?
    requires SG.Answer(base, s.gate.entries, e.call).Permitted?
    ensures exists x :: && Next(env, base, s, e).gate.permits == s.gate.permits + [x]
                        && GP.Entitled(base, e.call, x) && GP.Clamped(e.call.lookups)
                        && x.limits.account.msgPerMin.max == 1 && x.limits.account.msgPerHour.max == 10
                        && x.limits.account.msgPerDay.max == 50 && x.send.recipients <= 5
  {
    GP.EntitledStep(base, s.gate, e.call);
  }

  /** A send of an account that is not closed, or any of another, leaves no permit of a closed one. */
  lemma SendStep(env: LR.Env, base: RL.Limits, s: Platform, e: Event, p: Pubkey)
    requires Can(env, s, e) && e.Send? && Closed(s.world.gates, p)
    ensures NothingNewOf(s.gate, Next(env, base, s, e).gate, p)
  {
    GP.EntitledStep(base, s.gate, e.call);
    if e.call.pubkey == p {
      ClosedIsRefused(env, base, s, e);
    }
  }

  function Acts(events: seq<Event>): seq<LR.Act> {
    if events == [] then []
    else (if events[0].Moderate? then [events[0].act] else []) + Acts(events[1..])
  }

  lemma {:induction false} ActsReach(env: LR.Env, base: RL.Limits, s: Platform, events: seq<Event>, t: Platform)
    requires Reaches(env, base, s, events, t)
    ensures LR.Reaches(env, s.world, Acts(events), t.world)
    decreases |events|
  {
    if events != [] {
      ActsReach(env, base, Next(env, base, s, events[0]), events[1..], t);
      if events[0].Moderate? {
        assert Acts(events)[1..] == Acts(events[1..]);
      } else {
        assert Acts(events) == Acts(events[1..]);
      }
    }
  }

  /** An account that is held or suspended and whose stores agree. */
  ghost predicate Silenced(env: LR.Env, w: LR.World, p: Pubkey, t0: int) {
    && LR.ParksOnlyQueued(env, w) && LR.Agrees(w, p) && p in w.gates
    && LR.HeldSince(w, p, t0) && t0 <= w.q.now
  }

  lemma SilencedIsClosed(env: LR.Env, w: LR.World, p: Pubkey, t0: int)
    requires Silenced(env, w, p, t0)
    ensures Closed(w.gates, p)
  {
  }

  lemma SilencedStep(env: LR.Env, w: LR.World, act: LR.Act, p: Pubkey, t0: int)
    requires Silenced(env, w, p, t0) && LR.Enabled(env, w, act) && LR.Next(env, w, act).q.now >= w.q.now
    requires !(act.ReleaseManual? && act.p == p) && !LR.Overwrites(act, p) && !LR.Lifts(env, w, act, p)
    ensures Silenced(env, LR.Next(env, w, act), p, t0)
  {
    LR.HeldSinceStep(env, w, act, p, t0);
    LR.AgreesStep(env, w, act, p);
  }

  /** From a hold on, through every run of scans, queue work and sends in which the operator does not release
      the account and no scan overwrites its mark unread, nothing of the account is permitted before the
      hold's minimum duration is over; and never, where holds are not lifted automatically. */
  lemma {:induction false} HoldSilences(env: LR.Env, base: RL.Limits, s: Platform, events: seq<Event>, t: Platform,
                                        p: Pubkey, t0: int)
    requires Silenced(env, s.world, p, t0) && Reaches(env, base, s, events, t)
    requires forall act <- Acts(events) :: !(act.ReleaseManual? && act.p == p) && !LR.Overwrites(act, p)
    requires !env.policy.autoReleaseHold || t.world.q.now < t0 + env.policy.minHoldDuration
    ensures NothingNewOf(s.gate, t.gate, p) && Silenced(env, t.world, p, t0)
    decreases |events|
  {
    if events != [] {
      var e, u := events[0], Next(env, base, s, events[0]);
      SilencedIsClosed(env, s.world, p, t0);
      ActsReach(env, base, u, events[1..], t);
      if e.Moderate? {
        assert e.act in Acts(events);
        LR.ClockStep(env, s.world, e.act);
        LR.TimeGoesOn(env, u.world, Acts(events[1..]), t.world);
        SilencedStep(env, s.world, e.act, p, t0);
      } else {
        SendStep(env, base, s, e, p);
      }
      HoldSilences(env, base, u, events[1..], t, p, t0);
      NothingNewOn(s.gate, u.gate, t.gate, p);
    }
  }

  /** A suspend silences an account for good, as long as neither the operator nor an unread mark ends it. */
  lemma {:induction false} SuspendSilences(env: LR.Env, base: RL.Limits, s: Platform, events: seq<Event>, t: Platform,
                                           p: Pubkey)
    requires LR.ParksOnlyQueued(env, s.world) && LR.Agrees(s.world, p) && p in s.world.gates
    requires LR.Suspended(s.world, p) && Reaches(env, base, s, events, t)
    requires forall act <- Acts(events) :: !(act.ReleaseManual? && act.p == p) && !LR.Demotes(env, act, p)
    ensures NothingNewOf(s.gate, t.gate, p)
    decreases |events|
  {
    if events != [] {
      var e, u := events[0], Next(env, base, s, events[0]);
      if e.Moderate? {
        assert e.act in Acts(events);
        LR.SuspendStep(env, s.world, e.act, p);
        LR.AgreesStep(env, s.world, e.act, p);
      } else {
        SendStep(env, base, s, e, p);
      }
      SuspendSilences(env, base, u, events[1..], t, p);
      NothingNewOn(s.gate, u.gate, t.gate, p);
    }
  }
}
