/** What every check keeps: counters and permits tell one story, and no open bucket is over its cap. */
module GateSteps {
  import opened Prelude
  import opened RateLimit
  import opened RateLimitLaws
  import opened RateLimitCaps
  import opened SendGate
  import opened GatePolicy
  import opened GateMeters

  /** The largest max that a meter is ever asked under. */
  function Cap(m: Meter, base: Limits): int {
    match m
    case AccountMinute => Max(base.account.msgPerMin.max, 1)
    case AccountHour => Max(base.account.msgPerHour.max, 10)
    case AccountDay => Max(base.account.msgPerDay.max, 50)
    case AccountRecipients => Max(base.account.recipPerDay.max, 50)
    case DomainMinute => Max(base.domain.msgPerMin.max, 0)
    case DomainRecipients => Max(base.domain.recipPerHour.max, 0)
    case DomainNew => Max(base.domain.newAccountRecipPerDay.max, 0)
  }

  lemma MeetsCap(base: Limits, call: GateCall, l: Limits, newAccount: bool, m: Meter)
    requires Meets(base, call, l, newAccount)
    ensures m.Window(l).max <= Cap(m, base)
  {
  }

  /** What the counters show is what was permitted, under limits with the calendar's periods. */
  ghost predicate Mirrored(cal: Calendar, g: GateState, clock: int) {
    Mirrors(cal, g.entries, TotalsOf(LedgerOf(g.permits)), clock) && forall p <- g.permits :: Fits(cal, p.limits)
  }

  /** The counters mirror the permits, and a bucket, as long as it is open, has not counted over the cap. */
  ghost predicate MeterKept(cal: Calendar, base: Limits, g: GateState, clock: int, m: Meter, key: Key) {
    Mirrored(cal, g, clock)
    && (clock <= End(cal, key) ==> 0 <= Total(TotalsOf(LedgerOf(g.permits)), key) <= Cap(m, base))
  }

  lemma MeterRoom(cal: Calendar, m: Meter, id: string, p: Permit, counts: Key -> int, key: Key)
    requires WholeSeconds(cal) && Fits(cal, p.limits) && m.Owns(key, id) && Regular(cal, key)
    requires Refused(p.Active(), counts) == None
    ensures Load(p.Active(), key) >= 0
    ensures Load(p.Active(), key) == 0 || counts(key) + Load(p.Active(), key) <= m.Window(p.limits).max
  {
    MeterLoad(cal, m, id, p, key);
    if Load(p.Active(), key) != 0 {
      MeterIsAsked(m, p.limits, p.send, p.at, id);
      var own := Checks(p.limits, p.send, p.at)[m.Index()];
      ActiveMembers(Checks(p.limits, p.send, p.at), own);
      ActiveIsTimely(cal, p.limits, p.send, p.at, own);
      NotRefused(p.Active(), counts, own);
    }
  }

  lemma TotalBounded(cal: Calendar, base: Limits, g: GateState, clock: int, permit: Permit, peek: int,
                     m: Meter, id: string, key: Key)
    requires WholeSeconds(cal) && Fits(cal, permit.limits) && m.Window(permit.limits).max <= Cap(m, base)
    requires m.Owns(key, id) && Regular(cal, key) && MeterKept(cal, base, g, clock, m, key)
    requires clock <= peek <= End(cal, key) && Refused(permit.Active(), key => Peek(g.entries, key, peek)) == None
    ensures 0 <= Total(Added(TotalsOf(LedgerOf(g.permits)), permit.Active()), key) <= Cap(m, base)
  {
    var totals := TotalsOf(LedgerOf(g.permits));
    AddedLoad(totals, permit.Active(), key);
    MeterRoom(cal, m, id, permit, key => Peek(g.entries, key, peek), key);
    MirroredPeek(cal, g.entries, totals, clock, key, peek);
  }

  /** What an admission under limits that the call meets makes of counters and permits. */
  ghost predicate Admits(cal: Calendar, base: Limits, g: GateState, call: GateCall, c: Call, after: GateState)
    requires |call.clock.incrs| >= 7
  {
    && c.clock == call.clock && Fits(cal, c.limits) && Meets(base, call, c.limits, c.send.newAccount)
    && Refused(c.Asked(), key => Peek(g.entries, key, c.clock.peek)) == None
    && after.entries == Consumed(g.entries, c.Asked(), c.clock.incrs)
    && after.permits == g.permits + [Permit(c.limits, c.send, c.clock.now)]
  }

  lemma CheckAdmits(cal: Calendar, base: Limits, g: GateState, call: GateCall) returns (c: Call)
    requires Standard(cal) && Fits(cal, base) && |call.clock.incrs| >= 7
    ensures AfterCheck(base, g, call) == g || Admits(cal, base, g, call, c, AfterCheck(base, g, call))
  {
    c := Call(base, Send(call.pubkey, call.recipients, call.bytes, false), call.clock);
    if Screen(base, call.lookups, call.now).Go? {
      ScreenedFits(cal, base, call.lookups, call.now);
      ScreenedMeets(base, call);
      c := AskedBy(base, call);
    }
  }

  lemma MirroredStep(cal: Calendar, base: Limits, g: GateState, call: GateCall, c: Call, after: GateState, clock: int)
    requires WholeSeconds(cal) && InOrder(call, clock) && (after == g || Admits(cal, base, g, call, c, after))
    requires Mirrored(cal, g, clock)
    ensures Mirrored(cal, after, Last(call.clock))
  {
    if after != g {
      MirrorsAdmission(cal, g.entries, TotalsOf(LedgerOf(g.permits)), clock, c);
      SnocLedger(g.permits, Permit(c.limits, c.send, c.clock.now));
    }
  }

  lemma MeterStep(cal: Calendar, base: Limits, g: GateState, call: GateCall, c: Call, after: GateState, clock: int,
                  m: Meter, id: string, key: Key)
    requires WholeSeconds(cal) && InOrder(call, clock) && (after == g || Admits(cal, base, g, call, c, after))
    requires m.Owns(key, id) && Regular(cal, key) && MeterKept(cal, base, g, clock, m, key)
    ensures MeterKept(cal, base, after, Last(call.clock), m, key)
  {
    MirroredStep(cal, base, g, call, c, after, clock);
    if after != g && Last(call.clock) <= End(cal, key) {
      var permit := Permit(c.limits, c.send, c.clock.now);
      MeetsCap(base, call, c.limits, c.send.newAccount, m);
      TotalBounded(cal, base, g, clock, permit, c.clock.peek, m, id, key);
      SnocLedger(g.permits, permit);
    }
  }

  lemma {:induction false} MeterAlways(cal: Calendar, base: Limits, g: GateState, calls: seq<GateCall>, clock: int,
                                       m: Meter, id: string, key: Key)
    requires Standard(cal) && Fits(cal, base) && AllInOrder(calls, clock)
    requires forall c <- calls :: |c.clock.incrs| >= 7
    requires m.Owns(key, id) && Regular(cal, key) && MeterKept(cal, base, g, clock, m, key)
    ensures MeterKept(cal, base, AfterChecks(base, g, calls), FinalClock(calls, clock), m, key)
    decreases |calls|
  {
    if calls != [] {
      var u := AfterCheck(base, g, calls[0]);
      assert MeterKept(cal, base, u, Last(calls[0].clock), m, key) by {
        var c := CheckAdmits(cal, base, g, calls[0]);
        MeterStep(cal, base, g, calls[0], c, u, clock, m, id, key);
      }
      MeterAlways(cal, base, u, calls[1..], Last(calls[0].clock), m, id, key);
    }
  }

  lemma {:induction false} PermitsMirrored(cal: Calendar, base: Limits, g: GateState, calls: seq<GateCall>, clock: int)
    requires Standard(cal) && Fits(cal, base) && AllInOrder(calls, clock) && Mirrored(cal, g, clock)
    requires forall c <- calls :: |c.clock.incrs| >= 7
    ensures Mirrored(cal, AfterChecks(base, g, calls), FinalClock(calls, clock))
    decreases |calls|
  {
    if calls != [] {
      var u := AfterCheck(base, g, calls[0]);
      assert Mirrored(cal, u, Last(calls[0].clock)) by {
        var c := CheckAdmits(cal, base, g, calls[0]);
        MirroredStep(cal, base, g, calls[0], c, u, clock);
      }
      PermitsMirrored(cal, base, u, calls[1..], Last(calls[0].clock));
    }
  }
}
