/** What each window has counted after any run of checks, and what its denials mean. */
module GateCounts {
  import opened Prelude
  import opened RateLimit
  import opened RateLimitLaws
  import opened RateLimitCaps
  import opened SendGate
  import opened GatePolicy
  import opened GateMeters
  import opened GateSteps

  /** After any run of checks, however late each of them reads its counters, every window of every account
      and of the domain has counted, in a bucket still open, exactly the permits that belong there: those of
      that account alone, or of all; and that is within its cap. */
  lemma MetersConserved(cal: Calendar, base: Limits, calls: seq<GateCall>, clock: int, m: Meter, id: string, key: Key)
    requires Standard(cal) && Fits(cal, base) && AllInOrder(calls, clock)
    requires forall c <- calls :: |c.clock.incrs| >= 7
    requires m.Owns(key, id) && Aligned(cal, key) && FinalClock(calls, clock) <= End(cal, key)
    ensures var g, now := AfterChecks(base, GateState(map[], []), calls), FinalClock(calls, clock);
            && Peek(g.entries, key, now) == Metered(m, id, g.permits, Start(key), End(cal, key))
            && 0 <= Metered(m, id, g.permits, Start(key), End(cal, key)) <= Cap(m, base)
  {
    var g, now := AfterChecks(base, GateState(map[], []), calls), FinalClock(calls, clock);
    AlignedIsRegular(cal, key);
    assert MeterKept(cal, base, GateState(map[], []), clock, m, key);
    MeterAlways(cal, base, GateState(map[], []), calls, clock, m, id, key);
    MirroredPeek(cal, g.entries, TotalsOf(LedgerOf(g.permits)), now, key, now);
    TotalsAreCounts(LedgerOf(g.permits), key);
    MeterCounts(cal, m, id, g.permits, key);
  }

  /** With the default limits an account gets through no more than this in a minute, an hour or a day of the
      calendar, and the domain no more than that. */
  lemma DefaultCaps(m: Meter)
    ensures Cap(m, DEFAULT_LIMITS) == match m
                                      case AccountMinute => 5
                                      case AccountHour => 100
                                      case AccountDay => 500
                                      case AccountRecipients => 1000
                                      case DomainMinute => 300
                                      case DomainRecipients => 5000
                                      case DomainNew => 200
  {
  }

  // ---------------------------------------------------------------- denials

  /** What has been metered in the period, of this length, that `now` is in. */
  function MeteredNow(m: Meter, id: string, permits: seq<Permit>, period: int, now: int): int
    requires period > 0
  {
    var from := now - now % period;
    Metered(m, id, permits, from, from + period)
  }

  lemma {:induction false} MeteredNotNegative(m: Meter, id: string, permits: seq<Permit>, from: int, to: int)
    ensures Metered(m, id, permits, from, to) >= 0
  {
    if permits != [] {
      MeteredNotNegative(m, id, permits[..|permits| - 1], from, to);
    }
  }

  lemma MultipleIsAligned(q: int, p: int)
    requires p > 0
    ensures q * p % p == 0
  {
    DivUnique(q * p, p, q);
  }

  lemma AlignedByTime(cal: Calendar, own: Check, now: int)
    requires WholeSeconds(cal) && Timely(cal, own, now)
    ensures Aligned(cal, own.key)
  {
    var p := own.window.period;
    assert Start(own.key) == (now / p) * p;
    MultipleIsAligned(now / p, p);
  }

  lemma MeterTotal(cal: Calendar, permits: seq<Permit>, own: Check, now: int, m: Meter, id: string)
    requires WholeSeconds(cal) && (forall p <- permits :: Fits(cal, p.limits))
    requires Timely(cal, own, now) && m.Owns(own.key, id)
    ensures Total(TotalsOf(LedgerOf(permits)), own.key) == MeteredNow(m, id, permits, own.window.period, now)
  {
    TotalsAreCounts(LedgerOf(permits), own.key);
    AlignedByTime(cal, own, now);
    AlignedIsRegular(cal, own.key);
    MeterCounts(cal, m, id, permits, own.key);
  }

  /** The store shows, of a bucket asked for at `now`, what was metered or, read too late, nothing. */
  lemma MeterShown(cal: Calendar, g: GateState, clock: int, own: Check, now: int, peek: int, m: Meter, id: string)
    requires WholeSeconds(cal) && (forall p <- g.permits :: Fits(cal, p.limits))
    requires Mirrors(cal, g.entries, TotalsOf(LedgerOf(g.permits)), clock) && clock <= now <= peek
    requires Timely(cal, own, now) && m.Owns(own.key, id)
    ensures var met, shown := MeteredNow(m, id, g.permits, own.window.period, now), Peek(g.entries, own.key, peek);
            0 <= met && (shown == met || shown == 0) && (peek <= End(cal, own.key) ==> shown == met)
  {
    MeterTotal(cal, g.permits, own, now, m, id);
    TimelyContains(cal, own, now);
    var from := now - now % own.window.period;
    MeteredNotNegative(m, id, g.permits, from, from + own.window.period);
    if peek <= End(cal, own.key) {
      MirroredPeek(cal, g.entries, TotalsOf(LedgerOf(g.permits)), clock, own.key, peek);
    }
  }

  /** A window that refuses has been used up: what was metered in it and the send are over its max. */
  lemma RefusedIsSpent(cal: Calendar, g: GateState, clock: int, c: Call, m: Meter, own: Check)
    requires WholeSeconds(cal) && Fits(cal, c.limits) && (forall p <- g.permits :: Fits(cal, p.limits))
    requires Mirrors(cal, g.entries, TotalsOf(LedgerOf(g.permits)), clock) && clock <= c.clock.now <= c.clock.peek
    requires own in Checks(c.limits, c.send, c.clock.now) && own.reason == m.Reason()
    requires Refuses(own, key => Peek(g.entries, key, c.clock.peek))
    ensures var w := m.Window(c.limits);
            && w.max > 0 && w.period > 0
            && MeteredNow(m, c.send.pubkey, g.permits, w.period, c.clock.now) + m.Weight(c.send) > w.max
  {
    ReasonIsMeters(m, c.limits, c.send, c.clock.now, own);
    ActiveMembers(Checks(c.limits, c.send, c.clock.now), own);
    ActiveIsTimely(cal, c.limits, c.send, c.clock.now, own);
    MeterShown(cal, g, clock, own, c.clock.now, c.clock.peek, m, c.send.pubkey);
  }

  ghost predicate Spent(base: Limits, g: GateState, call: GateCall, m: Meter, l: Limits, newAccount: bool) {
    var w, send := m.Window(l), Send(call.pubkey, call.recipients, call.bytes, newAccount);
    && Meets(base, call, l, newAccount) && m.Asks(send, call.pubkey)
    && w.max > 0 && w.period > 0
    && MeteredNow(m, call.pubkey, g.permits, w.period, call.clock.now) + m.Weight(send) > w.max
  }

  /** A denial by a window is earned, however late the counters are read: what the permits of this account,
      if the window is one of the account, came to in the period, and the send, are over the max that it met.
      So nobody else's sends, nor refused ones, use up an account's windows. */
  lemma DeniedIsSpent(cal: Calendar, base: Limits, calls: seq<GateCall>, clock: int, call: GateCall, m: Meter,
                      retryAfter: int)
    requires Standard(cal) && Fits(cal, base) && AllInOrder(calls, clock)
    requires forall c <- calls :: |c.clock.incrs| >= 7
    requires InOrder(call, FinalClock(calls, clock))
    requires Answer(base, AfterChecks(base, GateState(map[], []), calls).entries, call)
          == Forbidden(RateLimited(m.Reason(), retryAfter))
    ensures exists l, newAccount :: Spent(base, AfterChecks(base, GateState(map[], []), calls), call, m, l, newAccount)
  {
    var g, now := AfterChecks(base, GateState(map[], []), calls), FinalClock(calls, clock);
    PermitsMirrored(cal, base, GateState(map[], []), calls, clock);
    ScreenedFits(cal, base, call.lookups, call.now);
    ScreenedMeets(base, call);
    var c := AskedBy(base, call);
    var counts := key => Peek(g.entries, key, c.clock.peek);
    DecidedExactly(c.limits, c.send, c.clock.now, counts);
    var cs := Checks(c.limits, c.send, c.clock.now);
    var i :| 0 <= i < |cs| && Refuses(cs[i], counts) && cs[i].reason == m.Reason();
    RefusedIsSpent(cal, g, now, c, m, cs[i]);
    ReasonIsMeters(m, c.limits, c.send, c.clock.now, cs[i]);
    assert Spent(base, g, call, m, c.limits, c.send.newAccount);
  }

  /** And a send that is let through by a call that reads its counters in time fits into every window that
      it meets. */
  lemma PermittedFits(cal: Calendar, base: Limits, calls: seq<GateCall>, clock: int, call: GateCall, m: Meter)
    requires Standard(cal) && Fits(cal, base) && AllInOrder(calls, clock)
    requires forall c <- calls :: |c.clock.incrs| >= 7
    requires OnTime(cal, base, call, FinalClock(calls, clock))
    requires Answer(base, AfterChecks(base, GateState(map[], []), calls).entries, call).Permitted?
    ensures exists l, newAccount ::
              && Meets(base, call, l, newAccount)
              && !Spent(base, AfterChecks(base, GateState(map[], []), calls), call, m, l, newAccount)
  {
    var g, now := AfterChecks(base, GateState(map[], []), calls), FinalClock(calls, clock);
    PermitsMirrored(cal, base, GateState(map[], []), calls, clock);
    ScreenedFits(cal, base, call.lookups, call.now);
    ScreenedMeets(base, call);
    var c := AskedBy(base, call);
    if Spent(base, g, call, m, c.limits, c.send.newAccount) {
      SpentIsRefused(cal, g, now, c, m);
      DecidedExactly(c.limits, c.send, c.clock.now, key => Peek(g.entries, key, c.clock.peek));
    }
  }

  lemma SpentIsRefused(cal: Calendar, g: GateState, clock: int, c: Call, m: Meter)
    requires WholeSeconds(cal) && Fits(cal, c.limits) && Mirrored(cal, g, clock)
    requires clock <= c.clock.now <= c.clock.peek && forall check <- c.Asked() :: c.clock.peek <= End(cal, check.key)
    requires m.Asks(c.send, c.send.pubkey) && m.Window(c.limits).max > 0 && m.Window(c.limits).period > 0
    requires MeteredNow(m, c.send.pubkey, g.permits, m.Window(c.limits).period, c.clock.now) + m.Weight(c.send)
             > m.Window(c.limits).max
    ensures exists own :: own in Checks(c.limits, c.send, c.clock.now)
                          && Refuses(own, key => Peek(g.entries, key, c.clock.peek))
  {
    MeterIsAsked(m, c.limits, c.send, c.clock.now, c.send.pubkey);
    var own := Checks(c.limits, c.send, c.clock.now)[m.Index()];
    assert own in Checks(c.limits, c.send, c.clock.now);
    ActiveMembers(Checks(c.limits, c.send, c.clock.now), own);
    ActiveIsTimely(cal, c.limits, c.send, c.clock.now, own);
    MeterShown(cal, g, clock, own, c.clock.now, c.clock.peek, m, c.send.pubkey);
    assert Refuses(own, key => Peek(g.entries, key, c.clock.peek));
  }
}
