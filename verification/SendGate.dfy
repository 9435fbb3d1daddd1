/** The send gate: categorical denials first, then the limiter under the limits that apply. */
module SendGate {
  import opened Prelude
  import opened RateLimit
  import opened RateLimitLaws
  import opened RateLimitCaps

  datatype Tier = Anonymous | Named | Paid

  datatype SendState = SendState(enabled: bool, elevated: bool)

  /** What the gate's lookups answered; None where the lookup failed. `throttled` is None also when no
      throttle lookup is configured, and `created` is Some(None) for an identity with no users row. */
  datatype Lookups = Lookups(tier: Option<Tier>, state: Option<SendState>, throttled: Option<bool>,
                             created: Option<Option<int>>)

  datatype Denial = TierLookupFailed | SendNotPermitted | StateLookupFailed | SendSuspended | AgeLookupFailed
                  | RateLimited(reason: Reason, retryAfter: int)

  datatype Verdict = Permitted | Forbidden(denial: Denial)

  /** The outcome of everything before the limiter. */
  datatype Screening = Stop(denial: Denial) | Go(limits: Limits, newAccount: bool)

  function Screen(base: Limits, a: Lookups, now: int): Screening {
    if a.tier.None? then Stop(TierLookupFailed)
    else if a.tier.value == Anonymous then Stop(SendNotPermitted)
    else if a.state.None? then Stop(StateLookupFailed)
    else if !a.state.value.enabled then Stop(SendSuspended)
    else
      var throttled := a.throttled.GetOr(false);
      var elevated := (a.state.value.elevated || a.tier.value == Paid) && !throttled;
      var effective := if throttled then Throttled(base) else if elevated then Elevated(base) else base;
      if elevated then Go(effective, false)
      else if a.created.None? then Stop(AgeLookupFailed)
      else if a.created.value.Some? && now - a.created.value.value < base.domain.newAccountDays * DAY then
        Go(effective.(account := NewAccountLimits(effective.account)), true)
      else Go(effective, false)
  }

  class Gate {
    const store: MemoryStore
    const limits: Limits

    constructor (store: MemoryStore, limits: Limits)
      ensures this.store == store && this.limits == limits
    {
      this.store := store;
      this.limits := limits;
    }

    method Check(pubkey: string, recipients: int, bytes: int, a: Lookups, now: int, clock: Clock)
      returns (v: Verdict)
      requires |clock.incrs| >= 7
      modifies store
      ensures var call := GateCall(pubkey, recipients, bytes, a, now, clock);
              && v == Answer(limits, old(store.entries), call)
              && store.entries == AfterCheck(limits, GateState(old(store.entries), []), call).entries
      ensures v != Permitted ==> store.entries == old(store.entries)
    {
      if a.tier.None? {
        return Forbidden(TierLookupFailed);
      }
      if a.tier.value == Anonymous {
        return Forbidden(SendNotPermitted);
      }
      if a.state.None? {
        return Forbidden(StateLookupFailed);
      }
      if !a.state.value.enabled {
        return Forbidden(SendSuspended);
      }
      var throttled := false;
      if a.throttled.Some? {
        throttled := a.throttled.value;
      }
      var elevated := (a.state.value.elevated || a.tier.value == Paid) && !throttled;
      var effective := limits;
      if throttled {
        effective := Throttled(limits);
      } else if elevated {
        effective := Elevated(limits);
      }
      var newAccount := false;
      if !elevated {
        if a.created.None? {
          return Forbidden(AgeLookupFailed);
        }
        if a.created.value.Some? {
          newAccount := now - a.created.value.value < limits.domain.newAccountDays * DAY;
        }
        if newAccount {
          effective := effective.(account := NewAccountLimits(effective.account));
        }
      }
      var limiter := new Limiter(store, effective);
      var d := limiter.Allow(Send(pubkey, recipients, bytes, newAccount), clock);
      if d.Denied? {
        return Forbidden(RateLimited(d.reason, d.retryAfter));
      }
      v := Permitted;
    }
  }

  // --------------------------------------------------------------------- runs

  /** A send that was let through: the limits it met and when. */
  datatype Permit = Permit(limits: Limits, send: Send, at: int)
  {
    function Active(): seq<RateLimit.Check> {
      RateLimit.Active(Checks(limits, send, at))
    }
  }

  datatype GateCall = GateCall(pubkey: string, recipients: int, bytes: int, lookups: Lookups, now: int, clock: Clock)

  datatype GateState = GateState(entries: Entries, permits: seq<Permit>)

  function Answer(base: Limits, entries: Entries, call: GateCall): Verdict {
    match Screen(base, call.lookups, call.now)
    case Stop(denial) => Forbidden(denial)
    case Go(effective, newAccount) =>
      match Decide(effective, Send(call.pubkey, call.recipients, call.bytes, newAccount), call.clock.now,
                   key => Peek(entries, key, call.clock.peek))
      case Admitted => Permitted
      case Denied(reason, retryAfter) => Forbidden(RateLimited(reason, retryAfter))
  }

  function AfterCheck(base: Limits, g: GateState, call: GateCall): GateState
    requires |call.clock.incrs| >= 7
  {
    match Screen(base, call.lookups, call.now)
    case Stop(_) => g
    case Go(effective, newAccount) =>
      var send := Send(call.pubkey, call.recipients, call.bytes, newAccount);
      if Decide(effective, send, call.clock.now, key => Peek(g.entries, key, call.clock.peek)).Admitted? then
        GateState(Consumed(g.entries, Active(Checks(effective, send, call.clock.now)), call.clock.incrs),
                  g.permits + [Permit(effective, send, call.clock.now)])
      else g
  }

  function AfterChecks(base: Limits, g: GateState, calls: seq<GateCall>): GateState
    requires forall c <- calls :: |c.clock.incrs| >= 7
    decreases |calls|
  {
    if calls == [] then g else AfterChecks(base, AfterCheck(base, g, calls[0]), calls[1..])
  }

  /** The account windows have the periods that a throttle gives them. */
  ghost predicate Standard(cal: Calendar) {
    && WholeSeconds(cal)
    && cal("acct", "msgmin") == MINUTE && cal("acct", "msghour") == HOUR
    && cal("acct", "msgday") == DAY && cal("acct", "recipday") == DAY
  }

  lemma ScreenedFits(cal: Calendar, base: Limits, a: Lookups, now: int)
    requires Standard(cal) && Fits(cal, base) && Screen(base, a, now).Go?
    ensures Fits(cal, Screen(base, a, now).limits) && Screen(base, a, now).limits.domain == base.domain
  {
  }

  function LedgerOf(permits: seq<Permit>): Ledger {
    if permits == [] then []
    else LedgerOf(permits[..|permits| - 1])
         + [Admission(permits[|permits| - 1].at, permits[|permits| - 1].Active())]
  }

  /** Counters and permits tell the same story up to `clock`. */
  ghost predicate Kept(cal: Calendar, base: Limits, g: GateState, clock: int) {
    && Mirrors(cal, g.entries, TotalsOf(LedgerOf(g.permits)), clock)
    && Lawful(cal, LedgerOf(g.permits))
    && (forall p <- g.permits :: p.at <= clock && p.limits.domain == base.domain)
  }

  /** The clock does not go back during a call; how late it reads its counters is left open. */
  ghost predicate InOrder(call: GateCall, clock: int) {
    && |call.clock.incrs| >= 7 && Rising(call.clock.incrs)
    && clock <= call.clock.now <= call.clock.peek
    && (forall i :: 0 <= i < |call.clock.incrs| ==> call.clock.peek <= call.clock.incrs[i])
  }

  /** A call that reads its counters before any of its buckets ends. */
  ghost predicate OnTime(cal: Calendar, base: Limits, call: GateCall, clock: int) {
    && InOrder(call, clock)
    && (Screen(base, call.lookups, call.now).Go? ==>
          forall c <- AskedBy(base, call).Asked() :: call.clock.peek <= End(cal, c.key))
  }

  function AskedBy(base: Limits, call: GateCall): Call
    requires Screen(base, call.lookups, call.now).Go?
  {
    var go := Screen(base, call.lookups, call.now);
    Call(go.limits, Send(call.pubkey, call.recipients, call.bytes, go.newAccount), call.clock)
  }

  function Last(clock: Clock): int
    requires clock.incrs != []
  {
    clock.incrs[|clock.incrs| - 1]
  }

  lemma SnocLedger(permits: seq<Permit>, p: Permit)
    ensures LedgerOf(permits + [p]) == LedgerOf(permits) + [Admission(p.at, p.Active())]
    ensures TotalsOf(LedgerOf(permits + [p])) == Added(TotalsOf(LedgerOf(permits)), p.Active())
  {
    assert (permits + [p])[..|permits + [p]| - 1] == permits;
    var grown := LedgerOf(permits) + [Admission(p.at, p.Active())];
    assert grown[..|grown| - 1] == LedgerOf(permits);
  }

  lemma {:induction false} LedgerTimes(permits: seq<Permit>, clock: int)
    requires forall p <- permits :: p.at <= clock
    ensures |LedgerOf(permits)| == |permits|
    ensures forall a <- LedgerOf(permits) :: a.at <= clock
  {
    if permits != [] {
      LedgerTimes(permits[..|permits| - 1], clock);
    }
  }

  lemma KeptStep(cal: Calendar, base: Limits, g: GateState, call: GateCall, clock: int)
    requires Standard(cal) && Fits(cal, base) && Kept(cal, base, g, clock) && OnTime(cal, base, call, clock)
    ensures Kept(cal, base, AfterCheck(base, g, call), Last(call.clock))
  {
    if Screen(base, call.lookups, call.now).Go? {
      ScreenedFits(cal, base, call.lookups, call.now);
      KeptAllow(cal, base, g, call, clock, AskedBy(base, call));
    }
  }

  lemma KeptAllow(cal: Calendar, base: Limits, g: GateState, call: GateCall, clock: int, c: Call)
    requires Standard(cal) && Kept(cal, base, g, clock) && OnTime(cal, base, call, clock)
    requires Screen(base, call.lookups, call.now).Go? && c == AskedBy(base, call)
    requires Fits(cal, c.limits) && c.limits.domain == base.domain
    ensures Kept(cal, base, AfterCheck(base, g, call), Last(call.clock))
  {
    if Decide(c.limits, c.send, c.clock.now, key => Peek(g.entries, key, c.clock.peek)).Admitted? {
      AdmissionKept(cal, base, g, clock, c);
    }
  }

  lemma AdmissionKept(cal: Calendar, base: Limits, g: GateState, clock: int, c: Call)
    requires WholeSeconds(cal) && Fits(cal, c.limits) && c.limits.domain == base.domain
    requires Kept(cal, base, g, clock)
    requires |c.clock.incrs| >= 7 && Rising(c.clock.incrs) && clock <= c.clock.now <= c.clock.peek
    requires forall i :: 0 <= i < |c.clock.incrs| ==> c.clock.peek <= c.clock.incrs[i]
    requires forall check <- c.Asked() :: c.clock.peek <= End(cal, check.key)
    requires Decide(c.limits, c.send, c.clock.now, key => Peek(g.entries, key, c.clock.peek)).Admitted?
    ensures Kept(cal, base, GateState(Consumed(g.entries, c.Asked(), c.clock.incrs),
                                      g.permits + [Permit(c.limits, c.send, c.clock.now)]), Last(c.clock))
  {
    var totals := TotalsOf(LedgerOf(g.permits));
    var permits := g.permits + [Permit(c.limits, c.send, c.clock.now)];
    assert Lawful(cal, LedgerOf(permits)) && TotalsOf(LedgerOf(permits)) == Added(totals, c.Asked()) by {
      SameDecision(cal, g.entries, totals, clock, c);
      LawfulPermit(cal, base, g.permits, clock, c);
    }
    MirrorsAdmission(cal, g.entries, totals, clock, c);
    assert c.clock.now <= Last(c.clock);
    forall p | p in permits ensures p.at <= Last(c.clock) && p.limits.domain == base.domain {
      if p in g.permits {
        assert p.at <= clock;
      }
    }
  }

  lemma LawfulPermit(cal: Calendar, base: Limits, permits: seq<Permit>, clock: int, c: Call)
    requires WholeSeconds(cal) && Fits(cal, c.limits) && Lawful(cal, LedgerOf(permits))
    requires clock <= c.clock.now && forall p <- permits :: p.at <= clock
    requires Decide(c.limits, c.send, c.clock.now, key => Total(TotalsOf(LedgerOf(permits)), key)).Admitted?
    ensures var grown := LedgerOf(permits + [Permit(c.limits, c.send, c.clock.now)]);
            && Lawful(cal, grown)
            && TotalsOf(grown) == Added(TotalsOf(LedgerOf(permits)), c.Asked())
  {
    DecideOnLedger(c, LedgerOf(permits));
    LedgerTimes(permits, clock);
    AdmittedIsLawful(cal, LedgerOf(permits), c.limits, c.send, c.clock.now);
    SnocLedger(permits, Permit(c.limits, c.send, c.clock.now));
  }

  lemma DecideOnLedger(c: Call, ledger: Ledger)
    ensures Decide(c.limits, c.send, c.clock.now, key => Total(TotalsOf(ledger), key))
            == Decide(c.limits, c.send, c.clock.now, key => Counted(ledger, key))
  {
    var f, g := key => Total(TotalsOf(ledger), key), key => Counted(ledger, key);
    forall check | check in c.Asked() ensures f(check.key) == g(check.key) {
      TotalsAreCounts(ledger, check.key);
    }
    SameRefusal(c.Asked(), f, g);
  }

  ghost predicate AllOnTime(cal: Calendar, base: Limits, calls: seq<GateCall>, clock: int)
    decreases |calls|
  {
    calls == [] || (OnTime(cal, base, calls[0], clock) && AllOnTime(cal, base, calls[1..], Last(calls[0].clock)))
  }

  function FinalClock(calls: seq<GateCall>, clock: int): int
    requires forall c <- calls :: |c.clock.incrs| >= 7
  {
    if calls == [] then clock else Last(calls[|calls| - 1].clock)
  }

  lemma {:induction false} KeptAlways(cal: Calendar, base: Limits, g: GateState, calls: seq<GateCall>, clock: int)
    requires Standard(cal) && Fits(cal, base) && Kept(cal, base, g, clock) && AllOnTime(cal, base, calls, clock)
    requires forall c <- calls :: |c.clock.incrs| >= 7
    ensures Kept(cal, base, AfterChecks(base, g, calls), FinalClock(calls, clock))
    decreases |calls|
  {
    if calls != [] {
      KeptStep(cal, base, g, calls[0], clock);
      KeptAlways(cal, base, AfterCheck(base, g, calls[0]), calls[1..], Last(calls[0].clock));
    }
  }

  // ------------------------------------------------------------ domain totals

  /** The windows shared by every account. */
  datatype Shared = Messages | Recipients | NewRecipients
  {
    function Limit(d: DomainLimits): Window {
      match this
      case Messages => d.msgPerMin
      case Recipients => d.recipPerHour
      case NewRecipients => d.newAccountRecipPerDay
    }

    function Key(d: DomainLimits, t: int): RateLimit.Key {
      match this
      case Messages => WindowKey("domain", "_", "msgmin", d.msgPerMin, t)
      case Recipients => WindowKey("domain", "_", "reciphour", d.recipPerHour, t)
      case NewRecipients => WindowKey("domain", "_new", "recipday", d.newAccountRecipPerDay, t)
    }

    /** What a permitted send counts for. */
    function Weight(s: Send): int {
      match this
      case Messages => 1
      case Recipients => s.Recips()
      case NewRecipients => if s.newAccount then s.Recips() else 0
    }

    function Check(d: DomainLimits, s: Send, t: int): RateLimit.Check {
      RateLimit.Check(Key(d, t), Limit(d), Weight(s),
                      match this
                      case Messages => DomainMsgMin
                      case Recipients => DomainRecipHour
                      case NewRecipients => NewAcctRecipDay)
    }
  }

  /** What the permits of one bucket add up to, over all accounts. */
  function Sum(w: Shared, d: DomainLimits, permits: seq<Permit>, key: Key): int {
    if permits == [] then 0
    else
      var p := permits[|permits| - 1];
      Sum(w, d, permits[..|permits| - 1], key) + if w.Key(d, p.at) == key then w.Weight(p.send) else 0
  }

  predicate IsShared(w: Shared, key: Key) {
    match w
    case Messages => key.scope == "domain" && key.id == "_" && key.name == "msgmin"
    case Recipients => key.scope == "domain" && key.id == "_" && key.name == "reciphour"
    case NewRecipients => key.scope == "domain" && key.id == "_new" && key.name == "recipday"
  }

  /** Only the shared window's own check counts in its buckets. */
  lemma OnlySharedCheck(w: Shared, l: Limits, s: Send, t: int, c: RateLimit.Check)
    requires c in Checks(l, s, t) && IsShared(w, c.key)
    ensures c == w.Check(l.domain, s, t) && (w == NewRecipients ==> s.newAccount)
  {
    assert "acct"[0] != "domain"[0] && |"_"| != |"_new"| && |"msgmin"| != |"reciphour"|;
    assert |"recipday"| != |"reciphour"|;
  }

  lemma SharedLoad(w: Shared, p: Permit, key: Key)
    requires w.Limit(p.limits.domain).On() && IsShared(w, key)
    ensures Load(p.Active(), key) == if w.Key(p.limits.domain, p.at) == key then w.Weight(p.send) else 0
  {
    var cs := Checks(p.limits, p.send, p.at);
    ChecksAreDistinct(p.limits, p.send, p.at);
    ActiveKeepsDistinct(cs);
    var own := w.Check(p.limits.domain, p.send, p.at);
    ActiveMembers(cs, own);
    forall c | c in p.Active() && c.key == key
      ensures c == own && (w == NewRecipients ==> p.send.newAccount)
    {
      ActiveMembers(cs, c);
      OnlySharedCheck(w, p.limits, p.send, p.at, c);
    }
    if own.key == key && (w == NewRecipients ==> p.send.newAccount) {
      assert own == if w == Messages then cs[4] else if w == Recipients then cs[5] else cs[6];
      LoadOfDistinct(p.Active(), own);
    } else {
      LoadOfAbsent(p.Active(), key);
    }
  }

  lemma {:induction false} SharedCounts(w: Shared, d: DomainLimits, permits: seq<Permit>, key: Key)
    requires w.Limit(d).On() && IsShared(w, key) && forall p <- permits :: p.limits.domain == d
    ensures Counted(LedgerOf(permits), key) == Sum(w, d, permits, key)
  {
    if permits != [] {
      var p := permits[|permits| - 1];
      SharedCounts(w, d, permits[..|permits| - 1], key);
      SharedLoad(w, p, key);
      var before := LedgerOf(permits[..|permits| - 1]);
      assert LedgerOf(permits)[..|LedgerOf(permits)| - 1] == before;
    }
  }

  ghost predicate AllInOrder(calls: seq<GateCall>, clock: int)
    decreases |calls|
  {
    calls == [] || (InOrder(calls[0], clock) && AllInOrder(calls[1..], Last(calls[0].clock)))
  }

  /** The counters mirror the permits, and the bucket, as long as it is open, has not counted too much. */
  ghost predicate Within(cal: Calendar, base: Limits, g: GateState, clock: int, w: Shared, key: Key) {
    && Mirrors(cal, g.entries, TotalsOf(LedgerOf(g.permits)), clock)
    && (forall p <- g.permits :: p.limits.domain == base.domain)
    && (clock <= End(cal, key) ==>
          0 <= Total(TotalsOf(LedgerOf(g.permits)), key) <= w.Limit(base.domain).max)
  }

  /** What an admission adds to a shared bucket is what the counts it was decided on left room for. */
  lemma SharedRoom(w: Shared, p: Permit, counts: Key -> int, key: Key)
    requires w.Limit(p.limits.domain).On() && IsShared(w, key) && Refused(p.Active(), counts) == None
    ensures Load(p.Active(), key) >= 0
    ensures Load(p.Active(), key) == 0 || counts(key) + Load(p.Active(), key) <= w.Limit(p.limits.domain).max
  {
    SharedLoad(w, p, key);
    if w.Key(p.limits.domain, p.at) == key && w.Weight(p.send) != 0 {
      var own := w.Check(p.limits.domain, p.send, p.at);
      SharedIsAsked(w, p);
      NotRefused(p.Active(), counts, own);
    }
  }

  lemma SharedIsAsked(w: Shared, p: Permit)
    requires w.Limit(p.limits.domain).On() && w.Weight(p.send) != 0
    ensures w.Check(p.limits.domain, p.send, p.at) in p.Active()
  {
    var cs, own := Checks(p.limits, p.send, p.at), w.Check(p.limits.domain, p.send, p.at);
    ActiveMembers(cs, own);
    assert own == if w == Messages then cs[4] else if w == Recipients then cs[5] else cs[6];
  }

  lemma AdmissionWithin(cal: Calendar, base: Limits, g: GateState, clock: int, c: Call, w: Shared, key: Key)
    requires WholeSeconds(cal) && Fits(cal, c.limits) && c.limits.domain == base.domain
    requires Within(cal, base, g, clock, w, key) && w.Limit(base.domain).On() && IsShared(w, key)
    requires |c.clock.incrs| >= 7 && Rising(c.clock.incrs) && clock <= c.clock.now <= c.clock.peek
    requires forall i :: 0 <= i < |c.clock.incrs| ==> c.clock.peek <= c.clock.incrs[i]
    requires Refused(c.Asked(), key => Peek(g.entries, key, c.clock.peek)) == None
    ensures Within(cal, base, GateState(Consumed(g.entries, c.Asked(), c.clock.incrs),
                                        g.permits + [Permit(c.limits, c.send, c.clock.now)]), Last(c.clock), w, key)
  {
    var totals, permit := TotalsOf(LedgerOf(g.permits)), Permit(c.limits, c.send, c.clock.now);
    MirrorsAdmission(cal, g.entries, totals, clock, c);
    SnocLedger(g.permits, permit);
    AddedLoad(totals, c.Asked(), key);
    SharedRoom(w, permit, key => Peek(g.entries, key, c.clock.peek), key);
    if Last(c.clock) <= End(cal, key) {
      MirroredPeek(cal, g.entries, totals, clock, key, c.clock.peek);
    }
  }

  lemma WithinStep(cal: Calendar, base: Limits, g: GateState, call: GateCall, clock: int, w: Shared, key: Key)
    requires Standard(cal) && Fits(cal, base) && InOrder(call, clock)
    requires Within(cal, base, g, clock, w, key) && w.Limit(base.domain).On() && IsShared(w, key)
    ensures Within(cal, base, AfterCheck(base, g, call), Last(call.clock), w, key)
  {
    if Screen(base, call.lookups, call.now).Go? {
      ScreenedFits(cal, base, call.lookups, call.now);
      WithinAllow(cal, base, g, call, clock, AskedBy(base, call), w, key);
    }
  }

  lemma WithinAllow(cal: Calendar, base: Limits, g: GateState, call: GateCall, clock: int, c: Call,
                    w: Shared, key: Key)
    requires Standard(cal) && InOrder(call, clock)
    requires Screen(base, call.lookups, call.now).Go? && c == AskedBy(base, call)
    requires Fits(cal, c.limits) && c.limits.domain == base.domain
    requires Within(cal, base, g, clock, w, key) && w.Limit(base.domain).On() && IsShared(w, key)
    ensures Within(cal, base, AfterCheck(base, g, call), Last(call.clock), w, key)
  {
    if Decide(c.limits, c.send, c.clock.now, key => Peek(g.entries, key, c.clock.peek)).Admitted? {
      AdmissionWithin(cal, base, g, clock, c, w, key);
    }
  }

  lemma {:induction false} WithinAlways(cal: Calendar, base: Limits, g: GateState, calls: seq<GateCall>, clock: int,
                                        w: Shared, key: Key)
    requires Standard(cal) && Fits(cal, base) && AllInOrder(calls, clock)
    requires forall c <- calls :: |c.clock.incrs| >= 7
    requires Within(cal, base, g, clock, w, key) && w.Limit(base.domain).On() && IsShared(w, key)
    ensures Within(cal, base, AfterChecks(base, g, calls), FinalClock(calls, clock), w, key)
    decreases |calls|
  {
    if calls != [] {
      WithinStep(cal, base, g, calls[0], clock, w, key);
      WithinAlways(cal, base, AfterCheck(base, g, calls[0]), calls[1..], Last(calls[0].clock), w, key);
    }
  }

  /** After any run of checks over any accounts, tiers, throttles and ages, however late each of them reads
      its counters, what a domain-wide window that is on has counted in a bucket still open is the sum of
      what was permitted in it, elevated accounts included, and that is within its max. */
  lemma DomainConserved(cal: Calendar, base: Limits, calls: seq<GateCall>, clock: int, w: Shared, key: Key)
    requires Standard(cal) && Fits(cal, base) && AllInOrder(calls, clock)
    requires forall c <- calls :: |c.clock.incrs| >= 7
    requires w.Limit(base.domain).On() && IsShared(w, key) && FinalClock(calls, clock) <= End(cal, key)
    ensures var g := AfterChecks(base, GateState(map[], []), calls);
            && Peek(g.entries, key, FinalClock(calls, clock)) == Sum(w, base.domain, g.permits, key)
            && 0 <= Sum(w, base.domain, g.permits, key) <= w.Limit(base.domain).max
  {
    var g := AfterChecks(base, GateState(map[], []), calls);
    var now := FinalClock(calls, clock);
    assert Within(cal, base, GateState(map[], []), clock, w, key);
    WithinAlways(cal, base, GateState(map[], []), calls, clock, w, key);
    MirroredPeek(cal, g.entries, TotalsOf(LedgerOf(g.permits)), now, key, now);
    TotalsAreCounts(LedgerOf(g.permits), key);
    SharedCounts(w, base.domain, g.permits, key);
  }
}
