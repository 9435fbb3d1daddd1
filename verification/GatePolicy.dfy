/** Whom the send gate lets through and under which caps, said from the lookups, the permits and the instants
    alone. Periods are written out in nanoseconds. */
module GatePolicy {
  import opened Prelude
  import opened RateLimit
  import opened RateLimitLaws
  import opened RateLimitCaps
  import opened SendGate

  const ONE_MINUTE := 60_000_000_000
  const ONE_HOUR := 3_600_000_000_000
  const ONE_DAY := 86_400_000_000_000

  // ---------------------------------------------------------- who may send

  predicate MaySend(a: Lookups) {
    (a.tier == Some(Named) || a.tier == Some(Paid)) && a.state.Some? && a.state.value.enabled
  }

  predicate Clamped(a: Lookups) {
    a.throttled == Some(true)
  }

  /** Paid or elevated, unless clamped. */
  predicate Lifted(a: Lookups) {
    !Clamped(a) && (a.tier == Some(Paid) || (a.state.Some? && a.state.value.elevated))
  }

  predicate Young(base: Limits, call: GateCall) {
    && call.lookups.created.Some? && call.lookups.created.value.Some?
    && call.now - call.lookups.created.value.value < base.domain.newAccountDays * ONE_DAY
  }

  /** Each denial before the limiter, exactly, and in the order in which the gate looks. */
  lemma RefusedExactlyWhen(base: Limits, entries: Entries, call: GateCall)
    ensures var a, v := call.lookups, Answer(base, entries, call);
            && (v == Forbidden(TierLookupFailed) <==> a.tier == None)
            && (v == Forbidden(SendNotPermitted) <==> a.tier == Some(Anonymous))
            && (v == Forbidden(StateLookupFailed)
                <==> (a.tier == Some(Named) || a.tier == Some(Paid)) && a.state == None)
            && (v == Forbidden(SendSuspended)
                <==> (a.tier == Some(Named) || a.tier == Some(Paid)) && a.state.Some? && !a.state.value.enabled)
            && (v == Forbidden(AgeLookupFailed) <==> MaySend(a) && !Lifted(a) && a.created == None)
            && (v.Permitted? || (v.Forbidden? && v.denial.RateLimited?)
                <==> MaySend(a) && (Lifted(a) || a.created.Some?))
  {
  }

  ghost predicate Uncapped(l: AccountLimits) {
    l.msgPerMin.max == 0 && l.msgPerHour.max == 0 && l.msgPerDay.max == 0 && l.recipPerDay.max == 0
    && l.recipPerMsg == 0
  }

  /** The limits that a call meets: none on the account if it is lifted, small ones if it is clamped, else
      the configured ones; and the tighter daily recipients of a young account, clamped or not. The domain's
      limits and the size are never lifted. */
  ghost predicate Meets(base: Limits, call: GateCall, l: Limits, newAccount: bool) {
    var a, met := call.lookups, l.account;
    && l.domain == base.domain && met.maxMessageBytes == base.account.maxMessageBytes
    && (Lifted(a) ==> Uncapped(met) && !newAccount)
    && (!Lifted(a) ==> a.created.Some? && (newAccount <==> Young(base, call)))
    && (Clamped(a) ==>
          && met.msgPerMin == Window(1, ONE_MINUTE) && met.msgPerHour == Window(10, ONE_HOUR)
          && met.msgPerDay == Window(50, ONE_DAY) && met.recipPerMsg == 5)
    && (!Lifted(a) && !Clamped(a) ==>
          && met.msgPerMin == base.account.msgPerMin && met.msgPerHour == base.account.msgPerHour
          && met.msgPerDay == base.account.msgPerDay && met.recipPerMsg == base.account.recipPerMsg)
    && (!Lifted(a) ==>
          met.recipPerDay == if Young(base, call) then Window(20, ONE_DAY)
                             else if Clamped(a) then Window(50, ONE_DAY) else base.account.recipPerDay)
  }

  lemma ScreenedMeets(base: Limits, call: GateCall)
    requires Screen(base, call.lookups, call.now).Go?
    ensures var go := Screen(base, call.lookups, call.now); Meets(base, call, go.limits, go.newAccount)
    ensures MaySend(call.lookups)
  {
  }

  /** The permit that this call may have been given: its sender may send, it met the limits of its account,
      and it is not too large. */
  ghost predicate Entitled(base: Limits, call: GateCall, p: Permit) {
    && MaySend(call.lookups)
    && p.send.pubkey == call.pubkey && p.send.recipients == call.recipients && p.send.bytes == call.bytes
    && p.at == call.clock.now
    && Meets(base, call, p.limits, p.send.newAccount)
    && (p.limits.account.recipPerMsg > 0 ==> p.send.recipients <= p.limits.account.recipPerMsg)
    && (base.account.maxMessageBytes > 0 ==> p.send.bytes <= base.account.maxMessageBytes)
  }

  lemma EntitledStep(base: Limits, g: GateState, call: GateCall)
    requires |call.clock.incrs| >= 7
    ensures var after, v := AfterCheck(base, g, call), Answer(base, g.entries, call);
            if v.Permitted?
            then exists p :: after.permits == g.permits + [p] && Entitled(base, call, p)
            else after == g
  {
    var after := AfterCheck(base, g, call);
    if Answer(base, g.entries, call).Permitted? {
      var p := after.permits[|after.permits| - 1];
      assert after.permits == g.permits + [p];
      assert Entitled(base, call, p);
    }
  }

  /** In every run each new permit was given to a call that was entitled to it. */
  lemma {:induction false} PermitsAreEntitled(base: Limits, g: GateState, calls: seq<GateCall>)
    requires forall c <- calls :: |c.clock.incrs| >= 7
    ensures g.permits <= AfterChecks(base, g, calls).permits
    ensures forall p <- AfterChecks(base, g, calls).permits[|g.permits|..] ::
              exists call :: call in calls && Entitled(base, call, p)
    decreases |calls|
  {
    if calls != [] {
      var u, z := AfterCheck(base, g, calls[0]), AfterChecks(base, g, calls);
      EntitledStep(base, g, calls[0]);
      PermitsAreEntitled(base, u, calls[1..]);
      forall p | p in z.permits[|g.permits|..]
        ensures exists call :: call in calls && Entitled(base, call, p)
      {
        if p in z.permits[|u.permits|..] {
          var call :| call in calls[1..] && Entitled(base, call, p);
        } else {
          assert |u.permits| == |g.permits| + 1 && p == z.permits[|g.permits|] == u.permits[|g.permits|];
          assert calls[0] in calls;
        }
      }
    }
  }

  // -------------------------------------------------------------- decisions

  /** What one window refuses. */
  predicate Refuses(c: Check, counts: Key -> int) {
    c.window.max > 0 && counts(c.key) + c.add > c.window.max
  }

  predicate TooMany(l: Limits, s: Send) {
    l.account.recipPerMsg > 0 && s.recipients > l.account.recipPerMsg
  }

  predicate TooLarge(l: Limits, s: Send) {
    l.account.maxMessageBytes > 0 && s.bytes > l.account.maxMessageBytes
  }

  lemma {:induction false} FirstOf(cs: seq<Check>, counts: Key -> int) returns (i: nat)
    ensures i <= |cs| && (i < |cs| ==> Refuses(cs[i], counts)) && forall j :: 0 <= j < i ==> !Refuses(cs[j], counts)
    ensures Refused(Active(cs), counts) == if i < |cs| then Some(cs[i]) else None
  {
    if cs == [] {
      i := 0;
    } else {
      var n := |cs| - 1;
      i := FirstOf(cs[..n], counts);
      if cs[n].window.On() {
        RefusedSnoc(Active(cs[..n]), cs[n], counts);
      }
      if i == n && !Refuses(cs[n], counts) {
        i := n + 1;
      }
    }
  }

  lemma {:induction false} RefusedSnoc(active: seq<Check>, c: Check, counts: Key -> int)
    ensures Refused(active + [c], counts)
         == if Refused(active, counts).Some? then Refused(active, counts)
            else if counts(c.key) + c.add > c.window.max then Some(c) else None
  {
    if active == [] {
      assert active + [c] == [c] && [c][1..] == [];
    } else {
      assert (active + [c])[1..] == active[1..] + [c] && (active + [c])[0] == active[0];
      RefusedSnoc(active[1..], c, counts);
    }
  }

  /** The decision, exactly: the recipient cap first, then the size, then the first window that refuses. */
  lemma DecidedExactly(l: Limits, s: Send, now: int, counts: Key -> int)
    ensures var d, cs := Decide(l, s, now, counts), Checks(l, s, now);
            && (d.Admitted? <==> !TooMany(l, s) && !TooLarge(l, s) && forall c <- cs :: !Refuses(c, counts))
            && (TooMany(l, s) ==> d == Denied(RecipPerMsg, 0))
            && (!TooMany(l, s) && TooLarge(l, s) ==> d == Denied(MessageTooLarge, 0))
            && (d.Denied? && !TooMany(l, s) && !TooLarge(l, s) ==>
                  exists i :: && 0 <= i < |cs| && Refuses(cs[i], counts) && d.reason == cs[i].reason
                              && forall j :: 0 <= j < i ==> !Refuses(cs[j], counts))
  {
    var cs := Checks(l, s, now);
    var i := FirstOf(cs, counts);
    if i < |cs| {
      assert cs[i] in cs;
    }
  }
}
