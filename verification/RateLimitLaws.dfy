/** What the limiter's counters amount to: forgetting changes no decision, and the caps hold. */
module RateLimitLaws {
  import opened Prelude
  import opened RateLimit

  // ------------------------------------------------------------ keys and instants

  /** The period every limit set gives to a window, by scope and name. */
  type Calendar = (string, string) -> int

  ghost predicate WholeSeconds(cal: Calendar) {
    forall scope, name :: cal(scope, name) > 0 && cal(scope, name) % SECOND == 0
  }

  predicate Agreed(cal: Calendar, scope: string, name: string, w: Window) {
    w.On() ==> w.period == cal(scope, name)
  }

  predicate Fits(cal: Calendar, l: Limits) {
    && Agreed(cal, "acct", "msgmin", l.account.msgPerMin)
    && Agreed(cal, "acct", "msghour", l.account.msgPerHour)
    && Agreed(cal, "acct", "msgday", l.account.msgPerDay)
    && Agreed(cal, "acct", "recipday", l.account.recipPerDay)
    && Agreed(cal, "domain", "msgmin", l.domain.msgPerMin)
    && Agreed(cal, "domain", "reciphour", l.domain.recipPerHour)
    && Agreed(cal, "domain", "recipday", l.domain.newAccountRecipPerDay)
  }

  function Period(cal: Calendar, key: Key): int {
    cal(key.scope, key.name)
  }

  function Start(key: Key): int {
    (key.bucket + UNIX_EPOCH) * SECOND
  }

  function End(cal: Calendar, key: Key): int {
    Start(key) + Period(cal, key)
  }

  /** A check made at t, on the bucket of its window that contains t. */
  predicate Timely(cal: Calendar, c: Check, t: int) {
    && c.window.On() && c.window.period > 0
    && c.window.period == Period(cal, c.key)
    && Start(c.key) == t - t % c.window.period
  }

  lemma KeyIsTimely(cal: Calendar, scope: string, id: string, name: string, w: Window, t: int)
    requires WholeSeconds(cal) && w.On() && w.period == cal(scope, name)
    ensures Start(WindowKey(scope, id, name, w, t)) == t - t % w.period
  {
    var m := w.period / SECOND;
    assert w.period == m * SECOND;
    var start := t - t % w.period;
    assert start == (t / w.period) * w.period;
    MultipleOfMultiple(t / w.period, m, SECOND);
    assert start == ((t / w.period) * m) * SECOND;
    assert start / SECOND * SECOND == start;
  }

  lemma MultipleOfMultiple(a: int, b: int, c: int)
    ensures a * (b * c) == (a * b) * c
  {
  }

  lemma {:induction false} ActiveMembers(cs: seq<Check>, c: Check)
    ensures c in Active(cs) <==> c in cs && c.window.On()
  {
    if cs != [] {
      ActiveMembers(cs[..|cs| - 1], c);
      assert cs == cs[..|cs| - 1] + [cs[|cs| - 1]];
    }
  }

  lemma ActiveIsTimely(cal: Calendar, l: Limits, s: Send, t: int, c: Check)
    requires WholeSeconds(cal) && Fits(cal, l) && c in Active(Checks(l, s, t))
    ensures Timely(cal, c, t)
  {
    ActiveMembers(Checks(l, s, t), c);
    KeyIsTimely(cal, c.key.scope, c.key.id, c.key.name, c.window, t);
  }

  lemma TimelyContains(cal: Calendar, c: Check, t: int)
    requires WholeSeconds(cal) && Timely(cal, c, t)
    ensures Start(c.key) <= t < End(cal, c.key)
  {
  }

  // --------------------------------------------------- totals that never forget

  type Totals = map<Key, int>

  function Total(totals: Totals, key: Key): int {
    if key in totals then totals[key] else 0
  }

  function Added(totals: Totals, active: seq<Check>): Totals {
    if active == [] then totals
    else
      var before := Added(totals, active[..|active| - 1]);
      var c := active[|active| - 1];
      before[c.key := Total(before, c.key) + c.add]
  }

  /** Every bucket that is still open at `clock` has the same count on both sides, and no entry for
      one will expire before the bucket ends. */
  ghost predicate Mirrors(cal: Calendar, entries: Entries, totals: Totals, clock: int) {
    forall key: Key :: End(cal, key) >= clock ==>
      && (key in entries ==> entries[key].expiresAt >= End(cal, key))
      && (if key in entries then entries[key].val else 0) == Total(totals, key)
  }

  lemma MirroredPeek(cal: Calendar, entries: Entries, totals: Totals, clock: int, key: Key, now: int)
    requires Mirrors(cal, entries, totals, clock) && clock <= now <= End(cal, key)
    ensures Peek(entries, key, now) == Total(totals, key)
  {
  }

  lemma MirrorsIncrement(cal: Calendar, entries: Entries, totals: Totals, clock: int, c: Check, t: int, now: int)
    requires WholeSeconds(cal) && Timely(cal, c, t) && t <= now && clock <= now
    requires Mirrors(cal, entries, totals, clock)
    ensures Mirrors(cal, Incremented(entries, c.key, c.add, c.window.period, now),
                    totals[c.key := Total(totals, c.key) + c.add], now)
  {
    TimelyContains(cal, c, t);
  }

  ghost predicate Rising(times: seq<int>) {
    forall i, j :: 0 <= i <= j < |times| ==> times[i] <= times[j]
  }

  lemma {:induction false} MirrorsConsumed(cal: Calendar, entries: Entries, totals: Totals, clock: int,
                                           active: seq<Check>, t: int, times: seq<int>)
    requires WholeSeconds(cal) && (forall c <- active :: Timely(cal, c, t))
    requires Mirrors(cal, entries, totals, clock)
    requires |active| <= |times| && Rising(times) && (forall i :: 0 <= i < |times| ==> t <= times[i] && clock <= times[i])
    ensures Mirrors(cal, Consumed(entries, active, times), Added(totals, active),
                    if active == [] then clock else times[|active| - 1])
  {
    if active != [] {
      var n := |active| - 1;
      MirrorsConsumed(cal, entries, totals, clock, active[..n], t, times);
      MirrorsIncrement(cal, Consumed(entries, active[..n], times), Added(totals, active[..n]),
                       if n == 0 then clock else times[n - 1], active[n], t, times[n]);
    }
  }

  lemma {:induction false} SameRefusal(active: seq<Check>, f: Key -> int, g: Key -> int)
    requires forall c <- active :: f(c.key) == g(c.key)
    ensures Refused(active, f) == Refused(active, g)
  {
    if active != [] {
      SameRefusal(active[1..], f, g);
    }
  }

  // ------------------------------------------------------------------- runs

  /** One Allow, under the limits then in force. */
  datatype Call = Call(limits: Limits, send: Send, clock: Clock)
  {
    function Asked(): seq<Check> {
      Active(Checks(limits, send, clock.now))
    }
  }

  /** The clock never goes back, and the counters are read before any asked bucket has ended. */
  ghost predicate Orderly(cal: Calendar, calls: seq<Call>, clock: int)
    decreases |calls|
  {
    calls == [] ||
    var c := calls[0];
    && Fits(cal, c.limits)
    && |c.clock.incrs| >= 7 && Rising(c.clock.incrs)
    && clock <= c.clock.now <= c.clock.peek
    && (forall i :: 0 <= i < |c.clock.incrs| ==> c.clock.peek <= c.clock.incrs[i])
    && (forall check <- c.Asked() :: c.clock.peek <= End(cal, check.key))
    && Orderly(cal, calls[1..], c.clock.incrs[|c.clock.incrs| - 1])
  }

  function StoreDecisions(entries: Entries, calls: seq<Call>): seq<Decision>
    requires forall c <- calls :: |c.clock.incrs| >= 7
    decreases |calls|
  {
    if calls == [] then []
    else
      var c := calls[0];
      var d := Decide(c.limits, c.send, c.clock.now, key => Peek(entries, key, c.clock.peek));
      [d] + StoreDecisions(if d.Admitted? then Consumed(entries, c.Asked(), c.clock.incrs) else entries, calls[1..])
  }

  function TotalsDecisions(totals: Totals, calls: seq<Call>): seq<Decision>
    decreases |calls|
  {
    if calls == [] then []
    else
      var c := calls[0];
      var d := Decide(c.limits, c.send, c.clock.now, key => Total(totals, key));
      [d] + TotalsDecisions(if d.Admitted? then Added(totals, c.Asked()) else totals, calls[1..])
  }

  lemma SameDecision(cal: Calendar, entries: Entries, totals: Totals, clock: int, c: Call)
    requires WholeSeconds(cal) && Fits(cal, c.limits) && Mirrors(cal, entries, totals, clock)
    requires clock <= c.clock.now <= c.clock.peek
    requires forall check <- c.Asked() :: c.clock.peek <= End(cal, check.key)
    ensures Decide(c.limits, c.send, c.clock.now, key => Peek(entries, key, c.clock.peek))
            == Decide(c.limits, c.send, c.clock.now, key => Total(totals, key))
  {
    var f, g := key => Peek(entries, key, c.clock.peek), key => Total(totals, key);
    forall check | check in c.Asked()
      ensures f(check.key) == g(check.key)
    {
      MirroredPeek(cal, entries, totals, clock, check.key, c.clock.peek);
    }
    SameRefusal(c.Asked(), f, g);
  }

  lemma MirrorsAdmission(cal: Calendar, entries: Entries, totals: Totals, clock: int, c: Call)
    requires WholeSeconds(cal) && Fits(cal, c.limits) && Mirrors(cal, entries, totals, clock)
    requires |c.clock.incrs| >= 7 && Rising(c.clock.incrs) && clock <= c.clock.now <= c.clock.peek
    requires forall i :: 0 <= i < |c.clock.incrs| ==> c.clock.peek <= c.clock.incrs[i]
    ensures Mirrors(cal, Consumed(entries, c.Asked(), c.clock.incrs), Added(totals, c.Asked()),
                    c.clock.incrs[|c.clock.incrs| - 1])
  {
    forall check | check in c.Asked() ensures Timely(cal, check, c.clock.now) {
      ActiveIsTimely(cal, c.limits, c.send, c.clock.now, check);
    }
    MirrorsConsumed(cal, entries, totals, clock, c.Asked(), c.clock.now, c.clock.incrs);
  }

  /** A store that drops expired counters decides every send as one that never forgets, whatever
      limits are in force from call to call. */
  lemma {:induction false} ForgettingIsInvisible(cal: Calendar, entries: Entries, totals: Totals, clock: int,
                                                 calls: seq<Call>)
    requires WholeSeconds(cal) && Mirrors(cal, entries, totals, clock) && Orderly(cal, calls, clock)
    requires forall c <- calls :: |c.clock.incrs| >= 7
    ensures StoreDecisions(entries, calls) == TotalsDecisions(totals, calls)
    decreases |calls|
  {
    if calls != [] {
      var c := calls[0];
      var later := c.clock.incrs[|c.clock.incrs| - 1];
      SameDecision(cal, entries, totals, clock, c);
      if Decide(c.limits, c.send, c.clock.now, key => Total(totals, key)).Admitted? {
        MirrorsAdmission(cal, entries, totals, clock, c);
        ForgettingIsInvisible(cal, Consumed(entries, c.Asked(), c.clock.incrs), Added(totals, c.Asked()), later,
                              calls[1..]);
      } else {
        ForgettingIsInvisible(cal, entries, totals, later, calls[1..]);
      }
    }
  }

  // ------------------------------------------------------- exactly when they agree

  ghost predicate NotNegative(totals: Totals) {
    forall key <- totals :: totals[key] >= 0
  }

  /** The check that these counts refuse, if any, is refused by a store read at `at` as well: its add alone
      is too much, or its entry has not expired. */
  predicate SeenAmong(entries: Entries, asked: seq<Check>, counted: Key -> int, at: int) {
    match Refused(asked, counted)
    case None => true
    case Some(hit) =>
      || hit.add > hit.window.max
      || (hit.key in entries && at <= entries[hit.key].expiresAt)
  }

  predicate RefusalSeen(entries: Entries, totals: Totals, c: Call) {
    SeenAmong(entries, c.Asked(), key => Total(totals, key), c.clock.peek)
  }

  lemma {:induction false} RefusedIsAsked(active: seq<Check>, counts: Key -> int)
    requires Refused(active, counts).Some?
    ensures Refused(active, counts).value in active
  {
    if Refused(active, counts) != Some(active[0]) {
      RefusedIsAsked(active[1..], counts);
    }
  }

  lemma {:induction false} FirstRefusal(active: seq<Check>, seen: Key -> int, counted: Key -> int)
    requires forall c <- active :: seen(c.key) == counted(c.key) || seen(c.key) == 0
    requires forall c <- active :: 0 <= counted(c.key)
    requires forall i, j :: 0 <= i < j < |active| ==> active[i].reason != active[j].reason
    ensures Refused(active, counted).None? ==> Refused(active, seen).None?
    ensures Refused(active, counted).Some? ==>
              var hit := Refused(active, counted).value;
              && hit in active
              && (if seen(hit.key) + hit.add > hit.window.max then Refused(active, seen) == Some(hit)
                  else Refused(active, seen).Some? ==> Refused(active, seen).value.reason != hit.reason)
  {
    if active != [] {
      if counted(active[0].key) + active[0].add > active[0].window.max {
        if Refused(active[1..], seen).Some? {
          RefusedIsAsked(active[1..], seen);
        }
      } else {
        FirstRefusal(active[1..], seen, counted);
      }
    }
  }

  predicate ReasonsDiffer(cs: seq<Check>) {
    forall i, j :: 0 <= i < j < |cs| ==> cs[i].reason != cs[j].reason
  }

  lemma {:induction false} ActiveReasons(cs: seq<Check>)
    requires ReasonsDiffer(cs)
    ensures ReasonsDiffer(Active(cs))
  {
    if cs != [] {
      var n := |cs| - 1;
      ActiveReasons(cs[..n]);
      forall i | 0 <= i < |Active(cs[..n])| ensures Active(cs[..n])[i].reason != cs[n].reason {
        ActiveMembers(cs[..n], Active(cs[..n])[i]);
      }
    }
  }

  lemma AskedReasons(c: Call)
    ensures ReasonsDiffer(c.Asked())
  {
    ActiveReasons(Checks(c.limits, c.send, c.clock.now));
  }

  /** What a store read at `at` shows of a bucket: all that was counted, or, once expired, nothing. */
  predicate ShownOrGone(entries: Entries, seen: Key -> int, counted: Key -> int, at: int, key: Key) {
    && seen(key) == (if key in entries && at <= entries[key].expiresAt then counted(key) else 0)
    && (key !in entries ==> counted(key) == 0)
    && 0 <= counted(key)
  }

  lemma AskedIsShown(cal: Calendar, entries: Entries, totals: Totals, clock: int, c: Call, check: Check)
    requires WholeSeconds(cal) && Fits(cal, c.limits) && Mirrors(cal, entries, totals, clock)
    requires NotNegative(totals) && clock <= c.clock.now && check in c.Asked()
    ensures ShownOrGone(entries, key => Peek(entries, key, c.clock.peek), key => Total(totals, key), c.clock.peek, check.key)
  {
    ActiveIsTimely(cal, c.limits, c.send, c.clock.now, check);
    TimelyContains(cal, check, c.clock.now);
  }

  /** A refusal that is seen is the same on both sides; one that is missed leads to another answer. */
  lemma SeenOrMissed(entries: Entries, asked: seq<Check>, seen: Key -> int, counted: Key -> int, at: int)
    requires ReasonsDiffer(asked) && forall check <- asked :: ShownOrGone(entries, seen, counted, at, check.key)
    ensures SeenAmong(entries, asked, counted, at) ==> Refused(asked, seen) == Refused(asked, counted)
    ensures !SeenAmong(entries, asked, counted, at) ==>
              && Refused(asked, counted).Some?
              && (Refused(asked, seen).Some? ==>
                    Refused(asked, seen).value.reason != Refused(asked, counted).value.reason)
  {
    FirstRefusal(asked, seen, counted);
    if Refused(asked, counted).Some? {
      assert ShownOrGone(entries, seen, counted, at, Refused(asked, counted).value.key);
    }
  }

  /** One Allow over the lazily expiring store decides as one over the totals exactly when the totals'
      refusal is seen, however late the store reads its clock. */
  lemma SameDecisionExactlyWhen(cal: Calendar, entries: Entries, totals: Totals, clock: int, c: Call)
    requires WholeSeconds(cal) && Fits(cal, c.limits) && Mirrors(cal, entries, totals, clock)
    requires NotNegative(totals) && clock <= c.clock.now
    ensures Decide(c.limits, c.send, c.clock.now, key => Peek(entries, key, c.clock.peek))
            == Decide(c.limits, c.send, c.clock.now, key => Total(totals, key))
       <==> Oversize(c.limits, c.send).Some? || RefusalSeen(entries, totals, c)
  {
    var seen, counted := key => Peek(entries, key, c.clock.peek), key => Total(totals, key);
    forall check | check in c.Asked() ensures ShownOrGone(entries, seen, counted, c.clock.peek, check.key) {
      AskedIsShown(cal, entries, totals, clock, c, check);
    }
    AskedReasons(c);
    SeenOrMissed(entries, c.Asked(), seen, counted, c.clock.peek);
  }

  /** The clock never goes back; how late counters are read is left open. */
  ghost predicate Ordered(cal: Calendar, calls: seq<Call>, clock: int)
    decreases |calls|
  {
    calls == [] ||
    var c := calls[0];
    && Fits(cal, c.limits)
    && |c.clock.incrs| >= 7 && Rising(c.clock.incrs)
    && clock <= c.clock.now <= c.clock.peek
    && (forall i :: 0 <= i < |c.clock.incrs| ==> c.clock.peek <= c.clock.incrs[i])
    && Ordered(cal, calls[1..], c.clock.incrs[|c.clock.incrs| - 1])
  }

  /** No refusal is missed as long as none was missed before. */
  ghost predicate RefusalsSeen(entries: Entries, totals: Totals, calls: seq<Call>)
    requires forall c <- calls :: |c.clock.incrs| >= 7
    decreases |calls|
  {
    calls == [] ||
    var c := calls[0];
    && (Oversize(c.limits, c.send).Some? || RefusalSeen(entries, totals, c))
    && if Decide(c.limits, c.send, c.clock.now, key => Total(totals, key)).Admitted?
       then RefusalsSeen(Consumed(entries, c.Asked(), c.clock.incrs), Added(totals, c.Asked()), calls[1..])
       else RefusalsSeen(entries, totals, calls[1..])
  }

  lemma {:induction false} AddedNotNegative(totals: Totals, active: seq<Check>)
    requires NotNegative(totals) && forall c <- active :: c.add >= 0
    ensures NotNegative(Added(totals, active))
  {
    if active != [] {
      AddedNotNegative(totals, active[..|active| - 1]);
    }
  }

  lemma AskedAdds(c: Call, check: Check)
    requires check in c.Asked()
    ensures check.add >= 0
  {
    ActiveMembers(Checks(c.limits, c.send, c.clock.now), check);
  }

  /** Over any sequence of calls, however late each reads its counters, the lazily expiring store decides
      as one that never forgets exactly when it sees every refusal. */
  lemma {:induction false} ForgettingExactlyWhen(cal: Calendar, entries: Entries, totals: Totals, clock: int,
                                                 calls: seq<Call>)
    requires WholeSeconds(cal) && Mirrors(cal, entries, totals, clock) && NotNegative(totals)
    requires Ordered(cal, calls, clock) && forall c <- calls :: |c.clock.incrs| >= 7
    ensures StoreDecisions(entries, calls) == TotalsDecisions(totals, calls) <==> RefusalsSeen(entries, totals, calls)
    decreases |calls|
  {
    if calls != [] {
      var c, rest := calls[0], calls[1..];
      var later := c.clock.incrs[|c.clock.incrs| - 1];
      SameDecisionExactlyWhen(cal, entries, totals, clock, c);
      var mine := StoreDecisions(entries, calls);
      var theirs := TotalsDecisions(totals, calls);
      if mine[0] == theirs[0] {
        if theirs[0].Admitted? {
          MirrorsAdmission(cal, entries, totals, clock, c);
          forall check | check in c.Asked() ensures check.add >= 0 {
            AskedAdds(c, check);
          }
          AddedNotNegative(totals, c.Asked());
          ForgettingExactlyWhen(cal, Consumed(entries, c.Asked(), c.clock.incrs), Added(totals, c.Asked()), later, rest);
          assert mine[1..] == StoreDecisions(Consumed(entries, c.Asked(), c.clock.incrs), rest);
          assert theirs[1..] == TotalsDecisions(Added(totals, c.Asked()), rest);
        } else {
          ForgettingExactlyWhen(cal, entries, totals, later, rest);
          assert mine[1..] == StoreDecisions(entries, rest);
          assert theirs[1..] == TotalsDecisions(totals, rest);
        }
        assert mine == [mine[0]] + mine[1..] && theirs == [theirs[0]] + theirs[1..];
      }
    }
  }

  /** A refusal can be missed: a bucket first used at second 30 is named at
      second 59, but read at second 91, when its count is gone. */
  lemma LateReadAdmitsMore()
    ensures var w := Window(1, MINUTE);
            var l := DEFAULT_LIMITS.(account := AccountLimits(w, OFF, OFF, 0, OFF, 0));
            var s := Send("a", 1, 0, false);
            var key := WindowKey("acct", "a", "msgmin", w, 30 * SECOND);
            var entries, totals := map[key := Entry(1, 90 * SECOND)], map[key := 1];
            && Mirrors((_, _) => MINUTE, entries, totals, 30 * SECOND)
            && Decide(l, s, 59 * SECOND, k => Peek(entries, k, 91 * SECOND)).Admitted?
            && Decide(l, s, 59 * SECOND, k => Total(totals, k)) == Denied(AcctMsgMin, SECOND)
  {
    var w := Window(1, MINUTE);
    var l := DEFAULT_LIMITS.(account := AccountLimits(w, OFF, OFF, 0, OFF, 0));
    var s := Send("a", 1, 0, false);
    var key := WindowKey("acct", "a", "msgmin", w, 30 * SECOND);
    var entries, totals := map[key := Entry(1, 90 * SECOND)], map[key := 1];
    var cs := Checks(l, s, 59 * SECOND);
    assert cs[0].key == key;
    ActiveOf(cs);
    assert Active(cs) == [cs[0], cs[4], cs[5]];
    var seen, counted := k => Peek(entries, k, 91 * SECOND), k => Total(totals, k);
    assert Refused(Active(cs), counted) == Some(cs[0]);
    assert Refused([cs[5]], seen) == None;
    assert [cs[4], cs[5]][1..] == [cs[5]];
    assert Refused([cs[4], cs[5]], seen) == None;
    assert Active(cs)[1..] == [cs[4], cs[5]];
    assert Refused(Active(cs), seen) == None;
  }

  lemma ActiveOf(cs: seq<Check>)
    requires |cs| == 6 && cs[0].window.On() && cs[4].window.On() && cs[5].window.On()
    requires !cs[1].window.On() && !cs[2].window.On() && !cs[3].window.On()
    ensures Active(cs) == [cs[0], cs[4], cs[5]]
  {
    assert cs[..5][..4] == cs[..4] && cs[..4][..3] == cs[..3] && cs[..3][..2] == cs[..2] && cs[..2][..1] == cs[..1];
    assert cs[..1][..0] == [];
    assert Active(cs[..1]) == [cs[0]];
    assert Active(cs[..2]) == [cs[0]];
    assert Active(cs[..3]) == [cs[0]];
    assert Active(cs[..4]) == [cs[0]];
    assert Active(cs[..5]) == [cs[0], cs[4]];
  }
}
