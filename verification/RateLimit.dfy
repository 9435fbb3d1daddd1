/** The outbound rate limiter: fixed windows counted in a store that forgets lazily. Instants and
    periods are nanoseconds, instants counted from the zero time of the clock. */
module RateLimit {
  import opened Prelude

  const SECOND := 1_000_000_000
  const MINUTE := 60 * SECOND
  const HOUR := 60 * MINUTE
  const DAY := 24 * HOUR
  /** Seconds from the zero time to the Unix epoch. */
  const UNIX_EPOCH := 62_135_596_800

  // ------------------------------------------------------------------- limits

  datatype Window = Window(max: int, period: int)
  {
    predicate On() {
      max > 0
    }
  }

  const OFF := Window(0, 0)

  datatype AccountLimits = AccountLimits(msgPerMin: Window, msgPerHour: Window, msgPerDay: Window,
                                         recipPerMsg: int, recipPerDay: Window, maxMessageBytes: int)

  datatype DomainLimits = DomainLimits(msgPerMin: Window, recipPerHour: Window, newAccountDays: int,
                                       newAccountRecipPerDay: Window)

  datatype Limits = Limits(account: AccountLimits, domain: DomainLimits)

  const DEFAULT_LIMITS :=
    Limits(AccountLimits(Window(5, MINUTE), Window(100, HOUR), Window(500, DAY), 50, Window(1000, DAY),
                         25 * 1024 * 1024),
           DomainLimits(Window(300, MINUTE), Window(5000, HOUR), 7, Window(200, DAY)))

  function Elevated(l: Limits): Limits {
    l.(account := AccountLimits(OFF, OFF, OFF, 0, OFF, l.account.maxMessageBytes))
  }

  function Throttled(l: Limits): Limits {
    l.(account := AccountLimits(Window(1, MINUTE), Window(10, HOUR), Window(50, DAY), 5, Window(50, DAY),
                                l.account.maxMessageBytes))
  }

  function NewAccountLimits(base: AccountLimits): AccountLimits {
    base.(recipPerDay := Window(20, DAY))
  }

  // ------------------------------------------------------------------ windows

  /** Go's Time.Truncate: the identity for a period that is not positive. */
  function Truncate(t: int, period: int): int {
    if period <= 0 then t else t - t % period
  }

  datatype Key = Key(scope: string, id: string, name: string, bucket: int)

  function WindowKey(scope: string, id: string, name: string, w: Window, now: int): Key {
    Key(scope, id, name, Truncate(now, w.period) / SECOND - UNIX_EPOCH)
  }

  function ResetAfter(w: Window, now: int): int {
    w.period - (now - Truncate(now, w.period))
  }

  datatype Reason = AcctMsgMin | AcctMsgHour | AcctMsgDay | RecipPerMsg | AcctRecipDay | MessageTooLarge
                  | DomainMsgMin | DomainRecipHour | NewAcctRecipDay

  datatype Decision = Admitted | Denied(reason: Reason, retryAfter: int)

  datatype Send = Send(pubkey: string, recipients: int, bytes: int, newAccount: bool)
  {
    function Recips(): int {
      Max(recipients, 1)
    }
  }

  datatype Check = Check(key: Key, window: Window, add: int, reason: Reason)

  function Checks(l: Limits, s: Send, now: int): seq<Check> {
    [Check(WindowKey("acct", s.pubkey, "msgmin", l.account.msgPerMin, now), l.account.msgPerMin, 1, AcctMsgMin),
     Check(WindowKey("acct", s.pubkey, "msghour", l.account.msgPerHour, now), l.account.msgPerHour, 1, AcctMsgHour),
     Check(WindowKey("acct", s.pubkey, "msgday", l.account.msgPerDay, now), l.account.msgPerDay, 1, AcctMsgDay),
     Check(WindowKey("acct", s.pubkey, "recipday", l.account.recipPerDay, now), l.account.recipPerDay,
           s.Recips(), AcctRecipDay),
     Check(WindowKey("domain", "_", "msgmin", l.domain.msgPerMin, now), l.domain.msgPerMin, 1, DomainMsgMin),
     Check(WindowKey("domain", "_", "reciphour", l.domain.recipPerHour, now), l.domain.recipPerHour,
           s.Recips(), DomainRecipHour)]
    + if s.newAccount then
        [Check(WindowKey("domain", "_new", "recipday", l.domain.newAccountRecipPerDay, now),
               l.domain.newAccountRecipPerDay, s.Recips(), NewAcctRecipDay)]
      else []
  }

  /** The checks whose window is on, in order. */
  function Active(cs: seq<Check>): (active: seq<Check>)
    ensures |active| <= |cs|
  {
    if cs == [] then []
    else
      var rest := Active(cs[..|cs| - 1]);
      if cs[|cs| - 1].window.On() then rest + [cs[|cs| - 1]] else rest
  }

  /** The first check that the counts refuse. */
  function Refused(active: seq<Check>, counts: Key -> int): Option<Check> {
    if active == [] then None
    else if counts(active[0].key) + active[0].add > active[0].window.max then Some(active[0])
    else Refused(active[1..], counts)
  }

  /** The denial that needs no counter, if any. */
  function Oversize(l: Limits, s: Send): Option<Decision> {
    if l.account.recipPerMsg > 0 && s.recipients > l.account.recipPerMsg then Some(Denied(RecipPerMsg, 0))
    else if l.account.maxMessageBytes > 0 && s.bytes > l.account.maxMessageBytes then Some(Denied(MessageTooLarge, 0))
    else None
  }

  function Decide(l: Limits, s: Send, now: int, counts: Key -> int): Decision {
    if Oversize(l, s).Some? then Oversize(l, s).value
    else
      match Refused(Active(Checks(l, s, now)), counts)
      case Some(c) => Denied(c.reason, ResetAfter(c.window, now))
      case None => Admitted
  }

  // -------------------------------------------------------------- the counters

  datatype Entry = Entry(val: int, expiresAt: int)

  type Entries = map<Key, Entry>

  /** What a read sees: an entry counts up to and including its expiry. */
  function Peek(entries: Entries, key: Key, now: int): int {
    if key in entries && now <= entries[key].expiresAt then entries[key].val else 0
  }

  function Incremented(entries: Entries, key: Key, n: int, ttl: int, now: int): Entries {
    if key in entries && now <= entries[key].expiresAt then
      entries[key := Entry(entries[key].val + n, entries[key].expiresAt)]
    else entries[key := Entry(n, now + ttl)]
  }

  /** The increments of an admission, the i-th at times[i]. */
  function Consumed(entries: Entries, active: seq<Check>, times: seq<int>): Entries
    requires |active| <= |times|
  {
    if active == [] then entries
    else
      var n := |active| - 1;
      Incremented(Consumed(entries, active[..n], times), active[n].key, active[n].add, active[n].window.period, times[n])
  }

  class MemoryStore {
    var entries: Entries

    constructor ()
      ensures entries == map[]
    {
      entries := map[];
    }

    method IncrBy(key: Key, n: int, ttl: int, now: int) returns (total: int)
      modifies this
      ensures entries == Incremented(old(entries), key, n, ttl, now)
      ensures total == entries[key].val == Peek(old(entries), key, now) + n
      ensures entries[key].expiresAt == if key in old(entries) && now <= old(entries)[key].expiresAt
                                        then old(entries)[key].expiresAt else now + ttl
      ensures forall other :: other != key ==> (other in entries <==> other in old(entries))
                                               && (other in entries ==> entries[other] == old(entries)[other])
    {
      var e := Entry(0, now + ttl);
      if key in entries && !(now > entries[key].expiresAt) {
        e := entries[key];
      }
      e := Entry(e.val + n, e.expiresAt);
      entries := entries[key := e];
      total := e.val;
    }

    /** Keys that are missing or expired are left out of the answer. */
    method PeekAll(keys: seq<Key>, now: int) returns (out: map<Key, int>)
      ensures forall key :: (if key in out then out[key] else 0) == if key in keys then Peek(entries, key, now) else 0
      ensures forall key :: key in out <==> key in keys && key in entries && now <= entries[key].expiresAt
    {
      out := map[];
      for i := 0 to |keys|
        invariant forall key :: (if key in out then out[key] else 0)
                                == if key in keys[..i] then Peek(entries, key, now) else 0
        invariant forall key :: key in out <==> key in keys[..i] && key in entries && now <= entries[key].expiresAt
      {
        if keys[i] in entries && !(now > entries[keys[i]].expiresAt) {
          out := out[keys[i] := entries[keys[i]].val];
        }
      }
    }
  }

  /** The times at which one Allow reads its clock, then the store reads its own. */
  datatype Clock = Clock(now: int, peek: int, incrs: seq<int>)

  class Limiter {
    const store: MemoryStore
    const limits: Limits

    constructor (store: MemoryStore, limits: Limits)
      ensures this.store == store && this.limits == limits
    {
      this.store := store;
      this.limits := limits;
    }

    method Allow(s: Send, clock: Clock) returns (d: Decision)
      requires |clock.incrs| >= 7
      modifies store
      ensures d == Decide(limits, s, clock.now, key => Peek(old(store.entries), key, clock.peek))
      ensures store.entries == if d.Admitted?
                               then Consumed(old(store.entries), Active(Checks(limits, s, clock.now)), clock.incrs)
                               else old(store.entries)
    {
      var acct := limits.account;
      if acct.recipPerMsg > 0 && s.recipients > acct.recipPerMsg {
        return Denied(RecipPerMsg, 0);
      }
      if acct.maxMessageBytes > 0 && s.bytes > acct.maxMessageBytes {
        return Denied(MessageTooLarge, 0);
      }
      var checks := Checks(limits, s, clock.now);
      var active, keys := [], [];
      for i := 0 to |checks|
        invariant active == Active(checks[..i])
        invariant |keys| == |active| <= i
        invariant forall j :: 0 <= j < |active| ==> keys[j] == active[j].key
      {
        assert checks[..i + 1][..i] == checks[..i];
        if checks[i].window.On() {
          active := active + [checks[i]];
          keys := keys + [checks[i].key];
        }
      }
      assert checks[..|checks|] == checks;
      if |active| == 0 {
        return Admitted;
      }
      var current := store.PeekAll(keys, clock.peek);
      ghost var counts := key => Peek(old(store.entries), key, clock.peek);
      for i := 0 to |active|
        invariant Refused(active, counts) == Refused(active[i..], counts)
      {
        assert active[i..][1..] == active[i + 1..];
        assert keys[i] in keys;
        var seen := if active[i].key in current then current[active[i].key] else 0;
        if seen + active[i].add > active[i].window.max {
          return Denied(active[i].reason, ResetAfter(active[i].window, clock.now));
        }
      }
      Consume(active, clock.incrs);
      d := Admitted;
    }

    method Consume(active: seq<Check>, times: seq<int>)
      requires |active| <= |times|
      modifies store
      ensures store.entries == Consumed(old(store.entries), active, times)
    {
      for i := 0 to |active|
        invariant store.entries == Consumed(old(store.entries), active[..i], times)
      {
        assert active[..i + 1][..i] == active[..i];
        var _ := store.IncrBy(active[i].key, active[i].add, active[i].window.period, times[i]);
      }
      assert active[..|active|] == active;
    }
  }
}
