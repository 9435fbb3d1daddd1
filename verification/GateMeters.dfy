/** The windows of the limiter as meters: which buckets are theirs, and what permits add to them. */
module GateMeters {
  import opened Prelude
  import opened RateLimit
  import opened RateLimitLaws
  import opened RateLimitCaps
  import opened SendGate

  /** The windows, in the order in which they are asked. */
  datatype Meter = AccountMinute | AccountHour | AccountDay | AccountRecipients
                 | DomainMinute | DomainRecipients | DomainNew
  {
    predicate OfAccount() {
      AccountMinute? || AccountHour? || AccountDay? || AccountRecipients?
    }

    function Index(): nat {
      match this
      case AccountMinute => 0
      case AccountHour => 1
      case AccountDay => 2
      case AccountRecipients => 3
      case DomainMinute => 4
      case DomainRecipients => 5
      case DomainNew => 6
    }

    function Window(l: Limits): RateLimit.Window {
      match this
      case AccountMinute => l.account.msgPerMin
      case AccountHour => l.account.msgPerHour
      case AccountDay => l.account.msgPerDay
      case AccountRecipients => l.account.recipPerDay
      case DomainMinute => l.domain.msgPerMin
      case DomainRecipients => l.domain.recipPerHour
      case DomainNew => l.domain.newAccountRecipPerDay
    }

    function Reason(): RateLimit.Reason {
      match this
      case AccountMinute => AcctMsgMin
      case AccountHour => AcctMsgHour
      case AccountDay => AcctMsgDay
      case AccountRecipients => AcctRecipDay
      case DomainMinute => DomainMsgMin
      case DomainRecipients => DomainRecipHour
      case DomainNew => NewAcctRecipDay
    }

    /** One for a message, and for its recipients their number, but at least one. */
    function Weight(s: Send): int {
      if AccountRecipients? || DomainRecipients? || DomainNew? then (if s.recipients < 1 then 1 else s.recipients)
      else 1
    }

    /** Whether a send of this account is counted for `id`. */
    predicate Asks(s: Send, id: string) {
      (OfAccount() ==> s.pubkey == id) && (DomainNew? ==> s.newAccount)
    }

    /** Its buckets: one family for each account, or one for the domain. */
    predicate Owns(key: Key, id: string) {
      match this
      case AccountMinute => key.scope == "acct" && key.id == id && key.name == "msgmin"
      case AccountHour => key.scope == "acct" && key.id == id && key.name == "msghour"
      case AccountDay => key.scope == "acct" && key.id == id && key.name == "msgday"
      case AccountRecipients => key.scope == "acct" && key.id == id && key.name == "recipday"
      case DomainMinute => key.scope == "domain" && key.id == "_" && key.name == "msgmin"
      case DomainRecipients => key.scope == "domain" && key.id == "_" && key.name == "reciphour"
      case DomainNew => key.scope == "domain" && key.id == "_new" && key.name == "recipday"
    }
  }

  /** A bucket that begins where a period does. */
  predicate Aligned(cal: Calendar, key: Key)
    requires Period(cal, key) > 0
  {
    Start(key) % Period(cal, key) == 0
  }

  /** What the permits of [from, to) come to on a meter: those of the account, if it is one of an account,
      and only those that met the window switched on. */
  function Metered(m: Meter, id: string, permits: seq<Permit>, from: int, to: int): int {
    if permits == [] then 0
    else
      var p := permits[|permits| - 1];
      Metered(m, id, permits[..|permits| - 1], from, to)
      + if m.Asks(p.send, id) && m.Window(p.limits).max > 0 && from <= p.at < to then m.Weight(p.send) else 0
  }

  /** The check of a meter is where it belongs, and no other check touches its buckets. */
  lemma MeterIsAsked(m: Meter, l: Limits, s: Send, t: int, id: string)
    requires m.Asks(s, id)
    ensures m.Index() < |Checks(l, s, t)|
    ensures var c := Checks(l, s, t)[m.Index()];
            m.Owns(c.key, id) && c.window == m.Window(l) && c.add == m.Weight(s) && c.reason == m.Reason()
  {
  }

  lemma OnlyItsCheck(m: Meter, l: Limits, s: Send, t: int, id: string, c: Check)
    requires c in Checks(l, s, t) && m.Owns(c.key, id)
    ensures m.Asks(s, id) && c == Checks(l, s, t)[m.Index()]
  {
    assert "acct"[0] != "domain"[0] && |"_"| != |"_new"|;
    assert |"msgmin"| != |"msghour"| && |"msgmin"| != |"recipday"| && "msgmin"[3] != "msgday"[3];
    assert |"msghour"| != |"msgday"| && |"msghour"| != |"recipday"| && |"msgday"| != |"recipday"|;
    assert |"msgmin"| != |"reciphour"| && |"recipday"| != |"reciphour"|;
  }

  /** The reason of a denial tells the window. */
  lemma ReasonIsMeters(m: Meter, l: Limits, s: Send, t: int, c: Check)
    requires c in Checks(l, s, t) && c.reason == m.Reason()
    ensures m.Asks(s, s.pubkey) && m.Owns(c.key, s.pubkey) && c.window == m.Window(l) && c.add == m.Weight(s)
  {
  }

  /** A timely check is in an aligned bucket of its family exactly when it is made there. */
  lemma InBucket(cal: Calendar, c: Check, t: int, key: Key)
    requires WholeSeconds(cal) && Timely(cal, c, t) && Aligned(cal, key)
    requires c.key.scope == key.scope && c.key.id == key.id && c.key.name == key.name
    ensures c.key == key <==> Start(key) <= t < End(cal, key)
  {
    var p := Period(cal, key);
    TimelyContains(cal, c, t);
    if Start(key) <= t < End(cal, key) {
      var q := Start(key) / p;
      assert Start(key) == q * p;
      DivUnique(t, p, q);
      assert Start(c.key) == Start(key);
    }
  }

  /** A timely check of the family is in this bucket exactly when it is made there. */
  ghost predicate Regular(cal: Calendar, key: Key) {
    forall c: Check, t :: Timely(cal, c, t) && c.key.scope == key.scope && c.key.id == key.id && c.key.name == key.name
      ==> (c.key == key <==> Start(key) <= t < End(cal, key))
  }

  lemma AlignedIsRegular(cal: Calendar, key: Key)
    requires WholeSeconds(cal) && Aligned(cal, key)
    ensures Regular(cal, key)
  {
    forall c: Check, t | Timely(cal, c, t) && c.key.scope == key.scope && c.key.id == key.id && c.key.name == key.name
      ensures c.key == key <==> Start(key) <= t < End(cal, key)
    {
      InBucket(cal, c, t, key);
    }
  }

  lemma MeterLoad(cal: Calendar, m: Meter, id: string, p: Permit, key: Key)
    requires WholeSeconds(cal) && Fits(cal, p.limits) && m.Owns(key, id) && Regular(cal, key)
    ensures Load(p.Active(), key)
         == if m.Asks(p.send, id) && m.Window(p.limits).max > 0 && Start(key) <= p.at < End(cal, key)
            then m.Weight(p.send) else 0
  {
    var cs := Checks(p.limits, p.send, p.at);
    AskedAreSound(cal, p.limits, p.send, p.at, cs);
    forall c | c in p.Active() && m.Owns(c.key, id)
      ensures m.Asks(p.send, id) && c == cs[m.Index()]
    {
      ActiveMembers(cs, c);
      OnlyItsCheck(m, p.limits, p.send, p.at, id, c);
    }
    if m.Asks(p.send, id) && m.Window(p.limits).max > 0 {
      MeterIsAsked(m, p.limits, p.send, p.at, id);
      MeterLoadOn(cal, m, id, p, key, cs[m.Index()]);
    } else {
      if m.Asks(p.send, id) {
        MeterIsAsked(m, p.limits, p.send, p.at, id);
        ActiveMembers(cs, cs[m.Index()]);
      }
      LoadOfAbsent(p.Active(), key);
    }
  }

  lemma MeterLoadOn(cal: Calendar, m: Meter, id: string, p: Permit, key: Key, c: Check)
    requires WholeSeconds(cal) && m.Owns(key, id) && m.Owns(c.key, id) && Regular(cal, key)
    requires c in Checks(p.limits, p.send, p.at) && c.window.max > 0
    requires DistinctKeys(p.Active()) && forall d <- p.Active() :: Timely(cal, d, p.at)
    requires forall d <- p.Active() :: m.Owns(d.key, id) ==> d == c
    ensures Load(p.Active(), key) == if Start(key) <= p.at < End(cal, key) then c.add else 0
  {
    ActiveMembers(Checks(p.limits, p.send, p.at), c);
    assert Timely(cal, c, p.at);
    if c.key == key {
      LoadOfDistinct(p.Active(), c);
    } else {
      LoadOfAbsent(p.Active(), key);
    }
  }

  lemma {:induction false} MeterCounts(cal: Calendar, m: Meter, id: string, permits: seq<Permit>, key: Key)
    requires WholeSeconds(cal) && (forall p <- permits :: Fits(cal, p.limits)) && m.Owns(key, id) && Regular(cal, key)
    ensures Counted(LedgerOf(permits), key) == Metered(m, id, permits, Start(key), End(cal, key))
  {
    if permits != [] {
      var n := |permits| - 1;
      MeterCounts(cal, m, id, permits[..n], key);
      MeterLoad(cal, m, id, permits[n], key);
      CountedMore(LedgerOf(permits[..n]), Admission(permits[n].at, permits[n].Active()), key);
    }
  }

  lemma CountedMore(ledger: Ledger, a: Admission, key: Key)
    ensures Counted(ledger + [a], key) == Counted(ledger, key) + Load(a.active, key)
  {
    assert (ledger + [a])[..|ledger|] == ledger;
  }
}
