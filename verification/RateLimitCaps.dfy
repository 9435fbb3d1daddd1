/** What the limiter admits, as a ledger: the caps of single buckets and of any stretch of time, what
    RetryAfter promises, and how far concurrent callers can overshoot. */
module RateLimitCaps {
  import opened Prelude
  import opened RateLimit
  import opened RateLimitLaws

  /** An admitted send: when, and the checks it was counted under. */
  datatype Admission = Admission(at: int, active: seq<Check>)

  type Ledger = seq<Admission>

  /** What one admission adds to a bucket. */
  function Load(active: seq<Check>, key: Key): int {
    if active == [] then 0
    else Load(active[..|active| - 1], key)
         + if active[|active| - 1].key == key then active[|active| - 1].add else 0
  }

  function Counted(ledger: Ledger, key: Key): int {
    if ledger == [] then 0
    else Counted(ledger[..|ledger| - 1], key) + Load(ledger[|ledger| - 1].active, key)
  }

  ghost predicate DistinctKeys(active: seq<Check>) {
    forall i, j :: 0 <= i < j < |active| ==> active[i].key != active[j].key
  }

  /** What the next admission may be once `ledger` was admitted. */
  ghost predicate Admissible(cal: Calendar, ledger: Ledger, next: Admission) {
    && (forall c <- next.active :: Timely(cal, c, next.at) && c.add >= 1
                                   && Counted(ledger, c.key) + c.add <= c.window.max)
    && DistinctKeys(next.active)
    && (ledger != [] ==> ledger[|ledger| - 1].at <= next.at)
  }

  ghost predicate Lawful(cal: Calendar, ledger: Ledger) {
    ledger == []
    || (Lawful(cal, ledger[..|ledger| - 1])
        && Admissible(cal, ledger[..|ledger| - 1], ledger[|ledger| - 1]))
  }

  // ------------------------------------------------ admissions make lawful ledgers

  function TotalsOf(ledger: Ledger): Totals {
    if ledger == [] then map[] else Added(TotalsOf(ledger[..|ledger| - 1]), ledger[|ledger| - 1].active)
  }

  lemma {:induction false} AddedLoad(totals: Totals, active: seq<Check>, key: Key)
    ensures Total(Added(totals, active), key) == Total(totals, key) + Load(active, key)
  {
    if active != [] {
      AddedLoad(totals, active[..|active| - 1], key);
      AddedLoad(totals, active[..|active| - 1], active[|active| - 1].key);
    }
  }

  /** The counters are the ledger's sums: what was admitted is what was counted. */
  lemma {:induction false} TotalsAreCounts(ledger: Ledger, key: Key)
    ensures Total(TotalsOf(ledger), key) == Counted(ledger, key)
  {
    if ledger != [] {
      TotalsAreCounts(ledger[..|ledger| - 1], key);
      AddedLoad(TotalsOf(ledger[..|ledger| - 1]), ledger[|ledger| - 1].active, key);
    }
  }

  lemma {:induction false} NotRefused(active: seq<Check>, counts: Key -> int, c: Check)
    requires Refused(active, counts) == None && c in active
    ensures counts(c.key) + c.add <= c.window.max
  {
    if active[0] != c {
      NotRefused(active[1..], counts, c);
    }
  }

  lemma {:induction false} ActiveKeepsDistinct(cs: seq<Check>)
    requires DistinctKeys(cs)
    ensures DistinctKeys(Active(cs))
  {
    if cs != [] {
      var n := |cs| - 1;
      ActiveKeepsDistinct(cs[..n]);
      forall i | 0 <= i < |Active(cs[..n])|
        ensures Active(cs[..n])[i].key != cs[n].key
      {
        ActiveMembers(cs[..n], Active(cs[..n])[i]);
      }
    }
  }

  lemma ChecksAreDistinct(l: Limits, s: Send, t: int)
    ensures DistinctKeys(Checks(l, s, t))
    ensures forall c <- Checks(l, s, t) :: c.add >= 1
  {
    var cs := Checks(l, s, t);
    assert "acct"[0] != "domain"[0] && |"_"| != |"_new"|;
    assert |"msgmin"| != |"msghour"| && |"msgmin"| != |"recipday"| && "msgmin"[3] != "msgday"[3];
    assert |"msghour"| != |"msgday"| && |"msghour"| != |"recipday"| && |"msgday"| != |"recipday"|;
    assert |"msgmin"| != |"reciphour"|;
  }

  lemma AskedAreSound(cal: Calendar, l: Limits, s: Send, t: int, asked: seq<Check>)
    requires WholeSeconds(cal) && Fits(cal, l) && asked == Checks(l, s, t)
    ensures DistinctKeys(Active(asked))
    ensures forall c <- Active(asked) :: Timely(cal, c, t) && c.add >= 1
  {
    ChecksAreDistinct(l, s, t);
    ActiveKeepsDistinct(asked);
    forall c | c in Active(asked) ensures Timely(cal, c, t) && c.add >= 1 {
      ActiveIsTimely(cal, l, s, t, c);
      ActiveMembers(asked, c);
    }
  }

  lemma LawfulSnoc(cal: Calendar, ledger: Ledger, t: int, active: seq<Check>)
    requires Lawful(cal, ledger) && (ledger != [] ==> ledger[|ledger| - 1].at <= t)
    requires DistinctKeys(active) && forall c <- active :: Timely(cal, c, t) && c.add >= 1
    requires Refused(active, key => Counted(ledger, key)) == None
    ensures Lawful(cal, ledger + [Admission(t, active)])
  {
    forall c | c in active ensures Counted(ledger, c.key) + c.add <= c.window.max {
      NotRefused(active, key => Counted(ledger, key), c);
    }
    var grown := ledger + [Admission(t, active)];
    assert grown[..|grown| - 1] == ledger;
  }

  /** An admission decided on a lawful ledger's counters keeps it lawful. */
  lemma AdmittedIsLawful(cal: Calendar, ledger: Ledger, l: Limits, s: Send, t: int)
    requires WholeSeconds(cal) && Fits(cal, l) && Lawful(cal, ledger)
    requires ledger != [] ==> ledger[|ledger| - 1].at <= t
    requires Decide(l, s, t, key => Counted(ledger, key)).Admitted?
    ensures Lawful(cal, ledger + [Admission(t, Active(Checks(l, s, t)))])
  {
    AskedAreSound(cal, l, s, t, Checks(l, s, t));
    LawfulSnoc(cal, ledger, t, Active(Checks(l, s, t)));
  }

  // --------------------------------------------------------------------- caps

  lemma {:induction false} LoadOfAbsent(active: seq<Check>, key: Key)
    requires forall c <- active :: c.key != key
    ensures Load(active, key) == 0
  {
    if active != [] {
      LoadOfAbsent(active[..|active| - 1], key);
    }
  }

  /** With distinct keys a bucket gets at most one check's add. */
  lemma {:induction false} LoadOfDistinct(active: seq<Check>, c: Check)
    requires DistinctKeys(active) && c in active
    ensures Load(active, c.key) == c.add
  {
    var n := |active| - 1;
    if active[n] == c {
      LoadOfAbsent(active[..n], c.key);
    } else {
      LoadOfDistinct(active[..n], c);
    }
  }

  /** Under limits whose max for a bucket is never above `max`, the bucket never counts more. */
  lemma {:induction false} BucketCap(cal: Calendar, ledger: Ledger, key: Key, max: int)
    requires Lawful(cal, ledger) && max >= 0
    requires forall a <- ledger, c <- a.active :: c.key == key ==> c.window.max <= max
    ensures 0 <= Counted(ledger, key) <= max
  {
    if ledger != [] {
      var before, last := ledger[..|ledger| - 1], ledger[|ledger| - 1];
      BucketCap(cal, before, key, max);
      if c :| c in last.active && c.key == key {
        LoadOfDistinct(last.active, c);
      } else {
        LoadOfAbsent(last.active, key);
      }
    }
  }

  // --------------------------------------------------------- any stretch of time

  /** A window as a whole: its buckets over all time. */
  datatype Family = Family(scope: string, id: string, name: string)
  {
    predicate Has(key: Key) {
      key.scope == scope && key.id == id && key.name == name
    }

    /** Its bucket that starts at `start`, a whole number of seconds. */
    function Bucket(start: int): Key {
      Key(scope, id, name, start / SECOND - UNIX_EPOCH)
    }
  }

  function FamilyLoad(active: seq<Check>, f: Family): int {
    if active == [] then 0
    else FamilyLoad(active[..|active| - 1], f)
         + if f.Has(active[|active| - 1].key) then active[|active| - 1].add else 0
  }

  /** What a window admitted at instants in [from, to). */
  function Spent(ledger: Ledger, f: Family, from: int, to: int): int {
    if ledger == [] then 0
    else
      var last := ledger[|ledger| - 1];
      Spent(ledger[..|ledger| - 1], f, from, to)
      + if from <= last.at < to then FamilyLoad(last.active, f) else 0
  }

  /** An instant less than one period after x lies in x's bucket or the next. */
  lemma TwoBuckets(x: int, t: int, p: int)
    requires p > 0 && x <= t < x + p
    ensures t - t % p == x - x % p || t - t % p == x - x % p + p
  {
    var q, r := x / p, x % p;
    assert x == q * p + r;
    if t < q * p + p {
      assert t == q * p + (t - q * p);
      DivUnique(t, p, q);
    } else {
      assert q * p + p == (q + 1) * p;
      DivUnique(t, p, q + 1);
    }
  }

  lemma DivUnique(t: int, p: int, q: int)
    requires p > 0 && q * p <= t < q * p + p
    ensures t - t % p == q * p
  {
    var d := t / p - q;
    assert t == (t / p) * p + t % p;
    assert (t / p) * p == q * p + d * p;
    assert -p < d * p < p;
  }

  lemma {:induction false} FamilyLoadSplits(cal: Calendar, active: seq<Check>, f: Family, k0: Key, k1: Key, t: int)
    requires k0 != k1
    requires forall c <- active :: c.add >= 1 && (f.Has(c.key) ==> c.key == k0 || c.key == k1)
    ensures FamilyLoad(active, f) <= Load(active, k0) + Load(active, k1)
    ensures 0 <= Load(active, k0) && 0 <= Load(active, k1)
  {
    if active != [] {
      FamilyLoadSplits(cal, active[..|active| - 1], f, k0, k1, t);
    }
  }

  lemma SameBucket(cal: Calendar, c: Check, t: int, f: Family, start: int)
    requires Timely(cal, c, t) && f.Has(c.key) && t - t % c.window.period == start
    ensures c.key == f.Bucket(start)
  {
    assert start == (c.key.bucket + UNIX_EPOCH) * SECOND;
  }

  lemma {:induction false} SpentSplits(cal: Calendar, ledger: Ledger, f: Family, x: int, k0: Key, k1: Key)
    requires WholeSeconds(cal) && Lawful(cal, ledger)
    requires var p := cal(f.scope, f.name);
             k0 == f.Bucket(x - x % p) && k1 == f.Bucket(x - x % p + p) && k0 != k1
    ensures Spent(ledger, f, x, x + cal(f.scope, f.name)) <= Counted(ledger, k0) + Counted(ledger, k1)
  {
    if ledger != [] {
      var p, before, last := cal(f.scope, f.name), ledger[..|ledger| - 1], ledger[|ledger| - 1];
      SpentSplits(cal, before, f, x, k0, k1);
      if x <= last.at < x + p {
        forall c | c in last.active && f.Has(c.key)
          ensures c.key == k0 || c.key == k1
        {
          TwoBuckets(x, last.at, p);
          SameBucket(cal, c, last.at, f, last.at - last.at % p);
        }
        FamilyLoadSplits(cal, last.active, f, k0, k1, last.at);
      } else {
        LoadNotNegative(last.active, k0);
        LoadNotNegative(last.active, k1);
      }
    }
  }

  lemma {:induction false} LoadNotNegative(active: seq<Check>, key: Key)
    requires forall c <- active :: c.add >= 1
    ensures Load(active, key) >= 0
  {
    if active != [] {
      LoadNotNegative(active[..|active| - 1], key);
    }
  }

  /** A window whose max is always `max` admits at most twice that in any half-open interval one
      period long, wherever it starts. */
  lemma TwiceTheMax(cal: Calendar, ledger: Ledger, f: Family, x: int, max: int)
    requires WholeSeconds(cal) && Lawful(cal, ledger) && max >= 0
    requires forall a <- ledger, c <- a.active :: f.Has(c.key) ==> c.window.max == max
    ensures Spent(ledger, f, x, x + cal(f.scope, f.name)) <= 2 * max
  {
    var p := cal(f.scope, f.name);
    var k0, k1 := f.Bucket(x - x % p), f.Bucket(x - x % p + p);
    assert p >= SECOND;
    SpentSplits(cal, ledger, f, x, k0, k1);
    BucketCap(cal, ledger, k0, max);
    BucketCap(cal, ledger, k1, max);
  }

  // ---------------------------------------------------------------- RetryAfter

  lemma {:induction false} CountedBefore(cal: Calendar, ledger: Ledger, key: Key, t: int)
    requires WholeSeconds(cal) && Lawful(cal, ledger) && t < Start(key)
    requires ledger != [] ==> ledger[|ledger| - 1].at <= t
    ensures Counted(ledger, key) == 0
  {
    if ledger != [] {
      var last := ledger[|ledger| - 1];
      CountedBefore(cal, ledger[..|ledger| - 1], key, t);
      forall c | c in last.active ensures c.key != key {
        TimelyContains(cal, c, last.at);
      }
      LoadOfAbsent(last.active, key);
    }
  }

  /** The same check, asked at another instant. */
  function AskedAt(c: Check, t: int): Check {
    Check(WindowKey(c.key.scope, c.key.id, c.key.name, c.window, t), c.window, c.add, c.reason)
  }

  /** RetryAfter of a denial by a window is positive and at most one period, and lands on the start
      of the next bucket: with no admission in between that bucket is empty, so the same window
      refuses the same send again exactly when the add alone is over its max. */
  lemma RetryAfterIsEnough(cal: Calendar, ledger: Ledger, l: Limits, s: Send, t: int)
    requires WholeSeconds(cal) && Fits(cal, l) && Lawful(cal, ledger)
    requires ledger != [] ==> ledger[|ledger| - 1].at <= t
    requires Oversize(l, s).None? && !Decide(l, s, t, key => Counted(ledger, key)).Admitted?
    ensures exists c :: c in Active(Checks(l, s, t))
              && Decide(l, s, t, key => Counted(ledger, key)) == Denied(c.reason, ResetAfter(c.window, t))
              && Reopens(cal, ledger, t, c)
              && AskedAt(c, End(cal, c.key)) in Active(Checks(l, s, End(cal, c.key)))
  {
    var counts := key => Counted(ledger, key);
    assert Refused(Active(Checks(l, s, t)), counts).Some?;
    RefusedIsAsked(Active(Checks(l, s, t)), counts);
    var c := Refused(Active(Checks(l, s, t)), counts).value;
    ActiveIsTimely(cal, l, s, t, c);
    NextBucketCount(cal, ledger, c, t);
    AskedStill(l, s, t, c, End(cal, c.key));
  }

  /** At t + RetryAfter the next bucket begins, and it refuses exactly what no bucket would take. */
  ghost predicate Reopens(cal: Calendar, ledger: Ledger, t: int, c: Check) {
    var wait := ResetAfter(c.window, t);
    var next := AskedAt(c, t + wait);
    && 0 < wait <= c.window.period
    && t + wait == End(cal, c.key)
    && Counted(ledger, next.key) == 0
    && (Counted(ledger, next.key) + next.add > next.window.max <==> c.add > c.window.max)
  }

  lemma NextBucketCount(cal: Calendar, ledger: Ledger, c: Check, t: int)
    requires WholeSeconds(cal) && Lawful(cal, ledger) && Timely(cal, c, t)
    requires ledger != [] ==> ledger[|ledger| - 1].at <= t
    ensures Reopens(cal, ledger, t, c)
  {
    TimelyContains(cal, c, t);
    NextBucket(cal, c, t);
    CountedBefore(cal, ledger, AskedAt(c, t + ResetAfter(c.window, t)).key, t);
  }

  lemma AskedStill(l: Limits, s: Send, t: int, c: Check, later: int)
    requires c in Active(Checks(l, s, t))
    ensures AskedAt(c, later) in Active(Checks(l, s, later))
  {
    ActiveMembers(Checks(l, s, t), c);
    var i :| 0 <= i < |Checks(l, s, t)| && Checks(l, s, t)[i] == c;
    assert Checks(l, s, later)[i] == AskedAt(c, later);
    ActiveMembers(Checks(l, s, later), AskedAt(c, later));
  }

  lemma NextBucket(cal: Calendar, c: Check, t: int)
    requires WholeSeconds(cal) && Timely(cal, c, t)
    ensures var later := t + ResetAfter(c.window, t);
            && later == End(cal, c.key)
            && Start(AskedAt(c, later).key) == later
  {
    var p := c.window.period;
    var q := t / p;
    assert t - t % p == q * p;
    assert q * p + p == (q + 1) * p;
    DivUnique((q + 1) * p, p, q + 1);
    KeyIsTimely(cal, c.key.scope, c.key.id, c.key.name, c.window, (q + 1) * p);
  }

  // ---------------------------------------------------------- concurrent callers

  /** What each caller has been admitted for and not yet counted. */
  datatype Race = Race(totals: Totals, callers: seq<seq<Check>>)

  datatype Turn =
    | Ask(i: nat, limits: Limits, send: Send, now: int)
    | Count(i: nat)

  ghost predicate CanTake(r: Race, turn: Turn) {
    match turn
    case Ask(i, _, _, _) => i < |r.callers| && r.callers[i] == []
    case Count(i) => i < |r.callers| && r.callers[i] != []
  }

  /** Ask reads all counters at once; Count adds one increment of an admission. */
  function Take(r: Race, turn: Turn): Race
    requires CanTake(r, turn)
  {
    match turn
    case Ask(i, l, s, now) =>
      if Decide(l, s, now, key => Total(r.totals, key)).Admitted?
      then Race(r.totals, r.callers[i := Active(Checks(l, s, now))]) else r
    case Count(i) =>
      var c := r.callers[i][0];
      Race(r.totals[c.key := Total(r.totals, c.key) + c.add], r.callers[i := r.callers[i][1..]])
  }

  ghost predicate Races(r: Race, turns: seq<Turn>, z: Race)
    decreases |turns|
  {
    if turns == [] then r == z else CanTake(r, turns[0]) && Races(Take(r, turns[0]), turns[1..], z)
  }

  function Pending(callers: seq<seq<Check>>, key: Key): int {
    if callers == [] then 0
    else Pending(callers[..|callers| - 1], key) + Load(callers[|callers| - 1], key)
  }

  lemma {:induction false} PendingUpdate(callers: seq<seq<Check>>, i: nat, active: seq<Check>, key: Key)
    requires i < |callers|
    ensures Pending(callers[i := active], key) == Pending(callers, key) - Load(callers[i], key) + Load(active, key)
  {
    var n := |callers| - 1;
    if i == n {
      assert callers[i := active][..n] == callers[..n];
    } else {
      assert callers[i := active][..n] == callers[..n][i := active];
      PendingUpdate(callers[..n], i, active, key);
    }
  }

  ghost predicate Small(active: seq<Check>, key: Key, most: int) {
    DistinctKeys(active) && forall c <- active :: c.key == key ==> 0 <= c.add <= most
  }

  /** Each caller has at most one add for a bucket outstanding, of at most `most`. */
  ghost predicate Modest(callers: seq<seq<Check>>, key: Key, most: int) {
    forall i :: 0 <= i < |callers| ==> Small(callers[i], key, most)
  }

  lemma LoadBound(active: seq<Check>, key: Key, most: int)
    requires Small(active, key, most) && most >= 0
    ensures 0 <= Load(active, key) <= most
  {
    if c :| c in active && c.key == key {
      LoadOfDistinct(active, c);
    } else {
      LoadOfAbsent(active, key);
    }
  }

  lemma {:induction false} PendingBound(callers: seq<seq<Check>>, key: Key, most: int)
    requires Modest(callers, key, most) && most >= 0
    ensures 0 <= Pending(callers, key) <= |callers| * most
  {
    if callers != [] {
      PendingBound(callers[..|callers| - 1], key, most);
      LoadBound(callers[|callers| - 1], key, most);
    }
  }

  lemma {:induction false} LoadFront(active: seq<Check>, key: Key)
    requires active != []
    ensures Load(active, key) == (if active[0].key == key then active[0].add else 0) + Load(active[1..], key)
  {
    if |active| > 1 {
      var n := |active| - 1;
      LoadFront(active[..n], key);
      assert active[..n][1..] == active[1..][..n - 1];
    } else {
      assert active[..0] == [] && active[1..] == [];
    }
  }

  /** Everything counted or about to be: what a bucket is committed to. */
  function Committed(r: Race, key: Key): int {
    Total(r.totals, key) + Pending(r.callers, key)
  }

  ghost predicate Tame(turn: Turn, key: Key, max: int, most: int) {
    turn.Ask? ==> forall c <- Checks(turn.limits, turn.send, turn.now) ::
      c.key == key ==> c.window.max <= max && c.add <= most
  }

  lemma CommittedStep(r: Race, turn: Turn, key: Key, max: int, most: int)
    requires CanTake(r, turn) && Tame(turn, key, max, most) && most >= 0
    requires Modest(r.callers, key, most) && Committed(r, key) <= max + (|r.callers| - 1) * most
    ensures var z := Take(r, turn);
            && Modest(z.callers, key, most) && |z.callers| == |r.callers|
            && Committed(z, key) <= max + (|z.callers| - 1) * most
  {
    if turn.Count? {
      assert Small(r.callers[turn.i], key, most);
      LoadFront(r.callers[turn.i], key);
      PendingUpdate(r.callers, turn.i, r.callers[turn.i][1..], key);
    } else if Decide(turn.limits, turn.send, turn.now, k => Total(r.totals, k)).Admitted? {
      CommittedAsk(r, turn, key, max, most);
    }
  }

  lemma CommittedAsk(r: Race, turn: Turn, key: Key, max: int, most: int)
    requires CanTake(r, turn) && turn.Ask? && Tame(turn, key, max, most) && most >= 0
    requires Decide(turn.limits, turn.send, turn.now, k => Total(r.totals, k)).Admitted?
    requires Modest(r.callers, key, most) && Committed(r, key) <= max + (|r.callers| - 1) * most
    ensures var z := Take(r, turn);
            && Modest(z.callers, key, most) && |z.callers| == |r.callers|
            && Committed(z, key) <= max + (|z.callers| - 1) * most
  {
    var active := Active(Checks(turn.limits, turn.send, turn.now));
    var counts := k => Total(r.totals, k);
    assert Refused(active, counts) == None;
    AdmittedLoad(turn, active, counts, key, max, most);
    PendingUpdate(r.callers, turn.i, active, key);
    OthersPending(r.callers, turn.i, key, most);
  }

  lemma AdmittedLoad(turn: Turn, active: seq<Check>, counts: Key -> int, key: Key, max: int, most: int)
    requires turn.Ask? && Tame(turn, key, max, most) && active == Active(Checks(turn.limits, turn.send, turn.now))
    requires Refused(active, counts) == None
    ensures Small(active, key, most)
    ensures Load(active, key) == 0 || counts(key) + Load(active, key) <= max
  {
    ChecksAreDistinct(turn.limits, turn.send, turn.now);
    ActiveKeepsDistinct(Checks(turn.limits, turn.send, turn.now));
    forall c | c in active ensures c in Checks(turn.limits, turn.send, turn.now) && c.add >= 1 {
      ActiveMembers(Checks(turn.limits, turn.send, turn.now), c);
    }
    if c :| c in active && c.key == key {
      LoadOfDistinct(active, c);
      NotRefused(active, counts, c);
    } else {
      LoadOfAbsent(active, key);
    }
  }

  /** An idle caller has nothing outstanding, so the rest has at most one add each. */
  lemma {:induction false} OthersPending(callers: seq<seq<Check>>, i: nat, key: Key, most: int)
    requires Modest(callers, key, most) && most >= 0 && i < |callers| && callers[i] == []
    ensures Pending(callers, key) <= (|callers| - 1) * most
  {
    var n := |callers| - 1;
    if i == n {
      PendingBound(callers[..n], key, most);
    } else {
      OthersPending(callers[..n], i, key, most);
      LoadBound(callers[n], key, most);
    }
  }

  /** However K callers interleave their reads and increments, a bucket is never committed to more
      than the largest max in force plus K - 1 of the largest add. */
  lemma {:induction false} OvershootBound(r: Race, turns: seq<Turn>, z: Race, key: Key, max: int, most: int)
    requires Races(r, turns, z) && most >= 0 && (forall turn <- turns :: Tame(turn, key, max, most))
    requires Modest(r.callers, key, most) && Committed(r, key) <= max + (|r.callers| - 1) * most
    ensures Committed(z, key) <= max + (|r.callers| - 1) * most
    ensures Total(z.totals, key) <= max + (|r.callers| - 1) * most
    decreases |turns|
  {
    if turns == [] {
      PendingBound(r.callers, key, most);
    } else {
      CommittedStep(r, turns[0], key, max, most);
      OvershootBound(Take(r, turns[0]), turns[1..], z, key, max, most);
    }
  }
}
