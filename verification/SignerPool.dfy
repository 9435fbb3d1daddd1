/** The limiter that caps signer calls in flight: a first-in first-out semaphore whose slots are
    handed from a finishing call straight to the next waiter. */
module SignerPool {
  import opened Prelude

  type CallId = nat

  /** The limiter's two variables. `active` counts the slots taken. */
  datatype Slots = Slots(active: int, queue: seq<CallId>)
  {
    /** A call comes in: it takes a slot or waits for one. */
    function Entered(max: int, call: CallId): Slots {
      if active >= max then Slots(active, queue + [call]) else Slots(active + 1, queue)
    }

    /** A call is done: its slot goes to the first waiter or is freed. */
    function Left(): Slots {
      if queue == [] then Slots(active - 1, []) else Slots(active, queue[1..])
    }
  }

  class Limiter {
    const max: int
    var active: int
    var queue: seq<CallId>

    constructor (max: int)
      requires max >= 1
      ensures this.max == max && active == 0 && queue == []
    {
      this.max := max;
      active := 0;
      queue := [];
    }

    function State(): Slots
      reads this
    {
      Slots(active, queue)
    }

    /** True when the call may start at once, false when it waits. */
    method Enter(call: CallId) returns (starts: bool)
      modifies this
      ensures State() == old(State()).Entered(max, call) && starts == (old(active) < max)
    {
      if active >= max {
        queue := queue + [call];
        return false;
      }
      active := active + 1;
      starts := true;
    }

    /** The waiter to wake, if any. */
    method Leave() returns (next: Option<CallId>)
      modifies this
      ensures State() == old(State()).Left()
      ensures next == if old(queue) == [] then None else Some(old(queue)[0])
    {
      if queue == [] {
        active := active - 1;
        return None;
      }
      next := Some(queue[0]);
      queue := queue[1..];
    }
  }

  /** A cap below 1 is an error. */
  method NewLimiter(max: int) returns (l: Limiter?)
    ensures l == null <==> max < 1
    ensures l != null ==> fresh(l) && l.max == max && l.State() == Slots(0, [])
  {
    if max < 1 {
      return null;
    }
    l := new Limiter(max);
  }

  // ------------------------------------------------------------------- runs

  /** `woken` calls hold a slot but have not resumed yet; promises resume in the order they were
      resolved. `waited` and `resumed` record every call that ever waited, and that resumed. */
  datatype Pool = Pool(max: int, slots: Slots, woken: seq<CallId>, running: set<CallId>,
                       arrived: set<CallId>, waited: seq<CallId>, resumed: seq<CallId>)

  datatype Event = Arrive(call: CallId) | Resume | Finish(call: CallId)

  predicate Possible(p: Pool, e: Event) {
    match e
    case Arrive(call) => call !in p.arrived
    case Resume => p.woken != []
    case Finish(call) => call in p.running
  }

  function After(p: Pool, e: Event): Pool
    requires Possible(p, e)
  {
    match e
    case Arrive(call) =>
      var waits := p.slots.active >= p.max;
      Pool(p.max, p.slots.Entered(p.max, call), p.woken, if waits then p.running else p.running + {call},
           p.arrived + {call}, if waits then p.waited + [call] else p.waited, p.resumed)
    case Resume =>
      Pool(p.max, p.slots, p.woken[1..], p.running + {p.woken[0]}, p.arrived, p.waited, p.resumed + [p.woken[0]])
    case Finish(call) =>
      var q := p.slots.queue;
      Pool(p.max, p.slots.Left(), if q != [] then p.woken + [q[0]] else p.woken, p.running - {call},
           p.arrived, p.waited, p.resumed)
  }

  function Fresh(max: int): Pool {
    Pool(max, Slots(0, []), [], {}, {}, [], [])
  }

  ghost predicate Happens(p: Pool, events: seq<Event>, q: Pool)
    decreases |events|
  {
    if events == [] then p == q
    else Possible(p, events[0]) && Happens(After(p, events[0]), events[1..], q)
  }

  /** Every slot is held by a running or a woken call, none is idle while a call waits, and waiters
      leave the queue in the order they came. */
  ghost predicate Sound(p: Pool) {
    && p.slots.active == |p.running| + |p.woken| <= p.max
    && (p.slots.queue != [] ==> p.slots.active == p.max)
    && p.waited == p.resumed + p.woken + p.slots.queue
    && (forall call <- p.waited :: call in p.arrived)
    && p.running <= p.arrived
    && Distinct(p.waited)
    && (forall call <- p.woken + p.slots.queue :: call !in p.running)
  }

  lemma SoundStep(p: Pool, e: Event)
    requires Sound(p) && Possible(p, e)
    ensures Sound(After(p, e))
  {
    if e.Arrive? {
      SoundArrive(p, e);
    } else if e.Resume? {
      SoundResume(p, e);
    } else {
      SoundFinish(p, e);
    }
  }

  lemma SoundArrive(p: Pool, e: Event)
    requires Sound(p) && Possible(p, e) && e.Arrive?
    ensures Sound(After(p, e))
  {
    var q := After(p, e);
    assert forall c <- p.woken + p.slots.queue :: c in p.waited;
    if p.slots.active >= p.max {
      assert q.woken + q.slots.queue == (p.woken + p.slots.queue) + [e.call];
    } else {
      assert q.woken + q.slots.queue == p.woken + p.slots.queue;
    }
  }

  lemma SoundResume(p: Pool, e: Event)
    requires Sound(p) && Possible(p, e) && e.Resume?
    ensures Sound(After(p, e))
  {
    var q := After(p, e);
    assert p.woken == [p.woken[0]] + p.woken[1..];
    assert q.resumed + q.woken == p.resumed + p.woken;
    assert p.woken[0] in p.woken + p.slots.queue;
    ResumedOnce(p);
    assert forall c <- q.woken + q.slots.queue :: c in p.woken + p.slots.queue;
    assert p.woken[0] in p.waited;
  }

  lemma SoundFinish(p: Pool, e: Event)
    requires Sound(p) && Possible(p, e) && e.Finish?
    ensures Sound(After(p, e))
  {
    var q := After(p, e);
    assert q.woken + q.slots.queue == p.woken + p.slots.queue;
    assert q.resumed + q.woken + q.slots.queue == p.resumed + (p.woken + p.slots.queue);
  }

  lemma ResumedOnce(p: Pool)
    requires Sound(p) && p.woken != []
    ensures p.woken[0] !in p.woken[1..] + p.slots.queue
  {
    var n := |p.resumed|;
    assert p.waited[n] == p.woken[0];
    assert p.waited[n + 1..] == p.woken[1..] + p.slots.queue;
  }

  lemma {:induction false} SoundAlways(p: Pool, events: seq<Event>, q: Pool)
    requires Sound(p) && Happens(p, events, q)
    ensures Sound(q) && q.max == p.max
    decreases |events|
  {
    if events != [] {
      SoundStep(p, events[0]);
      SoundAlways(After(p, events[0]), events[1..], q);
    }
  }

  /** In every interleaving the cap holds, waiters run in arrival order, and once nothing runs, is
      woken or waits, no slot is taken. */
  lemma CapAndOrder(max: int, events: seq<Event>, p: Pool)
    requires max >= 1 && Happens(Fresh(max), events, p)
    ensures |p.running| <= max
    ensures p.slots.active == |p.running| + |p.woken|
    ensures p.resumed <= p.waited
    ensures p.running == {} && p.woken == [] ==> p.slots.active == 0 && p.slots.queue == [] && p.resumed == p.waited
  {
    SoundAlways(Fresh(max), events, p);
    assert p.waited == p.resumed + (p.woken + p.slots.queue);
  }

  /** How many events are left once nobody arrives any more. */
  function Work(p: Pool): nat {
    2 * |p.slots.queue| + 2 * |p.woken| + |p.running|
  }

  /** While work remains some call can resume or finish, and either brings the end nearer. */
  lemma NeverStuck(p: Pool)
    requires Sound(p) && p.max >= 1 && Work(p) > 0
    ensures Possible(p, Resume) || exists call :: Possible(p, Finish(call))
  {
    if p.woken == [] {
      assert p.running != {};
      var call :| call in p.running;
      assert Possible(p, Finish(call));
    }
  }

  lemma WorkShrinks(p: Pool, e: Event)
    requires Possible(p, e) && !e.Arrive? && (e.Resume? ==> p.woken[0] !in p.running)
    ensures Work(After(p, e)) == Work(p) - 1
  {
    if e.Resume? {
      assert |After(p, e).running| == |p.running| + 1;
    } else {
      assert |After(p, e).running| == |p.running| - 1;
    }
  }

  /** Without arrivals every interleaving has the same length, and one that goes on as long as it can
      ends with every call resumed and finished and no slot taken. */
  lemma {:induction false} AllFinish(p: Pool, events: seq<Event>, q: Pool)
    requires Sound(p) && p.max >= 1 && Happens(p, events, q) && forall e <- events :: !e.Arrive?
    ensures |events| == Work(p) - Work(q)
    ensures (forall e: Event :: !e.Arrive? ==> !Possible(q, e)) ==> Work(q) == 0 && q.slots.active == 0 && q.resumed == q.waited
    decreases |events|
  {
    if events == [] {
      if Work(q) > 0 {
        NeverStuck(q);
      } else {
        assert q.waited == q.resumed;
      }
    } else {
      SoundStep(p, events[0]);
      if events[0].Resume? {
        assert p.woken[0] in p.woken + p.slots.queue;
      }
      WorkShrinks(p, events[0]);
      AllFinish(After(p, events[0]), events[1..], q);
    }
  }
}
