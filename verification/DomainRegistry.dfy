/** The served-domains table, its admin handlers, and the signer map each replica builds from it. */
module DomainRegistry {
  import opened Prelude

  type Name = string

  /** A row of the domains table; an empty key is no key. */
  datatype Domain = Domain(selector: string, key: string, verified: bool, active: bool)

  type Table = map<Name, Domain>

  datatype Signer = Signer(selector: string, key: string)

  /** `usable` says whether a signer can be built from a name, selector and key; `fold` is the case
      folding under which selectors are compared; `fallback` is the built-in domain. */
  datatype Env = Env(usable: (Name, string, string) -> bool, fold: string -> string, fallback: Name)

  predicate Signs(env: Env, name: Name, d: Domain) {
    d.active && d.key != "" && d.verified && env.usable(name, d.selector, d.key)
  }

  function BuildSigners(env: Env, db: Table): map<Name, Signer> {
    map name | name in db && Signs(env, name, db[name]) :: Signer(db[name].selector, db[name].key)
  }

  function ActiveNames(db: Table): set<Name> {
    set name | name in db && db[name].active
  }

  function BuildServed(env: Env, db: Table): set<Name> {
    if ActiveNames(db) == {} then {env.fallback} else ActiveNames(db)
  }

  /** What ListActiveDomains answers: each active row once. */
  ghost predicate ListsActive(db: Table, rows: seq<(Name, Domain)>) {
    && (forall i :: 0 <= i < |rows| ==> rows[i].0 in db && rows[i].1 == db[rows[i].0] && rows[i].1.active)
    && (forall name <- ActiveNames(db) :: (name, db[name]) in rows)
  }

  class Registry {
    const env: Env
    var signers: map<Name, Signer>
    var served: set<Name>

    constructor (env: Env)
      ensures this.env == env && signers == map[] && served == {env.fallback}
    {
      this.env := env;
      signers := map[];
      served := {env.fallback};
    }

    method Reload(rows: seq<(Name, Domain)>, ghost db: Table)
      requires ListsActive(db, rows)
      modifies this
      ensures signers == BuildSigners(env, db) && served == BuildServed(env, db)
    {
      var next: map<Name, Signer>, names: set<Name> := map[], {};
      for i := 0 to |rows|
        invariant forall name :: name in names <==> exists j :: 0 <= j < i && rows[j].0 == name
        invariant forall name :: name in next <==>
          exists j :: 0 <= j < i && rows[j].0 == name && Signs(env, name, rows[j].1)
        invariant forall name <- next :: name in db && next[name] == Signer(db[name].selector, db[name].key)
      {
        var (name, d) := rows[i];
        names := names + {name};
        if d.key == "" {
          continue;
        }
        if !d.verified {
          continue;
        }
        if !env.usable(name, d.selector, d.key) {
          continue;
        }
        next := next[name := Signer(d.selector, d.key)];
      }
      AllListed(db, rows);
      assert names == ActiveNames(db);
      assert next == BuildSigners(env, db);
      signers := next;
      served := if names == {} then {env.fallback} else names;
    }

    lemma AllListed(db: Table, rows: seq<(Name, Domain)>)
      requires ListsActive(db, rows)
      ensures forall name <- ActiveNames(db) :: exists j :: 0 <= j < |rows| && rows[j] == (name, db[name])
    {
    }
  }

  // ------------------------------------------------------------------ handlers

  /** An admin request, its name already trimmed and lower-cased and its selector trimmed. `generated`
      is the key pair made for it, None if that failed; `published` is whether DNS shows the record
      of the domain's key under its selector. */
  datatype Request =
    | Create(name: Name, selector: string, imported: string, generated: Option<string>)
    | Verify(name: Name, published: bool)
    | SetActive(name: Name, active: bool)
    | Delete(name: Name)
    | Rotate(name: Name, selector: string, generated: Option<string>)

  datatype Status = OK | BadRequest | Conflict | NotFound | InternalError

  datatype Write = Nothing | Put(row: Domain) | Remove

  /** What a handler does once it has loaded the row. */
  datatype Effect = Effect(status: Status, write: Write, reload: bool)

  function Fails(status: Status): Effect {
    Effect(status, Nothing, false)
  }

  function CreateEffect(env: Env, q: Request, row: Option<Domain>): Effect
    requires q.Create?
  {
    var selector := if q.selector == "" then "mail" else q.selector;
    if q.name == "" || '.' !in q.name then Fails(BadRequest)
    else if row.Some? then Fails(Conflict)
    else if q.imported != "" then
      if env.usable(q.name, selector, q.imported)
      then Effect(OK, Put(Domain(selector, q.imported, false, false)), false) else Fails(BadRequest)
    else if q.generated.None? then Fails(InternalError)
    else Effect(OK, Put(Domain(selector, q.generated.value, false, false)), false)
  }

  function VerifyEffect(env: Env, q: Request, d: Domain): Effect
    requires q.Verify?
  {
    if d.key == "" then Fails(BadRequest)
    else if !env.usable(q.name, d.selector, d.key) then Fails(InternalError)
    else if q.published && !d.verified then Effect(OK, Put(d.(verified := true)), d.active)
    else Effect(OK, Nothing, false)
  }

  function RotateEffect(env: Env, q: Request, d: Domain): Effect
    requires q.Rotate?
  {
    if q.selector == "" || env.fold(q.selector) == env.fold(d.selector) then Fails(BadRequest)
    else if q.generated.None? then Fails(InternalError)
    else Effect(OK, Put(Domain(q.selector, q.generated.value, false, d.active)), d.active)
  }

  function Handle(env: Env, q: Request, row: Option<Domain>): Effect {
    if q.Create? then CreateEffect(env, q, row)
    else if q.name == "" then Fails(BadRequest)
    else if row.None? then Fails(NotFound)
    else
      var d := row.value;
      if q.Verify? then VerifyEffect(env, q, d)
      else if q.Rotate? then RotateEffect(env, q, d)
      else if q.Delete? then Effect(OK, Remove, true)
      else if q.active && !d.verified then Fails(BadRequest)
      else Effect(OK, Put(d.(active := q.active)), true)
  }

  function Row(db: Table, name: Name): Option<Domain> {
    if name in db then Some(db[name]) else None
  }

  function Written(db: Table, name: Name, w: Write): Table {
    match w
    case Nothing => db
    case Put(row) => db[name := row]
    case Remove => db - {name}
  }

  /** One replica's admin API over the shared table. `signals` counts published reloads. */
  class InternalDomainHandler {
    const env: Env
    const registry: Registry
    var db: Table
    var signals: nat

    constructor (env: Env, registry: Registry, db: Table)
      requires registry.env == env
      ensures this.env == env && this.registry == registry && this.db == db && signals == 0
    {
      this.env := env;
      this.registry := registry;
      this.db := db;
      signals := 0;
    }

    ghost predicate Synced()
      reads this, registry
    {
      registry.signers == BuildSigners(env, db) && registry.served == BuildServed(env, db)
    }

    method PublishReload(rows: seq<(Name, Domain)>)
      requires registry.env == env && ListsActive(db, rows)
      modifies registry, this`signals
      ensures Synced() && signals == old(signals) + 1
    {
      registry.Reload(rows, db);
      signals := signals + 1;
    }

    /** `rows` is the table's answer to the listing, should the handler reload. */
    method RotateDKIM(name: Name, selector: string, generated: Option<string>, rows: seq<(Name, Domain)>)
      returns (status: Status)
      requires registry.env == env
      requires ListsActive(Written(db, name, Handle(env, Rotate(name, selector, generated), Row(db, name)).write), rows)
      modifies this, registry
      ensures var e := Handle(env, Rotate(name, selector, generated), Row(old(db), name));
              && status == e.status && db == Written(old(db), name, e.write)
              && (if e.reload then Synced() && signals == old(signals) + 1
                  else unchanged(registry) && signals == old(signals))
    {
      if name == "" {
        return BadRequest;
      }
      if name !in db {
        return NotFound;
      }
      var d := db[name];
      if selector == "" || env.fold(selector) == env.fold(d.selector) {
        return BadRequest;
      }
      if generated.None? {
        return InternalError;
      }
      d := d.(selector := selector, key := generated.value, verified := false);
      db := db[name := d];
      if d.active {
        PublishReload(rows);
      }
      status := OK;
    }

    method VerifyDomain(name: Name, published: bool, rows: seq<(Name, Domain)>) returns (status: Status)
      requires registry.env == env
      requires ListsActive(Written(db, name, Handle(env, Verify(name, published), Row(db, name)).write), rows)
      modifies this, registry
      ensures var e := Handle(env, Verify(name, published), Row(old(db), name));
              && status == e.status && db == Written(old(db), name, e.write)
              && (if e.reload then Synced() && signals == old(signals) + 1
                  else unchanged(registry) && signals == old(signals))
    {
      if name == "" {
        return BadRequest;
      }
      if name !in db {
        return NotFound;
      }
      var d := db[name];
      if d.key == "" {
        return BadRequest;
      }
      if !env.usable(name, d.selector, d.key) {
        return InternalError;
      }
      if published && !d.verified {
        d := d.(verified := true);
        db := db[name := d];
        if d.active {
          PublishReload(rows);
        }
      }
      status := OK;
    }

    method ChangeActive(name: Name, active: bool, rows: seq<(Name, Domain)>) returns (status: Status)
      requires registry.env == env
      requires ListsActive(Written(db, name, Handle(env, SetActive(name, active), Row(db, name)).write), rows)
      modifies this, registry
      ensures var e := Handle(env, SetActive(name, active), Row(old(db), name));
              && status == e.status && db == Written(old(db), name, e.write)
              && (if e.reload then Synced() && signals == old(signals) + 1
                  else unchanged(registry) && signals == old(signals))
    {
      if name == "" {
        return BadRequest;
      }
      if name !in db {
        return NotFound;
      }
      var d := db[name];
      if active && !d.verified {
        return BadRequest;
      }
      db := db[name := d.(active := active)];
      PublishReload(rows);
      status := OK;
    }

    method DeleteDomain(name: Name, rows: seq<(Name, Domain)>) returns (status: Status)
      requires registry.env == env
      requires ListsActive(Written(db, name, Handle(env, Delete(name), Row(db, name)).write), rows)
      modifies this, registry
      ensures var e := Handle(env, Delete(name), Row(old(db), name));
              && status == e.status && db == Written(old(db), name, e.write)
              && (if e.reload then Synced() && signals == old(signals) + 1
                  else unchanged(registry) && signals == old(signals))
    {
      if name == "" {
        return BadRequest;
      }
      if name !in db {
        return NotFound;
      }
      db := db - {name};
      PublishReload(rows);
      status := OK;
    }

    method CreateDomain(name: Name, selector: string, imported: string, generated: Option<string>)
      returns (status: Status)
      modifies this`db
      ensures var e := Handle(env, Create(name, selector, imported, generated), Row(old(db), name));
              && status == e.status && db == Written(old(db), name, e.write) && !e.reload
    {
      if name == "" || '.' !in name {
        return BadRequest;
      }
      var chosen := if selector == "" then "mail" else selector;
      if name in db {
        return Conflict;
      }
      var key;
      if imported != "" {
        if !env.usable(name, chosen, imported) {
          return BadRequest;
        }
        key := imported;
      } else {
        if generated.None? {
          return InternalError;
        }
        key := generated.value;
      }
      db := db[name := Domain(chosen, key, false, false)];
      status := OK;
    }
  }

  // --------------------------------------------------------------------- runs

  /** A replica and how many reload signals it has yet to act on. */
  datatype Replica = Replica(signers: map<Name, Signer>, served: set<Name>, pending: nat)

  /** A request between its load and its write. */
  datatype Job = Job(replica: nat, request: Request, loaded: Option<Domain>)

  /** A handler that has written and is about to reload its replica or, once that is done, to broadcast. */
  datatype Publication = Publication(replica: nat, refreshed: bool)

  /** `confirmed` records every name, selector and key that DNS was ever seen to publish. */
  datatype System = System(db: Table, replicas: map<nat, Replica>, jobs: map<nat, Job>,
                           publishing: map<nat, Publication>, confirmed: set<(Name, string, string)>)

  /** A request is loaded, committed, and, if that takes a reload, refreshes its replica and broadcasts; it
      may stop before either, as it does when its reload or its publish fails. A replica acts on a signal. */
  datatype Step =
    | Load(j: nat, r: nat, q: Request)
    | Commit(j: nat)
    | Refresh(j: nat)
    | Broadcast(j: nat)
    | Stop(j: nat)
    | Signal(r: nat)

  ghost predicate Can(s: System, step: Step) {
    match step
    case Load(j, r, _) => j !in s.jobs && j !in s.publishing && r in s.replicas
    case Commit(j) => j in s.jobs && j !in s.publishing && s.jobs[j].replica in s.replicas
    case Refresh(j) => j in s.publishing && !s.publishing[j].refreshed && s.publishing[j].replica in s.replicas
    case Broadcast(j) => j in s.publishing && s.publishing[j].refreshed
    case Stop(j) => j in s.publishing
    case Signal(r) => r in s.replicas && s.replicas[r].pending > 0
  }

  function Reloaded(env: Env, db: Table, pending: nat): Replica {
    Replica(BuildSigners(env, db), BuildServed(env, db), pending)
  }

  function EffectOf(env: Env, job: Job): Effect {
    Handle(env, job.request, job.loaded)
  }

  function AfterCommit(env: Env, s: System, j: nat): System
    requires j in s.jobs
  {
    var job := s.jobs[j];
    var e := EffectOf(env, job);
    System(Written(s.db, job.request.name, e.write), s.replicas, s.jobs - {j},
           if e.reload then s.publishing[j := Publication(job.replica, false)] else s.publishing,
           if job.request.Verify? && job.request.published && job.loaded.Some?
           then s.confirmed + {(job.request.name, job.loaded.value.selector, job.loaded.value.key)} else s.confirmed)
  }

  function AfterRefresh(env: Env, s: System, j: nat): System
    requires j in s.publishing && s.publishing[j].replica in s.replicas
  {
    var r := s.publishing[j].replica;
    System(s.db, s.replicas[r := Reloaded(env, s.db, s.replicas[r].pending)], s.jobs,
           s.publishing[j := Publication(r, true)], s.confirmed)
  }

  /** Every subscriber gets the signal, the one on the handler's own replica too. */
  function AfterBroadcast(s: System, j: nat): System {
    System(s.db, map r | r in s.replicas :: s.replicas[r].(pending := s.replicas[r].pending + 1), s.jobs,
           s.publishing - {j}, s.confirmed)
  }

  ghost function Next(env: Env, s: System, step: Step): System
    requires Can(s, step)
  {
    if step.Load? then
      System(s.db, s.replicas, s.jobs[step.j := Job(step.r, step.q, Row(s.db, step.q.name))], s.publishing, s.confirmed)
    else if step.Commit? then AfterCommit(env, s, step.j)
    else if step.Refresh? then AfterRefresh(env, s, step.j)
    else if step.Broadcast? then AfterBroadcast(s, step.j)
    else if step.Stop? then System(s.db, s.replicas, s.jobs, s.publishing - {step.j}, s.confirmed)
    else
      System(s.db, s.replicas[step.r := Reloaded(env, s.db, s.replicas[step.r].pending - 1)], s.jobs, s.publishing,
             s.confirmed)
  }

  ghost predicate Reaches(env: Env, s: System, steps: seq<Step>, t: System)
    decreases |steps|
  {
    if steps == [] then s == t
    else Can(s, steps[0]) && Reaches(env, Next(env, s, steps[0]), steps[1..], t)
  }

  // --------------------------------------------------------------- confirmation

  ghost predicate RowConfirmed(s: System, name: Name, d: Domain) {
    d.verified ==> (name, d.selector, d.key) in s.confirmed
  }

  ghost predicate OnlyConfirmed(s: System) {
    && (forall name <- s.db :: RowConfirmed(s, name, s.db[name]))
    && (forall j <- s.jobs :: s.jobs[j].loaded.Some? ==> RowConfirmed(s, s.jobs[j].request.name, s.jobs[j].loaded.value))
    && (forall r <- s.replicas, name <- s.replicas[r].signers ::
          (name, s.replicas[r].signers[name].selector, s.replicas[r].signers[name].key) in s.confirmed)
  }

  lemma OnlyConfirmedStep(env: Env, s: System, step: Step)
    requires OnlyConfirmed(s) && Can(s, step)
    ensures OnlyConfirmed(Next(env, s, step))
  {
  }

  /** However requests overlap, no replica ever signs with a selector and key that DNS was not seen to
      publish for that very domain. */
  lemma {:induction false} SignersAreConfirmed(env: Env, s: System, steps: seq<Step>, t: System)
    requires OnlyConfirmed(s) && Reaches(env, s, steps, t)
    ensures OnlyConfirmed(t)
    decreases |steps|
  {
    if steps != [] {
      OnlyConfirmedStep(env, s, steps[0]);
      SignersAreConfirmed(env, Next(env, s, steps[0]), steps[1..], t);
    }
  }

  // ------------------------------------------------------------------ coherence

  ghost predicate Matches(env: Env, db: Table, rep: Replica) {
    rep.signers == BuildSigners(env, db) && rep.served == BuildServed(env, db)
  }

  /** Every replica is what a reload would make it, or has a signal to act on. */
  ghost predicate Told(env: Env, s: System) {
    forall r <- s.replicas :: s.replicas[r].pending > 0 || Matches(env, s.db, s.replicas[r])
  }

  /** So it is, or a handler is about to broadcast. */
  ghost predicate Coherent(env: Env, s: System) {
    s.publishing != map[] || Told(env, s)
  }

  /** The row was not changed between the handler's load and its write. */
  predicate Undisturbed(s: System, step: Step)
    requires step.Commit? ==> step.j in s.jobs
  {
    step.Commit? ==> s.jobs[step.j].loaded == Row(s.db, s.jobs[step.j].request.name)
  }

  /** A write of an inactive row over none or an inactive one changes nothing a reload would see. */
  lemma InactiveWrite(env: Env, db: Table, name: Name, row: Domain)
    requires !row.active && (name in db ==> !db[name].active)
    ensures BuildSigners(env, db[name := row]) == BuildSigners(env, db)
    ensures BuildServed(env, db[name := row]) == BuildServed(env, db)
  {
    assert ActiveNames(db[name := row]) == ActiveNames(db);
  }

  /** Writing an inactive row over an active one shows to a reload, except in the one case. */
  lemma ActiveOverwritten(env: Env, db: Table, name: Name, row: Domain)
    requires name in db && db[name].active && !row.active
    ensures BuildSigners(env, db[name := row]) == BuildSigners(env, db)
            && BuildServed(env, db[name := row]) == BuildServed(env, db)
       <==> ActiveNames(db) == {env.fallback} && name == env.fallback && !Signs(env, name, db[name])
  {
    var after := db[name := row];
    assert ActiveNames(after) == ActiveNames(db) - {name};
    assert name in ActiveNames(db);
    if Signs(env, name, db[name]) {
      assert name in BuildSigners(env, db) && name !in BuildSigners(env, after);
    } else {
      assert BuildSigners(env, after) == BuildSigners(env, db);
      if ActiveNames(after) == {} {
        assert ActiveNames(db) == {name};
      } else {
        assert name in BuildServed(env, db) && name !in BuildServed(env, after);
      }
    }
  }

  /** What a write without a reload puts there: an inactive row. */
  lemma UnreloadedWrite(env: Env, q: Request, row: Option<Domain>)
    requires var e := Handle(env, q, row); !e.reload && !e.write.Nothing?
    ensures var e := Handle(env, q, row); e.write.Put? && !e.write.row.active
  {
  }

  /** A reload would give the replica another signer for this name, one it lacks, or none. */
  predicate SignerStale(env: Env, db: Table, rep: Replica, name: Name) {
    if name in db && Signs(env, name, db[name])
    then name !in rep.signers || rep.signers[name] != Signer(db[name].selector, db[name].key)
    else name in rep.signers
  }

  /** A reload would have the replica take up this name, or give it up. */
  predicate ServedStale(env: Env, db: Table, rep: Replica, name: Name) {
    (name in rep.served) != ((name in db && db[name].active) || (name == env.fallback && ActiveNames(db) == {}))
  }

  predicate Stale(env: Env, db: Table, rep: Replica, name: Name) {
    SignerStale(env, db, rep, name) || ServedStale(env, db, rep, name)
  }

  /** A replica is as the table says exactly when no name is stale on it. */
  lemma MatchesExactlyWhen(env: Env, db: Table, rep: Replica)
    ensures Matches(env, db, rep) <==> forall name :: !Stale(env, db, rep, name)
  {
    var signers, served := BuildSigners(env, db), BuildServed(env, db);
    forall name
      ensures SignerStale(env, db, rep, name)
         <==> (name in signers) != (name in rep.signers) || (name in signers && signers[name] != rep.signers[name])
      ensures ServedStale(env, db, rep, name) <==> (name in served) != (name in rep.served)
    {
    }
    if forall name :: !Stale(env, db, rep, name) {
      forall name
        ensures (name in signers) == (name in rep.signers) && (name in signers ==> signers[name] == rep.signers[name])
        ensures (name in served) == (name in rep.served)
      {
        assert !Stale(env, db, rep, name);
      }
      assert signers == rep.signers && served == rep.served;
    }
  }

  /** When a step leaves no replica wrong without a signal. A commit may, that does not reload, goes over a
      row that is active by now, and meets a replica without a signal while nobody is about to broadcast. The
      one such commit that does no harm takes away the only active domain, when that is the built-in one and
      not signed for: with no active domain the built-in one is served anyway. A handler that stops may, when
      it was the last to broadcast and some replica without a signal has a name to sign for or to serve, or
      to give up, that only a reload would tell it. */
  ghost predicate Harmless(env: Env, s: System, step: Step)
    requires Can(s, step)
  {
    && (step.Commit? ==>
          var e, name := EffectOf(env, s.jobs[step.j]), s.jobs[step.j].request.name;
          || e.reload || e.write.Nothing? || name !in s.db || !s.db[name].active
          || s.publishing != map[] || (forall r <- s.replicas :: s.replicas[r].pending > 0)
          || (ActiveNames(s.db) == {env.fallback} && name == env.fallback && !Signs(env, name, s.db[name])))
    && (step.Stop? ==>
          || s.publishing - {step.j} != map[]
          || forall r, name :: r in s.replicas && s.replicas[r].pending == 0 ==> !Stale(env, s.db, s.replicas[r], name))
  }

  lemma CommitCoherent(env: Env, s: System, step: Step)
    requires Coherent(env, s) && Can(s, step) && step.Commit?
    ensures Coherent(env, Next(env, s, step)) <==> Harmless(env, s, step)
  {
    var e, name := EffectOf(env, s.jobs[step.j]), s.jobs[step.j].request.name;
    if e.reload {
      assert step.j in Next(env, s, step).publishing;
    } else if !e.write.Nothing? {
      UnreloadedWrite(env, s.jobs[step.j].request, s.jobs[step.j].loaded);
      if name in s.db && s.db[name].active {
        ActiveOverwritten(env, s.db, name, e.write.row);
      } else {
        InactiveWrite(env, s.db, name, e.write.row);
      }
    }
  }

  /** A step from a coherent state, however requests overlap and wherever handlers stop, keeps coherence
      exactly when it is harmless. */
  lemma CoherentExactlyWhen(env: Env, s: System, step: Step)
    requires Coherent(env, s) && Can(s, step)
    ensures Coherent(env, Next(env, s, step)) <==> Harmless(env, s, step)
  {
    if step.Commit? {
      CommitCoherent(env, s, step);
    } else if step.Refresh? {
      assert step.j in Next(env, s, step).publishing;
    } else if step.Stop? {
      forall r | r in s.replicas
        ensures Matches(env, s.db, s.replicas[r])
           <==> forall name :: !Stale(env, s.db, s.replicas[r], name)
      {
        MatchesExactlyWhen(env, s.db, s.replicas[r]);
      }
    }
  }

  /** A commit whose row nobody changed is harmless. */
  lemma UndisturbedIsHarmless(env: Env, s: System, step: Step)
    requires Can(s, step) && Undisturbed(s, step) && !step.Stop?
    ensures Harmless(env, s, step)
  {
  }

  /** A request from its commit to its end, with nothing in between. */
  function Handled(env: Env, s: System, j: nat): System
    requires j in s.jobs && s.jobs[j].replica in s.replicas
  {
    var t := AfterCommit(env, s, j);
    if EffectOf(env, s.jobs[j]).reload then AfterBroadcast(AfterRefresh(env, t, j), j) else t
  }

  lemma SkippedReload(env: Env, s: System, step: Step)
    requires Can(s, step) && step.Commit? && Undisturbed(s, step) && !EffectOf(env, s.jobs[step.j]).reload
    ensures BuildSigners(env, Next(env, s, step).db) == BuildSigners(env, s.db)
    ensures BuildServed(env, Next(env, s, step).db) == BuildServed(env, s.db)
    ensures Next(env, s, step).replicas == s.replicas
  {
    var job := s.jobs[step.j];
    var e := EffectOf(env, job);
    if e.write.Put? {
      InactiveWrite(env, s.db, job.request.name, e.write.row);
    }
  }

  /** A handler whose row nobody changed under it keeps all replicas coherent, although creating,
      verifying an inactive and rotating an inactive domain reload nothing. The serving replica ends
      up as the table says exactly when the handler reloads or it was so before. */
  lemma HandlerCoherence(env: Env, s: System, step: Step)
    requires Coherent(env, s) && Can(s, step) && step.Commit? && Undisturbed(s, step)
    ensures var t, r := Handled(env, s, step.j), s.jobs[step.j].replica;
            && Coherent(env, t)
            && (Matches(env, t.db, t.replicas[r])
                <==> EffectOf(env, s.jobs[step.j]).reload || Matches(env, s.db, s.replicas[r]))
  {
    if !EffectOf(env, s.jobs[step.j]).reload {
      SkippedReload(env, s, step);
    }
  }

  /** Nobody is about to broadcast, and no signal is pending. */
  ghost predicate Quiet(s: System) {
    s.publishing == map[] && forall r <- s.replicas :: s.replicas[r].pending == 0
  }

  ghost predicate CoherentThroughout(env: Env, s: System, steps: seq<Step>)
    decreases |steps|
  {
    Coherent(env, s)
    && (steps == [] || (Can(s, steps[0]) && CoherentThroughout(env, Next(env, s, steps[0]), steps[1..])))
  }

  ghost predicate AllHarmless(env: Env, s: System, steps: seq<Step>)
    decreases |steps|
  {
    steps == []
    || (Can(s, steps[0]) && Harmless(env, s, steps[0]) && AllHarmless(env, Next(env, s, steps[0]), steps[1..]))
  }

  /** The replicas stay coherent throughout a run exactly when each of its steps is harmless; they then all
      equal the table as soon as nobody is about to broadcast and no signal is pending. */
  lemma {:induction false} ReplicasConverge(env: Env, s: System, steps: seq<Step>, t: System)
    requires Coherent(env, s) && Reaches(env, s, steps, t)
    ensures CoherentThroughout(env, s, steps) <==> AllHarmless(env, s, steps)
    ensures AllHarmless(env, s, steps) && Quiet(t) ==> forall r <- t.replicas :: Matches(env, t.db, t.replicas[r])
    decreases |steps|
  {
    if steps != [] {
      CoherentExactlyWhen(env, s, steps[0]);
      if Harmless(env, s, steps[0]) {
        ReplicasConverge(env, Next(env, s, steps[0]), steps[1..], t);
      } else {
        assert !Coherent(env, Next(env, s, steps[0]));
        assert !CoherentThroughout(env, Next(env, s, steps[0]), steps[1..]);
      }
    }
  }

  // ------------------------------------------------------------- steps that harm

  lemma Prepend(env: Env, s: System, step: Step, rest: seq<Step>, t: System)
    requires Can(s, step) && Reaches(env, Next(env, s, step), rest, t)
    ensures Reaches(env, s, [step] + rest, t)
  {
    assert ([step] + rest)[1..] == rest;
  }

  /** A replica, not signalled, that goes on serving a domain when none is active. */
  lemma ServingOn(env: Env, s: System, r: nat, name: Name)
    requires s.publishing == map[] && r in s.replicas && s.replicas[r].pending == 0
    requires name in s.replicas[r].served && name != env.fallback && ActiveNames(s.db) == {}
    ensures !Coherent(env, s)
  {
    assert name !in BuildServed(env, s.db);
  }

  /** An activation, written, published, and acted on by its own replica. */
  lemma Activated(env: Env, s: System, activate: Step, r: nat, name: Name, d: Domain)
    returns (steps: seq<Step>, t: System)
    requires Can(s, activate) && activate.Commit? && s.publishing == map[]
    requires s.jobs[activate.j] == Job(r, SetActive(name, true), Some(d)) && name != "" && d.verified
    requires s.replicas[r].pending == 0
    ensures Reaches(env, s, steps, t)
    ensures t.db == s.db[name := d.(active := true)] && t.jobs == s.jobs - {activate.j} && t.publishing == map[]
    ensures t.replicas.Keys == s.replicas.Keys && t.replicas[r] == Reloaded(env, t.db, 0)
  {
    var j := activate.j;
    var written := Next(env, s, activate);
    assert EffectOf(env, s.jobs[j]) == Effect(OK, Put(d.(active := true)), true);
    var refreshed := Next(env, written, Refresh(j));
    var told := Next(env, refreshed, Broadcast(j));
    t := Next(env, told, Signal(r));
    assert Reaches(env, t, [], t);
    Prepend(env, told, Signal(r), [], t);
    Prepend(env, refreshed, Broadcast(j), [Signal(r)] + [], t);
    Prepend(env, written, Refresh(j), [Broadcast(j)] + ([Signal(r)] + []), t);
    Prepend(env, s, activate, [Refresh(j)] + ([Broadcast(j)] + ([Signal(r)] + [])), t);
    steps := [activate] + ([Refresh(j)] + ([Broadcast(j)] + ([Signal(r)] + [])));
  }

  lemma {:induction false} ReachesOn(env: Env, s: System, first: seq<Step>, u: System, more: seq<Step>, t: System)
    requires Reaches(env, s, first, u) && Reaches(env, u, more, t)
    ensures Reaches(env, s, first + more, t)
    decreases |first|
  {
    if first == [] {
      assert first + more == more;
    } else {
      assert (first + more)[1..] == first[1..] + more;
      ReachesOn(env, Next(env, s, first[0]), first[1..], u, more, t);
    }
  }

  /** The rotation that had loaded the domain before it was activated. */
  lemma RotatedBack(env: Env, s: System, rotate: Step, r: nat, name: Name, d: Domain, selector: string, key: string)
    requires Can(s, rotate) && rotate.Commit? && s.publishing == map[]
    requires s.jobs[rotate.j] == Job(r, Rotate(name, selector, Some(key)), Some(d)) && !d.active
    requires name != "" && name != env.fallback && selector != "" && env.fold(selector) != env.fold(d.selector)
    requires s.db == map[name := d.(active := true)] && s.replicas[r] == Reloaded(env, s.db, 0)
    ensures !Coherent(env, Next(env, s, rotate))
  {
    var t := Next(env, s, rotate);
    assert EffectOf(env, s.jobs[rotate.j]) == Effect(OK, Put(Domain(selector, key, false, false)), false);
    assert name in ActiveNames(s.db) && ActiveNames(t.db) == {};
    ServingOn(env, t, r, name);
  }

  /** Both loaded the domain; the activation is handled first, then the rotation. */
  lemma RotationLast(env: Env, s: System, rotate: Step, activate: Step, r: nat, name: Name, d: Domain,
                     selector: string, key: string)
    returns (steps: seq<Step>, t: System)
    requires rotate.Commit? && activate.Commit? && rotate.j != activate.j && rotate.j in s.jobs && activate.j in s.jobs
    requires s.jobs[activate.j] == Job(r, SetActive(name, true), Some(d))
    requires s.jobs[rotate.j] == Job(r, Rotate(name, selector, Some(key)), Some(d))
    requires s.publishing == map[] && r in s.replicas && s.replicas[r].pending == 0 && s.db == map[name := d]
    requires d.verified && !d.active && selector != "" && env.fold(selector) != env.fold(d.selector)
    requires name != "" && name != env.fallback
    ensures Reaches(env, s, steps, t) && !Coherent(env, t)
  {
    var on, active := Activated(env, s, activate, r, name, d);
    assert active.jobs[rotate.j] == s.jobs[rotate.j] && active.db == map[name := d.(active := true)];
    RotatedBack(env, active, rotate, r, name, d, selector, key);
    t := Next(env, active, rotate);
    Prepend(env, active, rotate, [], t);
    ReachesOn(env, s, on, active, [rotate] + [], t);
    steps := on + ([rotate] + []);
  }

  /** A harmful commit does happen: a rotation loads an inactive domain, the domain is activated, and the
      rotation writes it back inactive without a reload. The replica goes on serving it. */
  lemma OverlapBreaksCoherence(env: Env, name: Name) returns (s: System, steps: seq<Step>, t: System)
    requires name != "" && name != env.fallback && env.fold("new") != env.fold("old")
    ensures Coherent(env, s) && OnlyConfirmed(s) && Reaches(env, s, steps, t) && !Coherent(env, t)
  {
    var d := Domain("old", "k", true, false);
    var db := map[name := d];
    s := System(db, map[0 := Reloaded(env, db, 0)], map[], map[], {(name, "old", "k")});
    var load1, load2 := Load(1, 0, Rotate(name, "new", Some("k2"))), Load(2, 0, SetActive(name, true));
    var loading := Next(env, s, load1);
    var loaded := Next(env, loading, load2);
    steps, t := RotationLast(env, loaded, Commit(1), Commit(2), 0, name, d, "new", "k2");
    Prepend(env, loading, load2, steps, t);
    Prepend(env, s, load1, [load2] + steps, t);
    steps := [load1] + ([load2] + steps);
  }

  /** And so does a harmful stop: a handler activates a domain, and its reload fails. Nobody will tell the
      replica that it has come to serve it. */
  lemma StopBreaksCoherence(env: Env, name: Name) returns (s: System, steps: seq<Step>, t: System)
    requires name != "" && name != env.fallback
    ensures Coherent(env, s) && OnlyConfirmed(s) && Reaches(env, s, steps, t) && !Coherent(env, t)
  {
    var d := Domain("old", "k", true, false);
    var db := map[name := d];
    s := System(db, map[0 := Reloaded(env, db, 0)], map[], map[], {(name, "old", "k")});
    var load, activate, stop := Load(1, 0, SetActive(name, true)), Commit(1), Stop(1);
    var loaded := Next(env, s, load);
    var written := Next(env, loaded, activate);
    t := Next(env, written, stop);
    assert name in ActiveNames(t.db) && ActiveNames(db) == {};
    assert name in BuildServed(env, t.db) && name !in t.replicas[0].served;
    assert t.publishing == map[];
    Prepend(env, written, stop, [], t);
    Prepend(env, loaded, activate, [stop] + [], t);
    Prepend(env, s, load, [activate] + ([stop] + []), t);
    steps := [load] + ([activate] + ([stop] + []));
  }
}
