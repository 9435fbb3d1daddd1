/** Which domains the replicas serve and sign for, said from the rows of the table; and the life of one. */
module DomainLife {
  import opened Prelude
  import opened DomainRegistry

  /** A domain is signed for when its row is active and verified and holds a key that makes a signer. */
  predicate Signable(env: Env, db: Table, name: Name) {
    && name in db && db[name].active && db[name].verified
    && db[name].key != "" && env.usable(name, db[name].selector, db[name].key)
  }

  /** Served are the active domains, or, where there is none, the built-in one. */
  ghost predicate ToServe(env: Env, db: Table, name: Name) {
    (name in db && db[name].active) || (name == env.fallback && forall n <- db :: !db[n].active)
  }

  ghost predicate InStep(env: Env, db: Table, rep: Replica) {
    && (forall name :: name in rep.signers <==> Signable(env, db, name))
    && (forall name <- rep.signers :: rep.signers[name] == Signer(db[name].selector, db[name].key))
    && (forall name :: name in rep.served <==> ToServe(env, db, name))
  }

  lemma MatchesInStep(env: Env, db: Table, rep: Replica)
    requires Matches(env, db, rep)
    ensures InStep(env, db, rep)
  {
    assert ActiveNames(db) == {} <==> forall n <- db :: !db[n].active by {
      assert forall n <- db :: db[n].active <==> n in ActiveNames(db);
    }
  }

  /** What a reload makes of a listing, in any order. */
  method Reloads(registry: Registry, rows: seq<(Name, Domain)>, ghost db: Table)
    requires ListsActive(db, rows)
    modifies registry
    ensures InStep(registry.env, db, Replica(registry.signers, registry.served, 0))
  {
    registry.Reload(rows, db);
    MatchesInStep(registry.env, db, Replica(registry.signers, registry.served, 0));
  }

  /** After every run whose steps are harmless, once it is quiet, each replica signs for exactly the signable
      domains, each with the selector and key of its row, and serves exactly the domains to serve. */
  lemma AllInStep(env: Env, s: System, steps: seq<Step>, t: System)
    requires Coherent(env, s) && Reaches(env, s, steps, t) && AllHarmless(env, s, steps) && Quiet(t)
    ensures forall r <- t.replicas :: InStep(env, t.db, t.replicas[r])
  {
    ReplicasConverge(env, s, steps, t);
    forall r | r in t.replicas ensures InStep(env, t.db, t.replicas[r]) {
      MatchesInStep(env, t.db, t.replicas[r]);
    }
  }

  // ------------------------------------------------------------------ requests

  datatype Outcome = Outcome(status: Status, row: Option<Domain>)

  /** What a request comes to: its status and the row it leaves. */
  function OutcomeOf(env: Env, q: Request, row: Option<Domain>): Outcome {
    var e := Handle(env, q, row);
    Outcome(e.status, match e.write
                      case Nothing => row
                      case Put(d) => Some(d)
                      case Remove => None)
  }

  /** The table after a request holds the row it leaves and all others as they were. */
  lemma OutcomeWritten(env: Env, db: Table, q: Request)
    ensures var after := Written(db, q.name, Handle(env, q, Row(db, q.name)).write);
            && Row(after, q.name) == OutcomeOf(env, q, Row(db, q.name)).row
            && forall n :: n != q.name ==> Row(after, n) == Row(db, n)
  {
  }

  /** A new domain gets its own selector or "mail", the imported key if that makes a signer, else a generated
      one, and starts neither verified nor active. Nothing else is done to a table by a create. */
  lemma Created(env: Env, q: Request, row: Option<Domain>)
    requires q.Create?
    ensures var selector, o := if q.selector == "" then "mail" else q.selector, OutcomeOf(env, q, row);
            if q.name == "" || '.' !in q.name then o == Outcome(BadRequest, row)
            else if row.Some? then o == Outcome(Conflict, row)
            else if q.imported != "" then
              o == if env.usable(q.name, selector, q.imported)
                   then Outcome(OK, Some(Domain(selector, q.imported, false, false))) else Outcome(BadRequest, None)
            else
              o == match q.generated
                   case Some(key) => Outcome(OK, Some(Domain(selector, key, false, false)))
                   case None => Outcome(InternalError, None)
  {
  }

  /** The other requests need a row. */
  lemma NoRow(env: Env, q: Request, row: Option<Domain>)
    requires !q.Create? && (q.name == "" || row == None)
    ensures OutcomeOf(env, q, row) == Outcome(if q.name == "" then BadRequest else NotFound, row)
  {
  }

  /** A row becomes verified exactly by a verify that finds its record published, which takes a key that
      makes a signer; a verify never takes that back, and changes nothing else. */
  lemma Verified(env: Env, q: Request, d: Domain)
    requires q.Verify? && q.name != ""
    ensures OutcomeOf(env, q, Some(d))
         == if d.key == "" then Outcome(BadRequest, Some(d))
            else if !env.usable(q.name, d.selector, d.key) then Outcome(InternalError, Some(d))
            else Outcome(OK, Some(Domain(d.selector, d.key, d.verified || q.published, d.active)))
  {
  }

  /** Only a verified domain is activated; any is deactivated. */
  lemma ActiveChanged(env: Env, q: Request, d: Domain)
    requires q.SetActive? && q.name != ""
    ensures OutcomeOf(env, q, Some(d))
         == if q.active && !d.verified then Outcome(BadRequest, Some(d))
            else Outcome(OK, Some(Domain(d.selector, d.key, d.verified, q.active)))
  {
  }

  lemma Deleted(env: Env, q: Request, d: Domain)
    requires q.Delete? && q.name != ""
    ensures OutcomeOf(env, q, Some(d)) == Outcome(OK, None)
  {
  }

  /** A rotation takes a selector that is new, up to case, and leaves the row unverified, active as it was. */
  lemma Rotated(env: Env, q: Request, d: Domain)
    requires q.Rotate? && q.name != ""
    ensures OutcomeOf(env, q, Some(d))
         == if q.selector == "" || env.fold(q.selector) == env.fold(d.selector) then Outcome(BadRequest, Some(d))
            else match q.generated
                 case Some(key) => Outcome(OK, Some(Domain(q.selector, key, false, d.active)))
                 case None => Outcome(InternalError, Some(d))
  {
  }

  // ------------------------------------------------------------ one domain's life

  /** Requests on one domain handled one after the other. */
  function RowAfter(env: Env, qs: seq<Request>, row: Option<Domain>): Option<Domain> {
    if qs == [] then row else RowAfter(env, qs[1..], OutcomeOf(env, qs[0], row).row)
  }

  ghost predicate AllCan(env: Env, s: System, steps: seq<Step>)
    decreases |steps|
  {
    steps == [] || (Can(s, steps[0]) && AllCan(env, Next(env, s, steps[0]), steps[1..]))
  }

  /** The request that a step commits, if it is one on this domain. */
  function Committing(s: System, step: Step, name: Name): seq<Request> {
    if step.Commit? && step.j in s.jobs && s.jobs[step.j].request.name == name then [s.jobs[step.j].request] else []
  }

  /** The requests on a domain that a run commits, in their order. */
  ghost function Commits(env: Env, s: System, steps: seq<Step>, name: Name): seq<Request>
    requires AllCan(env, s, steps)
    decreases |steps|
  {
    if steps == [] then [] else Committing(s, steps[0], name) + Commits(env, Next(env, s, steps[0]), steps[1..], name)
  }

  /** None of them was overtaken: each found the row as it had loaded it. */
  ghost predicate NoneOvertaken(env: Env, s: System, steps: seq<Step>, name: Name)
    requires AllCan(env, s, steps)
    decreases |steps|
  {
    steps == []
    || ((Committing(s, steps[0], name) != [] ==> Undisturbed(s, steps[0]))
        && NoneOvertaken(env, Next(env, s, steps[0]), steps[1..], name))
  }

  /** The row of a domain is what its committed requests, one after the other, make of it, whatever is done
      meanwhile to other domains. */
  lemma {:induction false} RowByCommits(env: Env, s: System, steps: seq<Step>, t: System, name: Name)
    requires Reaches(env, s, steps, t) && AllCan(env, s, steps) && NoneOvertaken(env, s, steps, name)
    ensures Row(t.db, name) == RowAfter(env, Commits(env, s, steps, name), Row(s.db, name))
    decreases |steps|
  {
    if steps != [] {
      var u, first := Next(env, s, steps[0]), Committing(s, steps[0], name);
      RowByCommits(env, u, steps[1..], t, name);
      if first != [] {
        OutcomeWritten(env, s.db, first[0]);
        assert (first + Commits(env, u, steps[1..], name))[1..] == Commits(env, u, steps[1..], name);
      } else {
        assert Row(u.db, name) == Row(s.db, name);
        assert first + Commits(env, u, steps[1..], name) == Commits(env, u, steps[1..], name);
      }
    }
  }

  /** Created, verified while its record is published, and activated, a domain is served and signed for, by
      every replica and with its selector and key, once the run is quiet. */
  lemma ComesToLife(env: Env, s: System, steps: seq<Step>, t: System, name: Name, selector: string, key: string)
    requires Coherent(env, s) && Reaches(env, s, steps, t) && AllHarmless(env, s, steps) && Quiet(t)
    requires AllCan(env, s, steps) && NoneOvertaken(env, s, steps, name)
    requires name !in s.db && name != "" && '.' in name
    requires key != "" && selector != "" && env.usable(name, selector, key)
    requires Commits(env, s, steps, name)
          == [Create(name, selector, "", Some(key)), Verify(name, true), SetActive(name, true)]
    ensures forall r <- t.replicas ::
              && name in t.replicas[r].served && name in t.replicas[r].signers
              && t.replicas[r].signers[name] == Signer(selector, key)
  {
    RowByCommits(env, s, steps, t, name);
    LifeOf(env, name, selector, key);
    AllInStep(env, s, steps, t);
    forall r | r in t.replicas
      ensures name in t.replicas[r].served && name in t.replicas[r].signers
      ensures t.replicas[r].signers[name] == Signer(selector, key)
    {
      LivesOn(env, t.db, t.replicas[r], name);
    }
  }

  lemma LifeOf(env: Env, name: Name, selector: string, key: string)
    requires name != "" && '.' in name && key != "" && selector != "" && env.usable(name, selector, key)
    ensures RowAfter(env, [Create(name, selector, "", Some(key)), Verify(name, true), SetActive(name, true)], None)
         == Some(Domain(selector, key, true, true))
  {
    var create, verify, activate := Create(name, selector, "", Some(key)), Verify(name, true), SetActive(name, true);
    var made, checked, live := Domain(selector, key, false, false), Domain(selector, key, true, false),
                               Domain(selector, key, true, true);
    Created(env, create, None);
    Verified(env, verify, made);
    ActiveChanged(env, activate, checked);
    assert [activate][1..] == [] && RowAfter(env, [activate], Some(checked)) == Some(live);
    assert [verify, activate][1..] == [activate] && RowAfter(env, [verify, activate], Some(made)) == Some(live);
    assert [create, verify, activate][1..] == [verify, activate];
  }

  /** After a delete or a deactivation with nothing committed on the domain since, no replica signs for it
      once the run is quiet, and none serves it, unless it is the built-in one and no other is active. */
  lemma PassesAway(env: Env, s: System, steps: seq<Step>, t: System, name: Name, last: Request)
    requires Coherent(env, s) && Reaches(env, s, steps, t) && AllHarmless(env, s, steps) && Quiet(t)
    requires AllCan(env, s, steps) && NoneOvertaken(env, s, steps, name)
    requires name in s.db && name != "" && Commits(env, s, steps, name) == [last]
    requires last == Delete(name) || last == SetActive(name, false)
    ensures forall r <- t.replicas ::
              && name !in t.replicas[r].signers
              && (name in t.replicas[r].served ==> name == env.fallback && forall n <- t.db :: !t.db[n].active)
  {
    RowByCommits(env, s, steps, t, name);
    assert [last][1..] == [];
    assert Row(t.db, name) == OutcomeOf(env, last, Row(s.db, name)).row;
    AllInStep(env, s, steps, t);
    forall r | r in t.replicas
      ensures name !in t.replicas[r].signers
      ensures name in t.replicas[r].served ==> name == env.fallback && forall n <- t.db :: !t.db[n].active
    {
      DiesAway(env, t.db, t.replicas[r], name);
    }
  }

  /** A quiet replica serves and signs for such a domain with its selector and key, and for no other reason. */
  lemma LivesOn(env: Env, db: Table, rep: Replica, name: Name)
    requires InStep(env, db, rep) && name in db && db[name].active && db[name].verified && db[name].key != ""
    requires env.usable(name, db[name].selector, db[name].key)
    ensures name in rep.served && name in rep.signers
    ensures rep.signers[name] == Signer(db[name].selector, db[name].key)
  {
    assert Signable(env, db, name) && ToServe(env, db, name);
  }

  /** And not one that is deleted or deactivated: nobody signs for it, and nobody serves it unless it is the
      built-in one and no other is active. */
  lemma DiesAway(env: Env, db: Table, rep: Replica, name: Name)
    requires InStep(env, db, rep) && (name in db ==> !db[name].active)
    ensures name !in rep.signers
    ensures name in rep.served ==> name == env.fallback && forall n <- db :: !db[n].active
  {
    assert !Signable(env, db, name);
    assert name in rep.served <==> ToServe(env, db, name);
  }
}
