/** The checks on a client-encrypted send: every recipient must hold a wrapped key, the key must be the
    one the server resolves for the address, and nobody may be in BCC. */
module ClientRecipients {
  import opened Prelude
  import opened Text

  /** The parts of a client-mode send that the checks read. An envelope is known by the public keys its
      content key is wrapped to; the body is None in the older single-recipient format. */
  datatype Request = Request(
    to: seq<string>, cc: seq<string>, bcc: seq<string>, pubkeys: map<string, string>,
    body: Option<set<string>>, attachments: seq<set<string>>)

  datatype Refusal =
    | BccUnsupported
    | OlderFormat(recipients: seq<string>)
    | NoKey(missing: seq<string>)
    | KeyMismatch(bad: seq<string>)

  datatype Result<T> = Ok(value: T) | Err(refusal: Refusal)

  function Lower(s: string, lower: char -> char): string {
    if s == "" then "" else [lower(s[0])] + Lower(s[1..], lower)
  }

  function Norm(s: string, lower: char -> char): string {
    Lower(TrimSpace(s), lower)
  }

  function Get(table: map<string, string>, key: string): string {
    if key in table then table[key] else ""
  }

  // ------------------------------------------------------------- specifications

  /** Every element once, where it first occurs. */
  function FirstSeen(s: seq<string>): seq<string> {
    if s == [] then []
    else
      var before := FirstSeen(s[..|s| - 1]);
      if s[|s| - 1] in before then before else before + [s[|s| - 1]]
  }

  function Elements(s: seq<string>): set<string> {
    set a | a in s
  }

  /** The keys by normalised address, when the entries are visited in this order: the last one wins. */
  function Table(order: seq<string>, pubkeys: map<string, string>, key: string -> string, lower: char -> char):
    map<string, string>
    requires forall a <- order :: a in pubkeys
  {
    if order == [] then map[]
    else
      var a := order[|order| - 1];
      Table(order[..|order| - 1], pubkeys, key, lower)[Norm(a, lower) := key(pubkeys[a])]
  }

  /** A range over the entries of a map visits each key once, in an order nobody chooses. */
  ghost predicate Visits(order: seq<string>, pubkeys: map<string, string>) {
    Distinct(order) && forall a :: a in order <==> a in pubkeys
  }

  predicate Held(pk: string, holders: set<string>, attachments: seq<set<string>>) {
    pk != "" && pk in holders && forall h <- attachments :: pk in h
  }

  function Uncovered(all: seq<string>, table: map<string, string>, holders: set<string>,
                     attachments: seq<set<string>>, lower: char -> char): seq<string>
  {
    if all == [] then []
    else
      var n := |all| - 1;
      Uncovered(all[..n], table, holders, attachments, lower)
      + if Held(Get(table, Norm(all[n], lower)), holders, attachments) then [] else [all[n]]
  }

  function Covered(req: Request, order: seq<string>, lower: char -> char): Result<set<string>>
    requires forall a <- order :: a in req.pubkeys
  {
    var all := FirstSeen(req.to + req.cc + req.bcc);
    var table := Table(order, req.pubkeys, s => Lower(s, lower), lower);
    if req.body.None? && (|all| != 1 || Get(table, Norm(all[0], lower)) == "") then Err(OlderFormat(all))
    else
      var holders := req.body.GetOr({if |all| == 1 then Get(table, Norm(all[0], lower)) else ""});
      var missing := Uncovered(all, table, holders, req.attachments, lower);
      if missing != [] then Err(NoKey(missing)) else Ok(Elements(all))
  }

  function Mismatched(addrs: seq<string>, claimed: map<string, string>, resolved: map<string, string>,
                      lower: char -> char): seq<string>
  {
    if addrs == [] then []
    else
      var n := |addrs| - 1;
      var want := Norm(Get(resolved, addrs[n]), lower);
      Mismatched(addrs[..n], claimed, resolved, lower)
      + if want == "" || Get(claimed, Norm(addrs[n], lower)) != want then [addrs[n]] else []
  }

  function KeysMatch(req: Request, order: seq<string>, resolved: map<string, string>, lower: char -> char):
    Option<Refusal>
    requires forall a <- order :: a in req.pubkeys
  {
    var claimed := Table(order, req.pubkeys, s => Norm(s, lower), lower);
    var bad := Mismatched(req.to + req.cc, claimed, resolved, lower);
    if bad != [] then Some(KeyMismatch(bad)) else None
  }

  function NoBCC(req: Request): Option<Refusal> {
    if |req.bcc| > 0 then Some(BccUnsupported) else None
  }

  /** Whether delivery reports an address as encrypted to. */
  predicate DeliveredEncrypted(isPreEncrypted: bool, encryptedRecipients: set<string>,
                               serverEncryptedTo: string, addr: string)
  {
    if isPreEncrypted then addr in encryptedRecipients
    else serverEncryptedTo != "" && addr == serverEncryptedTo
  }

  // --------------------------------------------------------------------- checks

  method CheckClientRecipientsCovered(req: Request, order: seq<string>, lower: char -> char)
    returns (result: Result<set<string>>)
    requires forall a <- order :: a in req.pubkeys
    ensures result == Covered(req, order, lower)
  {
    var all := AllRecipients(req.to + req.cc + req.bcc);
    var keyByAddr := BuildTable(req.pubkeys, order, s => Lower(s, lower), lower);
    var bodyHolders := req.body.GetOr({});
    if req.body.None? {
      if |all| != 1 || Get(keyByAddr, Norm(all[0], lower)) == "" {
        return Err(OlderFormat(all));
      }
      bodyHolders := {Get(keyByAddr, Norm(all[0], lower))};
    }
    var covered, missing := SortOut(all, keyByAddr, bodyHolders, req.attachments, lower);
    result := if |missing| > 0 then Err(NoKey(missing)) else Ok(covered);
  }

  method AllRecipients(recipients: seq<string>) returns (all: seq<string>)
    ensures all == FirstSeen(recipients)
  {
    var seen: set<string> := {};
    all := [];
    for i := 0 to |recipients|
      invariant all == FirstSeen(recipients[..i])
      invariant forall a :: a in seen <==> a in all
    {
      assert recipients[..i + 1][..i] == recipients[..i];
      var a := recipients[i];
      if a !in seen {
        seen := seen + {a};
        all := all + [a];
      }
    }
    assert recipients[..|recipients|] == recipients;
  }

  /** One more address, held or not. */
  lemma UncoveredStep(all: seq<string>, i: nat, table: map<string, string>, holders: set<string>,
                      attachments: seq<set<string>>, lower: char -> char)
    requires i < |all|
    ensures Uncovered(all[..i + 1], table, holders, attachments, lower)
         == Uncovered(all[..i], table, holders, attachments, lower)
            + if Held(Get(table, Norm(all[i], lower)), holders, attachments) then [] else [all[i]]
    ensures Elements(all[..i + 1]) == Elements(all[..i]) + {all[i]}
  {
    assert all[..i + 1][..i] == all[..i];
    assert all[..i + 1] == all[..i] + [all[i]];
  }

  method SortOut(all: seq<string>, keyByAddr: map<string, string>, bodyHolders: set<string>,
                 attachments: seq<set<string>>, lower: char -> char)
    returns (covered: set<string>, missing: seq<string>)
    ensures missing == Uncovered(all, keyByAddr, bodyHolders, attachments, lower)
    ensures missing == [] ==> covered == Elements(all)
  {
    covered, missing := {}, [];
    for i := 0 to |all|
      invariant missing == Uncovered(all[..i], keyByAddr, bodyHolders, attachments, lower)
      invariant missing == [] ==> covered == Elements(all[..i])
    {
      UncoveredStep(all, i, keyByAddr, bodyHolders, attachments, lower);
      var ok := HeldInEvery(Get(keyByAddr, Norm(all[i], lower)), bodyHolders, attachments);
      if ok {
        covered := covered + {all[i]};
      } else {
        missing := missing + [all[i]];
      }
    }
    assert all[..|all|] == all;
  }

  method HeldInEvery(pk: string, bodyHolders: set<string>, attachments: seq<set<string>>) returns (ok: bool)
    ensures ok <==> Held(pk, bodyHolders, attachments)
  {
    ok := pk != "" && pk in bodyHolders;
    for j := 0 to |attachments|
      invariant ok <==> pk != "" && pk in bodyHolders && forall k :: 0 <= k < j ==> pk in attachments[k]
    {
      ok := ok && pk in attachments[j];
    }
  }

  method BuildTable(pubkeys: map<string, string>, order: seq<string>, key: string -> string, lower: char -> char)
    returns (table: map<string, string>)
    requires forall a <- order :: a in pubkeys
    ensures table == Table(order, pubkeys, key, lower)
  {
    table := map[];
    for i := 0 to |order|
      invariant table == Table(order[..i], pubkeys, key, lower)
    {
      assert order[..i + 1][..i] == order[..i];
      table := table[Norm(order[i], lower) := key(pubkeys[order[i]])];
    }
    assert order[..|order|] == order;
  }

  method CheckClientKeysMatchResolved(req: Request, order: seq<string>, resolved: map<string, string>,
                                      lower: char -> char) returns (refusal: Option<Refusal>)
    requires forall a <- order :: a in req.pubkeys
    ensures refusal == KeysMatch(req, order, resolved, lower)
  {
    var claimed := BuildTable(req.pubkeys, order, s => Norm(s, lower), lower);
    var bad := NotResolved(req.to + req.cc, claimed, resolved, lower);
    refusal := if |bad| > 0 then Some(KeyMismatch(bad)) else None;
  }

  method NotResolved(addrs: seq<string>, claimed: map<string, string>, resolved: map<string, string>,
                     lower: char -> char) returns (bad: seq<string>)
    ensures bad == Mismatched(addrs, claimed, resolved, lower)
  {
    bad := [];
    for i := 0 to |addrs|
      invariant bad == Mismatched(addrs[..i], claimed, resolved, lower)
    {
      assert addrs[..i + 1][..i] == addrs[..i];
      var want := Norm(Get(resolved, addrs[i]), lower);
      if want == "" || Get(claimed, Norm(addrs[i], lower)) != want {
        bad := bad + [addrs[i]];
      }
    }
    assert addrs[..|addrs|] == addrs;
  }

  // --------------------------------------------------------------------- lemmas

  lemma {:induction false} FirstSeenHasAll(s: seq<string>)
    ensures Distinct(FirstSeen(s))
    ensures forall a :: a in FirstSeen(s) <==> a in s
  {
    if s != [] {
      var n := |s| - 1;
      FirstSeenHasAll(s[..n]);
      assert s == s[..n] + [s[n]];
    }
  }

  lemma OnlyOne(s: seq<string>, a: string)
    requires |FirstSeen(s)| == 1 && a in s
    ensures FirstSeen(s) == [a]
  {
    FirstSeenHasAll(s);
    assert a in FirstSeen(s);
  }

  lemma {:induction false} NoneUncovered(all: seq<string>, table: map<string, string>, holders: set<string>,
                                         attachments: seq<set<string>>, lower: char -> char)
    ensures forall a :: a in Uncovered(all, table, holders, attachments, lower)
                   <==> a in all && !Held(Get(table, Norm(a, lower)), holders, attachments)
  {
    if all != [] {
      var n := |all| - 1;
      NoneUncovered(all[..n], table, holders, attachments, lower);
      assert all == all[..n] + [all[n]];
    }
  }

  lemma {:induction false} NoneMismatched(addrs: seq<string>, claimed: map<string, string>,
                                          resolved: map<string, string>, lower: char -> char)
    ensures forall a :: a in Mismatched(addrs, claimed, resolved, lower)
                   <==> a in addrs && (Norm(Get(resolved, a), lower) == ""
                                       || Get(claimed, Norm(a, lower)) != Norm(Get(resolved, a), lower))
  {
    if addrs != [] {
      var n := |addrs| - 1;
      NoneMismatched(addrs[..n], claimed, resolved, lower);
      assert addrs == addrs[..n] + [addrs[n]];
    }
  }

  /** The entries of one mailbox, if it has several, carry one key. */
  ghost predicate EqualKeys(pubkeys: map<string, string>, lower: char -> char) {
    forall a, b :: a in pubkeys && b in pubkeys && Norm(a, lower) == Norm(b, lower) ==> pubkeys[a] == pubkeys[b]
  }

  lemma {:induction false} TableHolds(order: seq<string>, pubkeys: map<string, string>, key: string -> string,
                                      lower: char -> char, a: string)
    requires forall b <- order :: b in pubkeys
    requires EqualKeys(pubkeys, lower) && a in order
    ensures var table := Table(order, pubkeys, key, lower);
            Norm(a, lower) in table && table[Norm(a, lower)] == key(pubkeys[a])
  {
    var n := |order| - 1;
    if order[n] != a {
      assert order == order[..n] + [order[n]];
      TableHolds(order[..n], pubkeys, key, lower, a);
    }
  }

  lemma {:induction false} TableFrom(order: seq<string>, pubkeys: map<string, string>, key: string -> string,
                                     lower: char -> char, address: string)
    requires forall b <- order :: b in pubkeys
    requires address in Table(order, pubkeys, key, lower)
    ensures exists a :: && a in order && Norm(a, lower) == address
                        && key(pubkeys[a]) == Table(order, pubkeys, key, lower)[address]
  {
    var n := |order| - 1;
    if Norm(order[n], lower) != address {
      TableFrom(order[..n], pubkeys, key, lower, address);
    }
  }

  /** What a visit finds for an address is the key of some entry for it. */
  lemma Found(req: Request, order: seq<string>, key: string -> string, lower: char -> char, addr: string)
    returns (a: string)
    requires Visits(order, req.pubkeys)
    requires Get(Table(order, req.pubkeys, key, lower), Norm(addr, lower)) != ""
    ensures && a in req.pubkeys && Norm(a, lower) == Norm(addr, lower)
            && key(req.pubkeys[a]) == Get(Table(order, req.pubkeys, key, lower), Norm(addr, lower))
  {
    TableFrom(order, req.pubkeys, key, lower, Norm(addr, lower));
    a :| && a in order && Norm(a, lower) == Norm(addr, lower)
         && key(req.pubkeys[a]) == Table(order, req.pubkeys, key, lower)[Norm(addr, lower)];
  }

  /** The entry that vouches for an address: its key is the resolved one and holds the body and every
      attachment. */
  ghost predicate VouchedBy(a: string, addr: string, req: Request, resolved: map<string, string>,
                            lower: char -> char)
  {
    && a in req.pubkeys
    && Norm(a, lower) == Norm(addr, lower)
    && Norm(req.pubkeys[a], lower) == Norm(Get(resolved, addr), lower) != ""
    && (req.body.Some? ==> Lower(req.pubkeys[a], lower) in req.body.value)
    && forall h <- req.attachments :: Lower(req.pubkeys[a], lower) in h
  }

  ghost predicate Vouched(addr: string, req: Request, resolved: map<string, string>, lower: char -> char) {
    exists a :: VouchedBy(a, addr, req, resolved, lower)
  }

  ghost predicate Accepted(req: Request, order: seq<string>, order': seq<string>, resolved: map<string, string>,
                           lower: char -> char)
    requires Visits(order, req.pubkeys) && Visits(order', req.pubkeys)
  {
    NoBCC(req).None? && Covered(req, order, lower).Ok? && KeysMatch(req, order', resolved, lower).None?
  }

  lemma EntryOf(req: Request, order: seq<string>, lower: char -> char, a: string, addr: string)
    requires Visits(order, req.pubkeys) && EqualKeys(req.pubkeys, lower)
    requires a in req.pubkeys && Norm(a, lower) == Norm(addr, lower)
    ensures Get(Table(order, req.pubkeys, s => Lower(s, lower), lower), Norm(addr, lower))
         == Lower(req.pubkeys[a], lower)
    ensures Get(Table(order, req.pubkeys, s => Norm(s, lower), lower), Norm(addr, lower))
         == Norm(req.pubkeys[a], lower)
  {
    TableHolds(order, req.pubkeys, s => Lower(s, lower), lower, a);
    TableHolds(order, req.pubkeys, s => Norm(s, lower), lower, a);
  }

  ghost predicate HeldFor(req: Request, order: seq<string>, lower: char -> char, addr: string)
    requires Visits(order, req.pubkeys)
  {
    var pk := Get(Table(order, req.pubkeys, s => Lower(s, lower), lower), Norm(addr, lower));
    pk != "" && (req.body.Some? ==> pk in req.body.value) && forall h <- req.attachments :: pk in h
  }

  ghost predicate MatchedFor(req: Request, order: seq<string>, resolved: map<string, string>, lower: char -> char,
                             addr: string)
    requires Visits(order, req.pubkeys)
  {
    var claimed := Get(Table(order, req.pubkeys, s => Norm(s, lower), lower), Norm(addr, lower));
    claimed == Norm(Get(resolved, addr), lower) != ""
  }

  /** What the coverage check comes to when nobody is in BCC. */
  lemma CoveredWhen(req: Request, order: seq<string>, lower: char -> char)
    requires Visits(order, req.pubkeys) && req.bcc == []
    ensures Covered(req, order, lower).Ok?
       <==> (req.body.None? ==> |FirstSeen(req.to + req.cc)| == 1)
            && forall addr <- req.to + req.cc :: HeldFor(req, order, lower, addr)
    ensures Covered(req, order, lower).Ok? ==> Covered(req, order, lower).value == Elements(req.to + req.cc)
  {
    var addrs := req.to + req.cc;
    assert req.to + req.cc + req.bcc == addrs;
    var all := FirstSeen(addrs);
    FirstSeenHasAll(addrs);
    var table := Table(order, req.pubkeys, s => Lower(s, lower), lower);
    var holders := req.body.GetOr({if |all| == 1 then Get(table, Norm(all[0], lower)) else ""});
    var missing := Uncovered(all, table, holders, req.attachments, lower);
    NoneUncovered(all, table, holders, req.attachments, lower);
    assert missing != [] ==> missing[0] in missing;
    if |all| == 1 {
      assert all[0] in addrs;
      forall a | a in addrs ensures a == all[0] {
        assert a in all;
      }
    }
  }

  lemma MatchedWhen(req: Request, order: seq<string>, resolved: map<string, string>, lower: char -> char)
    requires Visits(order, req.pubkeys)
    ensures KeysMatch(req, order, resolved, lower).None?
       <==> forall addr <- req.to + req.cc :: MatchedFor(req, order, resolved, lower, addr)
  {
    var addrs := req.to + req.cc;
    var claimed := Table(order, req.pubkeys, s => Norm(s, lower), lower);
    var bad := Mismatched(addrs, claimed, resolved, lower);
    NoneMismatched(addrs, claimed, resolved, lower);
    assert bad != [] ==> bad[0] in bad;
  }

  lemma LowerOfEmpty(s: string, lower: char -> char)
    ensures Norm(s, lower) != "" ==> Lower(s, lower) != ""
  {
  }

  lemma OneVouched(req: Request, order: seq<string>, order': seq<string>, resolved: map<string, string>,
                   lower: char -> char, addr: string)
    requires Visits(order, req.pubkeys) && Visits(order', req.pubkeys) && EqualKeys(req.pubkeys, lower)
    ensures Vouched(addr, req, resolved, lower)
       <==> HeldFor(req, order, lower, addr) && MatchedFor(req, order', resolved, lower, addr)
  {
    if HeldFor(req, order, lower, addr) && MatchedFor(req, order', resolved, lower, addr) {
      var a := Found(req, order', s => Norm(s, lower), lower, addr);
      EntryOf(req, order, lower, a, addr);
      assert VouchedBy(a, addr, req, resolved, lower);
    }
    if Vouched(addr, req, resolved, lower) {
      var b :| VouchedBy(b, addr, req, resolved, lower);
      EntryOf(req, order, lower, b, addr);
      EntryOf(req, order', lower, b, addr);
      LowerOfEmpty(req.pubkeys[b], lower);
    }
  }

  /** The checks accept exactly when nobody is in BCC, the older format has one recipient, and every
      address in To and CC is vouched for, whatever order the entries are visited in. */
  lemma AcceptedExactlyWhen(req: Request, order: seq<string>, order': seq<string>, resolved: map<string, string>,
                            lower: char -> char)
    requires Visits(order, req.pubkeys) && Visits(order', req.pubkeys) && EqualKeys(req.pubkeys, lower)
    ensures Accepted(req, order, order', resolved, lower)
       <==> && req.bcc == [] && (req.body.None? ==> |FirstSeen(req.to + req.cc)| == 1)
            && forall addr <- req.to + req.cc :: Vouched(addr, req, resolved, lower)
  {
    if req.bcc == [] {
      CoveredWhen(req, order, lower);
      MatchedWhen(req, order', resolved, lower);
      forall addr | addr in req.to + req.cc
        ensures Vouched(addr, req, resolved, lower)
           <==> HeldFor(req, order, lower, addr) && MatchedFor(req, order', resolved, lower, addr)
      {
        OneVouched(req, order, order', resolved, lower, addr);
      }
    }
  }

  // ------------------------------------------------------------ who is refused, and why

  /** Lower-casing acts on each character. */
  lemma {:induction false} LowerAt(s: string, lower: char -> char)
    ensures |Lower(s, lower)| == |s| && forall i :: 0 <= i < |s| ==> Lower(s, lower)[i] == lower(s[i])
  {
    if s != "" {
      LowerAt(s[1..], lower);
    }
  }

  /** The older format without its one recipient's key is refused as such, with all addresses named; otherwise
      the addresses named are exactly those without a key in the body and every attachment. */
  lemma RefusedExactly(req: Request, order: seq<string>, lower: char -> char)
    requires Visits(order, req.pubkeys) && req.bcc == []
    ensures var addrs, r := req.to + req.cc, Covered(req, order, lower);
            var older := req.body.None? && (|Elements(addrs)| != 1 || exists a <- addrs :: Unlisted(req, order, lower, a));
            && (r.Err? && r.refusal.OlderFormat? <==> older)
            && (older ==> forall a :: a in r.refusal.recipients <==> a in addrs)
            && (r.Err? && !older ==>
                  r.refusal.NoKey? && forall a :: a in r.refusal.missing <==> a in addrs && !HeldFor(req, order, lower, a))
  {
    var all := FirstSeen(req.to + req.cc);
    FirstSeenHasAll(req.to + req.cc);
    DistinctCount(all, Elements(req.to + req.cc));
    OlderRefused(req, order, lower, all);
    if |all| == 1 {
      OneAddress(req, order, lower, all[0]);
    }
    if Covered(req, order, lower).Err? && !Covered(req, order, lower).refusal.OlderFormat? {
      OthersRefused(req, order, lower);
    }
  }

  lemma OlderRefused(req: Request, order: seq<string>, lower: char -> char, all: seq<string>)
    requires Visits(order, req.pubkeys) && req.bcc == [] && all == FirstSeen(req.to + req.cc)
    ensures var r := Covered(req, order, lower);
            && (r.Err? && r.refusal.OlderFormat?
                <==> req.body.None? && (|all| != 1 || Unlisted(req, order, lower, all[0])))
            && (r.Err? && r.refusal.OlderFormat? ==> r.refusal.recipients == all)
  {
    assert req.to + req.cc + req.bcc == req.to + req.cc;
  }

  lemma OthersRefused(req: Request, order: seq<string>, lower: char -> char)
    requires Visits(order, req.pubkeys) && req.bcc == []
    requires Covered(req, order, lower).Err? && !Covered(req, order, lower).refusal.OlderFormat?
    ensures var why := Covered(req, order, lower).refusal;
            why.NoKey? && forall a :: a in why.missing <==> a in req.to + req.cc && !HeldFor(req, order, lower, a)
  {
    var addrs := req.to + req.cc;
    assert req.to + req.cc + req.bcc == addrs;
    var all := FirstSeen(addrs);
    FirstSeenHasAll(addrs);
    if |all| == 1 {
      assert forall a <- addrs :: a in all;
    }
    var table := Table(order, req.pubkeys, s => Lower(s, lower), lower);
    var holders := req.body.GetOr({if |all| == 1 then Get(table, Norm(all[0], lower)) else ""});
    NoneUncovered(all, table, holders, req.attachments, lower);
  }

  lemma OneAddress(req: Request, order: seq<string>, lower: char -> char, only: string)
    requires Visits(order, req.pubkeys) && FirstSeen(req.to + req.cc) == [only]
    ensures (exists a <- req.to + req.cc :: Unlisted(req, order, lower, a)) <==> Unlisted(req, order, lower, only)
  {
    FirstSeenHasAll(req.to + req.cc);
    assert forall a <- req.to + req.cc :: a in [only];
    assert only in [only];
  }

  /** No entry that the coverage check visits gives this address a key. */
  ghost predicate Unlisted(req: Request, order: seq<string>, lower: char -> char, addr: string)
    requires Visits(order, req.pubkeys)
  {
    Get(Table(order, req.pubkeys, s => Lower(s, lower), lower), Norm(addr, lower)) == ""
  }

  /** And a mismatch names exactly the addresses whose claimed key is not the resolved one. */
  lemma MismatchedExactly(req: Request, order: seq<string>, resolved: map<string, string>, lower: char -> char)
    requires Visits(order, req.pubkeys) && KeysMatch(req, order, resolved, lower).Some?
    ensures var why := KeysMatch(req, order, resolved, lower).value;
            why.KeyMismatch?
            && forall a :: a in why.bad <==> a in req.to + req.cc && !MatchedFor(req, order, resolved, lower, a)
  {
    NoneMismatched(req.to + req.cc, Table(order, req.pubkeys, s => Norm(s, lower), lower), resolved, lower);
  }

  // ------------------------------------------------------------------- readable

  predicate IsHexDigit(c: char) {
    '0' <= c <= '9' || 'a' <= c <= 'f'
  }

  /** A key that an envelope can hold, as the holders list it: 64 lower-case hexadecimal digits. */
  predicate IsHexKey(pk: string) {
    |pk| == 64 && forall c <- pk :: IsHexDigit(c)
  }

  ghost predicate HexKeys(holders: set<string>) {
    forall pk <- holders :: IsHexKey(pk)
  }

  /** What the checks on the envelopes' shape leave through. */
  ghost predicate HexEnvelopes(req: Request) {
    (forall h <- req.attachments :: HexKeys(h)) && (req.body.Some? ==> HexKeys(req.body.value))
  }

  /** The keys that the server may resolve, normalised. Those looked up at other domains are 64 hexadecimal
      digits; those of its own accounts are whatever they registered with. */
  predicate Resolvable(pk: string, hexOnly: bool) {
    if hexOnly then IsHexKey(pk) else pk != ""
  }

  ghost predicate Resolves(resolved: map<string, string>, lower: char -> char, hexOnly: bool) {
    forall addr <- resolved :: Norm(resolved[addr], lower) == "" || Resolvable(Norm(resolved[addr], lower), hexOnly)
  }

  /** The key that the server resolved for an address holds the body, unless that is in the older format
      with this one recipient, and every attachment. */
  ghost predicate Readable(req: Request, resolved: map<string, string>, lower: char -> char, addr: string) {
    var pk := Norm(Get(resolved, addr), lower);
    && pk != ""
    && (if req.body.Some? then pk in req.body.value else FirstSeen(req.to + req.cc) == [addr])
    && forall h <- req.attachments :: pk in h
  }

  /** No mailbox has two entries of which one gives the coverage check a key that an envelope can hold, and
      the other gives the matching check another one that the server can resolve. */
  ghost predicate OneKeyPerMailbox(pubkeys: map<string, string>, lower: char -> char, hexOnly: bool) {
    forall a, b :: a in pubkeys && b in pubkeys && Norm(a, lower) == Norm(b, lower)
      && IsHexKey(Lower(pubkeys[a], lower)) && Resolvable(Norm(pubkeys[b], lower), hexOnly)
      ==> Norm(pubkeys[b], lower) == Lower(pubkeys[a], lower)
  }

  /** Held and matched, an address is readable: its two entries have one key. */
  lemma HeldIsReadable(req: Request, order: seq<string>, order': seq<string>, resolved: map<string, string>,
                       lower: char -> char, hexOnly: bool, addr: string)
    requires Visits(order, req.pubkeys) && Visits(order', req.pubkeys)
    requires OneKeyPerMailbox(req.pubkeys, lower, hexOnly) && Resolves(resolved, lower, hexOnly) && HexEnvelopes(req)
    requires HeldFor(req, order, lower, addr) && MatchedFor(req, order', resolved, lower, addr)
    ensures var pk := Norm(Get(resolved, addr), lower);
            pk != "" && (req.body.Some? ==> pk in req.body.value) && forall h <- req.attachments :: pk in h
  {
    var a := Found(req, order, s => Lower(s, lower), lower, addr);
    var b := Found(req, order', s => Norm(s, lower), lower, addr);
    assert Norm("", lower) == "";
    assert Resolvable(Norm(req.pubkeys[b], lower), hexOnly);
    assert IsHexKey(Lower(req.pubkeys[a], lower)) ==> Norm(req.pubkeys[b], lower) == Lower(req.pubkeys[a], lower);
  }

  /** Everybody can read what was accepted, and delivery reports exactly the addresses in To and CC as
      encrypted to, for every table with one key a mailbox. */
  lemma AcceptedIsReadable(req: Request, order: seq<string>, order': seq<string>, resolved: map<string, string>,
                           lower: char -> char, hexOnly: bool, addr: string)
    requires Visits(order, req.pubkeys) && Visits(order', req.pubkeys)
    requires OneKeyPerMailbox(req.pubkeys, lower, hexOnly) && Resolves(resolved, lower, hexOnly) && HexEnvelopes(req)
    requires Accepted(req, order, order', resolved, lower)
    ensures DeliveredEncrypted(true, Covered(req, order, lower).value, "", addr) <==> addr in req.to + req.cc
    ensures addr in req.to + req.cc ==> Readable(req, resolved, lower, addr)
  {
    CoveredWhen(req, order, lower);
    MatchedWhen(req, order', resolved, lower);
    if addr in req.to + req.cc {
      HeldIsReadable(req, order, order', resolved, lower, hexOnly, addr);
      if req.body.None? {
        OnlyOne(req.to + req.cc, addr);
      }
    }
  }

  // -------------------------------------------------------- exactly which tables

  /** Whatever was accepted, under these visiting orders and this resolution, can be read by everybody. */
  ghost predicate Promised(req: Request, order: seq<string>, order': seq<string>, resolved: map<string, string>,
                           lower: char -> char, hexOnly: bool)
  {
    Visits(order, req.pubkeys) && Visits(order', req.pubkeys) && Resolves(resolved, lower, hexOnly)
    && HexEnvelopes(req) && Accepted(req, order, order', resolved, lower)
    ==> forall addr <- req.to + req.cc :: Readable(req, resolved, lower, addr)
  }

  /** Some order visits an entry last. */
  lemma {:induction false} VisitSome(keys: set<string>) returns (order: seq<string>)
    ensures Distinct(order) && forall a :: a in order <==> a in keys
    decreases |keys|
  {
    order := [];
    if keys != {} {
      var a :| a in keys;
      order := VisitSome(keys - {a});
      order := order + [a];
    }
  }

  lemma VisitLast(pubkeys: map<string, string>, a: string, key: string -> string, lower: char -> char)
    returns (order: seq<string>)
    requires a in pubkeys
    ensures Visits(order, pubkeys)
    ensures Get(Table(order, pubkeys, key, lower), Norm(a, lower)) == key(pubkeys[a])
  {
    var before := VisitSome(pubkeys.Keys - {a});
    order := before + [a];
    assert order[..|order| - 1] == before;
  }

  lemma OneRecipientAccepted(req: Request, order: seq<string>, order': seq<string>, resolved: map<string, string>,
                             lower: char -> char, a: string)
    requires Visits(order, req.pubkeys) && Visits(order', req.pubkeys)
    requires req.to == [a] && req.cc == [] && req.bcc == [] && req.body.Some?
    requires HeldFor(req, order, lower, a) && MatchedFor(req, order', resolved, lower, a)
    ensures Accepted(req, order, order', resolved, lower)
  {
    assert forall addr <- req.to + req.cc :: addr == a;
    CoveredWhen(req, order, lower);
    MatchedWhen(req, order', resolved, lower);
  }

  /** A key of the right shape that is neither of these two. */
  lemma ThirdKey(pk: string, pk': string) returns (third: string)
    ensures IsHexKey(third) && third != pk && third != pk'
  {
    var zeros, ones, twos := seq(64, _ => '0'), seq(64, _ => '1'), seq(64, _ => '2');
    assert zeros[0] == '0' && ones[0] == '1' && twos[0] == '2';
    third := if zeros != pk && zeros != pk' then zeros else if ones != pk && ones != pk' then ones else twos;
  }

  /** Two entries of one mailbox with different keys, one that an envelope can hold and one that the server
      can resolve, split the checks. A request to that mailbox, its body wrapped to the sender and the first
      key, is accepted: one check visits last the entry whose key holds the body, and the other the entry
      with the key that the server resolved, which holds nothing. */
  lemma ClashSplitsTheChecks(pubkeys: map<string, string>, lower: char -> char, hexOnly: bool, a: string, b: string)
    returns (req: Request, order: seq<string>, order': seq<string>, resolved: map<string, string>)
    requires a in pubkeys && b in pubkeys && Norm(a, lower) == Norm(b, lower)
    requires IsHexKey(Lower(pubkeys[a], lower)) && Resolvable(Norm(pubkeys[b], lower), hexOnly)
    requires Norm(pubkeys[b], lower) != Lower(pubkeys[a], lower)
    ensures req.pubkeys == pubkeys && Visits(order, pubkeys) && Visits(order', pubkeys)
    ensures Resolves(resolved, lower, hexOnly) && HexEnvelopes(req)
    ensures exists sender :: sender != Lower(pubkeys[a], lower) && req.body == Some({Lower(pubkeys[a], lower), sender})
    ensures Accepted(req, order, order', resolved, lower)
    ensures req.to == [a] && Norm(Get(resolved, a), lower) !in req.body.value
  {
    var held := Lower(pubkeys[a], lower);
    var sender := ThirdKey(held, Norm(pubkeys[b], lower));
    req := Request([a], [], [], pubkeys, Some({held, sender}), []);
    resolved := map[a := pubkeys[b]];
    order := VisitLast(pubkeys, a, s => Lower(s, lower), lower);
    order' := VisitLast(pubkeys, b, s => Norm(s, lower), lower);
    assert HeldFor(req, order, lower, a);
    assert MatchedFor(req, order', resolved, lower, a);
    OneRecipientAccepted(req, order, order', resolved, lower, a);
  }

  /** The tables for which the promise holds whatever else is in the request, whatever the server resolves
      and whatever order each check visits the entries in: those with one key a mailbox. */
  lemma ReadableExactlyWhen(pubkeys: map<string, string>, lower: char -> char, hexOnly: bool)
    ensures (forall req: Request, order, order', resolved ::
               req.pubkeys == pubkeys ==> Promised(req, order, order', resolved, lower, hexOnly))
       <==> OneKeyPerMailbox(pubkeys, lower, hexOnly)
  {
    if OneKeyPerMailbox(pubkeys, lower, hexOnly) {
      forall req: Request, order, order', resolved | req.pubkeys == pubkeys
        ensures Promised(req, order, order', resolved, lower, hexOnly)
      {
        PromisedFor(req, order, order', resolved, lower, hexOnly);
      }
    } else {
      var a, b :| && a in pubkeys && b in pubkeys && Norm(a, lower) == Norm(b, lower)
                  && IsHexKey(Lower(pubkeys[a], lower)) && Resolvable(Norm(pubkeys[b], lower), hexOnly)
                  && Norm(pubkeys[b], lower) != Lower(pubkeys[a], lower);
      var req, order, order', resolved := ClashSplitsTheChecks(pubkeys, lower, hexOnly, a, b);
      assert a in req.to + req.cc && !Readable(req, resolved, lower, a);
      assert !Promised(req, order, order', resolved, lower, hexOnly);
    }
  }

  lemma PromisedFor(req: Request, order: seq<string>, order': seq<string>, resolved: map<string, string>,
                    lower: char -> char, hexOnly: bool)
    requires OneKeyPerMailbox(req.pubkeys, lower, hexOnly)
    ensures Promised(req, order, order', resolved, lower, hexOnly)
  {
    if Visits(order, req.pubkeys) && Visits(order', req.pubkeys) && Resolves(resolved, lower, hexOnly)
       && HexEnvelopes(req) && Accepted(req, order, order', resolved, lower) {
      forall addr | addr in req.to + req.cc ensures Readable(req, resolved, lower, addr) {
        AcceptedIsReadable(req, order, order', resolved, lower, hexOnly, addr);
      }
    }
  }

  lemma TrimNothing(s: string)
    requires forall c <- s :: !IsSpace(c)
    ensures TrimSpace(s) == s
  {
  }

  lemma {:induction false} LowerKeepsSpaces(s: string, lower: char -> char)
    requires forall c :: IsSpace(c) ==> lower(c) == c
    requires forall c <- Lower(s, lower) :: !IsSpace(c)
    ensures forall c <- s :: !IsSpace(c)
  {
    if s != "" {
      assert Lower(s, lower) == [lower(s[0])] + Lower(s[1..], lower);
      assert lower(s[0]) in Lower(s, lower);
      LowerKeepsSpaces(s[1..], lower);
    }
  }

  /** Under a lower-casing that leaves white space alone, as Unicode's does, it is enough that the entries of
      a mailbox carry the same key; so it is if no mailbox has two. */
  lemma EqualKeysSuffice(pubkeys: map<string, string>, lower: char -> char, hexOnly: bool)
    requires (forall c :: IsSpace(c) ==> lower(c) == c) && EqualKeys(pubkeys, lower)
    ensures OneKeyPerMailbox(pubkeys, lower, hexOnly)
  {
    forall a | a in pubkeys && IsHexKey(Lower(pubkeys[a], lower))
      ensures Norm(pubkeys[a], lower) == Lower(pubkeys[a], lower)
    {
      LowerKeepsSpaces(pubkeys[a], lower);
      TrimNothing(pubkeys[a]);
    }
  }

  lemma {:induction false} LowerNothing(s: string, lower: char -> char)
    requires forall c <- s :: lower(c) == c
    ensures Lower(s, lower) == s
  {
    if s != "" {
      LowerNothing(s[1..], lower);
    }
  }

  /** Any two keys of the right shape, one under an address and one under the same address padded, make a
      table that breaks the promise, for any lower-casing that leaves lower-case letters and digits alone. */
  lemma PaddedEntryClashes(lower: char -> char, hexOnly: bool, pk: string, pk': string)
    requires IsHexKey(pk) && IsHexKey(pk') && pk != pk'
    requires forall c :: IsHexDigit(c) ==> lower(c) == c
    ensures !OneKeyPerMailbox(map["b" := pk, " b" := pk'], lower, hexOnly)
  {
    var pubkeys := map["b" := pk, " b" := pk'];
    LowerNothing("b", lower);
    LowerNothing(pk, lower);
    LowerNothing(pk', lower);
    TrimNothing(pk');
    assert TrimSpace(" b") == "b" by {
      assert " b"[1..] == "b";
    }
    assert Norm("b", lower) == Norm(" b", lower) && IsHexKey(Lower(pubkeys["b"], lower));
    assert Norm(pubkeys[" b"], lower) == pk';
  }
}
