/** The canonical form of a message: what the signer hashes and what the verifier rebuilds. */
module CanonicalForm {
  import opened Prelude
  import opened Text

  // ---------------------------------------------------------------------- body

  function TrimmedLines(lines: seq<string>): (trimmed: seq<string>)
    ensures |trimmed| == |lines|
  {
    seq(|lines|, i requires 0 <= i < |lines| => TrimRight(lines[i]))
  }

  predicate Blank(line: string) {
    TrimSpace(line) == ""
  }

  function WithoutBlankTail(lines: seq<string>): seq<string> {
    if lines != [] && Blank(lines[|lines| - 1]) then WithoutBlankTail(lines[..|lines| - 1]) else lines
  }

  /** The lines of a body, right-trimmed, with the blank ones at the end left out. */
  function BodyLines(body: string): seq<string> {
    WithoutBlankTail(TrimmedLines(Split(Normalized(body), '\n')))
  }

  function CanonicalBody(body: string): string {
    Join(BodyLines(body), '\n')
  }

  method CanonicalizeBody(body: string) returns (canonical: string)
    ensures canonical == CanonicalBody(body)
  {
    var text := ReplaceCRLF(body);
    text := ReplaceCR(text);
    var parts := Split(text, '\n');
    var lines := new string[|parts|](i requires 0 <= i < |parts| => parts[i]);
    var n := lines.Length;
    for i := 0 to n
      invariant forall j :: 0 <= j < n ==> lines[j] == if j < i then TrimRight(parts[j]) else parts[j]
    {
      lines[i] := TrimRight(lines[i]);
    }
    ghost var trimmed := TrimmedLines(parts);
    assert lines[..n] == trimmed;
    while n > 0 && TrimSpace(lines[n - 1]) == ""
      invariant 0 <= n <= lines.Length
      invariant WithoutBlankTail(lines[..n]) == WithoutBlankTail(trimmed)
    {
      assert lines[..n][..n - 1] == lines[..n - 1];
      n := n - 1;
    }
    canonical := Join(lines[..n], '\n');
  }

  // ------------------------------------------------------- what the form keeps

  lemma {:induction false} TailFacts(lines: seq<string>)
    ensures WithoutBlankTail(lines) <= lines
    ensures WithoutBlankTail(lines) != [] ==> !Blank(WithoutBlankTail(lines)[|WithoutBlankTail(lines)| - 1])
    ensures WithoutBlankTail(WithoutBlankTail(lines)) == WithoutBlankTail(lines)
  {
    if lines != [] && Blank(lines[|lines| - 1]) {
      TailFacts(lines[..|lines| - 1]);
    }
  }

  /** Canonical lines hold no line break, are right-trimmed, and do not end in a blank one. */
  ghost predicate Canonical(lines: seq<string>) {
    && (forall line <- lines :: '\n' !in line && '\r' !in line && TrimRight(line) == line)
    && (lines != [] ==> !Blank(lines[|lines| - 1]))
  }

  lemma BodyLinesCanonical(body: string)
    ensures Canonical(BodyLines(body))
  {
    var parts := Split(Normalized(body), '\n');
    NoCRLeft(ReplaceCRLF(body));
    SplitLacks(Normalized(body), '\n', '\r');
    SplitIsFree(Normalized(body), '\n');
    TailFacts(TrimmedLines(parts));
    forall line | line in BodyLines(body)
      ensures '\n' !in line && '\r' !in line && TrimRight(line) == line
    {
      var i :| 0 <= i < |parts| && TrimmedLines(parts)[i] == line;
      TrimRightTwice(parts[i]);
      assert parts[i] in parts;
    }
  }

  /** Reading the lines of a canonical text gives them back. */
  lemma LinesOfCanonical(lines: seq<string>)
    requires Canonical(lines)
    ensures BodyLines(Join(lines, '\n')) == lines
  {
    JoinLacks(lines, '\n', '\r');
    NothingToReplace(Join(lines, '\n'));
    if lines == [] {
      assert TrimmedLines([""]) == [""];
      assert [""][..0] == [];
    } else {
      SplitJoin(lines, '\n');
      assert TrimmedLines(lines) == lines by {
        forall i | 0 <= i < |lines| ensures TrimmedLines(lines)[i] == lines[i] {
          assert lines[i] in lines;
        }
      }
    }
  }

  lemma CanonicalBodyTwice(body: string)
    ensures CanonicalBody(CanonicalBody(body)) == CanonicalBody(body)
  {
    BodyLinesCanonical(body);
    LinesOfCanonical(BodyLines(body));
  }

  /** Two bodies have one canonical form exactly when they have the same canonical lines. */
  lemma SameFormSameLines(a: string, b: string)
    ensures CanonicalBody(a) == CanonicalBody(b) <==> BodyLines(a) == BodyLines(b)
  {
    BodyLinesCanonical(a);
    BodyLinesCanonical(b);
    LinesOfCanonical(BodyLines(a));
    LinesOfCanonical(BodyLines(b));
  }

  // ------------------------------------------------------------------- headers

  type Headers = map<string, string>

  const DEFAULT_SIGNED := ["from", "to", "date", "message-id", "subject"]
  const OPTIONAL_SIGNED := ["cc", "in-reply-to", "references"]

  function Present(names: seq<string>, headers: Headers): seq<string> {
    if names == [] then []
    else
      var n := |names| - 1;
      Present(names[..n], headers) + if names[n] in headers then [names[n]] else []
  }

  function Selected(headers: Headers): seq<string> {
    Sort(Present(DEFAULT_SIGNED, headers) + Present(OPTIONAL_SIGNED, headers))
  }

  function HeaderLine(name: string, value: string): string {
    name + ":" + Normalized(TrimSpace(value))
  }

  /** The signer's header lines: each name is looked up as it is and written as `lower` has it. */
  function SignedLines(lower: string -> string, names: seq<string>, headers: Headers): seq<string> {
    if names == [] then []
    else
      var n := |names| - 1;
      SignedLines(lower, names[..n], headers)
      + if names[n] in headers then [HeaderLine(lower(names[n]), headers[names[n]])] else []
  }

  /** The verifier's header lines: each name is looked up, too, as `lower` has it. */
  function RebuiltLines(lower: string -> string, names: seq<string>, headers: Headers): seq<string> {
    if names == [] then []
    else
      var n := |names| - 1;
      RebuiltLines(lower, names[..n], headers)
      + if lower(names[n]) in headers then [HeaderLine(lower(names[n]), headers[lower(names[n])])] else []
  }

  /** The canonical bytes: the header block, a line feed, and the hash of the canonical body. */
  function CanonicalBytes(hash: string -> string, lines: seq<string>, body: string): string {
    Join(lines, '\n') + "\n" + hash(CanonicalBody(body))
  }

  /** A header map with its keys lower-cased, filled in this order: of keys that fall together the last
      one walked is kept. */
  function LoweredBy(lower: string -> string, order: seq<string>, headers: Headers): Headers
    requires forall k <- order :: k in headers
  {
    if order == [] then map[]
    else
      var k := order[|order| - 1];
      LoweredBy(lower, order[..|order| - 1], headers)[lower(k) := headers[k]]
  }

  /** A range over a map walks each key once, in an order nobody chooses. */
  ghost predicate Walks(order: seq<string>, headers: Headers) {
    Distinct(order) && forall k :: k in order <==> k in headers
  }

  /** What signer, verifier and transport share; `hash` stands for SHA-256. */
  class Canonicalizer {
    const lower: string -> string
    const hash: string -> string

    constructor (lower: string -> string, hash: string -> string)
      ensures this.lower == lower && this.hash == hash
    {
      this.lower := lower;
      this.hash := hash;
    }

    method AppendPresent(list: seq<string>, names: seq<string>, headers: Headers) returns (out: seq<string>)
      ensures out == list + Present(names, headers)
    {
      out := list;
      for i := 0 to |names|
        invariant out == list + Present(names[..i], headers)
      {
        assert names[..i + 1][..i] == names[..i];
        if names[i] in headers {
          out := out + [names[i]];
        }
      }
      assert names[..|names|] == names;
    }

    method SelectHeadersToSign(headers: Headers) returns (names: seq<string>)
      ensures names == Selected(headers)
    {
      names := AppendPresent([], DEFAULT_SIGNED, headers);
      assert names == Present(DEFAULT_SIGNED, headers);
      names := AppendPresent(names, OPTIONAL_SIGNED, headers);
      names := Sort(names);
    }

    method LinesToSign(names: seq<string>, headers: Headers) returns (parts: seq<string>)
      ensures parts == SignedLines(lower, names, headers)
    {
      parts := [];
      for i := 0 to |names|
        invariant parts == SignedLines(lower, names[..i], headers)
      {
        assert names[..i + 1][..i] == names[..i];
        if names[i] in headers {
          var value := TrimSpace(headers[names[i]]);
          value := ReplaceCRLF(value);
          value := ReplaceCR(value);
          parts := parts + [lower(names[i]) + ":" + value];
        }
      }
      assert names[..|names|] == names;
    }

    method LinesToVerify(names: seq<string>, headers: Headers) returns (parts: seq<string>)
      ensures parts == RebuiltLines(lower, names, headers)
    {
      parts := [];
      for i := 0 to |names|
        invariant parts == RebuiltLines(lower, names[..i], headers)
      {
        assert names[..i + 1][..i] == names[..i];
        var name := lower(names[i]);
        if name in headers {
          var value := TrimSpace(headers[name]);
          value := ReplaceCRLF(value);
          value := ReplaceCR(value);
          parts := parts + [name + ":" + value];
        }
      }
      assert names[..|names|] == names;
    }

    /** The signer: the canonical bytes and the signed-headers field. */
    method Sign(headers: Headers, body: string) returns (bytes: string, signedHeaders: string)
      ensures bytes == CanonicalBytes(hash, SignedLines(lower, Sort(Selected(headers)), headers), body)
      ensures signedHeaders == Join(Selected(headers), ';')
    {
      var names := SelectHeadersToSign(headers);
      var lines := LinesToSign(Sort(names), headers);
      var canonical := CanonicalizeBody(body);
      bytes := Join(lines, '\n') + "\n" + hash(canonical);
      signedHeaders := Join(names, ';');
    }

    method LowerKeys(headers: Headers, order: seq<string>) returns (lowered: Headers)
      requires forall k <- order :: k in headers
      ensures lowered == LoweredBy(lower, order, headers)
    {
      lowered := map[];
      for i := 0 to |order|
        invariant lowered == LoweredBy(lower, order[..i], headers)
      {
        assert order[..i + 1][..i] == order[..i];
        lowered := lowered[lower(order[i]) := headers[order[i]]];
      }
      assert order[..|order|] == order;
    }

    /** The verifier, from the signed-headers field and the headers it received, walked in this order; None
        when the field is empty. */
    method Rebuild(signedHeaders: string, headers: Headers, order: seq<string>, body: string)
      returns (bytes: Option<string>)
      requires forall k <- order :: k in headers
      ensures bytes == if signedHeaders == "" then None
                       else Some(CanonicalBytes(hash, RebuiltLines(lower, Sort(Split(signedHeaders, ';')),
                                                                   LoweredBy(lower, order, headers)), body))
    {
      if signedHeaders == "" {
        return None;
      }
      var names := Split(signedHeaders, ';');
      var lowered := LowerKeys(headers, order);
      var lines := LinesToVerify(Sort(names), lowered);
      var canonical := CanonicalizeBody(body);
      bytes := Some(Join(lines, '\n') + "\n" + hash(canonical));
    }

    /** The transport's own signer, which sorts the names once. */
    method SignEmail(headers: Headers, body: string) returns (bytes: string, signedHeaders: string)
      ensures bytes == CanonicalBytes(hash, SignedLines(lower, Selected(headers), headers), body)
      ensures signedHeaders == Join(Selected(headers), ';')
    {
      var names := SelectHeadersToSign(headers);
      var lines := LinesToSign(names, headers);
      var canonical := CanonicalizeBody(body);
      bytes := Join(lines, '\n') + "\n" + hash(canonical);
      signedHeaders := Join(names, ';');
    }
  }

  // ------------------------------------------------------------- they all agree

  lemma {:induction false} PresentMembers(names: seq<string>, headers: Headers, name: string)
    ensures name in Present(names, headers) <==> name in names && name in headers
  {
    if names != [] {
      PresentMembers(names[..|names| - 1], headers, name);
      assert names == names[..|names| - 1] + [names[|names| - 1]];
    }
  }

  lemma SelectedMembers(headers: Headers, name: string)
    ensures name in Selected(headers) <==> name in DEFAULT_SIGNED + OPTIONAL_SIGNED && name in headers
  {
    PresentMembers(DEFAULT_SIGNED, headers, name);
    PresentMembers(OPTIONAL_SIGNED, headers, name);
    SortMembers(Present(DEFAULT_SIGNED, headers) + Present(OPTIONAL_SIGNED, headers), name);
  }

  lemma SignedNamesAreNonempty(name: string)
    requires name in DEFAULT_SIGNED + OPTIONAL_SIGNED
    ensures name != "" && ';' !in name
  {
  }

  lemma {:induction false} SameLines(lower: string -> string, names: seq<string>, mine: Headers, theirs: Headers)
    requires forall name <- names :: lower(name) == name && name in mine && name in theirs
               && TrimSpace(mine[name]) == TrimSpace(theirs[name])
    ensures SignedLines(lower, names, mine) == RebuiltLines(lower, names, theirs)
  {
    if names != [] {
      SameLines(lower, names[..|names| - 1], mine, theirs);
    }
  }

  lemma {:induction false} LoweredFrom(lower: string -> string, order: seq<string>, headers: Headers, name: string)
    requires forall k <- order :: k in headers
    ensures name in LoweredBy(lower, order, headers) <==> exists k :: k in order && lower(k) == name
    ensures name in LoweredBy(lower, order, headers) ==>
              exists k :: k in order && lower(k) == name && headers[k] == LoweredBy(lower, order, headers)[name]
  {
    if order != [] {
      var n := |order| - 1;
      LoweredFrom(lower, order[..n], headers, name);
      assert order == order[..n] + [order[n]];
    }
  }

  /** Every signed header was received, under one spelling or several, each with the signed value up to
      outer white space. */
  ghost predicate Delivered(lower: string -> string, headers: Headers, received: Headers) {
    forall name <- Selected(headers) ::
      && name in headers
      && (exists k :: k in received && lower(k) == name)
      && forall k <- received :: lower(k) == name ==> TrimSpace(received[k]) == TrimSpace(headers[name])
  }

  lemma DeliveredAnyhow(lower: string -> string, headers: Headers, received: Headers, order: seq<string>, name: string)
    requires Walks(order, received) && Delivered(lower, headers, received) && name in Selected(headers)
    ensures var lowered := LoweredBy(lower, order, received);
            name in lowered && TrimSpace(lowered[name]) == TrimSpace(headers[name])
  {
    LoweredFrom(lower, order, received, name);
    var k :| k in received && lower(k) == name;
    assert k in order;
  }

  /** Signer and verifier compute the same bytes for every message with a signable header, whatever else
      was added to it, however header names are spelled and in whatever order the verifier walks them, as
      long as the signed values agree after trimming and the bodies have the same canonical lines. Without a
      signable header the verifier has nothing to rebuild. */
  lemma VerifierRebuilds(lower: string -> string, hash: string -> string, headers: Headers, body: string,
                         received: Headers, order: seq<string>, receivedBody: string)
    requires forall name <- DEFAULT_SIGNED + OPTIONAL_SIGNED :: lower(name) == name
    requires Walks(order, received) && Delivered(lower, headers, received) && BodyLines(body) == BodyLines(receivedBody)
    ensures Join(Selected(headers), ';') == "" <==> forall name <- DEFAULT_SIGNED + OPTIONAL_SIGNED :: name !in headers
    ensures Selected(headers) != [] ==>
              CanonicalBytes(hash, RebuiltLines(lower, Sort(Split(Join(Selected(headers), ';'), ';')),
                                                LoweredBy(lower, order, received)), receivedBody)
              == CanonicalBytes(hash, SignedLines(lower, Sort(Selected(headers)), headers), body)
  {
    var names := Selected(headers);
    forall name | name in names
      ensures name in DEFAULT_SIGNED + OPTIONAL_SIGNED && name in headers && name != "" && ';' !in name
    {
      SelectedMembers(headers, name);
      SignedNamesAreNonempty(name);
    }
    if names == [] {
      forall name | name in DEFAULT_SIGNED + OPTIONAL_SIGNED ensures name !in headers {
        SelectedMembers(headers, name);
      }
    } else {
      assert names[0] in names;
      SplitJoin(names, ';');
      SortTwice(Present(DEFAULT_SIGNED, headers) + Present(OPTIONAL_SIGNED, headers));
      var lowered := LoweredBy(lower, order, received);
      forall name | name in names
        ensures name in lowered && TrimSpace(lowered[name]) == TrimSpace(headers[name])
      {
        DeliveredAnyhow(lower, headers, received, order, name);
      }
      SameLines(lower, names, headers, lowered);
    }
  }

  /** The transport's copy, which does not sort a second time, signs the same bytes. */
  lemma TransportAgrees(lower: string -> string, hash: string -> string, headers: Headers, body: string)
    ensures CanonicalBytes(hash, SignedLines(lower, Selected(headers), headers), body)
            == CanonicalBytes(hash, SignedLines(lower, Sort(Selected(headers)), headers), body)
  {
    SortTwice(Present(DEFAULT_SIGNED, headers) + Present(OPTIONAL_SIGNED, headers));
  }
}
