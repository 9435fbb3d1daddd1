/** What the canonical bytes depend on, and what the canonical form of a body is, said character by
    character. */
module CanonicalLaws {
  import opened Prelude
  import opened Text
  import opened CanonicalForm

  // -------------------------------------------------------------------- bytes

  lemma PrefixAndRest(a: string, b: string, x: string, y: string)
    requires a + x == b + y && |x| == |y|
    ensures a == b && x == y
  {
    assert |a| == |b|;
    assert (a + x)[..|a|] == a && (b + y)[..|b|] == b;
    assert (a + x)[|a|..] == x && (b + y)[|b|..] == y;
  }

  /** Under one header block two bodies have the same canonical bytes exactly when their canonical forms have
      the same hash. */
  lemma BodyDecides(hash: string -> string, lines: seq<string>, a: string, b: string)
    ensures CanonicalBytes(hash, lines, a) == CanonicalBytes(hash, lines, b)
       <==> hash(CanonicalBody(a)) == hash(CanonicalBody(b))
  {
    var head := Join(lines, '\n') + "\n";
    if CanonicalBytes(hash, lines, a) == CanonicalBytes(hash, lines, b) {
      var x, y := hash(CanonicalBody(a)), hash(CanonicalBody(b));
      assert |head + x| == |head + y|;
      PrefixAndRest(head, head, x, y);
    }
  }

  /** The signed names, written out. */
  lemma NamesToSign(headers: Headers, name: string)
    ensures name in Selected(headers)
       <==> name in headers && (name == "from" || name == "to" || name == "date" || name == "message-id"
                                || name == "subject" || name == "cc" || name == "in-reply-to" || name == "references")
  {
    SelectedMembers(headers, name);
  }

  lemma {:induction false} PresentOf(names: seq<string>, more: seq<string>, headers: Headers)
    ensures Present(names + more, headers) == Present(names, headers) + Present(more, headers)
  {
    if more == [] {
      assert names + more == names;
    } else {
      var n := |more| - 1;
      assert (names + more)[..|names + more| - 1] == names + more[..n];
      PresentOf(names, more[..n], headers);
    }
  }

  lemma {:induction false} PresentDistinct(names: seq<string>, headers: Headers)
    requires Distinct(names)
    ensures Distinct(Present(names, headers))
  {
    if names != [] {
      PresentDistinct(names[..|names| - 1], headers);
      PresentMembers(names[..|names| - 1], headers, names[|names| - 1]);
    }
  }

  /** No two signable names begin with the same letter. */
  lemma FirstLetters(a: string, b: string)
    requires a in DEFAULT_SIGNED + OPTIONAL_SIGNED && b in DEFAULT_SIGNED + OPTIONAL_SIGNED
    ensures a != "" && b != "" && (a[0] == b[0] <==> a == b)
  {
  }

  lemma AllSignable()
    ensures Distinct(DEFAULT_SIGNED + OPTIONAL_SIGNED)
  {
  }

  lemma SelectedOnce(headers: Headers)
    ensures Distinct(Selected(headers)) && SortedNext(Selected(headers))
  {
    var chosen := Present(DEFAULT_SIGNED + OPTIONAL_SIGNED, headers);
    AllSignable();
    PresentOf(DEFAULT_SIGNED, OPTIONAL_SIGNED, headers);
    PresentDistinct(DEFAULT_SIGNED + OPTIONAL_SIGNED, headers);
    SortSorts(chosen);
    DistinctIsOnce(chosen);
    DistinctIsOnce(Selected(headers));
  }

  /** And their order, each once: by their first letter, in which no two agree. */
  lemma OrderToSign(headers: Headers, i: nat, j: nat)
    requires i < j < |Selected(headers)|
    ensures var a, b := Selected(headers)[i], Selected(headers)[j];
            a != "" && b != "" && a[0] < b[0]
  {
    var a, b := Selected(headers)[i], Selected(headers)[j];
    SelectedOnce(headers);
    SortedPair(Selected(headers), i, j);
    SelectedMembers(headers, a);
    SelectedMembers(headers, b);
    FirstLetters(a, b);
  }

  /** A header that is signed under its name as it is, with a value without a carriage return. */
  predicate Plain(lower: string -> string, headers: Headers, name: string) {
    lower(name) == name && name in headers && '\r' !in TrimSpace(headers[name])
  }

  ghost predicate AllPlain(lower: string -> string, headers: Headers, names: seq<string>) {
    forall i :: 0 <= i < |names| ==> Plain(lower, headers, names[i])
  }

  lemma {:induction false} LineAt(lower: string -> string, names: seq<string>, headers: Headers)
    requires AllPlain(lower, headers, names)
    ensures |SignedLines(lower, names, headers)| == |names|
    ensures forall i :: 0 <= i < |names| ==>
              SignedLines(lower, names, headers)[i] == names[i] + ":" + TrimSpace(headers[names[i]])
  {
    if names != [] {
      var n := |names| - 1;
      LineAt(lower, names[..n], headers);
      LineOf(lower, headers, names[n]);
      LineAdded(lower, names, headers);
    }
  }

  lemma LineOf(lower: string -> string, headers: Headers, name: string)
    requires Plain(lower, headers, name)
    ensures HeaderLine(lower(name), headers[name]) == name + ":" + TrimSpace(headers[name])
  {
    NothingToReplace(TrimSpace(headers[name]));
  }

  lemma LineAdded(lower: string -> string, names: seq<string>, headers: Headers)
    requires names != [] && names[|names| - 1] in headers
    ensures var n := |names| - 1;
            SignedLines(lower, names, headers)
            == SignedLines(lower, names[..n], headers) + [HeaderLine(lower(names[n]), headers[names[n]])]
  {
  }

  /** No signed name or value holds a line feed either. */
  ghost predicate OneLineEach(lower: string -> string, headers: Headers, names: seq<string>) {
    AllPlain(lower, headers, names)
    && forall i :: 0 <= i < |names| ==> '\n' !in names[i] && '\n' !in TrimSpace(headers[names[i]])
  }

  lemma LinesAreFree(lower: string -> string, names: seq<string>, headers: Headers)
    requires OneLineEach(lower, headers, names)
    ensures Free(SignedLines(lower, names, headers), '\n')
  {
    LineAt(lower, names, headers);
  }

  /** Under one list of signed names, and hashes of one length, equal bytes mean that every signed header has
      the same value, outer white space apart, and that the bodies have the same hash. */
  lemma HeadersDecide(lower: string -> string, hash: string -> string, names: seq<string>,
                      mine: Headers, theirs: Headers, a: string, b: string)
    requires OneLineEach(lower, mine, names) && OneLineEach(lower, theirs, names)
    requires |hash(CanonicalBody(a))| == |hash(CanonicalBody(b))|
    ensures CanonicalBytes(hash, SignedLines(lower, names, mine), a)
            == CanonicalBytes(hash, SignedLines(lower, names, theirs), b)
       <==> (forall i :: 0 <= i < |names| ==> TrimSpace(mine[names[i]]) == TrimSpace(theirs[names[i]]))
            && hash(CanonicalBody(a)) == hash(CanonicalBody(b))
  {
    var p, q := SignedLines(lower, names, mine), SignedLines(lower, names, theirs);
    LineAt(lower, names, mine);
    LineAt(lower, names, theirs);
    LinesAreFree(lower, names, mine);
    LinesAreFree(lower, names, theirs);
    if CanonicalBytes(hash, p, a) == CanonicalBytes(hash, q, b) {
      PrefixAndRest(Join(p, '\n') + "\n", Join(q, '\n') + "\n", hash(CanonicalBody(a)), hash(CanonicalBody(b)));
      PrefixAndRest(Join(p, '\n'), Join(q, '\n'), "\n", "\n");
      if names != [] {
        SplitJoin(p, '\n');
        SplitJoin(q, '\n');
      }
      forall i | 0 <= i < |names| ensures TrimSpace(mine[names[i]]) == TrimSpace(theirs[names[i]]) {
        var name := names[i];
        var u, v := TrimSpace(mine[name]), TrimSpace(theirs[name]);
        assert name + ":" + u == p[i] == q[i] == name + ":" + v;
        assert |u| == |v|;
        PrefixAndRest(name + ":", name + ":", u, v);
      }
    } else if forall i :: 0 <= i < |names| ==> TrimSpace(mine[names[i]]) == TrimSpace(theirs[names[i]]) {
      assert p == q;
    }
  }

  ghost predicate Trimmed(s: string) {
    s != "" && TrimSpace(s) == s && '\r' !in s
  }

  /** With a line feed in a value that is not so: what follows it can be taken for the next header, and two
      messages with different values have the same bytes. */
  lemma BreakConfuses(lower: string -> string, hash: string -> string, mine: Headers, theirs: Headers, body: string,
                      a: string, b: string, c: string)
    requires lower("from") == "from" && lower("to") == "to" && Trimmed(a) && Trimmed(b) && Trimmed(c)
    requires "from" in mine && "to" in mine && "from" in theirs && "to" in theirs
    requires mine["from"] == a + "\nto:" + b && mine["to"] == c
    requires theirs["from"] == a && theirs["to"] == b + "\nto:" + c
    ensures CanonicalBytes(hash, SignedLines(lower, ["from", "to"], mine), body)
         == CanonicalBytes(hash, SignedLines(lower, ["from", "to"], theirs), body)
    ensures TrimSpace(mine["from"]) != TrimSpace(theirs["from"])
  {
    TrimmedTogether(a, b);
    TrimmedTogether(b, c);
    SameBlock(lower, mine, theirs, a, b, c);
  }

  lemma SameBlock(lower: string -> string, mine: Headers, theirs: Headers, a: string, b: string, c: string)
    requires AllPlain(lower, mine, ["from", "to"]) && "from" in mine && "to" in mine
    requires AllPlain(lower, theirs, ["from", "to"]) && "from" in theirs && "to" in theirs
    requires TrimSpace(mine["from"]) == a + "\nto:" + b && TrimSpace(mine["to"]) == c
    requires TrimSpace(theirs["from"]) == a && TrimSpace(theirs["to"]) == b + "\nto:" + c
    ensures Join(SignedLines(lower, ["from", "to"], mine), '\n')
         == Join(SignedLines(lower, ["from", "to"], theirs), '\n')
  {
    TwoLines(lower, mine);
    TwoLines(lower, theirs);
    SameText("from:", a, "\n", "to:", b, c, "\nto:");
  }

  lemma SameText(from: string, a: string, feed: string, to: string, b: string, c: string, both: string)
    requires both == feed + to
    ensures from + (a + both + b) + feed + (to + c) == from + a + feed + (to + (b + both + c))
  {
  }

  lemma TrimmedTogether(a: string, b: string)
    requires Trimmed(a) && Trimmed(b)
    ensures Trimmed(a + "\nto:" + b)
  {
    var s := a + "\nto:" + b;
    var left, right := TrimSpaceSplits(a);
    left, right := TrimSpaceSplits(b);
    assert s[0] == a[0] && s[|s| - 1] == b[|b| - 1];
    assert TrimLeftSpace(s) == s && TrimRightSpace(s) == s;
  }

  lemma TwoLines(lower: string -> string, headers: Headers)
    requires AllPlain(lower, headers, ["from", "to"]) && "from" in headers && "to" in headers
    ensures var lines := SignedLines(lower, ["from", "to"], headers);
            Join(lines, '\n') == "from:" + TrimSpace(headers["from"]) + "\n" + ("to:" + TrimSpace(headers["to"]))
  {
    var names := ["from", "to"];
    LineAt(lower, names, headers);
    assert names[0] == "from" && names[1] == "to";
    assert "from" + ":" == "from:" && "to" + ":" == "to:";
  }

  // --------------------------------------------------------------------- body

  predicate BlankOrTab(c: char) {
    c == ' ' || c == '\t'
  }

  /** No line ends in a blank or a tab. */
  ghost predicate CleanEnds(s: string) {
    forall i :: 0 <= i < |s| && BlankOrTab(s[i]) ==> i + 1 < |s| && s[i + 1] != '\n'
  }

  /** There is something to see on the last line, if there is a line at all. */
  ghost predicate SeenAtEnd(s: string) {
    s == "" || exists k :: 0 <= k < |s| && !IsSpace(s[k]) && '\n' !in s[k..]
  }

  /** A text without a carriage return, without blanks at the end of a line, and not ending in a blank line. */
  ghost predicate CleanText(s: string) {
    '\r' !in s && CleanEnds(s) && SeenAtEnd(s)
  }

  lemma {:induction false} TrimRightKeeps(s: string)
    ensures TrimRight(s) == s <==> s == "" || !BlankOrTab(s[|s| - 1])
  {
    if s != "" && BlankOrTab(s[|s| - 1]) {
      TrimRightTwice(s[..|s| - 1]);
    }
  }

  lemma {:induction false} JoinSplit(s: string, sep: char)
    ensures Join(Split(s, sep), sep) == s
  {
    if s != "" {
      JoinSplit(s[1..], sep);
      var rest := Split(s[1..], sep);
      if s[0] == sep {
        assert ([""] + rest)[1..] == rest;
      } else {
        assert ([[s[0]] + rest[0]] + rest[1..])[1..] == rest[1..];
      }
    }
  }

  lemma {:induction false} SplitClean(s: string)
    requires CleanEnds(s)
    ensures forall part <- Split(s, '\n') :: part == "" || !BlankOrTab(part[|part| - 1])
    ensures Split(s, '\n')[0] == "" <==> s == "" || s[0] == '\n'
  {
    if s != "" {
      assert CleanEnds(s[1..]) by {
        forall i | 0 <= i < |s[1..]| && BlankOrTab(s[1..][i]) ensures i + 1 < |s[1..]| && s[1..][i + 1] != '\n' {
          assert s[i + 1] == s[1..][i];
        }
      }
      SplitClean(s[1..]);
      var rest := Split(s[1..], '\n');
      if s[0] != '\n' && rest[0] == "" {
        assert !BlankOrTab(s[0]);
      }
    }
  }

  lemma {:induction false} LastPart(s: string, k: nat)
    requires k < |s| && '\n' !in s[k..]
    ensures var parts := Split(s, '\n'); s[k] in parts[|parts| - 1]
  {
    var rest := Split(s[1..], '\n');
    if k > 0 {
      assert s[1..][k - 1..] == s[k..];
      LastPart(s[1..], k - 1);
    } else {
      assert s[k..] == s && s[0] in s;
      assert '\n' !in s[1..];
      SplitWord(s[1..], '\n', "");
      assert rest == [s[1..]];
    }
  }

  /** Such a text is its own canonical form. */
  lemma CleanIsCanonical(s: string)
    requires CleanText(s)
    ensures CanonicalBody(s) == s
  {
    var parts := Split(s, '\n');
    NothingToReplace(s);
    SplitClean(s);
    JoinSplit(s, '\n');
    forall i | 0 <= i < |parts| ensures TrimmedLines(parts)[i] == parts[i] {
      assert parts[i] in parts;
      TrimRightKeeps(parts[i]);
    }
    assert TrimmedLines(parts) == parts;
    if s == "" {
      assert parts == [""] && parts[..0] == [];
    } else {
      var k :| 0 <= k < |s| && !IsSpace(s[k]) && '\n' !in s[k..];
      LastPart(s, k);
      TrimSpaceOfSpace(parts[|parts| - 1]);
    }
  }

  lemma {:induction false} JoinClean(lines: seq<string>)
    requires forall line <- lines :: '\n' !in line && TrimRight(line) == line
    ensures CleanEnds(Join(lines, '\n'))
  {
    if |lines| == 1 {
      TrimRightKeeps(lines[0]);
      assert forall i :: 0 <= i < |lines[0]| ==> lines[0][i] in lines[0];
    } else if lines != [] {
      JoinClean(lines[1..]);
      TrimRightKeeps(lines[0]);
      var first, rest := lines[0], Join(lines[1..], '\n');
      var s := first + ['\n'] + rest;
      forall i | 0 <= i < |s| && BlankOrTab(s[i]) ensures i + 1 < |s| && s[i + 1] != '\n' {
        if i < |first| {
          assert s[i] == first[i] && i + 1 < |first| && s[i + 1] == first[i + 1] && first[i + 1] in first;
        } else {
          assert s[i] == rest[i - |first| - 1];
        }
      }
    }
  }

  lemma {:induction false} LastSeen(lines: seq<string>)
    requires lines != [] && (forall line <- lines :: '\n' !in line) && !Blank(lines[|lines| - 1])
    ensures SeenAtEnd(Join(lines, '\n'))
  {
    if |lines| == 1 {
      var line := lines[0];
      TrimSpaceOfSpace(line);
      assert line in lines;
      var k :| 0 <= k < |line| && !IsSpace(line[k]);
      assert forall c <- line[k..] :: c in line;
    } else {
      LastSeen(lines[1..]);
      var rest := Join(lines[1..], '\n');
      var s, n := lines[0] + ['\n'] + rest, |lines[0]| + 1;
      assert s == Join(lines, '\n');
      if rest == "" {
        EmptyJoin(lines[1..]);
        TrimSpaceOfSpace(lines[|lines| - 1]);
      } else {
        var k :| 0 <= k < |rest| && !IsSpace(rest[k]) && '\n' !in rest[k..];
        assert s[n + k] == rest[k] && s[n + k..] == rest[k..];
      }
    }
  }

  lemma {:induction false} EmptyJoin(lines: seq<string>)
    requires lines != []
    ensures Join(lines, '\n') == "" <==> lines == [""]
  {
    if |lines| > 1 {
      assert |Join(lines, '\n')| > 0;
    }
  }

  /** And every canonical form is such a text. */
  lemma CanonicalIsClean(body: string)
    ensures CleanText(CanonicalBody(body))
  {
    BodyLinesCanonical(body);
    var lines := BodyLines(body);
    JoinLacks(lines, '\n', '\r');
    JoinClean(lines);
    if lines != [] {
      LastSeen(lines);
    }
  }

  // ------------------------------------------------------- what makes no difference

  predicate EndsInCR(s: string) {
    s != "" && s[|s| - 1] == '\r'
  }

  lemma {:induction false} ReplaceCRLFOver(x: string, y: string, s: string)
    requires s == x + y && !(EndsInCR(x) && y != "" && y[0] == '\n')
    ensures ReplaceCRLF(s) == ReplaceCRLF(x) + ReplaceCRLF(y)
  {
    if x == "" {
      assert s == y;
    } else if |x| >= 2 && x[0] == '\r' && x[1] == '\n' {
      ReplaceCRLFOver(x[2..], y, s[2..]);
      Glued("\n", ReplaceCRLF(x[2..]), ReplaceCRLF(y));
    } else {
      ReplaceCRLFOver(x[1..], y, s[1..]);
      Glued([x[0]], ReplaceCRLF(x[1..]), ReplaceCRLF(y));
    }
  }

  lemma Glued(a: string, b: string, c: string)
    ensures a + (b + c) == a + b + c
  {
  }

  lemma {:induction false} ReplaceCROver(x: string, y: string)
    ensures ReplaceCR(x + y) == ReplaceCR(x) + ReplaceCR(y)
  {
    if x == "" {
      assert x + y == y;
    } else {
      assert (x + y)[1..] == x[1..] + y;
      ReplaceCROver(x[1..], y);
    }
  }

  lemma NormalizedOver(x: string, y: string)
    requires !(EndsInCR(x) && y != "" && y[0] == '\n')
    ensures Normalized(x + y) == Normalized(x) + Normalized(y)
  {
    ReplaceCRLFOver(x, y, x + y);
    ReplaceCROver(ReplaceCRLF(x), ReplaceCRLF(y));
  }

  lemma BreakNormalized(y: string)
    ensures Normalized("\n" + y) == "\n" + Normalized(y)
    ensures Normalized("\r\n" + y) == "\n" + Normalized(y)
    ensures (y == "" || y[0] != '\n') ==> Normalized("\r" + y) == "\n" + Normalized(y)
  {
    assert ("\n" + y)[1..] == y && ("\r\n" + y)[2..] == y && ("\r" + y)[1..] == y;
    var r := ReplaceCRLF(y);
    assert ("\n" + r)[1..] == r && ("\r" + r)[1..] == r;
    assert ReplaceCRLF("\n" + y) == "\n" + r && ReplaceCRLF("\r\n" + y) == "\n" + r;
    if y == "" || y[0] != '\n' {
      assert ReplaceCRLF("\r" + y) == "\r" + r;
    }
  }

  /** A line break is one, however it is written. */
  lemma BreaksAlike(x: string, y: string)
    requires !EndsInCR(x)
    ensures CanonicalBody(x + "\r\n" + y) == CanonicalBody(x + "\n" + y)
    ensures (y == "" || y[0] != '\n') ==> CanonicalBody(x + "\r" + y) == CanonicalBody(x + "\n" + y)
  {
    BreakNormalized(y);
    WrittenAs(x, "\n", y);
    WrittenAs(x, "\r\n", y);
    if y == "" || y[0] != '\n' {
      WrittenAs(x, "\r", y);
    }
  }

  lemma WrittenAs(x: string, sep: string, y: string)
    requires !EndsInCR(x) && sep != ""
    ensures Normalized(x + sep + y) == Normalized(x) + Normalized(sep + y)
  {
    NormalizedOver(x, sep + y);
    assert x + sep + y == x + (sep + y);
  }

  lemma {:induction false} SplitOver(a: string, b: string, s: string)
    requires s == a + "\n" + b
    ensures Split(s, '\n') == Split(a, '\n') + Split(b, '\n')
  {
    if a == "" {
      assert s[1..] == b;
    } else {
      assert s[1..] == a[1..] + "\n" + b;
      SplitOver(a[1..], b, s[1..]);
    }
  }

  lemma {:induction false} SplitSnoc(a: string, c: char, s: string)
    requires s == a + [c] && c != '\n'
    ensures var parts, n := Split(a, '\n'), |Split(a, '\n')| - 1;
            Split(s, '\n') == parts[..n] + [parts[n] + [c]]
  {
    if a == "" {
      assert s == [c];
      SplitWord([c], '\n', "");
    } else {
      SplitSnoc(a[1..], c, s[1..]);
      SplitFront(a[0], Split(a[1..], '\n'), c);
    }
  }

  /** Splitting from the front and adding at the end do not get in each other's way. */
  lemma SplitFront(first: char, rest: seq<string>, c: char)
    requires rest != []
    ensures var m := |rest| - 1;
            var more := rest[..m] + [rest[m] + [c]];
            var split, split' := [[first] + rest[0]] + rest[1..], [[first] + more[0]] + more[1..];
            && split' == split[..m] + [split[m] + [c]]
            && [""] + more == ([""] + rest)[..m + 1] + [rest[m] + [c]]
  {
    var m := |rest| - 1;
    if m == 0 {
      assert [first] + (rest[0] + [c]) == [first] + rest[0] + [c];
    }
  }

  lemma TrimmedOver(p: seq<string>, q: seq<string>)
    ensures TrimmedLines(p + q) == TrimmedLines(p) + TrimmedLines(q)
  {
  }

  /** A blank or a tab more at the end of the last line. */
  lemma TrimmedSnoc(a: string, c: char)
    requires BlankOrTab(c)
    ensures TrimmedLines(Split(a + [c], '\n')) == TrimmedLines(Split(a, '\n'))
  {
    SplitSnoc(a, c, a + [c]);
    var parts, n := Split(a, '\n'), |Split(a, '\n')| - 1;
    TrimmedLast(parts[..n], parts[n], c);
    assert parts == parts[..n] + [parts[n]];
  }

  lemma TrimmedLast(front: seq<string>, last: string, c: char)
    requires BlankOrTab(c)
    ensures TrimmedLines(front + [last + [c]]) == TrimmedLines(front + [last])
  {
    assert (last + [c])[..|last|] == last;
    assert TrimRight(last + [c]) == TrimRight(last);
  }

  lemma BlankNormalized(x: string, c: char)
    requires BlankOrTab(c)
    ensures Normalized(x + [c]) == Normalized(x) + [c]
  {
    NormalizedOver(x, [c]);
    NothingToReplace([c]);
  }

  lemma BreakOver(x: string, y: string)
    requires !EndsInCR(x)
    ensures Normalized(x + "\n" + y) == Normalized(x) + "\n" + Normalized(y)
    ensures TrimmedLines(Split(Normalized(x + "\n" + y), '\n'))
            == TrimmedLines(Split(Normalized(x), '\n')) + TrimmedLines(Split(Normalized(y), '\n'))
  {
    var a, b := Normalized(x), Normalized(y);
    BreakNormalized(y);
    NormalizedOver(x, "\n" + y);
    assert x + "\n" + y == x + ("\n" + y) && a + "\n" + b == a + ("\n" + b);
    SplitOver(a, b, a + "\n" + b);
    TrimmedOver(Split(a, '\n'), Split(b, '\n'));
  }

  /** Blanks and tabs at the end of a line make no difference. */
  lemma BlanksIgnored(x: string, c: char, y: string)
    requires BlankOrTab(c) && !EndsInCR(x)
    ensures CanonicalBody(x + [c] + "\n" + y) == CanonicalBody(x + "\n" + y)
    ensures CanonicalBody(x + [c]) == CanonicalBody(x)
  {
    BlankNormalized(x, c);
    TrimmedSnoc(Normalized(x), c);
    BreakOver(x, y);
    BreakOver(x + [c], y);
  }

  /** Nor does a blank line at the end. */
  lemma BlankLineIgnored(x: string, line: string)
    requires !EndsInCR(x) && forall c <- line :: IsSpace(c) && c != '\n' && c != '\r'
    ensures CanonicalBody(x + "\n" + line) == CanonicalBody(x)
  {
    assert '\r' !in line && '\n' !in line;
    NothingToReplace(line);
    BreakOver(x, line);
    SplitWord(line, '\n', "");
    var trimmed := TrimmedLines(Split(Normalized(x), '\n'));
    assert TrimmedLines([line]) == [TrimRight(line)];
    TrimRightTwice(line);
    forall c | c in TrimRight(line) ensures IsSpace(c) {
      assert c in line;
    }
    TrimSpaceOfSpace(TrimRight(line));
    assert (trimmed + [TrimRight(line)])[..|trimmed|] == trimmed;
  }
}
