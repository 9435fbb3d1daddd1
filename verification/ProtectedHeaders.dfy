/** The subject of an end-to-end message travels inside the encrypted body, in a header block that a
    marker line opens and a blank line closes. */
module ProtectedHeaders {
  import opened Prelude
  import opened Text

  const MEDIA_TYPE := "Content-Type: text/plain; "
  const CHARSET := "charset=\"utf-8\"; "
  const VERSION := "protected-headers=\"v1\""
  const MARKER := MEDIA_TYPE + CHARSET + VERSION
  const SUBJECT := "Subject:"

  predicate IsBreak(c: char) {
    c == '\r' || c == '\n'
  }

  /** The characters that a dot in a JavaScript pattern does not match. */
  predicate EndsLine(c: char) {
    IsBreak(c) || c == '\U{2028}' || c == '\U{2029}'
  }

  function Unbroken(s: string): (rest: string)
    ensures |rest| <= |s|
  {
    if s != "" && IsBreak(s[0]) then Unbroken(s[1..]) else s
  }

  /** Each run of line breaks as one space. */
  function Folded(s: string): string
    decreases |s|
  {
    if s == "" then ""
    else if IsBreak(s[0]) then " " + Folded(Unbroken(s[1..]))
    else [s[0]] + Folded(s[1..])
  }

  function Wrap(subject: string, body: string): string {
    MARKER + "\r\nSubject: " + Folded(subject) + "\r\n\r\n" + body
  }

  function Lower(c: char): char {
    if 'A' <= c <= 'Z' then (c - 'A') + 'a' else c
  }

  predicate SameLetters(s: string, t: string) {
    |s| == |t| && forall i :: 0 <= i < |s| ==> Lower(s[i]) == Lower(t[i])
  }

  /** What the pattern captures: the field name in any case, at most one space, then the value up to the
      end of the line; no match when the value holds a line terminator. */
  function SubjectIn(line: string): Option<string> {
    if |line| < |SUBJECT| || !SameLetters(line[..|SUBJECT|], SUBJECT) then None
    else
      var rest := line[|SUBJECT|..];
      var value := if rest != "" && rest[0] == ' ' then rest[1..] else rest;
      if exists c :: c in value && EndsLine(c) then None else Some(value)
  }

  /** The position of the first empty line's two line feeds, or None. */
  function BlankLine(s: string): (end: Option<nat>)
    ensures end.Some? ==> end.value + 2 <= |s|
  {
    if |s| < 2 then None
    else if s[0] == '\n' && s[1] == '\n' then Some(0)
    else
      match BlankLine(s[1..])
      case Some(n) => Some(n + 1)
      case None => None
  }

  function LastSubject(lines: seq<string>): Option<string> {
    if lines == [] then None
    else
      var n := |lines| - 1;
      if SubjectIn(lines[n]).Some? then SubjectIn(lines[n]) else LastSubject(lines[..n])
  }

  datatype Parsed = Parsed(subject: Option<string>, body: string)

  function HeaderLines(block: string): seq<string> {
    Split(block, '\n')[1..]
  }

  /** Parsing, for any marker line. */
  function ParseAfter(marker: string, plaintext: string): Parsed {
    var normalized := ReplaceCRLF(plaintext);
    if !(marker + "\n" <= normalized) then Parsed(None, plaintext)
    else
      match BlankLine(normalized)
      case Some(end) => Parsed(LastSubject(HeaderLines(normalized[..end])), normalized[end + 2..])
      case None => Parsed(LastSubject(HeaderLines(normalized)), "")
  }

  function Parse(plaintext: string): Parsed {
    ParseAfter(MARKER, plaintext)
  }

  method ParseProtectedHeaders(plaintext: string) returns (result: Parsed)
    ensures result == Parse(plaintext)
  {
    var normalized := ReplaceCRLF(plaintext);
    if !(MARKER + "\n" <= normalized) {
      return Parsed(None, plaintext);
    }
    var end := BlankLine(normalized);
    var headerBlock := if end.None? then normalized else normalized[..end.value];
    var body := if end.None? then "" else normalized[end.value + 2..];
    var subject: Option<string> := None;
    var lines := HeaderLines(headerBlock);
    for i := 0 to |lines|
      invariant subject == LastSubject(lines[..i])
    {
      assert lines[..i + 1][..i] == lines[..i];
      var m := SubjectIn(lines[i]);
      if m.Some? {
        subject := m;
      }
    }
    assert lines[..|lines|] == lines;
    result := Parsed(subject, body);
  }

  /** The last header line that gives a subject wins, and without such a line there is none. */
  lemma {:induction false} LastWins(lines: seq<string>)
    ensures LastSubject(lines).None? <==> forall line <- lines :: SubjectIn(line).None?
    ensures LastSubject(lines).Some? ==>
              exists i :: && 0 <= i < |lines| && SubjectIn(lines[i]) == LastSubject(lines)
                          && forall j :: i < j < |lines| ==> SubjectIn(lines[j]).None?
  {
    if lines != [] {
      var n := |lines| - 1;
      LastWins(lines[..n]);
      if SubjectIn(lines[n]).None? && LastSubject(lines).Some? {
        var i :| && 0 <= i < n && SubjectIn(lines[i]) == LastSubject(lines)
                 && forall j :: i < j < n ==> SubjectIn(lines[..n][j]).None?;
        forall j | i < j < |lines| ensures SubjectIn(lines[j]).None? {
          if j < n {
            assert lines[..n][j] == lines[j];
          }
        }
      }
    }
  }

  // -------------------------------------------------------------------- folding

  lemma {:induction false} FoldNothing(s: string)
    requires forall c <- s :: !IsBreak(c)
    ensures Folded(s) == s
  {
    if s != "" {
      FoldNothing(s[1..]);
    }
  }

  /** What folding means: text free of breaks stays, and a run of breaks between two texts becomes one
      space. */
  lemma {:induction false} FoldRun(before: string, run: string, after: string)
    requires forall c <- before :: !IsBreak(c)
    requires run != "" && forall c <- run :: IsBreak(c)
    requires after != "" ==> !IsBreak(after[0])
    ensures Folded(before + run + after) == before + " " + Folded(after)
  {
    var s := before + run + after;
    if before == "" {
      SkipRun(run[1..], after);
      assert s[1..] == run[1..] + after;
    } else {
      FoldRun(before[1..], run, after);
      assert s[1..] == before[1..] + run + after;
      assert before + " " + Folded(after) == [before[0]] + (before[1..] + " " + Folded(after));
    }
  }

  lemma {:induction false} SkipRun(run: string, after: string)
    requires forall c <- run :: IsBreak(c)
    requires after != "" ==> !IsBreak(after[0])
    ensures Unbroken(run + after) == after
  {
    if run == "" {
      assert run + after == after;
    } else {
      assert (run + after)[1..] == run[1..] + after;
      SkipRun(run[1..], after);
    }
  }

  lemma {:induction false} KeepsOthers(s: string, c: char)
    requires !IsBreak(c)
    ensures c in Unbroken(s) <==> c in s
  {
    if s != "" && IsBreak(s[0]) {
      KeepsOthers(s[1..], c);
      assert s == [s[0]] + s[1..];
    }
  }

  lemma {:induction false} FoldedHasNoBreak(s: string)
    ensures forall c <- Folded(s) :: !IsBreak(c)
    decreases |s|
  {
    if s != "" {
      FoldedHasNoBreak(if IsBreak(s[0]) then Unbroken(s[1..]) else s[1..]);
    }
  }

  /** Folding touches nothing but breaks and spaces. */
  lemma {:induction false} FoldedKeeps(s: string, c: char)
    requires !IsBreak(c) && c != ' '
    ensures c in Folded(s) <==> c in s
    decreases |s|
  {
    if s != "" {
      assert s == [s[0]] + s[1..];
      if IsBreak(s[0]) {
        FoldedKeeps(Unbroken(s[1..]), c);
        KeepsOthers(s[1..], c);
      } else {
        FoldedKeeps(s[1..], c);
      }
    }
  }

  // ----------------------------------------------------------------- round trip

  lemma {:induction false} NormalizePast(line: string, rest: string)
    requires '\r' !in line
    ensures ReplaceCRLF(line + "\r\n" + rest) == line + "\n" + ReplaceCRLF(rest)
  {
    var s := line + "\r\n" + rest;
    if line == "" {
      assert s[2..] == rest;
    } else {
      assert s[1..] == line[1..] + "\r\n" + rest;
      NormalizePast(line[1..], rest);
      assert line == [line[0]] + line[1..];
    }
  }

  lemma {:induction false} FirstBlank(s: string, n: nat)
    requires n + 2 <= |s| && s[n] == '\n' && s[n + 1] == '\n'
    requires forall k :: 0 <= k < n ==> s[k] != '\n' || s[k + 1] != '\n'
    ensures BlankLine(s) == Some(n)
  {
    if n > 0 {
      FirstBlank(s[1..], n - 1);
    }
  }

  lemma MarkerIsOneLine()
    ensures forall c <- MARKER :: !IsBreak(c)
  {
    assert forall c <- MEDIA_TYPE :: !IsBreak(c);
    assert forall c <- CHARSET :: !IsBreak(c);
    assert forall c <- VERSION :: !IsBreak(c);
  }

  /** The text that wrapping gives, once its line endings are single line feeds. */
  lemma NormalizedWrap(marker: string, value: string, body: string)
    requires '\r' !in marker && '\r' !in value
    ensures ReplaceCRLF(marker + "\r\n" + value + "\r\n\r\n" + body)
         == marker + "\n" + value + "\n\n" + ReplaceCRLF(body)
  {
    var tail := "" + "\r\n" + body;
    var rest := value + "\r\n" + tail;
    assert marker + "\r\n" + value + "\r\n\r\n" + body == marker + "\r\n" + rest;
    NormalizePast(marker, rest);
    NormalizePast(value, tail);
    NormalizePast("", body);
    assert marker + "\n" + (value + "\n" + ("" + "\n" + ReplaceCRLF(body)))
        == marker + "\n" + value + "\n\n" + ReplaceCRLF(body);
  }

  lemma BlankOfWrap(marker: string, value: string, rest: string)
    requires '\n' !in marker && '\n' !in value && value != ""
    ensures BlankLine(marker + "\n" + value + "\n\n" + rest) == Some(|marker| + 1 + |value|)
  {
    var s := marker + "\n" + value + "\n\n" + rest;
    var n := |marker| + 1 + |value|;
    forall k | 0 <= k < n ensures s[k] != '\n' || s[k + 1] != '\n' {
      if k < |marker| {
        assert s[k] == marker[k];
      } else if k == |marker| {
        assert s[k + 1] == value[0];
      } else {
        assert s[k] == value[k - |marker| - 1];
      }
    }
    FirstBlank(s, n);
  }

  ghost predicate HasSeparator(s: string) {
    '\U{2028}' in s || '\U{2029}' in s
  }

  lemma SubjectOfWrap(value: string)
    requires forall c <- value :: !IsBreak(c)
    ensures SubjectIn("Subject: " + value) == if HasSeparator(value) then None else Some(value)
  {
    var line := "Subject: " + value;
    assert line[..|SUBJECT|] == SUBJECT;
    assert line[|SUBJECT|..] == " " + value;
    assert line[|SUBJECT|..][1..] == value;
    assert '\U{2028}' in value ==> EndsLine('\U{2028}');
    assert '\U{2029}' in value ==> EndsLine('\U{2029}');
  }

  lemma ParseNormalized(marker: string, plaintext: string, value: string, body: string)
    requires ReplaceCRLF(plaintext) == marker + "\n" + value + "\n\n" + body
    requires '\n' !in marker && '\n' !in value && value != ""
    ensures ParseAfter(marker, plaintext) == Parsed(SubjectIn(value), body)
  {
    var block := marker + "\n" + value;
    var normalized := ReplaceCRLF(plaintext);
    BlankOfWrap(marker, value, body);
    SplitWord(marker, '\n', value);
    SplitWord(value, '\n', "");
    assert marker + "\n" == normalized[..|marker| + 1];
    assert normalized[..|block|] == block && normalized[|block| + 2..] == body;
    var lines := HeaderLines(block);
    assert lines == [value] && lines[..0] == [];
    assert LastSubject(lines[..0]) == None;
    assert LastSubject(lines) == SubjectIn(value);
    assert BlankLine(normalized) == Some(|block|);
  }

  /** Parsing undoes wrapping: the body comes back with single line feeds, whatever it begins with, and
      the subject comes back folded, unless a Unicode line or paragraph separator in it hides the whole
      subject from the pattern. */
  lemma ParseUndoesWrap(subject: string, body: string)
    ensures Parse(Wrap(subject, body))
         == Parsed(if HasSeparator(subject) then None else Some(Folded(subject)), ReplaceCRLF(body))
  {
    var value := Folded(subject);
    FoldedHasNoBreak(subject);
    MarkerIsOneLine();
    assert Wrap(subject, body) == MARKER + "\r\n" + ("Subject: " + value) + "\r\n\r\n" + body;
    NormalizedWrap(MARKER, "Subject: " + value, body);
    ParseNormalized(MARKER, Wrap(subject, body), "Subject: " + value, ReplaceCRLF(body));
    SubjectOfWrap(value);
    FoldedKeeps(subject, '\U{2028}');
    FoldedKeeps(subject, '\U{2029}');
  }

  ghost predicate HasCRLF(s: string) {
    exists i :: 0 <= i < |s| - 1 && s[i] == '\r' && s[i + 1] == '\n'
  }

  lemma {:induction false} ReplaceShortens(s: string)
    ensures |ReplaceCRLF(s)| <= |s|
    ensures if HasCRLF(s) then |ReplaceCRLF(s)| < |s| else ReplaceCRLF(s) == s
  {
    if s == "" {
    } else if |s| >= 2 && s[0] == '\r' && s[1] == '\n' {
      ReplaceShortens(s[2..]);
    } else {
      ReplaceShortens(s[1..]);
      if HasCRLF(s) {
        var i :| 0 <= i < |s| - 1 && s[i] == '\r' && s[i + 1] == '\n';
        assert s[1..][i - 1] == '\r' && s[1..][i - 1 + 1] == '\n';
      }
    }
  }

  /** Nothing is lost exactly when the subject is one line and the body has no CRLF. */
  lemma LosslessExactlyWhen(subject: string, body: string)
    ensures Parse(Wrap(subject, body)) == Parsed(Some(subject), body)
       <==> (forall c <- subject :: !EndsLine(c)) && !HasCRLF(body)
  {
    ParseUndoesWrap(subject, body);
    ReplaceShortens(body);
    FoldedHasNoBreak(subject);
    if forall c <- subject :: !IsBreak(c) {
      FoldNothing(subject);
    }
  }

  /** The first line of a text is the marker, however the line ends. */
  ghost predicate Marked(text: string) {
    MARKER + "\n" <= text || MARKER + "\r\n" <= text
  }

  /** Normalising line endings changes neither a first line nor that it is the first. */
  lemma {:induction false} FirstLineKept(line: string, text: string)
    requires forall c <- line :: !IsBreak(c)
    ensures line + "\n" <= ReplaceCRLF(text) <==> line + "\n" <= text || line + "\r\n" <= text
  {
    if line == "" {
      assert line + "\n" == "\n" && line + "\r\n" == "\r\n";
    } else if text != "" && text[0] == line[0] {
      assert line[0] in line;
      FirstLineKept(line[1..], text[1..]);
      var rest, normal := text[1..], ReplaceCRLF(text[1..]);
      assert ReplaceCRLF(text) == [line[0]] + normal && text == [line[0]] + rest;
      PrefixTail(line[0], line[1..] + "\n", normal);
      PrefixTail(line[0], line[1..] + "\n", rest);
      PrefixTail(line[0], line[1..] + "\r\n", rest);
      assert [line[0]] + (line[1..] + "\n") == line + "\n";
      assert [line[0]] + (line[1..] + "\r\n") == line + "\r\n";
    } else {
      assert line[0] in line;
      assert (line + "\n")[0] == line[0] && (line + "\r\n")[0] == line[0];
    }
  }

  lemma PrefixTail(c: char, s: string, t: string)
    ensures [c] + s <= [c] + t <==> s <= t
  {
    assert ([c] + s)[1..] == s && ([c] + t)[1..] == t;
    if [c] + s <= [c] + t {
      assert s == t[..|s|];
    }
  }

  /** Text comes back as it is, CRLF included, with no subject, exactly when its first line is not the
      marker. */
  lemma UnmarkedIsUntouched(text: string)
    ensures Parse(text) == Parsed(None, text) <==> !Marked(text)
  {
    MarkerIsOneLine();
    FirstLineKept(MARKER, text);
    MarkedIsShortened(MARKER, text);
  }

  lemma MarkedIsShortened(marker: string, text: string)
    ensures if marker + "\n" <= ReplaceCRLF(text) then |ParseAfter(marker, text).body| < |text|
            else ParseAfter(marker, text) == Parsed(None, text)
  {
    ReplaceShortens(text);
  }

  // ------------------------------------------------------------- the format itself

  /** What is written, for a subject of one line. */
  lemma BlockFormat(subject: string, body: string)
    requires forall c <- subject :: c != '\r' && c != '\n'
    ensures Wrap(subject, body)
         == "Content-Type: text/plain; " + "charset=\"utf-8\"; " + "protected-headers=\"v1\"" + "\r\n"
            + "Subject: " + subject + "\r\n" + "\r\n" + body
  {
    FoldNothing(subject);
  }

  /** The field name, in any mixture of capital and small letters, and its colon. */
  ghost predicate NamesSubject(name: string) {
    |name| == 8 && forall i :: 0 <= i < 8 ==> name[i] == "SUBJECT:"[i] || name[i] == "subject:"[i]
  }

  ghost predicate OneLineOnly(value: string) {
    forall c <- value :: c != '\r' && c != '\n' && c != '\U{2028}' && c != '\U{2029}'
  }

  /** A line gives a value exactly when it is the field name, one space or none, and that value, which holds
      no line terminator; the space is left out only where the value does not begin with one. */
  lemma SubjectExactly(line: string, value: string)
    ensures SubjectIn(line) == Some(value)
       <==> OneLineOnly(value)
            && exists name, gap :: && NamesSubject(name) && line == name + gap + value
                                   && (gap == " " || (gap == "" && (value == "" || value[0] != ' ')))
  {
    assert |SUBJECT| == 8;
    if SubjectIn(line) == Some(value) {
      SubjectParts(line, value);
    }
    if OneLineOnly(value) {
      forall name, gap | NamesSubject(name) && line == name + gap + value
                         && (gap == " " || (gap == "" && (value == "" || value[0] != ' ')))
        ensures SubjectIn(line) == Some(value)
      {
        SubjectFound(name, gap, value);
      }
    }
  }

  lemma SubjectParts(line: string, value: string)
    requires SubjectIn(line) == Some(value)
    ensures OneLineOnly(value)
    ensures exists name, gap :: && NamesSubject(name) && line == name + gap + value
                                && (gap == " " || (gap == "" && (value == "" || value[0] != ' ')))
  {
    var name, rest := line[..8], line[8..];
    NamedAlike(name);
    forall c | c in value ensures !EndsLine(c) {
    }
    if rest != "" && rest[0] == ' ' {
      assert line == name + " " + value;
    } else {
      assert line == name + "" + value;
    }
  }

  lemma SubjectFound(name: string, gap: string, value: string)
    requires NamesSubject(name) && OneLineOnly(value)
    requires gap == " " || (gap == "" && (value == "" || value[0] != ' '))
    ensures SubjectIn(name + gap + value) == Some(value)
  {
    var line := name + gap + value;
    NamedAlike(name);
    assert line[..8] == name && line[8..] == gap + value;
    if gap == " " {
      assert (gap + value)[1..] == value;
    }
  }

  /** The pattern's i flag: what equals the name but for the case of its letters. */
  lemma NamedAlike(name: string)
    ensures SameLetters(name, SUBJECT) <==> NamesSubject(name)
  {
    assert |SUBJECT| == 8;
    if |name| == 8 {
      forall i | 0 <= i < 8
        ensures Lower(name[i]) == Lower(SUBJECT[i]) <==> name[i] == "SUBJECT:"[i] || name[i] == "subject:"[i]
      {
        assert "SUBJECT:"[i] == (if 'a' <= SUBJECT[i] <= 'z' then (SUBJECT[i] - 'a') + 'A' else SUBJECT[i]);
        assert "subject:"[i] == (if 'A' <= SUBJECT[i] <= 'Z' then (SUBJECT[i] - 'A') + 'a' else SUBJECT[i]);
      }
    }
  }

  ghost predicate HasBlankLine(s: string) {
    exists k :: 0 <= k < |s| - 1 && s[k] == '\n' && s[k + 1] == '\n'
  }

  lemma {:induction false} NoBlankLine(s: string)
    ensures BlankLine(s).None? <==> !HasBlankLine(s)
  {
    if |s| >= 2 && !(s[0] == '\n' && s[1] == '\n') {
      NoBlankLine(s[1..]);
      if HasBlankLine(s[1..]) {
        var k :| 0 <= k < |s[1..]| - 1 && s[1..][k] == '\n' && s[1..][k + 1] == '\n';
        assert s[k + 1] == '\n' && s[k + 2] == '\n';
      }
      if HasBlankLine(s) {
        var k :| 0 <= k < |s| - 1 && s[k] == '\n' && s[k + 1] == '\n';
        assert s[1..][k - 1] == '\n' && s[1..][k - 1 + 1] == '\n';
      }
    }
  }

  /** A marked text, its line endings made single line feeds, is read as the header block up to its first
      blank line, and the body after it. */
  lemma ReadAtBlankLine(text: string, block: string, body: string)
    requires Marked(text) && ReplaceCRLF(text) == block + "\n\n" + body && !HasBlankLine(block + "\n")
    ensures Parse(text) == Parsed(LastSubject(Split(block, '\n')[1..]), body)
  {
    var s := ReplaceCRLF(text);
    forall k | 0 <= k < |block| ensures s[k] != '\n' || s[k + 1] != '\n' {
      assert (block + "\n")[k] == s[k] && (block + "\n")[k + 1] == s[k + 1];
    }
    FirstBlank(s, |block|);
    MarkerIsOneLine();
    FirstLineKept(MARKER, text);
    ReadBlock(MARKER, text, block, body);
  }

  lemma ReadBlock(marker: string, text: string, block: string, body: string)
    requires marker + "\n" <= ReplaceCRLF(text) && ReplaceCRLF(text) == block + "\n\n" + body
    requires BlankLine(ReplaceCRLF(text)) == Some(|block|)
    ensures ParseAfter(marker, text) == Parsed(LastSubject(Split(block, '\n')[1..]), body)
  {
    var s := ReplaceCRLF(text);
    assert s[..|block|] == block && s[|block| + 2..] == body;
  }

  /** Without a blank line it is a header block and nothing else. */
  lemma ReadToTheEnd(text: string)
    requires Marked(text) && !HasBlankLine(ReplaceCRLF(text))
    ensures Parse(text) == Parsed(LastSubject(Split(ReplaceCRLF(text), '\n')[1..]), "")
  {
    NoBlankLine(ReplaceCRLF(text));
    MarkerIsOneLine();
    FirstLineKept(MARKER, text);
    ReadAll(MARKER, text);
  }

  lemma ReadAll(marker: string, text: string)
    requires marker + "\n" <= ReplaceCRLF(text) && BlankLine(ReplaceCRLF(text)).None?
    ensures ParseAfter(marker, text) == Parsed(LastSubject(Split(ReplaceCRLF(text), '\n')[1..]), "")
  {
  }
}
