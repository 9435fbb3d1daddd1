/** The string operations the canonical forms are built from. */
module Text {
  /** Unicode white space, as strings.TrimSpace knows it. */
  predicate IsSpace(c: char) {
    || '\t' <= c <= '\r' || c == ' ' || c == '\U{0085}' || c == '\U{00A0}' || c == '\U{1680}'
    || '\U{2000}' <= c <= '\U{200A}' || c == '\U{2028}' || c == '\U{2029}' || c == '\U{202F}'
    || c == '\U{205F}' || c == '\U{3000}'
  }

  function TrimLeftSpace(s: string): string {
    if s != "" && IsSpace(s[0]) then TrimLeftSpace(s[1..]) else s
  }

  function TrimRightSpace(s: string): string {
    if s != "" && IsSpace(s[|s| - 1]) then TrimRightSpace(s[..|s| - 1]) else s
  }

  function TrimSpace(s: string): string {
    TrimRightSpace(TrimLeftSpace(s))
  }

  lemma {:induction false} TrimLeftSplits(s: string) returns (left: string)
    ensures s == left + TrimLeftSpace(s) && (forall c <- left :: IsSpace(c))
    ensures TrimLeftSpace(s) == "" || !IsSpace(TrimLeftSpace(s)[0])
  {
    left := "";
    if s != "" && IsSpace(s[0]) {
      left := TrimLeftSplits(s[1..]);
      left := [s[0]] + left;
    }
  }

  lemma {:induction false} TrimRightSplits(s: string) returns (right: string)
    ensures s == TrimRightSpace(s) + right && (forall c <- right :: IsSpace(c))
    ensures TrimRightSpace(s) == "" || !IsSpace(TrimRightSpace(s)[|TrimRightSpace(s)| - 1])
  {
    right := "";
    if s != "" && IsSpace(s[|s| - 1]) {
      right := TrimRightSplits(s[..|s| - 1]);
      right := right + [s[|s| - 1]];
    }
  }

  /** Trimming takes white space off both ends, all of it and nothing else. */
  lemma TrimSpaceSplits(s: string) returns (left: string, right: string)
    ensures s == left + TrimSpace(s) + right && (forall c <- left + right :: IsSpace(c))
    ensures TrimSpace(s) != "" ==> !IsSpace(TrimSpace(s)[0]) && !IsSpace(TrimSpace(s)[|TrimSpace(s)| - 1])
  {
    left := TrimLeftSplits(s);
    right := TrimRightSplits(TrimLeftSpace(s));
  }

  lemma TrimSpaceOfSpace(s: string)
    ensures TrimSpace(s) == "" <==> forall c <- s :: IsSpace(c)
  {
    var left, right := TrimSpaceSplits(s);
    if TrimSpace(s) == "" {
      assert s == left + right;
    } else {
      assert TrimSpace(s)[0] in s;
    }
  }

  /** Without the blanks and tabs at its end. */
  function TrimRight(s: string): string {
    if s != "" && (s[|s| - 1] == ' ' || s[|s| - 1] == '\t') then TrimRight(s[..|s| - 1]) else s
  }

  function ReplaceCRLF(s: string): string {
    if s == "" then ""
    else if |s| >= 2 && s[0] == '\r' && s[1] == '\n' then "\n" + ReplaceCRLF(s[2..])
    else [s[0]] + ReplaceCRLF(s[1..])
  }

  function ReplaceCR(s: string): string {
    if s == "" then "" else [if s[0] == '\r' then '\n' else s[0]] + ReplaceCR(s[1..])
  }

  /** Every line ending as a single line feed. */
  function Normalized(s: string): string {
    ReplaceCR(ReplaceCRLF(s))
  }

  function Split(s: string, sep: char): (parts: seq<string>)
    ensures parts != []
  {
    if s == "" then [""]
    else
      var rest := Split(s[1..], sep);
      if s[0] == sep then [""] + rest else [[s[0]] + rest[0]] + rest[1..]
  }

  function Join(parts: seq<string>, sep: char): string {
    if parts == [] then ""
    else if |parts| == 1 then parts[0]
    else parts[0] + [sep] + Join(parts[1..], sep)
  }

  ghost predicate Free(parts: seq<string>, sep: char) {
    forall part <- parts :: sep !in part
  }

  lemma {:induction false} SplitIsFree(s: string, sep: char)
    ensures Free(Split(s, sep), sep)
  {
    if s != "" {
      SplitIsFree(s[1..], sep);
    }
  }

  lemma {:induction false} SplitWord(word: string, sep: char, rest: string)
    requires sep !in word
    ensures Split(word + [sep] + rest, sep) == [word] + Split(rest, sep)
    ensures Split(word, sep) == [word]
  {
    if word == "" {
      assert word + [sep] + rest == [sep] + rest;
      assert ([sep] + rest)[1..] == rest;
    } else {
      assert (word + [sep] + rest)[1..] == word[1..] + [sep] + rest;
      SplitWord(word[1..], sep, rest);
      assert word == [word[0]] + word[1..];
      assert ([word[1..]] + Split(rest, sep))[1..] == Split(rest, sep);
      assert [word[1..]][1..] == [];
    }
  }

  /** Splitting undoes joining, as long as there is something to join. */
  lemma {:induction false} SplitJoin(parts: seq<string>, sep: char)
    requires parts != [] && Free(parts, sep)
    ensures Split(Join(parts, sep), sep) == parts
  {
    if |parts| == 1 {
      SplitWord(parts[0], sep, "");
    } else {
      SplitWord(parts[0], sep, Join(parts[1..], sep));
      SplitJoin(parts[1..], sep);
    }
  }

  lemma {:induction false} JoinLacks(parts: seq<string>, sep: char, c: char)
    requires c != sep && forall part <- parts :: c !in part
    ensures c !in Join(parts, sep)
  {
    if |parts| > 1 {
      JoinLacks(parts[1..], sep, c);
    }
  }

  lemma {:induction false} SplitLacks(s: string, sep: char, c: char)
    requires c !in s
    ensures forall part <- Split(s, sep) :: c !in part
  {
    if s != "" {
      SplitLacks(s[1..], sep, c);
    }
  }

  lemma {:induction false} NoCRLeft(s: string)
    ensures '\r' !in ReplaceCR(s)
  {
    if s != "" {
      NoCRLeft(s[1..]);
    }
  }

  lemma {:induction false} NothingToReplace(s: string)
    requires '\r' !in s
    ensures Normalized(s) == s && ReplaceCR(s) == s && ReplaceCRLF(s) == s
  {
    if s != "" {
      NothingToReplace(s[1..]);
    }
  }

  lemma {:induction false} TrimRightTwice(s: string)
    ensures TrimRight(TrimRight(s)) == TrimRight(s)
    ensures TrimRight(s) <= s
  {
    if s != "" {
      TrimRightTwice(s[..|s| - 1]);
    }
  }

  // ------------------------------------------------------------------- sorting

  /** Lexicographic order of strings. */
  predicate Leq(a: string, b: string) {
    a == "" || (b != "" && (a[0] < b[0] || (a[0] == b[0] && Leq(a[1..], b[1..]))))
  }

  lemma {:induction false} LeqTotal(a: string, b: string)
    ensures Leq(a, b) || Leq(b, a)
  {
    if a != "" && b != "" && a[0] == b[0] {
      LeqTotal(a[1..], b[1..]);
    }
  }

  lemma {:induction false} LeqTransitive(a: string, b: string, c: string)
    requires Leq(a, b) && Leq(b, c)
    ensures Leq(a, c)
  {
    if a != "" && a[0] == b[0] && b[0] == c[0] {
      LeqTransitive(a[1..], b[1..], c[1..]);
    }
  }

  predicate SortedNext(s: seq<string>) {
    forall i :: 0 < i < |s| ==> Leq(s[i - 1], s[i])
  }

  function Insert(x: string, s: seq<string>): seq<string> {
    if s == [] || Leq(x, s[0]) then [x] + s else [s[0]] + Insert(x, s[1..])
  }

  function Sort(s: seq<string>): seq<string> {
    if s == [] then [] else Insert(s[0], Sort(s[1..]))
  }

  lemma {:induction false} InsertSorted(x: string, s: seq<string>)
    requires SortedNext(s)
    ensures SortedNext(Insert(x, s)) && multiset(Insert(x, s)) == multiset(s) + multiset{x}
    ensures Insert(x, s) != [] && (Insert(x, s)[0] == x || (s != [] && Insert(x, s)[0] == s[0]))
  {
    if s != [] && !Leq(x, s[0]) {
      LeqTotal(x, s[0]);
      InsertSorted(x, s[1..]);
      assert s == [s[0]] + s[1..];
    }
  }

  /** Sorting yields the same strings, in order. */
  lemma {:induction false} SortSorts(s: seq<string>)
    ensures SortedNext(Sort(s)) && multiset(Sort(s)) == multiset(s)
  {
    if s != [] {
      SortSorts(s[1..]);
      InsertSorted(s[0], Sort(s[1..]));
      assert s == [s[0]] + s[1..];
    }
  }

  lemma {:induction false} SortedStays(s: seq<string>)
    requires SortedNext(s)
    ensures Sort(s) == s
  {
    if s != [] {
      SortedStays(s[1..]);
      assert |s| > 1 ==> Leq(s[0], s[1]);
      assert s == [s[0]] + s[1..];
    }
  }

  lemma {:induction false} SortedPair(s: seq<string>, i: nat, j: nat)
    requires SortedNext(s) && i < j < |s|
    ensures Leq(s[i], s[j])
  {
    if i + 1 < j {
      SortedPair(s, i, j - 1);
      LeqTransitive(s[i], s[j - 1], s[j]);
    }
  }

  lemma SortTwice(s: seq<string>)
    ensures Sort(Sort(s)) == Sort(s)
  {
    SortSorts(s);
    SortedStays(Sort(s));
  }

  lemma SortMembers(s: seq<string>, x: string)
    ensures x in Sort(s) <==> x in s
  {
    SortSorts(s);
    assert x in multiset(Sort(s)) <==> x in multiset(s);
  }
}
