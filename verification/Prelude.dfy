/** Vocabulary shared by the other modules. */
module Prelude {

  datatype Option<+T> = None | Some(value: T) {
    function GetOr(default: T): T {
      match this
      case Some(v) => v
      case None => default
    }
  }

  function Max(a: int, b: int): int {
    if a < b then b else a
  }

  ghost predicate Distinct<T>(s: seq<T>) {
    forall i, j :: 0 <= i < j < |s| ==> s[i] != s[j]
  }

  /** A set split in two by a test: the sizes add up. */
  lemma SplitCount<T>(whole: set<T>, left: set<T>, right: set<T>)
    requires whole == left + right && left !! right
    ensures |whole| == |left| + |right|
  {
  }

  /** A sequence without repetitions is as long as its set of elements is large. */
  lemma {:induction false} DistinctCount<T>(s: seq<T>, elements: set<T>)
    requires Distinct(s) && elements == set x | x in s
    ensures |s| == |elements|
  {
    if s != [] {
      var n := |s| - 1;
      DistinctCount(s[..n], elements - {s[n]});
    }
  }

  lemma {:induction false} DistinctIsOnce<T>(s: seq<T>)
    ensures Distinct(s) <==> forall x :: multiset(s)[x] <= 1
  {
    if s != [] {
      var n := |s| - 1;
      DistinctIsOnce(s[..n]);
      assert s == s[..n] + [s[n]];
      var before := multiset(s[..n]);
      assert forall x :: multiset(s)[x] == before[x] + if x == s[n] then 1 else 0;
      assert s[n] in before <==> exists i :: 0 <= i < n && s[i] == s[n];
      if !Distinct(s[..n]) {
        var x :| before[x] > 1;
        assert multiset(s)[x] > 1;
      }
    }
  }
}
