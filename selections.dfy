/** Order-preserving selection of sequence elements by a mask of booleans. */
module Selections {

  /** The elements of `s` at the positions where `marks` equals `want`, in
      their original order. */
  function Select<T>(s: seq<T>, marks: seq<bool>, want: bool): (r: seq<T>)
    requires |marks| == |s|
    ensures |r| <= |s|
    decreases |s|
  {
    if s == [] then []
    else
      var n := |s| - 1;
      Select(s[..n], marks[..n], want) + (if marks[n] == want then [s[n]] else [])
  }

  /** No element occurs twice. */
  predicate Distinct<T(==)>(s: seq<T>)
  {
    forall i, j :: 0 <= i < j < |s| ==> s[i] != s[j]
  }

  /** The marked and the unmarked elements together hold every element of `s`
      exactly as often as `s` does. */
  lemma {:induction false} SelectPartition<T>(s: seq<T>, marks: seq<bool>)
    requires |marks| == |s|
    ensures multiset(Select(s, marks, true)) + multiset(Select(s, marks, false)) == multiset(s)
    decreases |s|
  {
    if s != [] {
      var n := |s| - 1;
      var init, head, x := s[..n], marks[..n], s[n];
      var yes, no := Select(init, head, true), Select(init, head, false);
      assert s == init + [x];
      calc {
        multiset(Select(s, marks, true)) + multiset(Select(s, marks, false));
        { SelectPartitionStep(s, marks, yes, no); }
        multiset(yes) + multiset(no) + multiset{x};
        { SelectPartition(init, head); }
        multiset(init) + multiset{x};
        multiset(s);
      }
    }
  }

  /** One more element lands in exactly one of the two selections. */
  lemma SelectPartitionStep<T>(s: seq<T>, marks: seq<bool>, yes: seq<T>, no: seq<T>)
    requires |marks| == |s| && s != []
    requires yes == Select(s[..|s| - 1], marks[..|s| - 1], true)
    requires no == Select(s[..|s| - 1], marks[..|s| - 1], false)
    ensures multiset(Select(s, marks, true)) + multiset(Select(s, marks, false))
      == multiset(yes) + multiset(no) + multiset{s[|s| - 1]}
  {
    var x := s[|s| - 1];
    if marks[|s| - 1] {
      assert Select(s, marks, true) == yes + [x];
      assert Select(s, marks, false) == no;
    } else {
      assert Select(s, marks, true) == yes;
      assert Select(s, marks, false) == no + [x];
    }
  }

  /** When every mark is `b`, selecting `b` keeps everything and selecting
      `!b` keeps nothing. */
  lemma {:induction false} SelectConstant<T>(s: seq<T>, marks: seq<bool>, b: bool)
    requires |marks| == |s|
    requires forall i :: 0 <= i < |marks| ==> marks[i] == b
    ensures Select(s, marks, b) == s
    ensures Select(s, marks, !b) == []
    decreases |s|
  {
    if s != [] {
      var n := |s| - 1;
      SelectConstant(s[..n], marks[..n], b);
      assert s == s[..n] + [s[n]];
    }
  }
}
