/** Counting the distinct ids a query finds against the length of the requested id list. */
module Distinct {

  predicate NoDuplicates<T(==)>(s: seq<T>)
  {
    forall i, j :: 0 <= i < j < |s| ==> s[i] != s[j]
  }

  /** A set drawn from a list has no more elements than the list. */
  lemma {:induction false} CardAtMost<T>(found: set<T>, s: seq<T>)
    requires forall x :: x in found ==> x in s
    ensures |found| <= |s|
  {
    if |s| == 0 {
      assert found == {};
    } else {
      var rest := found - {s[0]};
      assert forall x :: x in rest ==> x in s[1..];
      CardAtMost(rest, s[1..]);
    }
  }

  /** A list repeats no element exactly when its head is not in its tail and its tail
      repeats no element. */
  lemma NoDuplicatesCons<T>(s: seq<T>)
    requires |s| > 0
    ensures NoDuplicates(s) <==> s[0] !in s[1..] && NoDuplicates(s[1..])
  {
    var tail := s[1..];
    if s[0] !in tail && NoDuplicates(tail) {
      forall i, j | 0 <= i < j < |s| ensures s[i] != s[j] {
        assert s[j] == tail[j - 1];
        if i > 0 { assert s[i] == tail[i - 1]; }
      }
    }
    if NoDuplicates(s) {
      forall i, j | 0 <= i < j < |tail| ensures tail[i] != tail[j] {
        assert tail[i] == s[i + 1] && tail[j] == s[j + 1];
      }
      forall k | 0 <= k < |tail| ensures tail[k] != s[0] {
        assert tail[k] == s[k + 1];
      }
    }
  }

  /** Every element of a list is in a set exactly when its head and every element of its tail
      are; removing an element the tail does not hold changes nothing for the tail. */
  lemma AllFoundCons<T>(found: set<T>, s: seq<T>)
    requires |s| > 0
    ensures (forall i :: 0 <= i < |s| ==> s[i] in found) <==>
            s[0] in found && (forall i :: 0 <= i < |s[1..]| ==> s[1..][i] in found)
    ensures s[0] !in s[1..] ==>
      ((forall i :: 0 <= i < |s[1..]| ==> s[1..][i] in found) <==>
       (forall i :: 0 <= i < |s[1..]| ==> s[1..][i] in found - {s[0]}))
  {
    var tail := s[1..];
    if s[0] in found && (forall i :: 0 <= i < |tail| ==> tail[i] in found) {
      forall i | 0 <= i < |s| ensures s[i] in found {
        if i > 0 { assert s[i] == tail[i - 1]; }
      }
    }
    if forall i :: 0 <= i < |s| ==> s[i] in found {
      forall i | 0 <= i < |tail| ensures tail[i] in found {
        assert tail[i] == s[i + 1];
      }
    }
  }

  /** A set drawn from a list is as large as the list exactly when the list repeats no
      element and every element of the list was found. */
  lemma {:induction false} CardMatchesLength<T>(found: set<T>, s: seq<T>)
    requires forall x :: x in found ==> x in s
    ensures |found| == |s| <==> NoDuplicates(s) && forall i :: 0 <= i < |s| ==> s[i] in found
  {
    if |s| == 0 {
      assert found == {};
    } else {
      var x, tail := s[0], s[1..];
      assert s == [x] + tail;
      NoDuplicatesCons(s);
      AllFoundCons(found, s);
      if x in tail {
        assert forall y :: y in found ==> y in tail;
        CardAtMost(found, tail);
      } else {
        var rest := found - {x};
        assert forall y :: y in rest ==> y in tail;
        CardMatchesLength(rest, tail);
        if x in found {
          assert |found| == |rest| + 1;
        } else {
          assert rest == found;
          CardAtMost(found, tail);
        }
      }
    }
  }
}
