/** Failure-carrying result types shared by the two models: a missing value
    (Kotlin's null, Ruby's nil), a value or an exception, and a bare
    success-or-exception. */
module Wrappers {

  datatype Option<+T> = None | Some(value: T)

  datatype Result<+T, +E> = Ok(value: T) | Err(error: E)

  datatype Outcome<+E> = Pass | Fail(error: E)

  /** The elements of a sequence, as a set. */
  function Elements<T>(s: seq<T>): set<T>
  {
    set x | x in s
  }

  /** No element occurs twice. */
  predicate Distinct<T(==)>(s: seq<T>)
  {
    forall i, j | 0 <= i < j < |s| :: s[i] != s[j]
  }

  /** A sequence with a new head is duplicate-free exactly when the head is
      new and the rest is duplicate-free. */
  lemma DistinctCons<T>(x: T, s: seq<T>)
    ensures Distinct([x] + s) <==> x !in s && Distinct(s)
  {
    var t := [x] + s;
    if x !in s && Distinct(s) {
      forall i, j | 0 <= i < j < |t| ensures t[i] != t[j] {
        assert t[j] == s[j - 1];
        if i > 0 {
          assert t[i] == s[i - 1];
        }
      }
    }
    if Distinct(t) {
      forall j | 0 <= j < |s| ensures s[j] != x {
        assert t[0] != t[j + 1];
      }
      forall i, j | 0 <= i < j < |s| ensures s[i] != s[j] {
        assert t[i + 1] != t[j + 1];
      }
    }
  }

  /** A sequence with a new last element is duplicate-free exactly when the
      element is new and the rest is duplicate-free. */
  lemma DistinctSnoc<T>(s: seq<T>, x: T)
    ensures Distinct(s + [x]) <==> x !in s && Distinct(s)
  {
    var t := s + [x];
    if Distinct(t) {
      forall j | 0 <= j < |s| ensures s[j] != x {
        assert t[j] != t[|s|];
      }
      forall i, j | 0 <= i < j < |s| ensures s[i] != s[j] {
        assert t[i] != t[j];
      }
    }
  }

  /** A sequence is duplicate-free exactly when each of its elements occurs
      once, so duplicate-freedom survives any permutation. */
  lemma {:induction false} DistinctMultiset<T>(s: seq<T>)
    ensures Distinct(s) <==> forall x | x in multiset(s) :: multiset(s)[x] == 1
  {
    if s != [] {
      var t := s[1..];
      assert s == [s[0]] + t;
      DistinctCons(s[0], t);
      DistinctMultiset(t);
      assert multiset(s) == multiset{s[0]} + multiset(t);
      if s[0] in t {
        assert multiset(s)[s[0]] >= 2;
      } else {
        assert multiset(s)[s[0]] == 1;
        assert forall x | x in multiset(t) :: multiset(s)[x] == multiset(t)[x];
      }
    }
  }

  /** Only the empty sequence has no elements. */
  lemma ElementsEmpty<T>(s: seq<T>)
    ensures Elements(s) == {} <==> s == []
  {
    if s != [] {
      assert s[0] in Elements(s);
    }
  }

  /** A piece appended to what was written after `start` extends it. */
  lemma Appended<T>(start: seq<T>, done: seq<T>, before: seq<T>, piece: seq<T>, after: seq<T>)
    requires before == start + done && after == before + piece
    ensures after == start + (done + piece)
  {
  }

  /** Three pieces appended in turn after `start`. */
  lemma AppendedThree<T>(start: seq<T>, a: seq<T>, first: seq<T>, b: seq<T>, second: seq<T>, c: seq<T>, third: seq<T>)
    requires first == start + a && second == first + b && third == second + c
    ensures third == start + (a + b + c)
  {
  }
}
