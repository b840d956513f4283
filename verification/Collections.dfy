/** Sequences without repetition, and the bounded channels between tasks. */
module Collections {

  predicate Distinct<T(==)>(s: seq<T>) {
    forall i, j :: 0 <= i < j < |s| ==> s[i] != s[j]
  }

  /** An order in which a hash map may yield its keys: each once. */
  ghost predicate Enumerates<T(!new)>(order: seq<T>, keys: set<T>) {
    (forall k :: k in order <==> k in keys) && Distinct(order)
  }

  /** The first element does not come again. */
  lemma DistinctHead<T(!new)>(s: seq<T>)
    requires s != [] && Distinct(s)
    ensures s[0] !in s[1..] && Distinct(s[1..]) && forall x :: x in s <==> x == s[0] || x in s[1..]
  {
    assert forall k :: 0 <= k < |s| - 1 ==> s[1..][k] == s[k + 1];
    assert s == [s[0]] + s[1..];
  }

  lemma DistinctCons<T>(x: T, s: seq<T>)
    requires Distinct(s) && x !in s
    ensures Distinct([x] + s)
  {
    var longer := [x] + s;
    forall i, j | 0 <= i < j < |longer|
      ensures longer[i] != longer[j]
    {
      assert longer[j] == s[j - 1] && s[j - 1] in s;
    }
  }

  lemma DistinctSnoc<T>(s: seq<T>, x: T)
    ensures Distinct(s + [x]) <==> Distinct(s) && x !in s
  {
    var longer := s + [x];
    assert longer[|s|] == x && forall i :: 0 <= i < |s| ==> longer[i] == s[i];
    if x !in s && Distinct(s) {
      forall i, j | 0 <= i < j < |longer|
        ensures longer[i] != longer[j]
      {
        assert j == |s| ==> longer[i] == s[i] && s[i] in s;
      }
    }
    if x in s {
      var i :| 0 <= i < |s| && s[i] == x;
      assert longer[i] == longer[|s|];
    }
  }

  /** The bound of a subscriber's channel. */
  const CHANNEL_CAPACITY := 100

  /** A `try_send` succeeds: the receiver is open and the buffer not full. */
  predicate Accepts(open: bool, waiting: nat) {
    open && waiting < CHANNEL_CAPACITY
  }
}
