/** A stable sort by a total preorder, the behaviour of Python's `list.sort` and
    `sorted` with a `key=` function: the result is ordered, it is a rearrangement
    of the input, and elements with equal keys keep their input order.

    The scheduler sorts twice with it: the tasks by (due date, duration), and the
    seven days by their current load. */
module StableSort {

  /** `le` relates every pair in at least one direction. */
  ghost predicate Total<T(!new)>(le: (T, T) -> bool) {
    forall a, b :: le(a, b) || le(b, a)
  }

  ghost predicate Transitive<T(!new)>(le: (T, T) -> bool) {
    forall a, b, c :: le(a, b) && le(b, c) ==> le(a, c)
  }

  /** The comparison a key function induces: total and transitive, but two
      different elements may have equal keys. */
  ghost predicate TotalPreorder<T(!new)>(le: (T, T) -> bool) {
    Total(le) && Transitive(le)
  }

  predicate Sorted<T>(le: (T, T) -> bool, s: seq<T>) {
    forall i, j :: 0 <= i < j < |s| ==> le(s[i], s[j])
  }

  /** `a` and `b` have equal keys. */
  predicate Equiv<T>(le: (T, T) -> bool, a: T, b: T) {
    le(a, b) && le(b, a)
  }

  /** The elements of `s` whose key equals the key of `x`, in the order of `s`. */
  function Peers<T>(le: (T, T) -> bool, x: T, s: seq<T>): (r: seq<T>)
    ensures |r| <= |s|
  {
    if |s| == 0 then []
    else (if Equiv(le, x, s[0]) then [s[0]] else []) + Peers(le, x, s[1..])
  }

  lemma {:induction false} PeersMembers<T>(le: (T, T) -> bool, x: T, s: seq<T>)
    ensures forall y :: y in Peers(le, x, s) ==> y in s && Equiv(le, x, y)
  {
    if |s| > 0 {
      PeersMembers(le, x, s[1..]);
    }
  }

  /** Inserts `x` in front of the first element that is not strictly smaller. */
  function Insert<T>(le: (T, T) -> bool, x: T, s: seq<T>): (r: seq<T>)
    ensures |r| == |s| + 1
  {
    if |s| == 0 then [x]
    else if le(x, s[0]) then [x] + s
    else [s[0]] + Insert(le, x, s[1..])
  }

  /** Insertion sort; the head is inserted into the sorted tail. */
  function Sort<T>(le: (T, T) -> bool, s: seq<T>): (r: seq<T>)
    ensures |r| == |s|
  {
    if |s| == 0 then [] else Insert(le, s[0], Sort(le, s[1..]))
  }

  lemma {:induction false} InsertPermutes<T>(le: (T, T) -> bool, x: T, s: seq<T>)
    ensures multiset(Insert(le, x, s)) == multiset(s) + multiset{x}
  {
    if |s| > 0 && !le(x, s[0]) {
      InsertPermutes(le, x, s[1..]);
      assert s == [s[0]] + s[1..];
    }
  }

  /** `Sort` rearranges its input: nothing is lost or duplicated. */
  lemma {:induction false} SortPermutes<T>(le: (T, T) -> bool, s: seq<T>)
    ensures multiset(Sort(le, s)) == multiset(s)
  {
    if |s| > 0 {
      SortPermutes(le, s[1..]);
      InsertPermutes(le, s[0], Sort(le, s[1..]));
      assert s == [s[0]] + s[1..];
    }
  }

  lemma {:induction false} InsertSorted<T(!new)>(le: (T, T) -> bool, x: T, s: seq<T>)
    requires TotalPreorder(le)
    requires Sorted(le, s)
    ensures Sorted(le, Insert(le, x, s))
  {
    if |s| == 0 || le(x, s[0]) {
    } else {
      var tail := Insert(le, x, s[1..]);
      InsertSorted(le, x, s[1..]);
      InsertPermutes(le, x, s[1..]);
      assert le(s[0], x);
      forall y | y in tail
        ensures le(s[0], y)
      {
        assert y in multiset(tail);
        if y != x {
          assert y in multiset(s[1..]);
          var k :| 0 <= k < |s[1..]| && s[1..][k] == y;
          assert s[1 + k] == y;
        }
      }
      var r := [s[0]] + tail;
      forall i, j | 0 <= i < j < |r|
        ensures le(r[i], r[j])
      {
        if i == 0 {
          assert r[j] == tail[j - 1];
          assert r[j] in tail;
        } else {
          assert r[i] == tail[i - 1] && r[j] == tail[j - 1];
        }
      }
    }
  }

  /** The result of `Sort` is ordered. */
  lemma {:induction false} SortSorted<T(!new)>(le: (T, T) -> bool, s: seq<T>)
    requires TotalPreorder(le)
    ensures Sorted(le, Sort(le, s))
  {
    if |s| > 0 {
      SortSorted(le, s[1..]);
      InsertSorted(le, s[0], Sort(le, s[1..]));
    }
  }

  lemma {:induction false} PeersAppend<T>(le: (T, T) -> bool, z: T, a: seq<T>, b: seq<T>)
    ensures Peers(le, z, a + b) == Peers(le, z, a) + Peers(le, z, b)
  {
    if |a| == 0 {
      assert a + b == b;
    } else {
      assert (a + b)[0] == a[0];
      assert (a + b)[1..] == a[1..] + b;
      PeersAppend(le, z, a[1..], b);
      var h := if Equiv(le, z, a[0]) then [a[0]] else [];
      assert Peers(le, z, a + b) == h + (Peers(le, z, a[1..]) + Peers(le, z, b));
      assert h + (Peers(le, z, a[1..]) + Peers(le, z, b)) == (h + Peers(le, z, a[1..])) + Peers(le, z, b);
    }
  }

  /** `x` lands before every element with its key, so the elements with any
      given key come out in the order they went in. */
  lemma {:induction false} InsertPeers<T(!new)>(le: (T, T) -> bool, z: T, x: T, s: seq<T>)
    requires Transitive(le)
    ensures Peers(le, z, Insert(le, x, s))
         == (if Equiv(le, z, x) then [x] + Peers(le, z, s) else Peers(le, z, s))
  {
    if |s| == 0 {
    } else if le(x, s[0]) {
      PeersAppend(le, z, [x], s);
    } else {
      InsertPeers(le, z, x, s[1..]);
      if Equiv(le, z, x) {
        TransitiveAt(le, x, z, s[0]);
      }
      InsertPeersStep(le, z, x, s);
    }
  }

  /** The step of `InsertPeers` past a head `s[0]` that is strictly below `x`. */
  lemma InsertPeersStep<T>(le: (T, T) -> bool, z: T, x: T, s: seq<T>)
    requires |s| > 0 && !le(x, s[0])
    requires Equiv(le, z, x) ==> !Equiv(le, z, s[0])
    requires Peers(le, z, Insert(le, x, s[1..]))
          == (if Equiv(le, z, x) then [x] + Peers(le, z, s[1..]) else Peers(le, z, s[1..]))
    ensures Peers(le, z, Insert(le, x, s))
         == (if Equiv(le, z, x) then [x] + Peers(le, z, s) else Peers(le, z, s))
  {
    var tail := Insert(le, x, s[1..]);
    var r := [s[0]] + tail;
    assert Insert(le, x, s) == r;
    assert r[0] == s[0] && r[1..] == tail;
    var h := if Equiv(le, z, s[0]) then [s[0]] else [];
    assert Peers(le, z, r) == h + Peers(le, z, tail);
    assert Peers(le, z, s) == h + Peers(le, z, s[1..]);
    if Equiv(le, z, x) {
      assert h == [];
      assert Peers(le, z, r) == [x] + Peers(le, z, s[1..]);
      assert Peers(le, z, s) == Peers(le, z, s[1..]);
    }
  }

  lemma TransitiveAt<T(!new)>(le: (T, T) -> bool, a: T, b: T, c: T)
    requires Transitive(le)
    ensures le(a, b) && le(b, c) ==> le(a, c)
  {
  }

  /** Stability: `Sort` keeps the relative order of elements with equal keys. */
  lemma {:induction false} SortStable<T(!new)>(le: (T, T) -> bool, z: T, s: seq<T>)
    requires Transitive(le)
    ensures Peers(le, z, Sort(le, s)) == Peers(le, z, s)
  {
    if |s| > 0 {
      SortStable(le, z, s[1..]);
      InsertPeers(le, z, s[0], Sort(le, s[1..]));
    }
  }

  lemma SortStableAll<T(!new)>(le: (T, T) -> bool, s: seq<T>)
    requires Transitive(le)
    ensures forall z :: Peers(le, z, Sort(le, s)) == Peers(le, z, s)
  {
    forall z ensures Peers(le, z, Sort(le, s)) == Peers(le, z, s) {
      SortStable(le, z, s);
    }
  }

  /** The first element of `s` with the key of `x` comes no later than any other
      element of `s` with that key. */
  lemma {:induction false} PeersHeadIsEarliest<T>(le: (T, T) -> bool, x: T, s: seq<T>, j: int)
    requires 0 <= j < |s| && Equiv(le, x, s[j])
    ensures |Peers(le, x, s)| > 0
    ensures exists i :: 0 <= i <= j && s[i] == Peers(le, x, s)[0]
  {
    if Equiv(le, x, s[0]) {
      assert s[0] == Peers(le, x, s)[0];
    } else {
      PeersHeadIsEarliest(le, x, s[1..], j - 1);
      var i :| 0 <= i <= j - 1 && s[1..][i] == Peers(le, x, s[1..])[0];
      assert s[i + 1] == Peers(le, x, s)[0];
    }
  }

  /** A sorted sequence with the same elements per key, in the same order per key,
      as `s` is `Sort(le, s)`: every stable sort by `le` produces this one result. */
  lemma {:induction false} SortUnique<T(!new)>(le: (T, T) -> bool, r: seq<T>, s: seq<T>)
    requires TotalPreorder(le)
    requires Sorted(le, r)
    requires forall x :: Peers(le, x, r) == Peers(le, x, s)
    ensures r == Sort(le, s)
  {
    SortSorted(le, s);
    forall x ensures Peers(le, x, r) == Peers(le, x, Sort(le, s)) {
      SortStable(le, x, s);
    }
    SortedPeersEqual(le, r, Sort(le, s));
  }

  lemma SortedHeadLe<T>(le: (T, T) -> bool, s: seq<T>, y: T)
    requires Sorted(le, s) && y in s && Equiv(le, s[0], s[0])
    ensures le(s[0], y)
  {
    var k :| 0 <= k < |s| && s[k] == y;
    if k > 0 {
      assert le(s[0], s[k]);
    }
  }

  lemma {:induction false} SortedPeersEqual<T(!new)>(le: (T, T) -> bool, a: seq<T>, b: seq<T>)
    requires TotalPreorder(le)
    requires Sorted(le, a) && Sorted(le, b)
    requires forall x :: Peers(le, x, a) == Peers(le, x, b)
    ensures a == b
    decreases |a| + |b|
  {
    if |a| == 0 && |b| > 0 {
      PeersSelfNonEmpty(le, b);
    } else if |a| > 0 && |b| == 0 {
      PeersSelfNonEmpty(le, a);
    } else if |a| > 0 && |b| > 0 {
      SortedHeadsEqual(le, a, b);
      forall x ensures Peers(le, x, a[1..]) == Peers(le, x, b[1..]) {
        var h := if Equiv(le, x, a[0]) then [a[0]] else [];
        assert Peers(le, x, a) == h + Peers(le, x, a[1..]);
        assert Peers(le, x, b) == h + Peers(le, x, b[1..]);
        assert (h + Peers(le, x, a[1..]))[|h|..] == Peers(le, x, a[1..]);
        assert (h + Peers(le, x, b[1..]))[|h|..] == Peers(le, x, b[1..]);
      }
      SortedPeersEqual(le, a[1..], b[1..]);
      assert a == [a[0]] + a[1..] && b == [b[0]] + b[1..];
    }
  }

  lemma PeersSelfNonEmpty<T(!new)>(le: (T, T) -> bool, s: seq<T>)
    requires Total(le) && |s| > 0
    ensures |Peers(le, s[0], s)| > 0
  {
    assert le(s[0], s[0]);
  }

  /** Two sorted sequences with the same elements per key start with the same element. */
  lemma SortedHeadsEqual<T(!new)>(le: (T, T) -> bool, a: seq<T>, b: seq<T>)
    requires TotalPreorder(le)
    requires |a| > 0 && |b| > 0
    requires Sorted(le, a) && Sorted(le, b)
    requires forall x :: Peers(le, x, a) == Peers(le, x, b)
    ensures a[0] == b[0]
  {
    assert Equiv(le, a[0], a[0]) && Equiv(le, b[0], b[0]);
    // a[0] occurs in b, so b[0] is no greater than it, and symmetrically.
    assert Peers(le, a[0], a)[0] == a[0];
    assert a[0] in Peers(le, a[0], b);
    PeersMembers(le, a[0], b);
    SortedHeadLe(le, b, a[0]);
    assert Peers(le, b[0], b)[0] == b[0];
    assert b[0] in Peers(le, b[0], a);
    PeersMembers(le, b[0], a);
    SortedHeadLe(le, a, b[0]);
    assert Equiv(le, a[0], b[0]);
    assert Peers(le, a[0], b)[0] == b[0];
  }
}
