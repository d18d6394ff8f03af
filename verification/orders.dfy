/**
 * The stable sort by an integer key that the bot relies on (Python's `sorted`
 * with a `key` and an optional `reverse=True`), written as an insertion sort.
 *
 * Stability is stated with `WithKey`: the elements that share a key keep their
 * relative order, in either direction.
 */
module Orders {

  /** Key `a` may stand before key `b` in the requested direction. */
  predicate InOrder(a: int, b: int, descending: bool) {
    if descending then a >= b else a <= b
  }

  ghost predicate Sorted<T>(s: seq<T>, key: T -> int, descending: bool) {
    forall i, j :: 0 <= i < j < |s| ==> InOrder(key(s[i]), key(s[j]), descending)
  }

  function Last<T>(s: seq<T>): T
    requires |s| > 0
  {
    s[|s| - 1]
  }

  /** The elements of `s` whose key is `k`, in the order they have in `s`. */
  function WithKey<T>(s: seq<T>, key: T -> int, k: int): seq<T> {
    if s == [] then []
    else (if key(s[0]) == k then [s[0]] else []) + WithKey(s[1..], key, k)
  }

  /**
   * Puts `x` in front of the first element it may precede, hence ahead of
   * every element with an equal key.
   */
  function Insert<T>(x: T, s: seq<T>, key: T -> int, descending: bool): (r: seq<T>)
    ensures |r| == |s| + 1
  {
    if s == [] then [x]
    else if InOrder(key(x), key(s[0]), descending) then [x] + s
    else [s[0]] + Insert(x, s[1..], key, descending)
  }

  /** Python's `sorted(s, key=key, reverse=descending)`. */
  function SortBy<T>(s: seq<T>, key: T -> int, descending: bool): (r: seq<T>)
    ensures |r| == |s|
  {
    if s == [] then [] else Insert(s[0], SortBy(s[1..], key, descending), key, descending)
  }

  lemma {:induction false} InsertPermutes<T>(x: T, s: seq<T>, key: T -> int, descending: bool)
    ensures multiset(Insert(x, s, key, descending)) == multiset(s) + multiset{x}
  {
    if s != [] && !InOrder(key(x), key(s[0]), descending) {
      var t := Insert(x, s[1..], key, descending);
      InsertPermutes(x, s[1..], key, descending);
      assert Insert(x, s, key, descending) == [s[0]] + t;
      assert multiset([s[0]] + t) == multiset{s[0]} + multiset(t);
      assert s == [s[0]] + s[1..];
      assert multiset(s) == multiset{s[0]} + multiset(s[1..]);
    }
  }

  /** The sort rearranges its input and nothing more. */
  lemma {:induction false} SortPermutes<T>(s: seq<T>, key: T -> int, descending: bool)
    ensures multiset(SortBy(s, key, descending)) == multiset(s)
  {
    if s != [] {
      SortPermutes(s[1..], key, descending);
      InsertPermutes(s[0], SortBy(s[1..], key, descending), key, descending);
      assert s == [s[0]] + s[1..];
    }
  }

  /** Inserting an element that comes after bound `b` keeps every element after `b`. */
  lemma {:induction false} InsertAfter<T>(x: T, s: seq<T>, key: T -> int, descending: bool, b: int)
    requires InOrder(b, key(x), descending)
    requires forall j :: 0 <= j < |s| ==> InOrder(b, key(s[j]), descending)
    ensures forall j :: 0 <= j < |Insert(x, s, key, descending)| ==>
              InOrder(b, key(Insert(x, s, key, descending)[j]), descending)
  {
    if s != [] && !InOrder(key(x), key(s[0]), descending) {
      InsertAfter(x, s[1..], key, descending, b);
      assert Insert(x, s, key, descending) == [s[0]] + Insert(x, s[1..], key, descending);
    }
  }

  lemma {:induction false} InsertSorted<T>(x: T, s: seq<T>, key: T -> int, descending: bool)
    requires Sorted(s, key, descending)
    ensures Sorted(Insert(x, s, key, descending), key, descending)
  {
    if s != [] && !InOrder(key(x), key(s[0]), descending) {
      var t := Insert(x, s[1..], key, descending);
      InsertSorted(x, s[1..], key, descending);
      InsertAfter(x, s[1..], key, descending, key(s[0]));
      var r := [s[0]] + t;
      assert r == Insert(x, s, key, descending);
      forall i, j | 0 <= i < j < |r|
        ensures InOrder(key(r[i]), key(r[j]), descending)
      {
        if i > 0 {
          assert r[i] == t[i - 1] && r[j] == t[j - 1];
        } else {
          assert r[j] == t[j - 1];
        }
      }
    }
  }

  /** Two positions of an ordered sequence, taken in order, have their keys in order. */
  lemma SortedPair<T>(s: seq<T>, key: T -> int, descending: bool, i: nat, j: nat)
    requires Sorted(s, key, descending)
    requires i <= j < |s|
    ensures InOrder(key(s[i]), key(s[j]), descending)
  {
  }

  /** The sort yields an ordered sequence. */
  lemma {:induction false} SortSorted<T>(s: seq<T>, key: T -> int, descending: bool)
    ensures Sorted(SortBy(s, key, descending), key, descending)
  {
    if s != [] {
      SortSorted(s[1..], key, descending);
      InsertSorted(s[0], SortBy(s[1..], key, descending), key, descending);
    }
  }

  /** `WithKey` of a sequence given by its head and tail. */
  lemma WithKeyCons<T>(x: T, s: seq<T>, key: T -> int, k: int)
    ensures WithKey([x] + s, key, k) == (if key(x) == k then [x] else []) + WithKey(s, key, k)
  {
    assert ([x] + s)[1..] == s;
  }

  lemma SwapEmpty<T>(a: seq<T>, b: seq<T>, c: seq<T>)
    requires a == [] || b == []
    ensures a + (b + c) == b + (a + c)
  {
  }

  lemma {:induction false} InsertKeepsTies<T>(x: T, s: seq<T>, key: T -> int, descending: bool, k: int)
    ensures WithKey(Insert(x, s, key, descending), key, k)
         == (if key(x) == k then [x] else []) + WithKey(s, key, k)
  {
    if s == [] || InOrder(key(x), key(s[0]), descending) {
      WithKeyCons(x, s, key, k);
    } else {
      var t := Insert(x, s[1..], key, descending);
      InsertKeepsTies(x, s[1..], key, descending, k);
      WithKeyCons(s[0], t, key, k);
      WithKeyCons(s[0], s[1..], key, k);
      assert [s[0]] + s[1..] == s;
      SwapEmpty(if key(s[0]) == k then [s[0]] else [], if key(x) == k then [x] else [], WithKey(s[1..], key, k));
    }
  }

  /** Stability: for every key, the elements with that key keep their input order. */
  lemma {:induction false} SortKeepsTies<T>(s: seq<T>, key: T -> int, descending: bool, k: int)
    ensures WithKey(SortBy(s, key, descending), key, k) == WithKey(s, key, k)
  {
    if s != [] {
      SortKeepsTies(s[1..], key, descending, k);
      InsertKeepsTies(s[0], SortBy(s[1..], key, descending), key, descending, k);
    }
  }

  /** The first element with a given key heads `WithKey` for that key. */
  lemma {:induction false} WithKeyFirst<T>(s: seq<T>, key: T -> int, i: nat)
    requires i < |s|
    requires forall j :: 0 <= j < i ==> key(s[j]) != key(s[i])
    ensures WithKey(s, key, key(s[i])) != []
    ensures WithKey(s, key, key(s[i]))[0] == s[i]
  {
    if i > 0 {
      WithKeyFirst(s[1..], key, i - 1);
    }
  }

  lemma {:induction false} WithKeyNone<T>(s: seq<T>, key: T -> int, k: int)
    requires forall j :: 0 <= j < |s| ==> key(s[j]) != k
    ensures WithKey(s, key, k) == []
  {
    if s != [] {
      WithKeyNone(s[1..], key, k);
    }
  }

  /** The last element with a given key ends `WithKey` for that key. */
  lemma {:induction false} WithKeyLast<T>(s: seq<T>, key: T -> int, i: nat)
    requires i < |s|
    requires forall j :: i < j < |s| ==> key(s[j]) != key(s[i])
    ensures WithKey(s, key, key(s[i])) != []
    ensures Last(WithKey(s, key, key(s[i]))) == s[i]
  {
    if i == 0 {
      WithKeyNone(s[1..], key, key(s[0]));
    } else {
      WithKeyLast(s[1..], key, i - 1);
    }
  }

  /** Cutting a sequence short cuts each of its key groups short. */
  lemma {:induction false} WithKeyOfPrefix<T>(s: seq<T>, key: T -> int, k: int, n: nat)
    requires n <= |s|
    ensures WithKey(s[..n], key, k) <= WithKey(s, key, k)
  {
    if n > 0 {
      WithKeyOfPrefix(s[1..], key, k, n - 1);
      assert s[..n][1..] == s[1..][..n - 1];
    }
  }
}
