/**
 * The order in which the list screen shows the roster: the query sorts by
 * `afastado` ascending (active collaborators before away ones) and then by
 * `dataDispensa` ascending with nulls first. SQL gives no guarantee about
 * rows whose keys are equal, so the order is specified as a relation (a
 * sorted permutation), not as one function of the table.
 */
module DisplayOrder {
  import opened Collaborators

  /** The two-level sort key of a record. */
  datatype DisplayKey = DisplayKey(afastado: bool, dataDispensa: Option<Timestamp>)

  function Key(u: User): DisplayKey
  {
    DisplayKey(u.afastado, u.dataDispensa)
  }

  /** `a` may be listed before `b`: false before true, then null before any date, then earlier dates first. */
  predicate KeyLe(a: DisplayKey, b: DisplayKey)
  {
    if a.afastado != b.afastado then !a.afastado
    else match (a.dataDispensa, b.dataDispensa)
      case (None, _) => true
      case (Some(_), None) => false
      case (Some(x), Some(y)) => x <= y
  }

  /** KeyLe is a total order on keys. */
  lemma KeyLeTotalOrder(a: DisplayKey, b: DisplayKey, c: DisplayKey)
    ensures KeyLe(a, a)
    ensures KeyLe(a, b) || KeyLe(b, a)
    ensures KeyLe(a, b) && KeyLe(b, a) ==> a == b
    ensures KeyLe(a, b) && KeyLe(b, c) ==> KeyLe(a, c)
  {
  }

  predicate DisplaySorted(s: seq<User>)
  {
    forall i, j :: 0 <= i < j < |s| ==> KeyLe(Key(s[i]), Key(s[j]))
  }

  /** `r` is an order the query may return for the table `users`. */
  predicate IsDisplayOrder(users: seq<User>, r: seq<User>)
  {
    multiset(r) == multiset(users) && DisplaySorted(r)
  }

  /** Every active record is listed before every away record. */
  lemma ActiveBeforeAway(r: seq<User>, i: nat, j: nat)
    requires DisplaySorted(r)
    requires i < |r| && j < |r|
    requires !r[i].afastado && r[j].afastado
    ensures i < j
  {
  }

  /**
   * Among records with the same flag, those without a dismissal date come
   * first, and dated ones appear in ascending date order.
   */
  lemma DismissalOrderWithinFlag(r: seq<User>, i: nat, j: nat)
    requires DisplaySorted(r)
    requires i < j < |r| && r[i].afastado == r[j].afastado
    ensures r[j].dataDispensa.None? ==> r[i].dataDispensa.None?
    ensures r[i].dataDispensa.Some? && r[j].dataDispensa.Some? ==>
              r[i].dataDispensa.value <= r[j].dataDispensa.value
  {
    assert KeyLe(Key(r[i]), Key(r[j]));
  }

  /** Inserts `x` before the first element that must not precede it. */
  function Insert(x: User, s: seq<User>): (r: seq<User>)
    ensures multiset(r) == multiset(s) + multiset{x}
  {
    if s == [] then [x]
    else if KeyLe(Key(x), Key(s[0])) then [x] + s
    else
      assert s == [s[0]] + s[1..];
      [s[0]] + Insert(x, s[1..])
  }

  /** Inserting into a sorted list keeps it sorted. */
  lemma {:induction false} InsertSorted(x: User, s: seq<User>)
    requires DisplaySorted(s)
    ensures DisplaySorted(Insert(x, s))
  {
    if s != [] && !KeyLe(Key(x), Key(s[0])) {
      var t := Insert(x, s[1..]);
      InsertSorted(x, s[1..]);
      forall k | 0 <= k < |t|
        ensures KeyLe(Key(s[0]), Key(t[k]))
      {
        assert t[k] in multiset(t);
        if t[k] != x {
          assert t[k] in multiset(s[1..]);
          var m :| 0 <= m < |s[1..]| && s[1..][m] == t[k];
          assert s[m + 1] == t[k];
        } else {
          KeyLeTotalOrder(Key(x), Key(s[0]), Key(x));
        }
      }
      assert Insert(x, s) == [s[0]] + t;
    }
  }

  /** One order the query may return: an insertion sort by the display key. */
  function OrderForDisplay(users: seq<User>): (r: seq<User>)
    ensures IsDisplayOrder(users, r)
  {
    if users == [] then []
    else
      var rest := OrderForDisplay(users[1..]);
      InsertSorted(users[0], rest);
      assert users == [users[0]] + users[1..];
      Insert(users[0], rest)
  }

  /** A roster already in display order is left as it is. */
  lemma {:induction false} OrderForDisplayFixesSorted(s: seq<User>)
    requires DisplaySorted(s)
    ensures OrderForDisplay(s) == s
  {
    if s != [] {
      OrderForDisplayFixesSorted(s[1..]);
      if |s| > 1 {
        assert KeyLe(Key(s[0]), Key(s[1..][0]));
      }
    }
  }

  /** The sequence of display keys of a list of records. */
  function Keys(s: seq<User>): (k: seq<DisplayKey>)
    ensures |k| == |s|
  {
    seq(|s|, i requires 0 <= i < |s| => Key(s[i]))
  }

  predicate KeysSorted(k: seq<DisplayKey>)
  {
    forall i, j :: 0 <= i < j < |k| ==> KeyLe(k[i], k[j])
  }

  /** Removing the element at `j` removes one occurrence of it. */
  lemma RemoveAtMultiset<T>(s: seq<T>, j: nat)
    requires j < |s|
    ensures multiset(s) == multiset(s[..j] + s[j + 1..]) + multiset{s[j]}
  {
    assert s == s[..j] + [s[j]] + s[j + 1..];
  }

  lemma MultisetCons<T>(s: seq<T>)
    requires s != []
    ensures multiset(s) == multiset(s[1..]) + multiset{s[0]}
  {
    assert s == [s[0]] + s[1..];
  }

  lemma MultisetCancel<T>(a: multiset<T>, b: multiset<T>, x: T)
    requires a + multiset{x} == b + multiset{x}
    ensures a == b
  {
    forall y
      ensures a[y] == b[y]
    {
      assert (a + multiset{x})[y] == a[y] + multiset{x}[y];
      assert (b + multiset{x})[y] == b[y] + multiset{x}[y];
    }
  }

  lemma KeysOfRemoveAt(s: seq<User>, j: nat)
    requires j < |s|
    ensures multiset(Keys(s)) == multiset(Keys(s[..j] + s[j + 1..])) + multiset{Key(s[j])}
  {
    var k := Keys(s);
    assert Keys(s[..j] + s[j + 1..]) == k[..j] + k[j + 1..];
    RemoveAtMultiset(k, j);
  }

  lemma KeysCons(s: seq<User>)
    requires s != []
    ensures multiset(Keys(s)) == multiset(Keys(s[1..])) + multiset{Key(s[0])}
  {
    assert Keys(s) == [Key(s[0])] + Keys(s[1..]);
  }

  /** Permuting records permutes their keys. */
  lemma {:induction false} KeysOfPermutation(s1: seq<User>, s2: seq<User>)
    requires multiset(s1) == multiset(s2)
    ensures multiset(Keys(s1)) == multiset(Keys(s2))
    decreases |s1|
  {
    if s1 == [] {
      assert |s2| == |multiset(s2)| == 0;
    } else {
      var j := PermutationHead(s1, s2);
      var rest := s2[..j] + s2[j + 1..];
      KeysOfPermutation(s1[1..], rest);
      KeysCons(s1);
      KeysOfRemoveAt(s2, j);
      assert multiset(Keys(s2)) == multiset(Keys(rest)) + multiset{Key(s1[0])};
    }
  }

  /** The first element of a list occurs somewhere in any permutation of it, and the rests match. */
  lemma PermutationHead<T>(s1: seq<T>, s2: seq<T>) returns (j: nat)
    requires multiset(s1) == multiset(s2) && s1 != []
    ensures j < |s2| && s2[j] == s1[0]
    ensures multiset(s1[1..]) == multiset(s2[..j] + s2[j + 1..])
  {
    assert s1[0] in multiset(s2);
    j :| 0 <= j < |s2| && s2[j] == s1[0];
    MultisetCons(s1);
    RemoveAtMultiset(s2, j);
    MultisetCancel(multiset(s1[1..]), multiset(s2[..j] + s2[j + 1..]), s1[0]);
  }

  /** Two sorted key sequences with the same elements are equal. */
  lemma {:induction false} SortedKeysUnique(k1: seq<DisplayKey>, k2: seq<DisplayKey>)
    requires KeysSorted(k1) && KeysSorted(k2)
    requires multiset(k1) == multiset(k2)
    ensures k1 == k2
    decreases |k1|
  {
    assert |k1| == |multiset(k1)| == |multiset(k2)| == |k2|;
    if k1 != [] {
      SortedHeadIsLeast(k2, k1[0]);
      SortedHeadIsLeast(k1, k2[0]);
      KeyLeTotalOrder(k1[0], k2[0], k2[0]);
      assert k1[0] == k2[0];
      MultisetCons(k1);
      MultisetCons(k2);
      MultisetCancel(multiset(k1[1..]), multiset(k2[1..]), k1[0]);
      SortedKeysUnique(k1[1..], k2[1..]);
      assert k1 == [k1[0]] + k1[1..] == [k2[0]] + k2[1..] == k2;
    }
  }

  /** The head of a sorted key sequence precedes every key in it. */
  lemma SortedHeadIsLeast(k: seq<DisplayKey>, x: DisplayKey)
    requires KeysSorted(k) && x in multiset(k)
    ensures KeyLe(k[0], x)
  {
    var j :| 0 <= j < |k| && k[j] == x;
    if j == 0 {
      KeyLeTotalOrder(x, x, x);
    }
  }

  /**
   * The order is determined up to ties: any two orders the query may
   * return for the same table have the same key at every position.
   */
  lemma DisplayOrderKeysUnique(users: seq<User>, r1: seq<User>, r2: seq<User>)
    requires IsDisplayOrder(users, r1) && IsDisplayOrder(users, r2)
    ensures Keys(r1) == Keys(r2)
  {
    KeysOfPermutation(r1, r2);
    SortedKeysUnique(Keys(r1), Keys(r2));
  }

  /**
   * Ordering twice is ordering once: re-sorting a display order yields a
   * display order of the original table with the same keys in the same places.
   */
  lemma DisplayOrderIdempotent(users: seq<User>, r: seq<User>, r2: seq<User>)
    requires IsDisplayOrder(users, r) && IsDisplayOrder(r, r2)
    ensures IsDisplayOrder(users, r2)
    ensures Keys(r2) == Keys(r)
  {
    DisplayOrderKeysUnique(users, r, r2);
  }

  /**
   * Worked case: an active record without a dismissal date, an away record,
   * and an active record with a date have exactly one display order.
   */
  lemma ThreeRecordOrder(a: User, b: User, c: User, r: seq<User>)
    requires !a.afastado && a.dataDispensa.None?
    requires b.afastado && b.dataDispensa.None?
    requires !c.afastado && c.dataDispensa.Some?
    requires IsDisplayOrder([a, b, c], r)
    ensures r == [a, c, b]
  {
    var expected := [a, c, b];
    assert multiset(expected) == multiset([a, b, c]);
    assert IsDisplayOrder([a, b, c], expected);
    DisplayOrderKeysUnique([a, b, c], r, expected);
    assert |r| == 3;
    forall i | 0 <= i < 3
      ensures r[i] == expected[i]
    {
      assert Keys(r)[i] == Keys(expected)[i];
      assert r[i] in multiset([a, b, c]);
    }
  }
}
