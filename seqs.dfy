/** The aggregation stages the controllers chain together ($match, $sort, $skip/$limit,
    $count, findOne), as functions over a collection held in natural (insertion) order. */
module Seqs {
  import opened Common

  /** `$match`: the elements satisfying `p`, in their original order. */
  function Filter<T>(s: seq<T>, p: T -> bool): (r: seq<T>)
    ensures |r| == CountKey(s, p, true)
    ensures forall i :: 0 <= i < |r| ==> r[i] in s && p(r[i])
    ensures forall i :: 0 <= i < |s| && p(s[i]) ==> s[i] in r
  {
    if s == [] then []
    else if p(s[0]) then [s[0]] + Filter(s[1..], p)
    else Filter(s[1..], p)
  }

  /** `findOne`: the position of the first element satisfying `p`, if any. */
  function FindIndex<T>(s: seq<T>, p: T -> bool): (r: Option<nat>)
    ensures r.Some? ==> r.value < |s| && p(s[r.value])
    ensures r.Some? ==> forall i :: 0 <= i < r.value ==> !p(s[i])
    ensures r.None? <==> forall i :: 0 <= i < |s| ==> !p(s[i])
  {
    if s == [] then None
    else if p(s[0]) then Some(0)
    else match FindIndex(s[1..], p)
      case None => None
      case Some(i) => Some(i + 1)
  }

  /** Deleting the document at position `k`. */
  function RemoveAt<T>(s: seq<T>, k: nat): (r: seq<T>)
    requires k < |s|
    ensures |r| == |s| - 1
    ensures forall i :: 0 <= i < k ==> r[i] == s[i]
    ensures forall i :: k <= i < |r| ==> r[i] == s[i + 1]
    ensures multiset(r) + multiset{s[k]} == multiset(s)
  {
    assert s == s[..k] + [s[k]] + s[k + 1..];
    s[..k] + s[k + 1..]
  }

  /** `countDocuments({field: k})`, or the `$size` of a `$lookup` on that field: the number
      of elements whose `key` is `k`. */
  function CountKey<T, K(==)>(s: seq<T>, key: T -> K, k: K): (n: nat)
    ensures n <= |s|
    ensures n == 0 <==> forall i :: 0 <= i < |s| ==> key(s[i]) != k
  {
    if s == [] then 0 else (if key(s[0]) == k then 1 else 0) + CountKey(s[1..], key, k)
  }

  lemma {:induction false} CountKeyAppend<T, K>(s: seq<T>, x: T, key: T -> K, k: K)
    ensures CountKey(s + [x], key, k) == CountKey(s, key, k) + if key(x) == k then 1 else 0
  {
    if s != [] {
      assert (s + [x])[1..] == s[1..] + [x];
      CountKeyAppend(s[1..], x, key, k);
    }
  }

  lemma {:induction false} CountKeyRemoveAt<T, K>(s: seq<T>, i: nat, key: T -> K, k: K)
    requires i < |s|
    ensures CountKey(RemoveAt(s, i), key, k) + (if key(s[i]) == k then 1 else 0) == CountKey(s, key, k)
  {
    if i == 0 {
      assert RemoveAt(s, 0) == s[1..];
    } else {
      assert RemoveAt(s, i)[1..] == RemoveAt(s[1..], i - 1);
      CountKeyRemoveAt(s[1..], i - 1, key, k);
    }
  }

  /** Replacing an element by one with the same key keeps every count by that key. */
  lemma {:induction false} CountKeyUpdate<T, K>(s: seq<T>, i: nat, x: T, key: T -> K, k: K)
    requires i < |s| && key(x) == key(s[i])
    ensures CountKey(s[i := x], key, k) == CountKey(s, key, k)
  {
    if i > 0 {
      assert s[i := x][1..] == s[1..][i - 1 := x];
      CountKeyUpdate(s[1..], i - 1, x, key, k);
    }
  }

  /** When `key` takes the value `k` exactly where `key2` takes `k1` or `k2`, the count by
      `key` splits into the two counts by `key2`. */
  lemma {:induction false} CountKeySplit<T, K, L>(s: seq<T>, key: T -> K, k: K, key2: T -> L, k1: L, k2: L)
    requires k1 != k2
    requires forall x :: key(x) == k <==> key2(x) == k1 || key2(x) == k2
    ensures CountKey(s, key, k) == CountKey(s, key2, k1) + CountKey(s, key2, k2)
  {
    if s != [] {
      CountKeySplit(s[1..], key, k, key2, k1, k2);
    }
  }

  /** Counts by a key do not depend on the order of the elements. */
  lemma {:induction false} CountKeyPermutation<T, K>(a: seq<T>, b: seq<T>, key: T -> K, k: K)
    requires multiset(a) == multiset(b)
    ensures CountKey(a, key, k) == CountKey(b, key, k)
    decreases |a|
  {
    if a == [] {
      assert |b| == |multiset(b)| == 0;
    } else {
      assert a[0] in multiset(b);
      var i :| 0 <= i < |b| && b[i] == a[0];
      var rest := RemoveAt(b, i);
      assert a == [a[0]] + a[1..];
      assert multiset(a) == multiset{a[0]} + multiset(a[1..]);
      assert multiset(a[1..]) == multiset(a) - multiset{a[0]};
      assert multiset(rest) == multiset(b) - multiset{b[i]};
      CountKeyPermutation(a[1..], rest, key, k);
      CountKeyRemoveAt(b, i, key, k);
    }
  }

  /** `$match: {field: k}`: the elements whose `key` is `k`, in their order. */
  function FilterKey<T, K(==)>(s: seq<T>, key: T -> K, k: K): (r: seq<T>)
    ensures |r| == CountKey(s, key, k)
    ensures forall x :: x in r ==> key(x) == k && x in s
    ensures forall i :: 0 <= i < |s| && key(s[i]) == k ==> s[i] in r
  {
    if s == [] then []
    else
      var rest := FilterKey(s[1..], key, k);
      assert forall i :: 1 <= i < |s| ==> s[i] == s[1..][i - 1];
      (if key(s[0]) == k then [s[0]] else []) + rest
  }

  /** `{$sort: {createdAt: -1}}`: no element is newer than one before it. */
  ghost predicate NewestFirst<T>(s: seq<T>, key: T -> nat)
  {
    forall i, j :: 0 <= i < j < |s| ==> key(s[i]) >= key(s[j])
  }

  function InsertNewest<T>(x: T, s: seq<T>, key: T -> nat): (r: seq<T>)
    requires NewestFirst(s, key)
    ensures NewestFirst(r, key)
    ensures multiset(r) == multiset(s) + multiset{x}
    ensures |r| == |s| + 1
  {
    if s == [] || key(x) >= key(s[0]) then [x] + s
    else
      var rest := InsertNewest(x, s[1..], key);
      assert s == [s[0]] + s[1..];
      BoundedAfterInsert(x, s, rest, key);
      [s[0]] + rest
  }

  lemma BoundedAfterInsert<T>(x: T, s: seq<T>, rest: seq<T>, key: T -> nat)
    requires s != [] && NewestFirst(s, key) && key(x) < key(s[0])
    requires NewestFirst(rest, key) && multiset(rest) == multiset(s[1..]) + multiset{x}
    ensures NewestFirst([s[0]] + rest, key)
  {
    var r := [s[0]] + rest;
    forall i, j | 0 <= i < j < |r| ensures key(r[i]) >= key(r[j]) {
      if i == 0 {
        var y := rest[j - 1];
        assert y in multiset(rest);
        if y != x {
          assert y in multiset(s[1..]);
          var m :| 0 <= m < |s[1..]| && s[1..][m] == y;
          assert s[m + 1] == y;
        }
      } else {
        assert r[i] == rest[i - 1] && r[j] == rest[j - 1];
      }
    }
  }

  /** Sorting newest first: a reordering of `s`, with ties left in natural order. */
  function SortNewestFirst<T>(s: seq<T>, key: T -> nat): (r: seq<T>)
    ensures NewestFirst(r, key)
    ensures multiset(r) == multiset(s)
    ensures |r| == |s|
  {
    if s == [] then []
    else
      assert s == [s[0]] + s[1..];
      InsertNewest(s[0], SortNewestFirst(s[1..], key), key)
  }

  /** Sorting keeps exactly the elements it was given. */
  lemma SortKeepsMembers<T>(s: seq<T>, key: T -> nat)
    ensures forall x :: x in SortNewestFirst(s, key) <==> x in s
  {
    var r := SortNewestFirst(s, key);
    forall x ensures x in r <==> x in s {
      assert x in r <==> x in multiset(r);
      assert x in s <==> x in multiset(s);
    }
  }

  /** `$match` then `$sort` holds exactly the elements matching the filter. */
  lemma SortedMatchMembers<T, K>(s: seq<T>, key: T -> K, k: K, sortKey: T -> nat)
    ensures forall x :: x in SortNewestFirst(FilterKey(s, key, k), sortKey) <==> x in s && key(x) == k
  {
    var m := FilterKey(s, key, k);
    SortKeepsMembers(m, sortKey);
    forall x | x in s && key(x) == k ensures x in m {
      var i :| 0 <= i < |s| && s[i] == x;
    }
  }

  /** A subsequence of a newest-first sequence is newest first. */
  lemma {:induction false} FilterNewestFirst<T>(s: seq<T>, p: T -> bool, key: T -> nat)
    requires NewestFirst(s, key)
    ensures NewestFirst(Filter(s, p), key)
  {
    if s != [] {
      FilterNewestFirst(s[1..], p, key);
      var rest := Filter(s[1..], p);
      if p(s[0]) {
        var r := [s[0]] + rest;
        forall i, j | 0 <= i < j < |r| ensures key(r[i]) >= key(r[j]) {
          if i == 0 {
            assert r[j] in s[1..];
          }
        }
      }
    }
  }

  /** The same for a `$match` on a key. */
  lemma {:induction false} FilterKeyNewestFirst<T, K>(s: seq<T>, key: T -> K, k: K, sortKey: T -> nat)
    requires NewestFirst(s, sortKey)
    ensures NewestFirst(FilterKey(s, key, k), sortKey)
  {
    if s != [] {
      FilterKeyNewestFirst(s[1..], key, k, sortKey);
      var rest := FilterKey(s[1..], key, k);
      if key(s[0]) == k {
        var r := [s[0]] + rest;
        forall i, j | 0 <= i < j < |r| ensures sortKey(r[i]) >= sortKey(r[j]) {
          if i == 0 {
            assert r[j] in s[1..];
          }
        }
      }
    }
  }

  /** Number of documents `$skip` passes over: `(page - 1) * limit`. */
  function Skip(page: int, limit: int): nat
    requires page >= 1 && limit >= 1
  {
    (page - 1) * limit
  }

  /** `$skip: (page - 1) * limit` then `$limit: limit`. The database refuses a negative
      skip and a limit that is not positive, so those pages do not exist. */
  function Paginate<T>(s: seq<T>, page: int, limit: int): (r: Option<seq<T>>)
    ensures r.None? <==> page < 1 || limit < 1
    ensures r.Some? ==> |r.value| <= limit
    ensures r.Some? ==> |r.value| == PageLength(|s|, page, limit)
    ensures r.Some? ==> forall i :: 0 <= i < |r.value| ==> r.value[i] == s[Skip(page, limit) + i]
  {
    if page < 1 || limit < 1 then None
    else
      var skip := Skip(page, limit);
      if skip >= |s| then Some([])
      else Some(s[skip..skip + Min(limit, |s| - skip)])
  }

  /** How many of `n` documents a page shows: none once the skip passes the end, otherwise
      `limit` of them or whatever is left. */
  function PageLength(n: nat, page: int, limit: int): nat
    requires page >= 1 && limit >= 1
  {
    if Skip(page, limit) >= n then 0 else Min(limit, n - Skip(page, limit))
  }

  function Min(a: int, b: int): int
  {
    if a <= b then a else b
  }

  /** A page of a newest-first sequence is newest first. */
  lemma PageNewestFirst<T>(s: seq<T>, page: int, limit: int, key: T -> nat)
    requires NewestFirst(s, key)
    requires Paginate(s, page, limit).Some?
    ensures NewestFirst(Paginate(s, page, limit).value, key)
  {
    var r := Paginate(s, page, limit).value;
    var skip := Skip(page, limit);
    forall i, j | 0 <= i < j < |r| ensures key(r[i]) >= key(r[j]) {
      assert r[i] == s[skip + i] && r[j] == s[skip + j];
    }
  }

  /** A page holds only elements of the sequence it was cut from. */
  lemma PageMembers<T>(s: seq<T>, page: int, limit: int)
    requires Paginate(s, page, limit).Some?
    ensures forall x :: x in Paginate(s, page, limit).value ==> x in s
  {
    var r := Paginate(s, page, limit).value;
    forall x | x in r ensures x in s {
      var i :| 0 <= i < |r| && r[i] == x;
      assert x == s[Skip(page, limit) + i];
    }
  }

  /** `$project`/`$addFields` applied to every element. */
  function Map<T, U>(s: seq<T>, f: T -> U): (r: seq<U>)
    ensures |r| == |s|
    ensures forall i :: 0 <= i < |s| ==> r[i] == f(s[i])
  {
    seq(|s|, i requires 0 <= i < |s| => f(s[i]))
  }

  /** Whether `f` yields something for an element. */
  function Defined<T, U>(f: T -> Option<U>): T -> bool
  {
    (x: T) => f(x).Some?
  }

  /** A `$lookup` followed by `$unwind`: each element is joined by `f`, and those that join
      to nothing are dropped. */
  function FilterMap<T, U>(s: seq<T>, f: T -> Option<U>): (r: seq<U>)
    ensures |r| <= |s|
    ensures forall x :: x in s && f(x).Some? ==> f(x).value in r
  {
    if s == [] then []
    else (if f(s[0]).Some? then [f(s[0]).value] else []) + FilterMap(s[1..], f)
  }

  /** The join yields one element per element that joins to something, in their order. */
  lemma {:induction false} FilterMapDefined<T, U>(s: seq<T>, f: T -> Option<U>)
    ensures var r := FilterMap(s, f);
      var live := FilterKey(s, Defined(f), true);
      && |r| == |live|
      && forall i :: 0 <= i < |live| ==> f(live[i]) == Some(r[i])
    decreases |s|
  {
    if s != [] {
      FilterMapDefined(s[1..], f);
      var r := FilterMap(s, f);
      var live := FilterKey(s, Defined(f), true);
      var restR := FilterMap(s[1..], f);
      var restLive := FilterKey(s[1..], Defined(f), true);
      if f(s[0]).Some? {
        assert live == [s[0]] + restLive;
        assert r == [f(s[0]).value] + restR;
        forall i | 0 < i < |live| ensures f(live[i]) == Some(r[i]) {
          assert live[i] == restLive[i - 1] && r[i] == restR[i - 1];
        }
      } else {
        assert live == restLive && r == restR;
      }
    }
  }
}
