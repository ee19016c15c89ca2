// Sorting newest first. `Array.prototype.sort` is stable, so its result is
// a function of its input: this one.
module NewestFirst {

  function Insert<T>(x: T, s: seq<T>, time: T -> int): seq<T> {
    if s == [] then [x]
    else if time(x) >= time(s[0]) then [x] + s
    else [s[0]] + Insert(x, s[1..], time)
  }

  function Sort<T>(s: seq<T>, time: T -> int): seq<T> {
    if s == [] then [] else Insert(s[0], Sort(s[1..], time), time)
  }

  predicate Sorted<T>(s: seq<T>, time: T -> int) {
    forall i, j :: 0 <= i < j < |s| ==> time(s[i]) >= time(s[j])
  }

  lemma {:induction false} InsertAdds<T>(x: T, s: seq<T>, time: T -> int)
    ensures multiset(Insert(x, s, time)) == multiset{x} + multiset(s)
    ensures |Insert(x, s, time)| == |s| + 1
  {
    if s != [] {
      assert s == [s[0]] + s[1..];
      InsertAdds(x, s[1..], time);
    }
  }

  lemma PrependSorted<T>(x: T, s: seq<T>, time: T -> int)
    requires Sorted(s, time) && (s == [] || time(x) >= time(s[0]))
    ensures Sorted([x] + s, time)
  {
  }

  lemma {:induction false} InsertSorts<T>(x: T, s: seq<T>, time: T -> int)
    requires Sorted(s, time)
    ensures Sorted(Insert(x, s, time), time)
    ensures Insert(x, s, time) != []
    ensures Insert(x, s, time)[0] == x || (s != [] && Insert(x, s, time)[0] == s[0])
  {
    if s == [] || time(x) >= time(s[0]) {
      PrependSorted(x, s, time);
    } else {
      InsertSorts(x, s[1..], time);
      PrependSorted(s[0], Insert(x, s[1..], time), time);
    }
  }

  lemma {:induction false} SortSorts<T>(s: seq<T>, time: T -> int)
    ensures Sorted(Sort(s, time), time)
    ensures multiset(Sort(s, time)) == multiset(s)
    ensures |Sort(s, time)| == |s|
  {
    if s != [] {
      SortSorts(s[1..], time);
      InsertSorts(s[0], Sort(s[1..], time), time);
      InsertAdds(s[0], Sort(s[1..], time), time);
      assert s == [s[0]] + s[1..];
    }
  }

  // A list already in order stays as it is.
  lemma {:induction false} SortOfSorted<T>(s: seq<T>, time: T -> int)
    requires Sorted(s, time)
    ensures Sort(s, time) == s
  {
    if s != [] {
      SortOfSorted(s[1..], time);
    }
  }

  // Stable two-way merge: on equal times the left list goes first.
  function Merge<T>(a: seq<T>, b: seq<T>, time: T -> int): seq<T>
    decreases |a| + |b|
  {
    if a == [] then b
    else if b == [] then a
    else if time(a[0]) >= time(b[0]) then [a[0]] + Merge(a[1..], b, time)
    else [b[0]] + Merge(a, b[1..], time)
  }

  lemma {:induction false} InsertIntoMerge<T>(x: T, a: seq<T>, b: seq<T>, time: T -> int)
    requires Sorted(a, time) && Sorted(b, time)
    ensures Insert(x, Merge(a, b, time), time) == Merge(Insert(x, a, time), b, time)
    decreases |a| + |b|
  {
    if a == [] {
      if b != [] && time(x) < time(b[0]) {
        InsertIntoMerge(x, a, b[1..], time);
        assert Merge([], b[1..], time) == b[1..];
      }
    } else if b != [] {
      var xs := Insert(x, a, time);
      if time(a[0]) >= time(b[0]) {
        if time(x) < time(a[0]) {
          InsertIntoMerge(x, a[1..], b, time);
          assert xs == [a[0]] + Insert(x, a[1..], time);
          assert xs[1..] == Insert(x, a[1..], time);
        } else {
          assert xs[1..] == a;
        }
      } else {
        if time(x) < time(b[0]) {
          InsertIntoMerge(x, a, b[1..], time);
        } else {
          assert xs == [x] + a && xs[1..] == a;
        }
      }
    }
  }

  // Sorting a concatenation is merging the sorted parts.
  lemma {:induction false} SortOfConcat<T>(a: seq<T>, b: seq<T>, time: T -> int)
    ensures Sort(a + b, time) == Merge(Sort(a, time), Sort(b, time), time)
  {
    if a == [] {
      assert a + b == b;
    } else {
      assert (a + b)[1..] == a[1..] + b;
      SortOfConcat(a[1..], b, time);
      SortSorts(a[1..], time);
      SortSorts(b, time);
      InsertIntoMerge(a[0], Sort(a[1..], time), Sort(b, time), time);
    }
  }

  function Take<T>(s: seq<T>, n: nat): seq<T> {
    if |s| <= n then s else s[..n]
  }

  // The n first elements of a merge need only the n first of either side.
  lemma {:induction false} TakeOfMerge<T>(a: seq<T>, b: seq<T>, a': seq<T>, b': seq<T>, n: nat, time: T -> int)
    requires Take(a, n) == Take(a', n) && Take(b, n) == Take(b', n)
    ensures Take(Merge(a, b, time), n) == Take(Merge(a', b', time), n)
    decreases n
  {
    if n > 0 {
      if a == [] || b == [] {
        assert a == [] ==> a' == [];
        assert b == [] ==> b' == [];
      } else {
        assert Take(a, n)[0] == a[0] && Take(b, n)[0] == b[0];
        assert a' != [] && b' != [] && a'[0] == a[0] && b'[0] == b[0];
        if time(a[0]) >= time(b[0]) {
          TakeTail(a, a', n);
          TakeShorter(b, b', n);
          TakeOfMerge(a[1..], b, a'[1..], b', n - 1, time);
          TakeCons(a[0], Merge(a[1..], b, time), n);
          TakeCons(a[0], Merge(a'[1..], b', time), n);
        } else {
          TakeTail(b, b', n);
          TakeShorter(a, a', n);
          TakeOfMerge(a, b[1..], a', b'[1..], n - 1, time);
          TakeCons(b[0], Merge(a, b[1..], time), n);
          TakeCons(b[0], Merge(a', b'[1..], time), n);
        }
      }
    }
  }

  lemma TakeTail<T>(a: seq<T>, a': seq<T>, n: nat)
    requires n > 0 && a != [] && a' != [] && Take(a, n) == Take(a', n)
    ensures Take(a[1..], n - 1) == Take(a'[1..], n - 1)
  {
    assert Take(a[1..], n - 1) == Take(a, n)[1..];
    assert Take(a'[1..], n - 1) == Take(a', n)[1..];
  }

  lemma TakeShorter<T>(a: seq<T>, a': seq<T>, n: nat)
    requires n > 0 && Take(a, n) == Take(a', n)
    ensures Take(a, n - 1) == Take(a', n - 1)
  {
    assert Take(a, n - 1) == Take(Take(a, n), n - 1);
    assert Take(a', n - 1) == Take(Take(a', n), n - 1);
  }

  lemma TakeCons<T>(x: T, s: seq<T>, n: nat)
    requires n > 0
    ensures Take([x] + s, n) == [x] + Take(s, n - 1)
  {
  }

  ghost predicate DistinctTimes<T>(s: seq<T>, time: T -> int) {
    forall i, j :: 0 <= i < j < |s| ==> time(s[i]) != time(s[j])
  }

  // With distinct times the order is forced: any newest-first arrangement of
  // the same rows is the sorted one.
  lemma {:induction false} DistinctTimesForceOrder<T>(s: seq<T>, t: seq<T>, time: T -> int)
    requires Sorted(s, time) && Sorted(t, time) && multiset(s) == multiset(t)
    requires DistinctTimes(s, time)
    ensures s == t
  {
    assert |s| == |multiset(s)| == |multiset(t)| == |t|;
    if s != [] {
      SameNewest(s, t, time);
      WithoutNewest(s, time);
      WithoutNewest(t, time);
      DistinctTimesForceOrder(s[1..], t[1..], time);
    }
  }

  lemma WithoutNewest<T>(s: seq<T>, time: T -> int)
    requires Sorted(s, time) && s != []
    ensures s == [s[0]] + s[1..]
    ensures Sorted(s[1..], time) && multiset(s[1..]) == multiset(s) - multiset{s[0]}
    ensures DistinctTimes(s, time) ==> DistinctTimes(s[1..], time)
  {
    assert s == [s[0]] + s[1..];
  }

  lemma SameNewest<T>(s: seq<T>, t: seq<T>, time: T -> int)
    requires Sorted(s, time) && Sorted(t, time) && multiset(s) == multiset(t)
    requires DistinctTimes(s, time)
    requires s != [] && t != []
    ensures s[0] == t[0]
  {
    assert s[0] in multiset(t) && t[0] in multiset(s);
    var i :| 0 <= i < |t| && t[i] == s[0];
    var j :| 0 <= j < |s| && s[j] == t[0];
    assert time(t[0]) >= time(t[i]);
    assert time(s[0]) >= time(s[j]);
  }
}
