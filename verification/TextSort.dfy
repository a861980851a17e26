/** Python's `sorted` on a list, by a string key: stable, and keeping repetitions. */
module TextSort {
  import opened Text

  predicate AscendingBy<T>(s: seq<T>, key: T -> string) {
    forall i, j | 0 <= i < j < |s| :: AtMost(key(s[i]), key(s[j]))
  }

  predicate DistinctBy<T>(s: seq<T>, key: T -> string) {
    forall i, j | 0 <= i < j < |s| :: key(s[i]) != key(s[j])
  }

  /** Puts `x`, which came after everything in `s`, before the first item with a greater key. */
  function InsertBy<T(!new)>(x: T, s: seq<T>, key: T -> string): (r: seq<T>)
    ensures forall y :: y in r <==> y == x || y in s
  {
    if s == [] then [x]
    else if Less(key(x), key(s[0])) then [x] + s
    else
      assert s == [s[0]] + s[1..];
      [s[0]] + InsertBy(x, s[1..], key)
  }

  function SortBy<T(!new)>(s: seq<T>, key: T -> string): (r: seq<T>)
    ensures forall y :: y in r <==> y in s
  {
    if s == [] then [] else
    var n := |s| - 1;
    assert s == s[..n] + [s[n]];
    InsertBy(s[n], SortBy(s[..n], key), key)
  }

  lemma {:induction false} InsertAdds<T(!new)>(x: T, s: seq<T>, key: T -> string)
    ensures multiset(InsertBy(x, s, key)) == multiset(s) + multiset{x}
  {
    if s != [] && !Less(key(x), key(s[0])) {
      InsertAdds(x, s[1..], key);
      assert s == [s[0]] + s[1..];
    }
  }

  lemma {:induction false} InsertAscends<T(!new)>(x: T, s: seq<T>, key: T -> string)
    requires AscendingBy(s, key)
    ensures AscendingBy(InsertBy(x, s, key), key)
  {
    if s == [] {
    } else if Less(key(x), key(s[0])) {
      forall k | 0 <= k < |s| ensures AtMost(key(x), key(s[k])) {
        if key(s[k]) != key(s[0]) {
          LessTransitive(key(x), key(s[0]), key(s[k]));
        }
      }
    } else {
      LessTotal(key(x), key(s[0]));
      InsertAscends(x, s[1..], key);
      var tail := InsertBy(x, s[1..], key);
      forall k | 0 <= k < |tail| ensures AtMost(key(s[0]), key(tail[k])) {
        assert tail[k] in tail;
        if tail[k] != x {
          var m :| 0 <= m < |s[1..]| && s[1..][m] == tail[k];
          assert s[m + 1] == tail[k];
        }
      }
    }
  }

  lemma {:induction false} SortAscends<T(!new)>(s: seq<T>, key: T -> string)
    ensures AscendingBy(SortBy(s, key), key)
    decreases |s|
  {
    if s != [] {
      var n := |s| - 1;
      SortAscends(s[..n], key);
      InsertAscends(s[n], SortBy(s[..n], key), key);
    }
  }

  lemma {:induction false} SortPermutes<T(!new)>(s: seq<T>, key: T -> string)
    ensures multiset(SortBy(s, key)) == multiset(s)
    decreases |s|
  {
    if s != [] {
      var n := |s| - 1;
      SortPermutes(s[..n], key);
      InsertAdds(s[n], SortBy(s[..n], key), key);
      assert s == s[..n] + [s[n]];
    }
  }

  /** Sorting keeps every item with its multiplicity and puts the keys in ascending order. */
  lemma SortSorts<T(!new)>(s: seq<T>, key: T -> string)
    ensures multiset(SortBy(s, key)) == multiset(s) && AscendingBy(SortBy(s, key), key) && |SortBy(s, key)| == |s|
  {
    SortAscends(s, key);
    SortPermutes(s, key);
    assert |multiset(SortBy(s, key))| == |multiset(s)|;
  }

  /** The items under one key, in the order they stand. */
  function Under<T>(s: seq<T>, key: T -> string, k: string): seq<T> {
    if s == [] then [] else (if key(s[0]) == k then [s[0]] else []) + Under(s[1..], key, k)
  }

  lemma {:induction false} UnderConcat<T>(a: seq<T>, b: seq<T>, key: T -> string, k: string)
    ensures Under(a + b, key, k) == Under(a, key, k) + Under(b, key, k)
  {
    if a == [] {
      assert a + b == b;
    } else {
      assert (a + b)[1..] == a[1..] + b;
      UnderConcat(a[1..], b, key, k);
    }
  }

  lemma {:induction false} NoneUnder<T>(s: seq<T>, key: T -> string, k: string)
    requires forall x | x in s :: key(x) != k
    ensures Under(s, key, k) == []
  {
    if s != [] {
      assert s[0] in s && forall x | x in s[1..] :: x in s;
      NoneUnder(s[1..], key, k);
    }
  }

  lemma {:induction false} InsertedLast<T(!new)>(x: T, s: seq<T>, key: T -> string, k: string)
    requires AscendingBy(s, key)
    ensures Under(InsertBy(x, s, key), key, k) == Under(s, key, k) + if key(x) == k then [x] else []
  {
    if s == [] {
    } else if Less(key(x), key(s[0])) {
      UnderConcat([x], s, key, k);
      if key(x) == k {
        forall y | y in s ensures key(y) != k {
          var i :| 0 <= i < |s| && s[i] == y;
          assert AtMost(key(s[0]), key(s[i]));
          if key(s[i]) == k {
            LessAsymmetric(key(x), key(s[0]));
          }
        }
        NoneUnder(s, key, k);
      }
    } else {
      InsertedLast(x, s[1..], key, k);
    }
  }

  /** The sort is stable: items under one key keep the order they came in. */
  lemma {:induction false} SortIsStable<T(!new)>(s: seq<T>, key: T -> string, k: string)
    ensures Under(SortBy(s, key), key, k) == Under(s, key, k)
    decreases |s|
  {
    if s != [] {
      var n := |s| - 1;
      SortIsStable(s[..n], key, k);
      SortAscends(s[..n], key);
      InsertedLast(s[n], SortBy(s[..n], key), key, k);
      UnderConcat(s[..n], [s[n]], key, k);
      assert s == s[..n] + [s[n]];
    }
  }

  // ---------------------------------------------------------------- distinct keys

  lemma CountTwice<T>(s: seq<T>, i: nat, j: nat)
    requires i < j < |s| && s[i] == s[j]
    ensures multiset(s)[s[i]] >= 2
  {
    assert s == s[..j] + [s[j]] + s[j + 1..];
    assert s[i] in s[..j];
    assert multiset(s[..j])[s[i]] >= 1;
  }

  lemma {:induction false} CountOnce<T>(s: seq<T>, key: T -> string, x: T)
    requires DistinctBy(s, key)
    ensures multiset(s)[x] == if x in s then 1 else 0
    decreases |s|
  {
    if s != [] {
      var front, last := s[..|s| - 1], s[|s| - 1];
      assert s == front + [last] && multiset(s) == multiset(front) + multiset{last};
      CountOnce(front, key, x);
      forall i | 0 <= i < |front| ensures front[i] != last {
        assert key(s[i]) != key(s[|s| - 1]);
      }
    }
  }

  /** Reordering keeps keys distinct. */
  lemma DistinctIsOrderFree<T>(a: seq<T>, b: seq<T>, key: T -> string)
    requires multiset(a) == multiset(b) && DistinctBy(a, key)
    ensures DistinctBy(b, key)
  {
    forall i, j | 0 <= i < j < |b| ensures key(b[i]) != key(b[j]) {
      CountOnce(a, key, b[i]);
      assert b[i] in multiset(b) && b[j] in multiset(b);
      assert b[i] in multiset(a) && b[j] in multiset(a);
      var x :| 0 <= x < |a| && a[x] == b[i];
      var y :| 0 <= y < |a| && a[y] == b[j];
      if b[i] == b[j] {
        CountTwice(b, i, j);
      }
    }
  }

  // ---------------------------------------------------------------- lists of strings

  function Self(x: string): string { x }

  predicate Ascending(s: seq<string>) {
    AscendingBy(s, Self)
  }

  function Sort(s: seq<string>): seq<string> {
    SortBy(s, Self)
  }

  lemma HeadsAgree(a: seq<string>, b: seq<string>)
    requires Ascending(a) && Ascending(b) && multiset(a) == multiset(b) && a != [] && b != []
    ensures a[0] == b[0]
  {
    assert a[0] in multiset(b) && b[0] in multiset(a);
    var i :| 0 <= i < |b| && b[i] == a[0];
    var j :| 0 <= j < |a| && a[j] == b[0];
    assert AtMost(Self(b[0]), Self(b[i])) && AtMost(Self(a[0]), Self(a[j]));
    if a[0] != b[0] {
      LessAsymmetric(a[0], b[0]);
    }
  }

  /** There is one ascending arrangement of a multiset of strings. */
  lemma {:induction false} AscendingOnce(a: seq<string>, b: seq<string>)
    requires Ascending(a) && Ascending(b) && multiset(a) == multiset(b)
    ensures a == b
  {
    assert |a| == |multiset(a)| == |multiset(b)| == |b|;
    if a != [] {
      HeadsAgree(a, b);
      assert a == [a[0]] + a[1..] && b == [b[0]] + b[1..];
      assert multiset(a[1..]) == multiset(a) - multiset{a[0]} == multiset(b[1..]);
      AscendingOnce(a[1..], b[1..]);
    }
  }

  /** A list equals its sorted form exactly when it is ascending. */
  lemma SortedExactly(s: seq<string>)
    ensures Sort(s) == s <==> Ascending(s)
  {
    SortSorts(s, Self);
    if Ascending(s) {
      AscendingOnce(Sort(s), s);
    }
  }

  lemma SameSort(a: seq<string>, b: seq<string>)
    ensures Sort(a) == Sort(b) <==> multiset(a) == multiset(b)
  {
    SortSorts(a, Self);
    SortSorts(b, Self);
    if multiset(a) == multiset(b) {
      AscendingOnce(Sort(a), Sort(b));
    }
  }
}
