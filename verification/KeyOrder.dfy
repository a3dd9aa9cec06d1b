/** The (time, id) order that both the outbound queue and the message list are read in. */
module KeyOrder {
  datatype Key = Key(at: int, id: int)

  predicate Before(a: Key, b: Key) {
    a.at < b.at || (a.at == b.at && a.id < b.id)
  }

  ghost predicate Sorted(ks: seq<Key>) {
    forall i, j :: 0 <= i < j < |ks| ==> Before(ks[i], ks[j])
  }

  ghost predicate SortedDown(ks: seq<Key>) {
    forall i, j :: 0 <= i < j < |ks| ==> Before(ks[j], ks[i])
  }

  predicate IsFirst(s: set<Key>, m: Key) {
    m in s && forall x :: x in s && x != m ==> Before(m, x)
  }

  predicate IsLast(s: set<Key>, m: Key) {
    m in s && forall x :: x in s && x != m ==> Before(x, m)
  }

  lemma FirstExists(s: set<Key>)
    requires s != {}
    ensures exists m :: IsFirst(s, m)
  {
    var m :| m in s;
    if s == {m} {
      assert IsFirst(s, m);
    } else {
      FirstExists(s - {m});
      var n :| IsFirst(s - {m}, n);
      if Before(n, m) {
        assert IsFirst(s, n);
      } else {
        assert IsFirst(s, m) by {
          forall x | x in s && x != m ensures Before(m, x) {
            assert x == n || Before(n, x);
          }
        }
      }
    }
  }

  lemma LastExists(s: set<Key>)
    requires s != {}
    ensures exists m :: IsLast(s, m)
  {
    var m :| m in s;
    if s == {m} {
      assert IsLast(s, m);
    } else {
      LastExists(s - {m});
      var n :| IsLast(s - {m}, n);
      if Before(m, n) {
        assert IsLast(s, n);
      } else {
        assert IsLast(s, m) by {
          forall x | x in s && x != m ensures Before(x, m) {
            assert x == n || Before(x, n);
          }
        }
      }
    }
  }

  /** `r` lists the keys of `s`, earliest first. */
  ghost predicate IsAscending(s: set<Key>, r: seq<Key>) {
    Sorted(r) && |r| == |s| && forall k :: k in r <==> k in s
  }

  /** `r` lists the keys of `s`, latest first. */
  ghost predicate IsDescending(s: set<Key>, r: seq<Key>) {
    SortedDown(r) && |r| == |s| && forall k :: k in r <==> k in s
  }

  lemma {:induction false} AscendingExists(s: set<Key>)
    ensures exists r :: IsAscending(s, r)
    decreases |s|
  {
    if s == {} {
      assert IsAscending(s, []);
    } else {
      FirstExists(s);
      var m :| IsFirst(s, m);
      AscendingExists(s - {m});
      var r :| IsAscending(s - {m}, r);
      assert forall i :: 0 <= i < |r| ==> r[i] in r;
      assert IsAscending(s, [m] + r);
    }
  }

  lemma {:induction false} DescendingExists(s: set<Key>)
    ensures exists r :: IsDescending(s, r)
    decreases |s|
  {
    if s == {} {
      assert IsDescending(s, []);
    } else {
      LastExists(s);
      var m :| IsLast(s, m);
      DescendingExists(s - {m});
      var r :| IsDescending(s - {m}, r);
      assert forall i :: 0 <= i < |r| ==> r[i] in r;
      assert IsDescending(s, [m] + r);
    }
  }

  /** A strictly ascending list is determined by its elements. */
  lemma {:induction false} SortedUnique(a: seq<Key>, b: seq<Key>)
    requires Sorted(a) && Sorted(b)
    requires forall k :: k in a <==> k in b
    ensures a == b
  {
    if a == [] {
      assert forall i :: 0 <= i < |b| ==> b[i] in b;
    } else {
      assert a[0] in b && b != [];
      assert b[0] in a;
      assert a[0] == b[0];
      forall k ensures k in a[1..] <==> k in b[1..] {
        if k in a[1..] {
          assert k in a && k in b;
          assert Before(a[0], k);
        }
        if k in b[1..] {
          assert k in b && k in a;
          assert Before(b[0], k);
        }
      }
      SortedUnique(a[1..], b[1..]);
      assert a == [a[0]] + a[1..] && b == [b[0]] + b[1..];
    }
  }

  /** A strictly descending list is determined by its elements. */
  lemma {:induction false} SortedDownUnique(a: seq<Key>, b: seq<Key>)
    requires SortedDown(a) && SortedDown(b)
    requires forall k :: k in a <==> k in b
    ensures a == b
  {
    if a == [] {
      assert forall i :: 0 <= i < |b| ==> b[i] in b;
    } else {
      assert a[0] in b && b != [];
      assert b[0] in a;
      assert a[0] == b[0];
      forall k ensures k in a[1..] <==> k in b[1..] {
        if k in a[1..] {
          assert k in a && k in b;
          assert Before(k, a[0]);
        }
        if k in b[1..] {
          assert k in b && k in a;
          assert Before(k, b[0]);
        }
      }
      SortedDownUnique(a[1..], b[1..]);
      assert a == [a[0]] + a[1..] && b == [b[0]] + b[1..];
    }
  }

  lemma AscendingUnique(s: set<Key>)
    ensures forall a, b :: IsAscending(s, a) && IsAscending(s, b) ==> a == b
  {
    forall a, b | IsAscending(s, a) && IsAscending(s, b) ensures a == b {
      SortedUnique(a, b);
    }
  }

  lemma DescendingUnique(s: set<Key>)
    ensures forall a, b :: IsDescending(s, a) && IsDescending(s, b) ==> a == b
  {
    forall a, b | IsDescending(s, a) && IsDescending(s, b) ensures a == b {
      SortedDownUnique(a, b);
    }
  }

  /** The keys of `s`, earliest first. */
  ghost function Ascending(s: set<Key>): (r: seq<Key>)
    ensures IsAscending(s, r)
  {
    AscendingExists(s);
    var r :| IsAscending(s, r);
    r
  }

  /** The keys of `s`, latest first. */
  ghost function Descending(s: set<Key>): (r: seq<Key>)
    ensures IsDescending(s, r)
  {
    DescendingExists(s);
    var r :| IsDescending(s, r);
    r
  }

  // ---- Sorting, as the database does it for ORDER BY ----

  method SortAscending(s: set<Key>) returns (r: seq<Key>)
    ensures r == Ascending(s)
  {
    r := [];
    var rest := s;
    while rest != {}
      invariant rest <= s && Sorted(r)
      invariant forall k :: k in s <==> k in r || k in rest
      invariant forall k, l :: k in r && l in rest ==> Before(k, l)
      invariant |r| + |rest| == |s|
      decreases |rest|
    {
      FirstExists(rest);
      var m :| m in rest && IsFirst(rest, m);
      assert forall i :: 0 <= i < |r| ==> r[i] in r;
      r := r + [m];
      rest := rest - {m};
    }
    AscendingUnique(s);
    assert IsAscending(s, r) && IsAscending(s, Ascending(s));
  }

  method SortDescending(s: set<Key>) returns (r: seq<Key>)
    ensures r == Descending(s)
  {
    r := [];
    var rest := s;
    while rest != {}
      invariant rest <= s && SortedDown(r)
      invariant forall k :: k in s <==> k in r || k in rest
      invariant forall k, l :: k in r && l in rest ==> Before(l, k)
      invariant |r| + |rest| == |s|
      decreases |rest|
    {
      LastExists(rest);
      var m :| m in rest && IsLast(rest, m);
      assert forall i :: 0 <= i < |r| ==> r[i] in r;
      r := r + [m];
      rest := rest - {m};
    }
    DescendingUnique(s);
    assert IsDescending(s, r) && IsDescending(s, Descending(s));
  }
}
