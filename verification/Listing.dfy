/** Listings: the wanted values of a map in key order, whatever order the map
    is walked in (listFlags, listSegments, listEnvironments, listAuditEntries). */
module Listing {

  // ----- the order of Go strings -----

  /** Byte order of UTF-8 text, which is code point order. */
  predicate StringLess(a: string, b: string) {
    b != [] && (a == [] || a[0] < b[0] || (a[0] == b[0] && StringLess(a[1..], b[1..])))
  }

  /** One text is less than another exactly when, after what they share, it ends
      or goes on with a smaller character. */
  lemma {:induction false} StringLessIsLexicographic(a: string, b: string)
    ensures StringLess(a, b) <==> exists n :: 0 <= n <= |a| && n < |b| && a[..n] == b[..n] && (n == |a| || a[n] < b[n])
  {
    if b != [] && (a == [] || a[0] < b[0]) {
      assert a[..0] == b[..0];
    } else if b != [] && a[0] == b[0] {
      StringLessIsLexicographic(a[1..], b[1..]);
      if n :| 0 <= n <= |a| - 1 && n < |b| - 1 && a[1..][..n] == b[1..][..n] && (n == |a| - 1 || a[1..][n] < b[1..][n]) {
        assert a[..n + 1] == [a[0]] + a[1..][..n] && b[..n + 1] == [b[0]] + b[1..][..n];
      }
      if n :| 0 <= n <= |a| && n < |b| && a[..n] == b[..n] && (n == |a| || a[n] < b[n]) {
        assert n > 0;
        assert a[1..][..n - 1] == a[..n][1..] && b[1..][..n - 1] == b[..n][1..];
      }
    } else if b != [] {
      assert forall n :: 0 < n <= |a| && n <= |b| ==> a[..n][0] == a[0] && b[..n][0] == b[0];
    }
  }

  lemma {:induction false} StringLessIsTotal(a: string, b: string)
    ensures a == b || StringLess(a, b) || StringLess(b, a)
  {
    if a != [] && b != [] && a[0] == b[0] {
      StringLessIsTotal(a[1..], b[1..]);
      if a[1..] == b[1..] { assert a == [a[0]] + a[1..] && b == [b[0]] + b[1..]; }
    }
  }

  lemma {:induction false} StringLessIsAsymmetric(a: string, b: string)
    ensures !(StringLess(a, b) && StringLess(b, a))
  {
    if a != [] && b != [] {
      StringLessIsAsymmetric(a[1..], b[1..]);
    }
  }

  lemma {:induction false} StringLessIsTransitive(a: string, b: string, c: string)
    ensures StringLess(a, b) && StringLess(b, c) ==> StringLess(a, c)
  {
    if a != [] && b != [] && c != [] {
      StringLessIsTransitive(a[1..], b[1..], c[1..]);
    }
  }

  // ----- listings -----

  ghost predicate Ascending<V>(list: seq<V>, less: (V, V) -> bool) {
    forall i, j :: 0 <= i < j < |list| ==> less(list[i], list[j])
  }

  ghost function Kept<K, V>(m: map<K, V>, keep: V -> bool): set<V> {
    set k | k in m && keep(m[k]) :: m[k]
  }

  ghost predicate IsListing<V(!new)>(list: seq<V>, values: set<V>, less: (V, V) -> bool) {
    && (forall v :: v in list <==> v in values)
    && Ascending(list, less)
  }

  ghost predicate Asymmetric<V(!new)>(less: (V, V) -> bool) {
    forall a, b :: less(a, b) ==> !less(b, a)
  }

  ghost predicate Transitive<V(!new)>(less: (V, V) -> bool) {
    forall a, b, c :: less(a, b) && less(b, c) ==> less(a, c)
  }

  /** Different keys hold values the order can tell apart. */
  ghost predicate Separates<K, V>(m: map<K, V>, keep: V -> bool, less: (V, V) -> bool) {
    forall i, j :: i in m && j in m && i != j && keep(m[i]) && keep(m[j]) ==> less(m[i], m[j]) || less(m[j], m[i])
  }

  /** There is only one listing: replicas that walk their maps in different
      orders list the same thing. */
  lemma {:induction false} ListingIsUnique<V(!new)>(a: seq<V>, b: seq<V>, less: (V, V) -> bool)
    requires Asymmetric(less)
    requires Ascending(a, less) && Ascending(b, less)
    requires forall v :: v in a <==> v in b
    ensures a == b
  {
    if a == [] {
      assert forall i :: 0 <= i < |b| ==> b[i] in b;
    } else {
      assert a[0] in b && b[0] in a by { assert a[0] in a; }
      assert a[0] == b[0];
      forall v ensures v in a[1..] <==> v in b[1..] {
        TailMembers(a, less, v);
        TailMembers(b, less, v);
      }
      assert Ascending(a[1..], less) && Ascending(b[1..], less);
      ListingIsUnique(a[1..], b[1..], less);
    }
  }

  lemma TailMembers<V(!new)>(a: seq<V>, less: (V, V) -> bool, v: V)
    requires a != [] && Asymmetric(less) && Ascending(a, less)
    ensures v in a[1..] <==> v in a && v != a[0]
  {
  }

  /** The sorted position of a new value. */
  function Insert<V>(list: seq<V>, v: V, less: (V, V) -> bool): seq<V> {
    if list == [] then [v]
    else if less(v, list[0]) then [v] + list
    else [list[0]] + Insert(list[1..], v, less)
  }

  lemma {:induction false} InsertKeepsOrder<V(!new)>(list: seq<V>, v: V, less: (V, V) -> bool)
    requires Transitive(less) && Ascending(list, less)
    requires forall i :: 0 <= i < |list| ==> less(v, list[i]) || less(list[i], v)
    ensures forall w :: w in Insert(list, v, less) <==> w == v || w in list
    ensures Ascending(Insert(list, v, less), less)
  {
    if list != [] {
      if less(v, list[0]) {
      } else {
        assert forall i :: 0 <= i < |list| - 1 ==> list[1..][i] == list[i + 1];
        InsertKeepsOrder(list[1..], v, less);
        var rest := Insert(list[1..], v, less);
        forall i | 0 <= i < |rest| ensures less(list[0], rest[i]) {
          assert rest[i] in rest;
          if rest[i] != v {
            var j :| 0 <= j < |list| - 1 && list[1..][j] == rest[i];
            assert less(list[0], list[j + 1]);
          }
        }
        assert list == [list[0]] + list[1..];
      }
    }
  }

  /** Collect the wanted values in whatever order the map gives them, sorted. */
  method SortedValues<K, V(!new)>(m: map<K, V>, keep: V -> bool, less: (V, V) -> bool) returns (list: seq<V>)
    requires Transitive(less) && Separates(m, keep, less)
    ensures IsListing(list, Kept(m, keep), less)
  {
    list := [];
    var rest := m.Keys;
    while rest != {}
      invariant rest <= m.Keys
      invariant forall v :: v in list <==> exists k :: k in m.Keys - rest && keep(m[k]) && m[k] == v
      invariant Ascending(list, less)
    {
      var k :| k in rest;
      if keep(m[k]) {
        forall i | 0 <= i < |list| ensures less(m[k], list[i]) || less(list[i], m[k]) {
          assert list[i] in list;
          var other :| other in m.Keys - rest && keep(m[other]) && m[other] == list[i];
        }
        InsertKeepsOrder(list, m[k], less);
        list := Insert(list, m[k], less);
      }
      rest := rest - {k};
    }
  }
}
