/** The flat key "environment/key" under which flags and segments are stored,
    and the pair-keyed map it stands for (backend/internal/store/flag.go). */
module PairKeys {
  import opened Records

  /** flagMapKey */
  function MapKey(environmentId: string, key: string): string {
    environmentId + "/" + key
  }

  predicate SlashFree(text: string) {
    '/' !in text
  }

  /** Where a flat key splits: at its first slash. */
  function SplitFirst(text: string): (pair: (string, string)) {
    if text == [] then ([], [])
    else if text[0] == '/' then ([], text[1..])
    else
      var rest := SplitFirst(text[1..]);
      ([text[0]] + rest.0, rest.1)
  }

  lemma {:induction false} SplitAtSlashFreePrefix(environmentId: string, key: string)
    requires SlashFree(environmentId)
    ensures SplitFirst(MapKey(environmentId, key)) == (environmentId, key)
  {
    var text := MapKey(environmentId, key);
    if environmentId == [] {
      assert text[1..] == key;
    } else {
      assert text[1..] == MapKey(environmentId[1..], key);
      SplitAtSlashFreePrefix(environmentId[1..], key);
      assert text[0] == environmentId[0] && environmentId[0] != '/';
      assert [text[0]] + environmentId[1..] == environmentId;
    }
  }

  lemma {:induction false} SplitRebuilds(text: string)
    requires !SlashFree(text)
    ensures MapKey(SplitFirst(text).0, SplitFirst(text).1) == text
    ensures SlashFree(SplitFirst(text).0)
  {
    if text[0] == '/' {
      assert text == [text[0]] + text[1..];
    } else {
      assert text == [text[0]] + text[1..];
      SplitRebuilds(text[1..]);
      var rest := SplitFirst(text[1..]);
      assert MapKey([text[0]] + rest.0, rest.1) == [text[0]] + MapKey(rest.0, rest.1);
    }
  }

  /** With slash-free environment IDs no two pairs share a flat key. */
  lemma MapKeyIsInjective(e1: string, k1: string, e2: string, k2: string)
    requires SlashFree(e1) && SlashFree(e2)
    requires MapKey(e1, k1) == MapKey(e2, k2)
    ensures e1 == e2 && k1 == k2
  {
    SplitAtSlashFreePrefix(e1, k1);
    SplitAtSlashFreePrefix(e2, k2);
  }

  /** Exactly when two environments can collide: one ID followed by a slash
      begins the other one. */
  lemma EnvironmentsCollideExactlyWhen(e1: string, e2: string)
    requires e1 != e2
    ensures (exists k1, k2 :: MapKey(e1, k1) == MapKey(e2, k2))
       <==> e1 + "/" <= e2 || e2 + "/" <= e1
  {
    if k1, k2 :| MapKey(e1, k1) == MapKey(e2, k2) {
      PrefixOfCollision(e1, k1, e2, k2);
    }
    if e1 + "/" <= e2 {
      assert MapKey(e1, (e2 + "/")[|e1| + 1..]) == MapKey(e2, "");
    }
    if e2 + "/" <= e1 {
      assert MapKey(e1, "") == MapKey(e2, (e1 + "/")[|e2| + 1..]);
    }
  }

  lemma PrefixOfCollision(e1: string, k1: string, e2: string, k2: string)
    requires e1 != e2 && MapKey(e1, k1) == MapKey(e2, k2)
    ensures e1 + "/" <= e2 || e2 + "/" <= e1
  {
    var text := MapKey(e1, k1);
    assert e1 + "/" == text[..|e1| + 1] && e2 + "/" == text[..|e2| + 1];
    assert e1 == text[..|e1|] && e2 == text[..|e2|];
    if |e1| < |e2| {
      assert e1 + "/" == e2[..|e1| + 1];
    } else if |e2| < |e1| {
      assert e2 + "/" == e1[..|e2| + 1];
    }
  }

  /** Every value sits under the flat key of its own pair, and the environment
      part has no slash. */
  ghost predicate KeyedByPair<V>(m: map<string, V>, pair: V -> (string, string)) {
    forall k :: k in m ==> k == MapKey(pair(m[k]).0, pair(m[k]).1) && SlashFree(pair(m[k]).0)
  }

  /** The pair-keyed map that a flat map stands for. */
  ghost function Pairs<V>(m: map<string, V>, pair: V -> (string, string)): (p: map<(string, string), V>)
    requires KeyedByPair(m, pair)
  {
    map k | k in m :: pair(m[k]) := m[k]
  }

  function Lookup<K, V>(m: map<K, V>, k: K): Option<V> {
    if k in m then Some(m[k]) else None
  }

  /** The pair-keyed map, read at any pair. */
  lemma PairsLookup<V>(m: map<string, V>, pair: V -> (string, string), p: (string, string))
    requires KeyedByPair(m, pair)
    ensures Lookup(Pairs(m, pair), p) == if SlashFree(p.0) then Lookup(m, MapKey(p.0, p.1)) else None
  {
    if p in Pairs(m, pair) {
      var k :| k in m && pair(m[k]) == p;
      assert k == MapKey(p.0, p.1);
    }
    var flat := MapKey(p.0, p.1);
    if SlashFree(p.0) && flat in m {
      MapKeyIsInjective(pair(m[flat]).0, pair(m[flat]).1, p.0, p.1);
      assert pair(m[flat]) == p;
    }
  }

  lemma SameLookupsSameMap<K(!new), V>(a: map<K, V>, b: map<K, V>)
    requires forall k :: Lookup(a, k) == Lookup(b, k)
    ensures a == b
  {
    forall k ensures k in a <==> k in b {
      assert Lookup(a, k) == Lookup(b, k);
    }
    forall k | k in a ensures a[k] == b[k] {
      assert Lookup(a, k) == Lookup(b, k);
    }
  }

  /** Reading a flat key reads the pair it splits into. For a slash-free
      environment that is the pair asked for. */
  lemma GetReadsThePair<V>(m: map<string, V>, pair: V -> (string, string), environmentId: string, key: string)
    requires KeyedByPair(m, pair)
    ensures Lookup(m, MapKey(environmentId, key)) == Lookup(Pairs(m, pair), SplitFirst(MapKey(environmentId, key)))
    ensures SlashFree(environmentId) ==>
              Lookup(m, MapKey(environmentId, key)) == Lookup(Pairs(m, pair), (environmentId, key))
  {
    var text := MapKey(environmentId, key);
    assert text[|environmentId|] == '/';
    SplitRebuilds(text);
    PairsLookup(m, pair, SplitFirst(text));
    PairsLookup(m, pair, (environmentId, key));
  }

  /** Writing a value under its flat key is writing it under its pair. */
  lemma PutWritesThePair<V>(m: map<string, V>, pair: V -> (string, string), v: V)
    requires KeyedByPair(m, pair) && SlashFree(pair(v).0)
    ensures KeyedByPair(m[MapKey(pair(v).0, pair(v).1) := v], pair)
    ensures Pairs(m[MapKey(pair(v).0, pair(v).1) := v], pair) == Pairs(m, pair)[pair(v) := v]
  {
    hide SlashFree, Pairs;
    var flat := MapKey(pair(v).0, pair(v).1);
    var after := m[flat := v];
    forall p ensures Lookup(Pairs(after, pair), p) == Lookup(Pairs(m, pair)[pair(v) := v], p) {
      PairsLookup(m, pair, p);
      PairsLookup(after, pair, p);
      if SlashFree(p.0) && MapKey(p.0, p.1) == flat {
        MapKeyIsInjective(p.0, p.1, pair(v).0, pair(v).1);
      }
    }
    SameLookupsSameMap(Pairs(after, pair), Pairs(m, pair)[pair(v) := v]);
  }

  /** Removing a flat key removes the pair it splits into and nothing else. */
  lemma RemoveDropsTheSplit<V>(m: map<string, V>, pair: V -> (string, string), environmentId: string, key: string)
    requires KeyedByPair(m, pair)
    ensures KeyedByPair(m - {MapKey(environmentId, key)}, pair)
    ensures Pairs(m - {MapKey(environmentId, key)}, pair) == Pairs(m, pair) - {SplitFirst(MapKey(environmentId, key))}
  {
    var text := MapKey(environmentId, key);
    assert text[|environmentId|] == '/';
    SplitRebuilds(text);
    RemoveDropsThePair(m, pair, SplitFirst(text).0, SplitFirst(text).1);
  }

  /** For a slash-free environment that is the pair asked for. */
  lemma RemoveDropsThePair<V>(m: map<string, V>, pair: V -> (string, string), environmentId: string, key: string)
    requires KeyedByPair(m, pair) && SlashFree(environmentId)
    ensures KeyedByPair(m - {MapKey(environmentId, key)}, pair)
    ensures Pairs(m - {MapKey(environmentId, key)}, pair) == Pairs(m, pair) - {(environmentId, key)}
  {
    hide SlashFree, Pairs;
    var flat := MapKey(environmentId, key);
    var smaller := m - {flat};
    forall p ensures Lookup(Pairs(smaller, pair), p) == Lookup(Pairs(m, pair) - {(environmentId, key)}, p) {
      PairsLookup(m, pair, p);
      PairsLookup(smaller, pair, p);
      if SlashFree(p.0) && MapKey(p.0, p.1) == flat {
        MapKeyIsInjective(p.0, p.1, environmentId, key);
      }
    }
    SameLookupsSameMap(Pairs(smaller, pair), Pairs(m, pair) - {(environmentId, key)});
  }
}
