/** std::multimap as the client list uses it: equal keys keep their order of insertion. */
module Multimap {

  function Bucket<K, C>(m: map<K, seq<C>>, k: K): seq<C> {
    if k in m then m[k] else []
  }

  function Insert<K, C>(m: map<K, seq<C>>, k: K, c: C): map<K, seq<C>> {
    m[k := Bucket(m, k) + [c]]
  }

  /** Erases the entry at a position of a bucket; an emptied bucket goes. */
  function EraseAt<K, C>(m: map<K, seq<C>>, k: K, at: nat): map<K, seq<C>>
    requires at < |Bucket(m, k)|
  {
    var rest := m[k][..at] + m[k][at + 1..];
    if rest == [] then m - {k} else m[k := rest]
  }

  /** How often a member stands under a key. */
  ghost function Count<K, C>(m: map<K, seq<C>>, k: K, c: C): nat {
    multiset(Bucket(m, k))[c]
  }

  ghost predicate EntriesHaveKeys<K(!new), C>(m: map<K, seq<C>>, keys: map<C, K>) {
    forall k, c :: k in m && c in m[k] ==> c in keys && keys[c] == k
  }

  ghost predicate EachOnce<K, C>(m: map<K, seq<C>>, keys: map<C, K>) {
    forall c :: c in keys ==> Count(m, keys[c], c) == 1
  }

  ghost predicate NoEmptyBucket<K(!new), C>(m: map<K, seq<C>>) {
    forall k :: k in m ==> m[k] != []
  }

  /** The entries are exactly those of `keys`, each once, and no bucket is empty. */
  ghost predicate Represents<K(!new), C>(m: map<K, seq<C>>, keys: map<C, K>) {
    EntriesHaveKeys(m, keys) && EachOnce(m, keys) && NoEmptyBucket(m)
  }

  lemma EmptyRepresents<K(!new), C>()
    ensures Represents<K, C>(map[], map[])
  {
  }

  lemma CountIsMembership<K, C>(m: map<K, seq<C>>, k: K, c: C)
    ensures Count(m, k, c) > 0 <==> c in Bucket(m, k)
  {
  }

  lemma CountAfterInsert<K, C>(m: map<K, seq<C>>, k: K, c: C, j: K, x: C)
    ensures Count(Insert(m, k, c), j, x) == Count(m, j, x) + if j == k && x == c then 1 else 0
  {
    if j == k {
      assert multiset(Bucket(m, k) + [c]) == multiset(Bucket(m, k)) + multiset{c};
    }
  }

  lemma InsertRepresents<K(!new), C>(m: map<K, seq<C>>, keys: map<C, K>, k: K, c: C)
    requires Represents(m, keys) && c !in keys
    ensures Represents(Insert(m, k, c), keys[c := k])
  {
    var m', keys' := Insert(m, k, c), keys[c := k];
    forall j, x | j in m' && x in m'[j]
      ensures x in keys' && keys'[x] == j
    {
      assert x == c || (j in m && x in m[j]);
    }
    assert Count(m, k, c) == 0 by { CountIsMembership(m, k, c); }
    assert NoEmptyBucket(m');
    hide Count, Insert;
    forall x | x in keys'
      ensures Count(m', keys'[x], x) == 1
    {
      CountAfterInsert(m, k, c, keys'[x], x);
    }
  }

  lemma CountAfterErase<K, C>(m: map<K, seq<C>>, k: K, at: nat, j: K, x: C)
    requires at < |Bucket(m, k)|
    ensures Count(EraseAt(m, k, at), j, x) == Count(m, j, x) - if j == k && x == Bucket(m, k)[at] then 1 else 0
  {
    if j == k {
      var s := Bucket(m, k);
      var rest := s[..at] + s[at + 1..];
      assert s == s[..at] + [s[at]] + s[at + 1..];
      assert multiset(s) == multiset(rest) + multiset{s[at]};
      assert Bucket(EraseAt(m, k, at), k) == rest;
    }
  }

  lemma BucketMember<K(!new), C>(m: map<K, seq<C>>, keys: map<C, K>, k: K, c: C)
    requires Represents(m, keys) && c in Bucket(m, k)
    ensures c in keys && keys[c] == k && Count(m, k, c) == 1
  {
    hide Count;
    assert c in m[k];
  }

  lemma ErasedEntry<K(!new), C>(m: map<K, seq<C>>, keys: map<C, K>, k: K, at: nat, j: K, x: C)
    requires Represents(m, keys) && at < |Bucket(m, k)| && x in Bucket(EraseAt(m, k, at), j)
    ensures x in keys && keys[x] == j && x != Bucket(m, k)[at]
  {
    var c := Bucket(m, k)[at];
    CountIsMembership(EraseAt(m, k, at), j, x);
    CountAfterErase(m, k, at, j, x);
    hide Count, EraseAt;
    CountIsMembership(m, j, x);
    hide Bucket, Represents;
    BucketMember(m, keys, j, x);
    BucketMember(m, keys, k, c);
  }

  lemma EraseRepresents<K(!new), C>(m: map<K, seq<C>>, keys: map<C, K>, k: K, at: nat)
    requires Represents(m, keys) && at < |Bucket(m, k)|
    ensures Bucket(m, k)[at] in keys && keys[Bucket(m, k)[at]] == k
    ensures Represents(EraseAt(m, k, at), keys - {Bucket(m, k)[at]})
  {
    var c := m[k][at];
    assert c in m[k];
    var m', keys' := EraseAt(m, k, at), keys - {c};
    assert NoEmptyBucket(m');
    hide EraseAt, Count, NoEmptyBucket;
    forall j, x | j in m' && x in m'[j]
      ensures x in keys' && keys'[x] == j
    {
      ErasedEntry(m, keys, k, at, j, x);
    }
    forall x | x in keys'
      ensures Count(m', keys'[x], x) == 1
    {
      CountAfterErase(m, k, at, keys'[x], x);
    }
  }

  /** A bucket holds exactly the members with its key. */
  lemma BucketIsExact<K(!new), C>(m: map<K, seq<C>>, keys: map<C, K>, k: K)
    requires Represents(m, keys)
    ensures forall c :: c in Bucket(m, k) <==> c in keys && keys[c] == k
    ensures (exists c :: c in keys && keys[c] == k) <==> k in m
  {
    forall c | c in keys && keys[c] == k
      ensures c in Bucket(m, k)
    {
      CountIsMembership(m, k, c);
    }
    if k in m {
      var c := m[k][0];
      assert c in m[k];
      assert c in keys && keys[c] == k;
    }
  }

  lemma OnlyEmptyRepresents<K(!new), C>(m: map<K, seq<C>>, keys: map<C, K>)
    requires Represents(m, keys) && keys == map[]
    ensures m == map[]
  {
    forall k
      ensures k !in m
    {
      BucketIsExact(m, keys, k);
    }
    assert m.Keys == {};
  }

  /** Where a member stands in a bucket. */
  method Search<C(==)>(s: seq<C>, c: C) returns (at: nat)
    ensures at <= |s| && c !in s[..at]
    ensures at < |s| ==> s[at] == c
  {
    at := 0;
    while at < |s| && s[at] != c
      invariant at <= |s| && c !in s[..at]
    {
      at := at + 1;
    }
  }

  /** The search-and-erase loop over an equal range: erases the entry of `c` under `k`, if there is one. */
  method Erase<K(!new, ==), C(==)>(m: map<K, seq<C>>, k: K, c: C, ghost keys: map<C, K>)
    returns (rest: map<K, seq<C>>, found: bool)
    requires Represents(m, keys)
    ensures found <==> c in keys && keys[c] == k
    ensures Represents(rest, if found then keys - {c} else keys)
    ensures !found ==> rest == m
  {
    var at := Search(Bucket(m, k), c);
    BucketIsExact(m, keys, k);
    found := at < |Bucket(m, k)|;
    rest := m;
    if found {
      EraseRepresents(m, keys, k, at);
      rest := EraseAt(m, k, at);
    } else {
      assert Bucket(m, k)[..at] == Bucket(m, k);
    }
  }
}
