/**
 The cache itself: a list of entries by access and a map from key to entry, which must agree.
 Each method holds the mutex throughout, so it is one atomic step; the clock reading it takes is
 a parameter, and the eviction callback's calls are recorded in order.
 */
module Lru {
  import opened Results
  import opened Recency

  class CacheEntry<K(==), V> {
    const key: K
    var value: Option<V>
    var expiration: Option<int>

    constructor (key: K, value: Option<V>)
      ensures this.key == key && this.value == value && expiration == None
    {
      this.key, this.value, expiration := key, value, None;
    }

    function View(): Item<K, V>
      reads this
    {
      Item(key, value, expiration)
    }
  }

  function Items<K, V>(es: seq<CacheEntry<K, V>>): (s: seq<Item<K, V>>)
    reads es
    ensures |s| == |es|
    ensures forall i | 0 <= i < |es| :: s[i] == es[i].View()
  {
    if es == [] then [] else [es[0].View()] + Items(es[1..])
  }

  /** list.Remove */
  function Remove<K, V>(es: seq<CacheEntry<K, V>>, e: CacheEntry<K, V>): seq<CacheEntry<K, V>> {
    if es == [] then [] else if es[0] == e then es[1..] else [es[0]] + Remove(es[1..], e)
  }

  ghost predicate DistinctKeys<K, V>(es: seq<CacheEntry<K, V>>) {
    forall i, j | 0 <= i < j < |es| :: es[i].key != es[j].key
  }

  lemma {:induction false} RemoveMembers<K, V>(es: seq<CacheEntry<K, V>>, e: CacheEntry<K, V>)
    requires DistinctKeys(es) && e in es
    ensures DistinctKeys(Remove(es, e)) && |Remove(es, e)| == |es| - 1
    ensures forall x <- Remove(es, e) :: x in es && x.key != e.key
    ensures forall x <- es :: x == e || x in Remove(es, e)
  {
    if es[0] == e {
      assert forall x <- es[1..] :: x.key != es[0].key;
    } else {
      assert e in es[1..];
      RemoveMembers(es[1..], e);
      assert forall x <- es[1..] :: x.key != es[0].key;
      assert es == [es[0]] + es[1..];
    }
  }

  lemma {:induction false} ItemsFind<K, V>(es: seq<CacheEntry<K, V>>, e: CacheEntry<K, V>)
    requires DistinctKeys(es) && e in es
    ensures Find(Items(es), e.key) == Some(e.View())
    ensures Items(Remove(es, e)) == Without(Items(es), e.key)
  {
    if es[0] != e {
      assert e in es[1..];
      assert forall x <- es[1..] :: x.key != es[0].key;
      ItemsFind(es[1..], e);
    }
  }

  lemma {:induction false} ItemsMiss<K, V>(es: seq<CacheEntry<K, V>>, k: K)
    requires forall x <- es :: x.key != k
    ensures Find(Items(es), k) == None
  {
    if es != [] {
      ItemsMiss(es[1..], k);
    }
  }

  /** As many keys as entries. */
  lemma {:induction false} SameSize<K, V>(es: seq<CacheEntry<K, V>>, keys: set<K>)
    requires DistinctKeys(es)
    requires forall k :: k in keys <==> exists e <- es :: e.key == k
    ensures |keys| == |es|
    decreases |es|
  {
    if es == [] {
      assert keys == {};
    } else {
      var last := es[|es| - 1];
      var rest := es[..|es| - 1];
      forall k ensures k in keys - {last.key} <==> exists e <- rest :: e.key == k {
        if k in keys - {last.key} {
          var e :| e in es && e.key == k;
          assert e in rest;
        }
      }
      SameSize(rest, keys - {last.key});
    }
  }

  /** The list and the map hold the same entries, once each. */
  ghost predicate SameEntries<K, V>(es: seq<CacheEntry<K, V>>, m: map<K, CacheEntry<K, V>>) {
    && DistinctKeys(es)
    && (forall e <- es :: e.key in m && m[e.key] == e)
    && (forall k <- m :: m[k] in es && m[k].key == k)
  }

  lemma SameEntriesCount<K, V>(es: seq<CacheEntry<K, V>>, m: map<K, CacheEntry<K, V>>)
    requires SameEntries(es, m)
    ensures |m| == |es|
  {
    SameSize(es, m.Keys);
  }

  lemma RemoveBoth<K, V>(es: seq<CacheEntry<K, V>>, m: map<K, CacheEntry<K, V>>, e: CacheEntry<K, V>)
    requires SameEntries(es, m) && e in es
    ensures SameEntries(Remove(es, e), m - {e.key})
    ensures |Remove(es, e)| == |es| - 1
    ensures forall x <- Remove(es, e) :: x in es && x != e
  {
    hide DistinctKeys;
    RemoveMembers(es, e);
  }

  lemma MoveBoth<K, V>(es: seq<CacheEntry<K, V>>, m: map<K, CacheEntry<K, V>>, e: CacheEntry<K, V>)
    requires SameEntries(es, m) && e in es
    ensures SameEntries([e] + Remove(es, e), m)
  {
    RemoveMembers(es, e);
  }

  lemma AddBoth<K, V>(es: seq<CacheEntry<K, V>>, m: map<K, CacheEntry<K, V>>, e: CacheEntry<K, V>)
    requires SameEntries(es, m) && e.key !in m
    ensures SameEntries([e] + es, m[e.key := e])
  {
  }

  lemma DropLastBoth<K, V>(es: seq<CacheEntry<K, V>>, m: map<K, CacheEntry<K, V>>)
    requires SameEntries(es, m) && es != []
    ensures SameEntries(es[..|es| - 1], m - {es[|es| - 1].key})
  {
    var n := |es| - 1;
    forall k | k in m - {es[n].key} ensures m[k] in es[..n] {
      var i :| 0 <= i < |es| && es[i] == m[k];
    }
  }

  lemma ItemsCons<K, V>(e: CacheEntry<K, V>, es: seq<CacheEntry<K, V>>)
    ensures Items([e] + es) == [e.View()] + Items(es)
  {
    assert ([e] + es)[1..] == es;
  }

  lemma ItemsTake<K, V>(es: seq<CacheEntry<K, V>>, n: nat)
    requires n <= |es|
    ensures Items(es[..n]) == Items(es)[..n]
  {
  }

  lemma LookupItem<K, V>(es: seq<CacheEntry<K, V>>, m: map<K, CacheEntry<K, V>>, key: K)
    requires SameEntries(es, m)
    ensures key in m ==> m[key] in es && m[key].key == key
    ensures key in m ==> Find(Items(es), key) == Some(m[key].View())
    ensures key in m ==> Items(Remove(es, m[key])) == Without(Items(es), key)
    ensures key !in m ==> Find(Items(es), key) == None
  {
    hide DistinctKeys, Items;
    if key in m {
      ItemsFind(es, m[key]);
    } else {
      ItemsMiss(es, key);
    }
  }

  class LRU<K(==), V(==)> {
    var byAccess: seq<CacheEntry<K, V>>
    var byKey: map<K, CacheEntry<K, V>>
    const maxSize: nat
    const ttl: int
    const onEvict: bool
    var reported: seq<Departure<K, V>>

    ghost predicate Valid()
      reads this
    {
      SameEntries(byAccess, byKey) && |byAccess| <= maxSize
    }

    function Contents(): (s: seq<Item<K, V>>)
      reads this, byAccess
    {
      Items(byAccess)
    }

    constructor (maxSize: nat, ttl: int, onEvict: bool)
      ensures Valid() && Contents() == [] && reported == []
      ensures this.maxSize == maxSize && this.ttl == ttl && this.onEvict == onEvict
    {
      this.maxSize, this.ttl, this.onEvict := maxSize, ttl, onEvict;
      byAccess, byKey, reported := [], map[], [];
    }

    /** What the callback has been told, after the departures of one more operation. */
    ghost function Told(before: seq<Departure<K, V>>, departed: seq<Departure<K, V>>): seq<Departure<K, V>> {
      if onEvict then before + departed else before
    }

    method Size() returns (n: nat)
      requires Valid()
      ensures n == |Contents()|
    {
      SameEntriesCount(byAccess, byKey);
      n := |byKey|;
    }

    method Report(key: K, value: Option<V>)
      modifies this`reported
      ensures reported == Told(old(reported), [Departure(key, value)])
    {
      if onEvict {
        reported := reported + [Departure(key, value)];
      }
    }

    method Get(key: K, now: int) returns (result: Option<V>)
      requires Valid()
      modifies this
      ensures Valid() && forall e <- byAccess :: e in old(byAccess)
      ensures var o := GetItem(old(Contents()), key, now);
              Contents() == o.items && result == o.result && reported == Told(old(reported), o.departed)
    {
      hide Find, Without, SameEntries, Items, Remove;
      LookupItem(byAccess, byKey, key);
      NothingTold();
      if key !in byKey {
        return None;
      }
      var elt := byKey[key];
      RemoveBoth(byAccess, byKey, elt);
      MoveBoth(byAccess, byKey, elt);
      ItemsCons(elt, Remove(byAccess, elt));
      if elt.expiration.Some? && now > elt.expiration.value {
        Report(elt.key, elt.value);
        byAccess := Remove(byAccess, elt);
        byKey := byKey - {elt.key};
        return None;
      }
      byAccess := [elt] + Remove(byAccess, elt);
      return elt.value;
    }

    method Put(key: K, value: Option<V>, now: int) returns (existing: Option<V>)
      requires Valid()
      modifies this, byAccess
      ensures Valid() && forall e <- byAccess :: e in old(byAccess) || fresh(e)
      ensures var o := PutItem(maxSize, ttl, old(Contents()), key, value, now);
              Contents() == o.items && existing == o.result && reported == Told(old(reported), o.departed)
    {
      existing := PutWithMutexHeld(key, value, if key in byKey then byKey[key] else null, now);
    }

    /** A failed swap changes neither the values nor the order. */
    method CompareAndSwap(key: K, oldValue: Option<V>, newValue: Option<V>, now: int)
      returns (itemInCache: Option<V>, replaced: bool)
      requires Valid()
      modifies this, byAccess
      ensures Valid() && forall e <- byAccess :: e in old(byAccess) || fresh(e)
      ensures var o := CasItem(maxSize, ttl, old(Contents()), key, oldValue, newValue, now);
              Contents() == o.items && itemInCache == o.result && reported == Told(old(reported), o.departed)
      ensures replaced == Swaps(old(Contents()), key, oldValue)
    {
      hide Find, Without, SameEntries, PutItem, Items;
      LookupItem(byAccess, byKey, key);
      NothingTold();
      if key !in byKey {
        if oldValue != None {
          return None, false;
        }
        var _ := PutWithMutexHeld(key, newValue, null, now);
      } else {
        var entry := byKey[key];
        if entry.value != oldValue {
          return entry.value, false;
        }
        var _ := PutWithMutexHeld(key, newValue, entry, now);
      }
      return newValue, true;
    }

    method PutWithMutexHeld(key: K, value: Option<V>, elt: CacheEntry?<K, V>, now: int) returns (existing: Option<V>)
      requires Valid() && elt == if key in byKey then byKey[key] else null
      modifies this, byAccess
      ensures Valid() && forall e <- byAccess :: e in old(byAccess) || fresh(e)
      ensures var o := PutItem(maxSize, ttl, old(Contents()), key, value, now);
              Contents() == o.items && existing == o.result && reported == Told(old(reported), o.departed)
    {
      hide Find, Without, SameEntries, Items;
      LookupItem(byAccess, byKey, key);
      NothingTold();
      if elt != null {
        existing := UpdateEntry(value, elt, now);
      } else {
        InsertEntry(key, value, now);
        existing := None;
      }
    }

    method UpdateEntry(value: Option<V>, entry: CacheEntry<K, V>, now: int) returns (existing: Option<V>)
      requires Valid() && entry in byAccess
      modifies this`byAccess, entry
      ensures Valid() && existing == old(entry.value) && forall e <- byAccess :: e in old(byAccess)
      ensures Contents() == [Item(entry.key, value, if ttl != 0 then Deadline(ttl, now) else old(entry.expiration))]
                            + old(Items(Remove(byAccess, entry)))
    {
      hide SameEntries, Items, Remove;
      RemoveBoth(byAccess, byKey, entry);
      MoveBoth(byAccess, byKey, entry);
      existing := entry.value;
      entry.value := value;
      if ttl != 0 {
        entry.expiration := Some(now + ttl);
      }
      ItemsCons(entry, Remove(byAccess, entry));
      byAccess := [entry] + Remove(byAccess, entry);
    }

    method InsertEntry(key: K, value: Option<V>, now: int)
      requires Valid() && key !in byKey
      modifies this
      ensures Valid() && forall e <- byAccess :: e in old(byAccess) || fresh(e)
      ensures var t := [Item(key, value, Deadline(ttl, now))] + old(Contents());
              Contents() == (if |t| <= maxSize then t else t[..maxSize])
              && reported == Told(old(reported), if |t| <= maxSize then [] else ReportedBackwards(t[maxSize..]))
    {
      hide SameEntries, Items, ReportedBackwards, Told;
      NothingTold();
      var entry := new CacheEntry(key, value);
      if ttl != 0 {
        entry.expiration := Some(now + ttl);
      }
      AddBoth(byAccess, byKey, entry);
      ItemsCons(entry, byAccess);
      byAccess := [entry] + byAccess;
      byKey := byKey[key := entry];
      if |byAccess| > maxSize {
        ItemsTake(byAccess, maxSize);
      }
      ItemsLength(byAccess);
      EvictOldest();
    }

    /** The eviction loop: from the back, until the map fits. */
    method EvictOldest()
      requires SameEntries(byAccess, byKey)
      modifies this`byAccess, this`byKey, this`reported
      ensures Valid()
      ensures |old(byAccess)| <= maxSize ==> byAccess == old(byAccess) && reported == old(reported)
      ensures |old(byAccess)| > maxSize ==> byAccess == old(byAccess)[..maxSize]
      ensures |old(byAccess)| > maxSize ==> |Contents()| == maxSize < |old(Contents())|
      ensures |old(byAccess)| > maxSize
              ==> reported == Told(old(reported), ReportedBackwards(old(Contents())[maxSize..]))
    {
      hide SameEntries, Told, Items, ReportedBackwards;
      ghost var all, items := byAccess, Contents();
      SameEntriesCount(byAccess, byKey);
      NothingTold();
      assert all[..|all|] == all && items[|all|..] == [];
      while |byKey| > maxSize
        invariant SameEntries(byAccess, byKey) && |byKey| == |byAccess| <= |all|
        invariant byAccess == all[..|byAccess|]
        invariant |all| <= maxSize ==> |byAccess| == |all|
        invariant |all| > maxSize ==> |byAccess| >= maxSize
        invariant reported == Told(old(reported), ReportedBackwards(items[|byAccess|..]))
        decreases |byKey|
      {
        TellsOneMore(items, |byAccess| - 1, old(reported));
        EvictOne();
      }
    }

    method EvictOne()
      requires SameEntries(byAccess, byKey) && byAccess != []
      modifies this`byAccess, this`byKey, this`reported
      ensures SameEntries(byAccess, byKey) && |byKey| == |byAccess|
      ensures byAccess == old(byAccess)[..|old(byAccess)| - 1]
      ensures reported == Told(old(reported), [Reported(old(byAccess[|byAccess| - 1].View()))])
    {
      hide SameEntries, Told;
      DropLastBoth(byAccess, byKey);
      var oldest := byAccess[|byAccess| - 1];
      byAccess := byAccess[..|byAccess| - 1];
      Report(oldest.key, oldest.value);
      byKey := byKey - {oldest.key};
      SameEntriesCount(byAccess, byKey);
    }

    lemma TellsOneMore(items: seq<Item<K, V>>, n: nat, before: seq<Departure<K, V>>)
      requires n < |items|
      ensures Told(Told(before, ReportedBackwards(items[n + 1..])), [Reported(items[n])])
           == Told(before, ReportedBackwards(items[n..]))
    {
      assert items[n..] == [items[n]] + items[n + 1..];
    }

    lemma ItemsLength(es: seq<CacheEntry<K, V>>)
      ensures |Items(es)| == |es|
    {}

    method Delete(key: K)
      requires Valid()
      modifies this
      ensures Valid() && forall e <- byAccess :: e in old(byAccess)
      ensures var o := DeleteItem(old(Contents()), key);
              Contents() == o.items && reported == Told(old(reported), o.departed)
    {
      hide Find, Without, SameEntries, Items, Remove;
      LookupItem(byAccess, byKey, key);
      NothingTold();
      if key in byKey {
        var elt := byKey[key];
        RemoveBoth(byAccess, byKey, elt);
        byAccess := Remove(byAccess, elt);
        Report(elt.key, elt.value);
        byKey := byKey - {key};
      }
    }

    /** Go visits the map in an order of its own choosing, so only what is reported is determined,
        not the order. */
    method Clear()
      requires Valid()
      modifies this
      ensures Valid() && Contents() == []
      ensures multiset(reported) == multiset(Told(old(reported), ClearItems(old(Contents())).departed))
    {
      hide Items, SameEntries, Remove;
      if onEvict {
        ReportAll();
      }
      byAccess, byKey := [], map[];
      NothingCached();
    }

    lemma NothingCached()
      ensures SameEntries<K, V>([], map[]) && Items<K, V>([]) == []
    {}

    method ReportAll()
      requires Valid() && onEvict
      modifies this`reported
      ensures multiset(reported) == multiset(old(reported) + ReportedBackwards(Contents()))
    {
      hide Items, SameEntries, Remove, ReportedBackwards, Told, Find, Without;
      var keys := byKey.Keys;
      ghost var left, m := byAccess, byKey;
      NothingCached();
      while keys != {}
        invariant m.Keys == keys && (forall k <- keys :: k in byKey && m[k] == byKey[k]) && SameEntries(left, m)
        invariant multiset(reported) + multiset(ReportedBackwards(Items(left)))
               == multiset(old(reported)) + multiset(ReportedBackwards(Contents()))
        decreases keys
      {
        var k :| k in keys;
        var entry := byKey[k];
        LookupItem(left, m, k);
        ReportedWithout(left, entry);
        RemoveBoth(left, m, entry);
        MultisetsAssociate(multiset(reported), multiset{Reported(entry.View())},
          multiset(ReportedBackwards(Items(Remove(left, entry)))));
        reported := ReportedMore(reported, entry);
        left := Remove(left, entry);
        m := m - {k};
        keys := keys - {k};
      }
      SameEntriesCount(left, m);
      assert left == [];
    }

    method ReportedMore(before: seq<Departure<K, V>>, entry: CacheEntry<K, V>) returns (after: seq<Departure<K, V>>)
      ensures after == before + [Departure(entry.key, entry.value)]
      ensures multiset(after) == multiset(before) + multiset{Reported(entry.View())}
    {
      after := before + [Departure(entry.key, entry.value)];
    }

    lemma NothingTold()
      ensures Told(reported, []) == reported
    {}
  }

  lemma MultisetsAssociate<T>(a: multiset<T>, b: multiset<T>, c: multiset<T>)
    ensures (a + b) + c == a + (b + c)
  {}

  lemma {:induction false} ReportedWithout<K, V>(es: seq<CacheEntry<K, V>>, e: CacheEntry<K, V>)
    requires e in es
    ensures multiset(ReportedBackwards(Items(es)))
         == multiset{Reported(e.View())} + multiset(ReportedBackwards(Items(Remove(es, e))))
  {
    var head := ReportedBackwards(Items(es[1..]));
    assert ReportedBackwards(Items(es)) == head + [Reported(es[0].View())];
    assert multiset(head + [Reported(es[0].View())]) == multiset(head) + multiset{Reported(es[0].View())};
    if es[0] != e {
      assert e in es[1..];
      ReportedWithout(es[1..], e);
      var head' := ReportedBackwards(Items(Remove(es[1..], e)));
      assert ReportedBackwards(Items(Remove(es, e))) == head' + [Reported(es[0].View())];
      assert multiset(head' + [Reported(es[0].View())]) == multiset(head') + multiset{Reported(es[0].View())};
    }
  }
}
