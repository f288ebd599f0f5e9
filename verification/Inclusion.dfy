/**
 Two caches fed the same operations by the same clock: everything the smaller one holds, the
 larger one holds too, in the same order of recency.
 */
module Inclusion {
  import opened Results
  import opened Recency

  /** `s` is `t` with some items left out. */
  predicate Sub<K(==), V(==)>(s: seq<Item<K, V>>, t: seq<Item<K, V>>) {
    s == [] || (t != [] && if s[0] == t[0] then Sub(s[1..], t[1..]) else Sub(s, t[1..]))
  }

  /** The states two caches of capacities `m <= n` can be in together: the larger one has no less
      room left than the smaller one. */
  ghost predicate Related<K, V>(m: nat, n: nat, ttl: int, s: seq<Item<K, V>>, t: seq<Item<K, V>>) {
    && Distinct(s) && Distinct(t)
    && |s| <= m && |t| <= n
    && |t| - |s| <= n - m
    && (ttl == 0 ==> forall i <- t :: i.expiration == None)
    && Sub(s, t)
  }

  lemma {:induction false} SubMember<K, V>(s: seq<Item<K, V>>, t: seq<Item<K, V>>)
    requires Sub(s, t)
    ensures |s| <= |t| && forall i <- s :: i in t
  {
    if s != [] {
      SubMember(if s[0] == t[0] then s[1..] else s, t[1..]);
      assert t == [t[0]] + t[1..] && s == [s[0]] + s[1..];
    }
  }

  lemma {:induction false} SubRefl<K, V>(s: seq<Item<K, V>>)
    ensures Sub(s, s)
  {
    if s != [] {
      SubRefl(s[1..]);
    }
  }

  lemma SubCons<K, V>(i: Item<K, V>, s: seq<Item<K, V>>, t: seq<Item<K, V>>)
    requires Sub(s, t)
    ensures Sub([i] + s, [i] + t)
  {
    assert ([i] + s)[1..] == s && ([i] + t)[1..] == t;
  }

  lemma {:induction false} SubDrop<K, V>(s: seq<Item<K, V>>, t: seq<Item<K, V>>)
    requires s != [] && Sub(s, t)
    ensures Sub(s[1..], t)
    decreases |t|
  {
    if s[0] == t[0] {
      if |s| > 1 && s[1] == t[0] {
        SubDrop(s[1..], t[1..]);
      }
    } else {
      SubDrop(s, t[1..]);
      if |s| > 1 && s[1] == t[0] {
        SubDrop(s[1..], t[1..]);
      }
    }
  }

  /** Leaving out `x` items at the end of the larger list is matched by leaving out at least as
      many at the end of the smaller one. */
  lemma {:induction false} SubTake<K, V>(s: seq<Item<K, V>>, t: seq<Item<K, V>>, i: nat, j: nat)
    requires Sub(s, t) && i <= |s| && j <= |t| && |t| - j <= |s| - i
    ensures Sub(s[..i], t[..j])
    decreases |t|
  {
    SubMember(s, t);
    if i > 0 {
      assert t[..j][1..] == t[1..][..j - 1];
      if s[0] == t[0] {
        SubTake(s[1..], t[1..], i - 1, j - 1);
        assert s[..i][1..] == s[1..][..i - 1];
      } else {
        SubMember(s, t[1..]);
        SubTake(s, t[1..], i, j - 1);
      }
    }
  }

  /** A key found in the smaller list is found in the larger one, with the same item. */
  lemma {:induction false} SubFind<K, V>(s: seq<Item<K, V>>, t: seq<Item<K, V>>, k: K)
    requires Sub(s, t) && Distinct(t) && Find(s, k).Some?
    ensures Find(t, k) == Find(s, k)
  {
    SubMember(s, t);
    FindsMember(s, k);
    FindsMember(t, k);
  }

  lemma {:induction false} SubWithout<K, V>(s: seq<Item<K, V>>, t: seq<Item<K, V>>, k: K)
    requires Sub(s, t) && Distinct(t)
    ensures Sub(Without(s, k), Without(t, k))
    decreases |t|
  {
    hide Find;
    if s != [] {
      assert Distinct(t[1..]);
      if s[0] == t[0] {
        if s[0].key != k {
          SubWithout(s[1..], t[1..], k);
          SubCons(s[0], Without(s[1..], k), Without(t[1..], k));
        }
      } else if t[0].key == k {
        SubMember(s, t[1..]);
        NotFound(s, t[1..], k);
        WithoutAbsent(s, k);
      } else {
        SubWithout(s, t[1..], k);
        SubSkip(Without(s, k), t[0], Without(t[1..], k), k, s, t);
      }
    }
  }

  lemma NotFound<K, V>(s: seq<Item<K, V>>, t: seq<Item<K, V>>, k: K)
    requires (forall i <- s :: i in t) && forall i <- t :: i.key != k
    ensures Find(s, k) == None
  {
    FindsMember(s, k);
  }

  /** An extra item in front of the larger list that the smaller one does not start with. */
  lemma SubSkip<K, V>(
      s': seq<Item<K, V>>, i: Item<K, V>, t': seq<Item<K, V>>, k: K, s: seq<Item<K, V>>, t: seq<Item<K, V>>)
    requires Sub(s', t') && s' == Without(s, k)
    requires t != [] && t[0] == i && Sub(s, t[1..]) && Distinct(t)
    ensures Sub(s', [i] + t')
  {
    hide Find;
    assert ([i] + t')[1..] == t';
    if s' != [] {
      SubMember(s, t[1..]);
      WithoutMember(s, k);
      assert s'[0] in s;
      var j :| 0 <= j < |t[1..]| && t[1..][j] == s'[0];
      assert t[j + 1].key != t[0].key;
    }
  }

  lemma {:induction false} WithoutMember<K, V>(s: seq<Item<K, V>>, k: K)
    ensures forall i <- Without(s, k) :: i in s
  {
    if s != [] && s[0].key != k {
      WithoutMember(s[1..], k);
    }
  }

  lemma SubFront<K, V>(s: seq<Item<K, V>>, i: Item<K, V>, t: seq<Item<K, V>>)
    requires Sub(s, t) && i !in s
    ensures Sub(s, [i] + t)
  {
    assert ([i] + t)[1..] == t;
  }

  // ---------- One operation ----------

  /** The operations that keep the caches related: every one but a CompareAndSwap that the smaller
      cache takes for an insertion while the larger one still holds another value. */
  predicate Harmless<K(==), V(==)>(m: nat, s: seq<Item<K, V>>, t: seq<Item<K, V>>, op: Op<K, V>) {
    op.Cas? && m > 0 && op.oldValue == None && Find(s, op.key) == None && Find(t, op.key).Some?
    ==> Find(t, op.key).value.value == None
  }

  lemma GetRelates<K, V>(m: nat, n: nat, ttl: int, s: seq<Item<K, V>>, t: seq<Item<K, V>>, k: K, now: int)
    requires Related(m, n, ttl, s, t)
    ensures Related(m, n, ttl, GetItem(s, k, now).items, GetItem(t, k, now).items)
    ensures GetItem(s, k, now).result.Some? ==> GetItem(t, k, now).result == GetItem(s, k, now).result
  {
    hide Find, Without, Sub;
    ApplyKeeps(m, ttl, s, Get(k), now);
    ApplyKeeps(n, ttl, t, Get(k), now);
    FindsMember(s, k);
    FindsMember(t, k);
    WithoutKeeps(s, k);
    WithoutKeeps(t, k);
    SubWithout(s, t, k);
    if Find(s, k).Some? {
      SubFind(s, t, k);
      SubCons(Find(s, k).value, Without(s, k), Without(t, k));
    } else {
      WithoutAbsent(s, k);
      if Find(t, k).Some? {
        SubFront(s, Find(t, k).value, Without(t, k));
      }
    }
  }

  lemma DeleteRelates<K, V>(m: nat, n: nat, ttl: int, s: seq<Item<K, V>>, t: seq<Item<K, V>>, k: K)
    requires Related(m, n, ttl, s, t)
    ensures Related(m, n, ttl, DeleteItem(s, k).items, DeleteItem(t, k).items)
  {
    hide Find, Without, Sub;
    FindsMember(s, k);
    FindsMember(t, k);
    WithoutKeeps(s, k);
    WithoutKeeps(t, k);
    SubWithout(s, t, k);
    WithoutAbsentIf(s, k);
    WithoutAbsentIf(t, k);
    if Find(s, k).Some? {
      SubFind(s, t, k);
    }
  }

  lemma WithoutAbsentIf<K, V>(s: seq<Item<K, V>>, k: K)
    ensures Find(s, k) == None ==> Without(s, k) == s
  {
    if Find(s, k) == None {
      WithoutAbsent(s, k);
    }
  }

  lemma PutPresentRelates<K, V>(
      m: nat, n: nat, ttl: int, s: seq<Item<K, V>>, t: seq<Item<K, V>>, k: K, v: Option<V>, now: int)
    requires Related(m, n, ttl, s, t) && Find(t, k).Some?
    ensures Related(m, n, ttl, PutItem(m, ttl, s, k, v, now).items, PutItem(n, ttl, t, k, v, now).items)
  {
    hide Find, Without, Sub;
    PutKeeps(m, ttl, s, k, v, now);
    PutKeeps(n, ttl, t, k, v, now);
    FindsMember(s, k);
    FindsMember(t, k);
    WithoutKeeps(s, k);
    WithoutKeeps(t, k);
    SubWithout(s, t, k);
    var i := Item(k, v, Deadline(ttl, now));
    SubCons(i, Without(s, k), Without(t, k));
    if Find(s, k).Some? {
      SubFind(s, t, k);
    } else {
      WithoutAbsent(s, k);
      var s1, t1 := [i] + s, [i] + Without(t, k);
      SubTake(s1, t1, if |s1| <= m then |s1| else m, |t1|);
      assert t1[..|t1|] == t1 && s1[..|s1|] == s1;
    }
  }

  lemma PutAbsentRelates<K, V>(
      m: nat, n: nat, ttl: int, s: seq<Item<K, V>>, t: seq<Item<K, V>>, k: K, v: Option<V>, now: int)
    requires Related(m, n, ttl, s, t) && Find(t, k) == None
    ensures Related(m, n, ttl, PutItem(m, ttl, s, k, v, now).items, PutItem(n, ttl, t, k, v, now).items)
  {
    hide Find, Without, Sub;
    PutKeeps(m, ttl, s, k, v, now);
    PutKeeps(n, ttl, t, k, v, now);
    if Find(s, k).Some? {
      SubFind(s, t, k);
    }
    var i := Item(k, v, Deadline(ttl, now));
    SubCons(i, s, t);
    var s1, t1 := [i] + s, [i] + t;
    SubTake(s1, t1, if |s1| <= m then |s1| else m, if |t1| <= n then |t1| else n);
    assert t1[..|t1|] == t1 && s1[..|s1|] == s1;
  }

  lemma PutRelates<K, V>(m: nat, n: nat, ttl: int, s: seq<Item<K, V>>, t: seq<Item<K, V>>, k: K, v: Option<V>, now: int)
    requires Related(m, n, ttl, s, t)
    ensures Related(m, n, ttl, PutItem(m, ttl, s, k, v, now).items, PutItem(n, ttl, t, k, v, now).items)
  {
    hide Related, PutItem;
    if Find(t, k).Some? {
      PutPresentRelates(m, n, ttl, s, t, k, v, now);
    } else {
      PutAbsentRelates(m, n, ttl, s, t, k, v, now);
    }
  }

  lemma CasRelates<K, V>(m: nat, n: nat, ttl: int, s: seq<Item<K, V>>, t: seq<Item<K, V>>, op: Op<K, V>, now: int)
    requires op.Cas? && m <= n && Related(m, n, ttl, s, t) && Harmless(m, s, t, op)
    ensures Related(m, n, ttl, Apply(m, ttl, s, op, now).items, Apply(n, ttl, t, op, now).items)
  {
    hide Find, Without, Sub;
    var k, o, v := op.key, op.oldValue, op.newValue;
    PutRelates(m, n, ttl, s, t, k, v, now);
    PutKeeps(n, ttl, t, k, v, now);
    if Find(s, k).Some? {
      SubFind(s, t, k);
    } else if Swaps(t, k, o) && !Swaps(s, k, o) {
      FindsMember(s, k);
      FindsMember(t, k);
      WithoutKeeps(t, k);
      SubWithout(s, t, k);
      WithoutAbsent(s, k);
      var i := Item(k, v, if ttl != 0 then Deadline(ttl, now) else Find(t, k).value.expiration);
      SubFront(s, i, Without(t, k));
    } else if Swaps(s, k, o) && !Swaps(t, k, o) {
      assert m == 0 && s == [];
    }
  }

  lemma SameKeySameItem<K, V>(t: seq<Item<K, V>>, i: Item<K, V>, j: Item<K, V>)
    requires Distinct(t) && i in t && j in t && i.key == j.key
    ensures i == j
  {
    var a :| 0 <= a < |t| && t[a] == i;
    var b :| 0 <= b < |t| && t[b] == j;
    assert a == b by {
      assert forall x, y | 0 <= x < y < |t| :: t[x].key != t[y].key;
    }
  }

  /** The key's item in `t`, with `s` left out of what comes behind it. */
  predicate Newer<K(==), V(==)>(t: seq<Item<K, V>>, k: K, s: seq<Item<K, V>>) {
    t != [] && if t[0].key == k then Sub(s, t[1..]) else Newer(t[1..], k, s)
  }

  lemma {:induction false} SubConsIff<K, V>(i: Item<K, V>, s: seq<Item<K, V>>, t: seq<Item<K, V>>)
    requires Distinct(t) && i in t
    ensures Sub([i] + s, t) <==> Newer(t, i.key, s)
    decreases |t|
  {
    hide Distinct;
    assert ([i] + s)[1..] == s;
    if t[0].key == i.key {
      SameKeySameItem(t, t[0], i);
    } else {
      assert i in t[1..];
      DistinctRest(t);
      SubConsIff(i, s, t[1..]);
    }
  }

  lemma DistinctRest<K, V>(t: seq<Item<K, V>>)
    requires Distinct(t) && t != []
    ensures Distinct(t[1..])
  {
  }

  /** What a cache of capacity `m > 0` keeps of its items when a new one comes in. */
  function Kept<K, V>(m: nat, s: seq<Item<K, V>>): seq<Item<K, V>>
    requires m > 0
  {
    if |s| < m then s else s[..m - 1]
  }

  /** The larger cache already has what the smaller one inserts, more recent than all the smaller
      one keeps. */
  predicate Matches<K(==), V(==)>(
      m: nat, ttl: int, s: seq<Item<K, V>>, t: seq<Item<K, V>>, op: Op<K, V>, now: int)
    requires op.Cas? && m > 0
  {
    Item(op.key, op.newValue, Deadline(ttl, now)) in t && Newer(t, op.key, Kept(m, s))
  }

  lemma HarmfulCasOutcome<K, V>(
      m: nat, n: nat, ttl: int, s: seq<Item<K, V>>, t: seq<Item<K, V>>, op: Op<K, V>, now: int)
    requires |s| <= m && !Harmless(m, s, t, op)
    ensures Apply(n, ttl, t, op, now).items == t
    ensures Apply(m, ttl, s, op, now).items == [Item(op.key, op.newValue, Deadline(ttl, now))] + Kept(m, s)
  {
    hide Find;
    var i := Item(op.key, op.newValue, Deadline(ttl, now));
    if |s| == m {
      assert ([i] + s)[..m] == [i] + s[..m - 1];
    }
  }

  /** What a harmful CompareAndSwap comes to: the smaller cache inserts, the larger one refuses, and
      the inclusion survives exactly if the larger one happens to match. */
  lemma HarmfulCasIff<K, V>(
      m: nat, n: nat, ttl: int, s: seq<Item<K, V>>, t: seq<Item<K, V>>, op: Op<K, V>, now: int)
    requires Related(m, n, ttl, s, t) && !Harmless(m, s, t, op)
    ensures Sub(Apply(m, ttl, s, op, now).items, Apply(n, ttl, t, op, now).items) <==> Matches(m, ttl, s, t, op, now)
  {
    hide Apply, Find, Sub, Newer, Kept;
    var i := Item(op.key, op.newValue, Deadline(ttl, now));
    HarmfulCasOutcome(m, n, ttl, s, t, op, now);
    assert ([i] + Kept(m, s))[0] == i;
    if i in t {
      SubConsIff(i, Kept(m, s), t);
    } else if Sub([i] + Kept(m, s), t) {
      SubMember([i] + Kept(m, s), t);
    }
  }

  /** One operation keeps the inclusion, and a value the smaller cache returns for a read is what
      the larger one returns. */
  lemma StepRelates<K, V>(m: nat, n: nat, ttl: int, s: seq<Item<K, V>>, t: seq<Item<K, V>>, op: Op<K, V>, now: int)
    requires m <= n && Related(m, n, ttl, s, t) && Harmless(m, s, t, op)
    ensures Related(m, n, ttl, Apply(m, ttl, s, op, now).items, Apply(n, ttl, t, op, now).items)
    ensures op.Get? && Apply(m, ttl, s, op, now).result.Some?
            ==> Apply(n, ttl, t, op, now).result == Apply(m, ttl, s, op, now).result
  {
    hide GetItem, PutItem, CasItem, DeleteItem, Find, Sub;
    match op
    case Get(k) => GetRelates(m, n, ttl, s, t, k, now);
    case Put(k, v) => PutRelates(m, n, ttl, s, t, k, v, now);
    case Cas(_, _, _) => CasRelates(m, n, ttl, s, t, op, now);
    case Delete(k) => DeleteRelates(m, n, ttl, s, t, k);
    case Clear => assert Sub<K, V>([], []) by { SubRefl<K, V>([]); }
  }

  /** The operations after which the smaller cache's items are still the larger one's with some left
      out, in terms of the two states before. */
  predicate Admissible<K(==), V(==)>(
      m: nat, ttl: int, s: seq<Item<K, V>>, t: seq<Item<K, V>>, op: Op<K, V>, now: int)
  {
    Harmless(m, s, t, op) || Matches(m, ttl, s, t, op, now)
  }

  lemma StepRelatesIff<K, V>(
      m: nat, n: nat, ttl: int, s: seq<Item<K, V>>, t: seq<Item<K, V>>, op: Op<K, V>, now: int)
    requires m <= n && Related(m, n, ttl, s, t)
    ensures
      var s', t' := Apply(m, ttl, s, op, now).items, Apply(n, ttl, t, op, now).items;
      (Sub(s', t') <==> Admissible(m, ttl, s, t, op, now))
      && (Sub(s', t') ==> Related(m, n, ttl, s', t'))
  {
    hide Apply, Find, Sub, Matches;
    if Harmless(m, s, t, op) {
      StepRelates(m, n, ttl, s, t, op, now);
    } else {
      HarmfulCasIff(m, n, ttl, s, t, op, now);
      HarmfulCasOutcome(m, n, ttl, s, t, op, now);
      ApplyKeeps(m, ttl, s, op, now);
    }
  }

  // ---------- Whole runs ----------

  /** Every operation of the run is admissible where it happens. */
  predicate AdmissibleRun<K(==), V(==)>(m: nat, n: nat, ttl: int, h: seq<Event<K, V>>) {
    h == [] ||
    (var before, last := h[..|h| - 1], h[|h| - 1];
     AdmissibleRun(m, n, ttl, before)
     && Admissible(m, ttl, Run(m, ttl, before), Run(n, ttl, before), last.op, last.now))
  }

  /** The smaller cache's items are the larger one's with some left out, all along the run. */
  predicate IncludedThroughout<K(==), V(==)>(m: nat, n: nat, ttl: int, h: seq<Event<K, V>>) {
    Sub(Run(m, ttl, h), Run(n, ttl, h)) && (h == [] || IncludedThroughout(m, n, ttl, h[..|h| - 1]))
  }

  /** Inclusion holds all along a run exactly when each of its operations is admissible. */
  lemma {:induction false} RunsRelateIff<K, V>(m: nat, n: nat, ttl: int, h: seq<Event<K, V>>)
    requires m <= n
    ensures IncludedThroughout(m, n, ttl, h) <==> AdmissibleRun(m, n, ttl, h)
    ensures IncludedThroughout(m, n, ttl, h) ==> Related(m, n, ttl, Run(m, ttl, h), Run(n, ttl, h))
    decreases |h|
  {
    if h == [] {
      SubRefl<K, V>([]);
    } else {
      hide Apply, Related, Admissible, Sub;
      var before, last := h[..|h| - 1], h[|h| - 1];
      RunsRelateIff(m, n, ttl, before);
      if IncludedThroughout(m, n, ttl, before) {
        StepRelatesIff(m, n, ttl, Run(m, ttl, before), Run(n, ttl, before), last.op, last.now);
      }
    }
  }

  lemma {:induction false} NoCasIsAdmissible<K, V>(m: nat, n: nat, ttl: int, h: seq<Event<K, V>>)
    requires forall e <- h :: !e.op.Cas?
    ensures AdmissibleRun(m, n, ttl, h)
    decreases |h|
  {
    hide Run;
    if h != [] {
      assert h[|h| - 1] in h;
      NoCasIsAdmissible(m, n, ttl, h[..|h| - 1]);
    }
  }

  /** The inclusion property: after any run of Get, Put, Delete and Clear, with or without a
      time-to-live, the smaller cache's bindings are the larger one's with some left out, and a
      read that hits in the smaller cache hits in the larger one with the same value. */
  lemma LargerCacheNeverMissesMore<K, V>(m: nat, n: nat, ttl: int, h: seq<Event<K, V>>, k: K, now: int)
    requires m <= n && forall e <- h :: !e.op.Cas?
    ensures Sub(Run(m, ttl, h), Run(n, ttl, h))
    ensures GetItem(Run(m, ttl, h), k, now).result.Some?
            ==> GetItem(Run(n, ttl, h), k, now).result == GetItem(Run(m, ttl, h), k, now).result
  {
    hide Run, GetItem, AdmissibleRun, IncludedThroughout;
    NoCasIsAdmissible(m, n, ttl, h);
    RunsRelateIff(m, n, ttl, h);
    GetRelates(m, n, ttl, Run(m, ttl, h), Run(n, ttl, h), k, now);
  }

  /** CompareAndSwap is outside the property for good reason: a cache of one that has evicted key 1
      takes the swap for an insertion, and then answers what a cache of two never would. */
  lemma CasBreaksInclusion()
    ensures var h := [Event(Put(1, Some('a')), 0), Event(Put(2, Some('b')), 0), Event(Cas(1, None, Some('c')), 0)];
            GetItem(Run(1, 0, h), 1, 0).result == Some('c') && GetItem(Run(2, 0, h), 1, 0).result == Some('a')
  {
    hide Run, Apply;
    var h0: Event<int, char> := Event(Put(1, Some('a')), 0);
    var h1: Event<int, char> := Event(Put(2, Some('b')), 0);
    var h2: Event<int, char> := Event(Cas(1, None, Some('c')), 0);
    var a, b, c: Item<int, char> := Item(1, Some('a'), None), Item(2, Some('b'), None), Item(1, Some('c'), None);
    assert [] + [h0] == [h0] && [h0] + [h1] == [h0, h1] && [h0, h1] + [h2] == [h0, h1, h2];
    forall cap | 1 <= cap <= 2 ensures Run(cap, 0, [h0, h1]) == [b, a][..cap] {
      RunNothing<int, char>(cap);
      RunOneMore(cap, 0, [], h0);
      PutsInFront(cap, [], 1, Some('a'));
      assert [a] + [] == [a] && [a][..1] == [a];
      RunOneMore(cap, 0, [h0], h1);
      PutsInFront(cap, [a], 2, Some('b'));
      assert [b] + [a] == [b, a];
    }
    RunOneMore(1, 0, [h0, h1], h2);
    RunOneMore(2, 0, [h0, h1], h2);
    assert [b, a][..1] == [b] && [b, a][..2] == [b, a];
    PutsInFront(1, [b], 1, Some('c'));
    assert ([c] + [b])[..1] == [c];
    assert [b, a][1..] == [a] && Find([b, a], 1) == Some(a);
    SwapsOrNot(1, [b], 1, None, Some('c'));
    SwapsOrNot(2, [b, a], 1, None, Some('c'));
  }

  lemma RunNothing<K, V>(cap: nat)
    ensures Run<K, V>(cap, 0, []) == []
  {}

  lemma PutsInFront(cap: nat, s: seq<Item<int, char>>, k: int, v: Option<char>)
    requires cap > 0 && |s| <= cap && Find(s, k) == None
    ensures var t := [Item(k, v, None)] + s;
            Apply(cap, 0, s, Put(k, v), 0).items == if |t| <= cap then t else t[..cap]
  {}

  lemma SwapsOrNot(cap: nat, s: seq<Item<int, char>>, k: int, v: Option<char>, w: Option<char>)
    ensures Apply(cap, 0, s, Cas(k, v, w), 0).items
            == if Swaps(s, k, v) then Apply(cap, 0, s, Put(k, w), 0).items else s
  {}
}
