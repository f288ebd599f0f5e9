/**
 When keys were last used, and what that decides: the order of the cache, and who has to leave.
 Last uses are told from the history of operations, not from the order of the list.
 */
module Usage {
  import opened Results
  import opened Recency

  /** An operation uses a key if it writes it, or reads it with success. */
  predicate Uses<K(==), V(==)>(s: seq<Item<K, V>>, e: Event<K, V>, k: K) {
    match e.op
    case Get(k') => k' == k && Find(s, k).Some? && !Expired(Find(s, k).value, e.now)
    case Put(k', _) => k' == k
    case Cas(k', o, _) => k' == k && Swaps(s, k, o)
    case _ => false
  }

  /** The number of the operation that last used the key, counted from one; zero for none. */
  function LastUse<K(==), V(==)>(cap: nat, ttl: int, h: seq<Event<K, V>>, k: K): (n: nat)
    ensures n <= |h|
  {
    if h == [] then 0
    else
      var before := h[..|h| - 1];
      if Uses(Run(cap, ttl, before), h[|h| - 1], k) then |h| else LastUse(cap, ttl, before, k)
  }

  // ---------- The order ----------

  ghost predicate Ordered<K, V>(s: seq<Item<K, V>>, rank: K -> int) {
    forall i, j | 0 <= i < j < |s| :: rank(s[i].key) > rank(s[j].key)
  }

  lemma {:induction false} WithoutOrdered<K, V>(s: seq<Item<K, V>>, k: K, rank: K -> int)
    requires Ordered(s, rank)
    ensures Ordered(Without(s, k), rank)
    ensures forall x <- Without(s, k) :: x in s
  {
    if s != [] && s[0].key != k {
      var rest := Without(s[1..], k);
      WithoutOrdered(s[1..], k, rank);
      forall j | 0 <= j < |rest| ensures rank(s[0].key) > rank(rest[j].key) {
        assert rest[j] in s[1..];
      }
    }
  }

  lemma ConsOrdered<K, V>(i: Item<K, V>, s: seq<Item<K, V>>, rank: K -> int)
    requires Ordered(s, rank) && forall x <- s :: rank(i.key) > rank(x.key)
    ensures Ordered([i] + s, rank)
  {}

  lemma SameRanks<K, V>(s: seq<Item<K, V>>, rank: K -> int, rank': K -> int)
    requires Ordered(s, rank) && forall x <- s :: rank'(x.key) == rank(x.key)
    ensures Ordered(s, rank')
  {}

  /** One operation on an ordered list, of which the key it uses becomes the highest. */
  lemma StepOrdered<K, V>(
      cap: nat, ttl: int, s: seq<Item<K, V>>, e: Event<K, V>, rank: K -> int, rank': K -> int, top: int)
    requires Distinct(s) && Ordered(s, rank)
    requires forall k :: rank(k) < top && rank'(k) == if Uses(s, e, k) then top else rank(k)
    ensures Ordered(Apply(cap, ttl, s, e.op, e.now).items, rank')
  {
    hide Find, Without;
    if !e.op.Clear? {
      var k := e.op.key;
      FindsMember(s, k);
      WithoutKeeps(s, k);
      WithoutOrdered(s, k, rank);
      SameRanks(Without(s, k), rank, rank');
      if Uses(s, e, k) {
        forall x <- Without(s, k) ensures rank'(x.key) < top {}
        UsedInFront(cap, ttl, s, e, rank');
      } else {
        SameRanks(s, rank, rank');
      }
    }
  }

  lemma UsedInFront<K, V>(cap: nat, ttl: int, s: seq<Item<K, V>>, e: Event<K, V>, rank: K -> int)
    requires !e.op.Clear? && Uses(s, e, e.op.key) && Distinct(s)
    requires Ordered(Without(s, e.op.key), rank)
    requires forall x <- Without(s, e.op.key) :: rank(x.key) < rank(e.op.key)
    ensures Ordered(Apply(cap, ttl, s, e.op, e.now).items, rank)
  {
    hide Find, Without;
    var k := e.op.key;
    FindsMember(s, k);
    if e.op.Get? {
      ConsOrdered(Find(s, k).value, Without(s, k), rank);
    } else {
      var v := if e.op.Put? then e.op.value else e.op.newValue;
      if Find(s, k).Some? {
        var i := Item(k, v, if ttl != 0 then Deadline(ttl, e.now) else Find(s, k).value.expiration);
        ConsOrdered(i, Without(s, k), rank);
      } else {
        WithoutAbsent(s, k);
        ConsOrdered(Item(k, v, Deadline(ttl, e.now)), s, rank);
      }
    }
  }

  /** After every run the items are in order of their last use, the latest first. */
  lemma {:induction false} OrderIsLastUse<K, V>(cap: nat, ttl: int, h: seq<Event<K, V>>)
    ensures Ordered(Run(cap, ttl, h), k => LastUse(cap, ttl, h, k))
    decreases |h|
  {
    if h != [] {
      hide Apply, Ordered, Uses;
      var before, last := h[..|h| - 1], h[|h| - 1];
      OrderIsLastUse(cap, ttl, before);
      RunKeeps(cap, ttl, before);
      StepOrdered(
        cap, ttl, Run(cap, ttl, before), last,
        k => LastUse(cap, ttl, before, k), k => LastUse(cap, ttl, h, k), |h|);
    }
  }

  // ---------- Coming and going ----------

  /** The operation inserts: it writes a key that was not there. */
  predicate InsertsNew<K(==), V(==)>(s: seq<Item<K, V>>, op: Op<K, V>) {
    (op.Put? || (op.Cas? && op.oldValue == None)) && Find(s, op.key) == None
  }

  predicate IsHeld<K(==), V>(s: seq<Item<K, V>>, k: K) {
    Find(s, k).Some?
  }

  lemma {:induction false} FindWithout<K, V>(s: seq<Item<K, V>>, k: K, x: K)
    requires Distinct(s)
    ensures Find(Without(s, k), x) == if x == k then None else Find(s, x)
  {
    if s != [] {
      if s[0].key == k {
        FindsMember(s[1..], k);
        assert forall i <- s[1..] :: i.key != s[0].key;
      } else {
        FindWithout(s[1..], k, x);
        assert Without(s, k)[1..] == Without(s[1..], k);
      }
    }
  }

  lemma FindCons<K, V>(i: Item<K, V>, s: seq<Item<K, V>>, x: K)
    ensures Find([i] + s, x) == if x == i.key then Some(i) else Find(s, x)
  {
    assert ([i] + s)[1..] == s;
  }

  lemma {:induction false} FindDropLast<K, V>(s: seq<Item<K, V>>, x: K)
    requires s != [] && Distinct(s)
    ensures Find(s[..|s| - 1], x) == if x == s[|s| - 1].key then None else Find(s, x)
  {
    if |s| > 1 {
      FindDropLast(s[1..], x);
      assert s[..|s| - 1][1..] == s[1..][..|s| - 2];
      assert s[0].key != s[|s| - 1].key;
    }
  }

  /** What is held under a key after an operation: what was, unless the operation is about it or
      needs the place of the last one. */
  lemma FoundAfter<K, V>(cap: nat, ttl: int, s: seq<Item<K, V>>, op: Op<K, V>, now: int, x: K)
    requires Distinct(s) && |s| <= cap
    ensures
      var after := Apply(cap, ttl, s, op, now).items;
      if op.Clear? then Find(after, x) == None
      else if x == op.key then
        if InsertsNew(s, op) then Find(after, x).Some? <==> cap > 0
        else Find(after, x).Some? <==> Find(s, x).Some? && !op.Delete? && !(op.Get? && Expired(Find(s, x).value, now))
      else
        Find(after, x) ==
          if InsertsNew(s, op) && |s| == cap && s != [] && s[|s| - 1].key == x then None else Find(s, x)
  {
    hide Find, Without;
    NothingFound<K, V>(x);
    if !op.Clear? {
      FindsMember(s, op.key);
      FindWithout(s, op.key, x);
      if Find(s, op.key).Some? {
        FindCons(Find(s, op.key).value, Without(s, op.key), x);
        var v := if op.Put? then op.value else if op.Cas? then op.newValue else None;
        FindCons(Item(op.key, v, Deadline(ttl, now)), Without(s, op.key), x);
        FindCons(Item(op.key, v, Find(s, op.key).value.expiration), Without(s, op.key), x);
      } else if InsertsNew(s, op) {
        FoundAfterInsertion(cap, ttl, s, op.key, if op.Put? then op.value else op.newValue, now, x);
      }
    }
  }

  lemma FoundAfterInsertion<K, V>(cap: nat, ttl: int, s: seq<Item<K, V>>, k: K, v: Option<V>, now: int, x: K)
    requires Distinct(s) && |s| <= cap && Find(s, k) == None
    ensures
      var after := PutItem(cap, ttl, s, k, v, now).items;
      Find(after, x) ==
        if x == k then (if cap > 0 then Some(Item(k, v, Deadline(ttl, now))) else None)
        else if |s| == cap && s != [] && s[|s| - 1].key == x then None
        else Find(s, x)
  {
    hide Find;
    var i := Item(k, v, Deadline(ttl, now));
    FindsMember(s, k);
    FindsMember(s, x);
    FindCons(i, s, x);
    if |s| == cap {
      ConsDistinct(i, s);
      FindDropLast([i] + s, x);
      NothingFound<K, V>(x);
      assert ([i] + s)[..|s|] == PutItem(cap, ttl, s, k, v, now).items;
    }
  }

  lemma NothingFound<K, V>(x: K)
    ensures Find<K, V>([], x) == None
  {}

  /** The key that was used longest ago, of those held. */
  predicate LeastRecentlyUsed<K(==), V(==)>(cap: nat, ttl: int, h: seq<Event<K, V>>, x: K) {
    forall y <- Run(cap, ttl, h) | y.key != x :: LastUse(cap, ttl, h, y.key) > LastUse(cap, ttl, h, x)
  }

  lemma LastIsLeastRecentlyUsed<K, V>(cap: nat, ttl: int, h: seq<Event<K, V>>, x: K)
    requires IsHeld(Run(cap, ttl, h), x)
    ensures
      var s := Run(cap, ttl, h);
      s != [] && (s[|s| - 1].key == x <==> LeastRecentlyUsed(cap, ttl, h, x))
  {
    hide Run, LastUse, Find;
    var s := Run(cap, ttl, h);
    OrderIsLastUse(cap, ttl, h);
    RunKeeps(cap, ttl, h);
    FindsMember(s, x);
    var at :| 0 <= at < |s| && s[at].key == x;
    var last := |s| - 1;
    if at == last {
      forall y | y in s && y.key != x ensures LastUse(cap, ttl, h, y.key) > LastUse(cap, ttl, h, x) {
        var i :| 0 <= i < |s| && s[i] == y;
        assert i < last;
      }
    } else {
      assert s[last] in s && LastUse(cap, ttl, h, s[at].key) > LastUse(cap, ttl, h, s[last].key);
    }
  }

  /** A held key leaves with an operation exactly if it is deleted, or everything is, or it is read
      after the time-to-live of its last write is over, or a new key comes into a full cache and no
      other key was used as long ago. */
  lemma LeavesIff<K, V>(cap: nat, ttl: int, h: seq<Event<K, V>>, e: Event<K, V>, x: K)
    requires IsHeld(Run(cap, ttl, h), x)
    ensures
      var w := Written(cap, ttl, h, x);
      w.Some? &&
      (!IsHeld(Run(cap, ttl, h + [e]), x) <==>
        || e.op.Clear?
        || e.op == Delete(x)
        || (e.op == Get(x) && ttl != 0 && e.now > w.value.1 + ttl)
        || (InsertsNew(Run(cap, ttl, h), e.op) && |Run(cap, ttl, h)| == cap && LeastRecentlyUsed(cap, ttl, h, x)))
  {
    hide Run, LastUse, Find, Written, LeastRecentlyUsed, Apply;
    var s := Run(cap, ttl, h);
    RunKeeps(cap, ttl, h);
    FindsMember(s, x);
    RunOneMore(cap, ttl, h, e);
    FoundAfter(cap, ttl, s, e.op, e.now, x);
    BindingsAreLastWritten(cap, ttl, h, Find(s, x).value);
    LastIsLeastRecentlyUsed(cap, ttl, h, x);
  }

  /** A key that is not held comes in exactly by being written, if anything can be held at all. */
  lemma EntersIff<K, V>(cap: nat, ttl: int, h: seq<Event<K, V>>, e: Event<K, V>, x: K)
    requires !IsHeld(Run(cap, ttl, h), x)
    ensures
      IsHeld(Run(cap, ttl, h + [e]), x) <==>
      cap > 0 && (e.op.Put? || (e.op.Cas? && e.op.oldValue == None)) && e.op.key == x
  {
    hide Run, Find, Apply;
    RunKeeps(cap, ttl, h);
    RunOneMore(cap, ttl, h, e);
    FoundAfter(cap, ttl, Run(cap, ttl, h), e.op, e.now, x);
  }

  // ---------- Answers ----------

  /** Get answers with the last written value of a held key until its time-to-live is over, and with
      nil otherwise; Put answers with the value there was. */
  lemma Answers<K, V>(cap: nat, ttl: int, h: seq<Event<K, V>>, k: K, v: Option<V>, now: int)
    ensures
      var s, w := Run(cap, ttl, h), Written(cap, ttl, h, k);
      if IsHeld(s, k) then
        w.Some?
        && GetItem(s, k, now).result == (if ttl == 0 || now <= w.value.1 + ttl then w.value.0 else None)
        && PutItem(cap, ttl, s, k, v, now).result == w.value.0
      else GetItem(s, k, now).result == None && PutItem(cap, ttl, s, k, v, now).result == None
  {
    hide Run, Find, Written, Without;
    var s := Run(cap, ttl, h);
    FindsMember(s, k);
    if IsHeld(s, k) {
      BindingsAreLastWritten(cap, ttl, h, Find(s, k).value);
    }
  }

  /** CompareAndSwap replaces exactly when the value of the key, or nil for a key that is not held, is
      the expected one; it answers with the value there is, and a refusal changes nothing. */
  lemma SwapAnswers<K, V>(
      cap: nat, ttl: int, h: seq<Event<K, V>>, k: K, expected: Option<V>, v: Option<V>, now: int)
    ensures
      var s, w := Run(cap, ttl, h), Written(cap, ttl, h, k);
      var there := if IsHeld(s, k) && w.Some? then w.value.0 else None;
      Swaps(s, k, expected) == (there == expected)
      && (there != expected ==> CasItem(cap, ttl, s, k, expected, v, now) == Outcome(s, there, []))
      && (there == expected ==> CasItem(cap, ttl, s, k, expected, v, now).result == v)
  {
    hide Run, Find, Written, Without, ReportedBackwards;
    var s := Run(cap, ttl, h);
    FindsMember(s, k);
    if IsHeld(s, k) {
      BindingsAreLastWritten(cap, ttl, h, Find(s, k).value);
    }
  }
}
