/**
 The cache as a recency-ordered association list, most recently used first, and what holds of
 every run of operations on it.  The class `LRU` is proved to behave as this list does.
 */
module Recency {
  import opened Results

  /** A cached binding.  `any` is an Option, nil being None; the zero time, None, never expires. */
  datatype Item<+K, +V> = Item(key: K, value: Option<V>, expiration: Option<int>)

  /** What the eviction callback is told. */
  datatype Departure<+K, +V> = Departure(key: K, value: Option<V>)

  datatype Outcome<+K, +V> = Outcome(items: seq<Item<K, V>>, result: Option<V>, departed: seq<Departure<K, V>>)

  datatype Op<+K, +V> =
    | Get(key: K)
    | Put(key: K, value: Option<V>)
    | Cas(key: K, oldValue: Option<V>, newValue: Option<V>)
    | Delete(key: K)
    | Clear

  function Find<K(==), V>(s: seq<Item<K, V>>, k: K): Option<Item<K, V>> {
    if s == [] then None else if s[0].key == k then Some(s[0]) else Find(s[1..], k)
  }

  function Without<K(==), V>(s: seq<Item<K, V>>, k: K): seq<Item<K, V>> {
    if s == [] then [] else if s[0].key == k then s[1..] else [s[0]] + Without(s[1..], k)
  }

  ghost predicate Distinct<K, V>(s: seq<Item<K, V>>) {
    forall i, j | 0 <= i < j < |s| :: s[i].key != s[j].key
  }

  function Reported<K, V>(i: Item<K, V>): Departure<K, V> {
    Departure(i.key, i.value)
  }

  /** From the back, as the eviction loop takes them. */
  function ReportedBackwards<K, V>(s: seq<Item<K, V>>): (r: seq<Departure<K, V>>)
    ensures |r| == |s|
  {
    if s == [] then [] else ReportedBackwards(s[1..]) + [Reported(s[0])]
  }

  function Expired<K, V>(i: Item<K, V>, now: int): bool {
    i.expiration.Some? && now > i.expiration.value
  }

  function Deadline(ttl: int, now: int): Option<int> {
    if ttl != 0 then Some(now + ttl) else None
  }

  function GetItem<K(==), V>(s: seq<Item<K, V>>, k: K, now: int): Outcome<K, V> {
    match Find(s, k)
    case None => Outcome(s, None, [])
    case Some(i) =>
      if Expired(i, now) then Outcome(Without(s, k), None, [Reported(i)])
      else Outcome([i] + Without(s, k), i.value, [])
  }

  /** A present key is updated and moved to the front; a new one goes to the front, and what no
      longer fits leaves from the back. */
  function PutItem<K(==), V>(cap: nat, ttl: int, s: seq<Item<K, V>>, k: K, v: Option<V>, now: int): Outcome<K, V> {
    match Find(s, k)
    case Some(i) =>
      Outcome([Item(k, v, if ttl != 0 then Deadline(ttl, now) else i.expiration)] + Without(s, k), i.value, [])
    case None =>
      var t := [Item(k, v, Deadline(ttl, now))] + s;
      if |t| <= cap then Outcome(t, None, []) else Outcome(t[..cap], None, ReportedBackwards(t[cap..]))
  }

  /** Whether CompareAndSwap replaces: the stored value is the expected one, nil standing for no
      entry. */
  function Swaps<K(==), V(==)>(s: seq<Item<K, V>>, k: K, oldValue: Option<V>): bool {
    match Find(s, k)
    case None => oldValue == None
    case Some(i) => i.value == oldValue
  }

  function CasItem<K(==), V(==)>(
      cap: nat, ttl: int, s: seq<Item<K, V>>, k: K, oldValue: Option<V>, newValue: Option<V>, now: int): Outcome<K, V> {
    if Swaps(s, k, oldValue) then PutItem(cap, ttl, s, k, newValue, now).(result := newValue)
    else Outcome(s, if Find(s, k).Some? then Find(s, k).value.value else None, [])
  }

  function DeleteItem<K(==), V>(s: seq<Item<K, V>>, k: K): Outcome<K, V> {
    match Find(s, k)
    case None => Outcome(s, None, [])
    case Some(i) => Outcome(Without(s, k), None, [Reported(i)])
  }

  function ClearItems<K, V>(s: seq<Item<K, V>>): Outcome<K, V> {
    Outcome([], None, ReportedBackwards(s))
  }

  function Apply<K(==), V(==)>(cap: nat, ttl: int, s: seq<Item<K, V>>, op: Op<K, V>, now: int): Outcome<K, V> {
    match op
    case Get(k) => GetItem(s, k, now)
    case Put(k, v) => PutItem(cap, ttl, s, k, v, now)
    case Cas(k, o, n) => CasItem(cap, ttl, s, k, o, n, now)
    case Delete(k) => DeleteItem(s, k)
    case Clear => ClearItems(s)
  }

  /** An operation and the clock reading it takes. */
  datatype Event<+K, +V> = Event(op: Op<K, V>, now: int)

  function Run<K(==), V(==)>(cap: nat, ttl: int, h: seq<Event<K, V>>): seq<Item<K, V>> {
    if h == [] then []
    else
      var last := h[|h| - 1];
      Apply(cap, ttl, Run(cap, ttl, h[..|h| - 1]), last.op, last.now).items
  }

  lemma RunOneMore<K, V>(cap: nat, ttl: int, h: seq<Event<K, V>>, e: Event<K, V>)
    ensures Run(cap, ttl, h + [e]) == Apply(cap, ttl, Run(cap, ttl, h), e.op, e.now).items
  {
    hide Apply;
    assert (h + [e])[..|h|] == h;
  }

  // ---------- Looking up and removing ----------

  lemma {:induction false} FindsMember<K, V>(s: seq<Item<K, V>>, k: K)
    ensures match Find(s, k)
            case None => forall i <- s :: i.key != k
            case Some(i) => i in s && i.key == k
  {
    if s != [] && s[0].key != k {
      FindsMember(s[1..], k);
    }
  }

  lemma {:induction false} WithoutAbsent<K, V>(s: seq<Item<K, V>>, k: K)
    requires Find(s, k) == None
    ensures Without(s, k) == s
  {
    if s != [] {
      WithoutAbsent(s[1..], k);
    }
  }

  lemma {:induction false} WithoutKeeps<K, V>(s: seq<Item<K, V>>, k: K)
    requires Distinct(s)
    ensures forall i <- Without(s, k) :: i in s && i.key != k
    ensures Distinct(Without(s, k))
    ensures |Without(s, k)| == |s| - (if Find(s, k).Some? then 1 else 0)
  {
    if s != [] {
      if s[0].key == k {
        assert forall i | 1 <= i < |s| :: s[i].key != s[0].key;
      } else {
        WithoutKeeps(s[1..], k);
        assert forall x <- s[1..] :: x.key != s[0].key;
        ConsDistinct(s[0], Without(s[1..], k));
      }
    }
  }

  lemma ConsDistinct<K, V>(i: Item<K, V>, s: seq<Item<K, V>>)
    requires Distinct(s) && forall x <- s :: x.key != i.key
    ensures Distinct([i] + s)
  {}

  /** Keys stay distinct and the capacity is kept, whatever the operation. */
  lemma ApplyKeeps<K, V>(cap: nat, ttl: int, s: seq<Item<K, V>>, op: Op<K, V>, now: int)
    requires Distinct(s) && |s| <= cap
    ensures Distinct(Apply(cap, ttl, s, op, now).items) && |Apply(cap, ttl, s, op, now).items| <= cap
  {
    if !op.Clear? {
      hide Find, Without;
      FindsMember(s, op.key);
      WithoutKeeps(s, op.key);
      match op
      case Get(k) =>
        if Find(s, k).Some? {
          ConsDistinct(Find(s, k).value, Without(s, k));
        }
      case Put(k, v) => PutKeeps(cap, ttl, s, k, v, now);
      case Cas(k, o, n) => PutKeeps(cap, ttl, s, k, n, now);
      case Delete(_) =>
    }
  }

  lemma PutKeeps<K, V>(cap: nat, ttl: int, s: seq<Item<K, V>>, k: K, v: Option<V>, now: int)
    requires Distinct(s) && |s| <= cap
    ensures Distinct(PutItem(cap, ttl, s, k, v, now).items) && |PutItem(cap, ttl, s, k, v, now).items| <= cap
  {
    hide Find, Without;
    FindsMember(s, k);
    WithoutKeeps(s, k);
    match Find(s, k)
    case Some(i) => ConsDistinct(Item(k, v, if ttl != 0 then Deadline(ttl, now) else i.expiration), Without(s, k));
    case None => ConsDistinct(Item(k, v, Deadline(ttl, now)), s);
  }

  lemma {:induction false} RunKeeps<K, V>(cap: nat, ttl: int, h: seq<Event<K, V>>)
    ensures Distinct(Run(cap, ttl, h)) && |Run(cap, ttl, h)| <= cap
  {
    hide Apply;
    if h != [] {
      var last := h[|h| - 1];
      RunKeeps(cap, ttl, h[..|h| - 1]);
      ApplyKeeps(cap, ttl, Run(cap, ttl, h[..|h| - 1]), last.op, last.now);
    }
  }

  // ---------- Freshness ----------

  /** The last write of `k` that took effect, and when: a Put, or a CompareAndSwap that replaced. */
  function Written<K(==), V(==)>(cap: nat, ttl: int, h: seq<Event<K, V>>, k: K): Option<(Option<V>, int)> {
    if h == [] then None
    else
      var before, last := h[..|h| - 1], h[|h| - 1];
      match last.op
      case Put(k', v) => if k' == k then Some((v, last.now)) else Written(cap, ttl, before, k)
      case Cas(k', o, n) =>
        if k' == k && Swaps(Run(cap, ttl, before), k, o) then Some((n, last.now)) else Written(cap, ttl, before, k)
      case _ => Written(cap, ttl, before, k)
  }

  /** Where an operation's items come from: it wrote them, or they were there already. */
  lemma ItemOrigin<K, V>(cap: nat, ttl: int, s: seq<Item<K, V>>, op: Op<K, V>, now: int, i: Item<K, V>)
    requires Distinct(s) && i in Apply(cap, ttl, s, op, now).items
    requires ttl == 0 ==> forall x <- s :: x.expiration == None
    ensures if op.Put? && op.key == i.key then i == Item(op.key, op.value, Deadline(ttl, now))
            else if op.Cas? && op.key == i.key && Swaps(s, op.key, op.oldValue) then
              i == Item(op.key, op.newValue, Deadline(ttl, now))
            else i in s
  {
    hide Find, Without;
    if !op.Clear? {
      FindsMember(s, op.key);
      WithoutKeeps(s, op.key);
    }
  }

  /** Every binding is the last one written for its key, and its deadline was set by that write:
      nothing else, reads in particular, moves it. */
  lemma {:induction false} BindingsAreLastWritten<K, V>(cap: nat, ttl: int, h: seq<Event<K, V>>, i: Item<K, V>)
    requires i in Run(cap, ttl, h)
    ensures var w := Written(cap, ttl, h, i.key);
            w.Some? && w.value.0 == i.value && i.expiration == Deadline(ttl, w.value.1)
    decreases |h|
  {
    hide Apply, Swaps;
    var before, last := h[..|h| - 1], h[|h| - 1];
    var s := Run(cap, ttl, before);
    RunKeeps(cap, ttl, before);
    forall x <- s ensures ttl == 0 ==> x.expiration == None {
      BindingsAreLastWritten(cap, ttl, before, x);
    }
    ItemOrigin(cap, ttl, s, last.op, last.now, i);
    if i in s {
      BindingsAreLastWritten(cap, ttl, before, i);
    }
  }

  /** A value read at `now` was written no longer than the time-to-live ago, and no write of the
      key has taken effect since. */
  lemma GetIsFresh<K, V>(cap: nat, ttl: int, h: seq<Event<K, V>>, k: K, now: int)
    requires GetItem(Run(cap, ttl, h), k, now).result.Some?
    ensures var w := Written(cap, ttl, h, k);
            w.Some? && w.value.0 == GetItem(Run(cap, ttl, h), k, now).result && (ttl != 0 ==> now - ttl <= w.value.1)
  {
    hide Find, Without, Run, Written;
    FindsMember(Run(cap, ttl, h), k);
    BindingsAreLastWritten(cap, ttl, h, Find(Run(cap, ttl, h), k).value);
  }

  // ---------- Conservation ----------

  /** How often `x` is among the keys. */
  function Held<K(==), V>(s: seq<Item<K, V>>, x: K): nat {
    if s == [] then 0 else (if s[0].key == x then 1 else 0) + Held(s[1..], x)
  }

  function Reports<K(==), V>(d: seq<Departure<K, V>>, x: K): nat {
    if d == [] then 0 else (if d[0].key == x then 1 else 0) + Reports(d[1..], x)
  }

  /** Whether an operation inserts `x` as a new key. */
  function Inserts<K(==), V(==)>(s: seq<Item<K, V>>, op: Op<K, V>, x: K): nat {
    if (op.Put? || (op.Cas? && op.oldValue == None)) && op.key == x && Find(s, x) == None then 1 else 0
  }

  lemma {:induction false} HeldConcat<K, V>(s: seq<Item<K, V>>, t: seq<Item<K, V>>, x: K)
    ensures Held(s + t, x) == Held(s, x) + Held(t, x)
  {
    if s == [] {
      assert s + t == t;
    } else {
      HeldConcat(s[1..], t, x);
      assert (s + t)[1..] == s[1..] + t;
    }
  }

  lemma {:induction false} ReportsConcat<K, V>(s: seq<Departure<K, V>>, t: seq<Departure<K, V>>, x: K)
    ensures Reports(s + t, x) == Reports(s, x) + Reports(t, x)
  {
    if s == [] {
      assert s + t == t;
    } else {
      ReportsConcat(s[1..], t, x);
      assert (s + t)[1..] == s[1..] + t;
    }
  }

  lemma {:induction false} BackwardsReports<K, V>(s: seq<Item<K, V>>, x: K)
    ensures Reports(ReportedBackwards(s), x) == Held(s, x)
  {
    if s != [] {
      BackwardsReports(s[1..], x);
      ReportsConcat(ReportedBackwards(s[1..]), [Reported(s[0])], x);
    }
  }

  lemma {:induction false} WithoutHeld<K, V>(s: seq<Item<K, V>>, k: K, x: K)
    requires Find(s, k).Some?
    ensures Held(s, x) == (if x == k then 1 else 0) + Held(Without(s, k), x)
  {
    if s[0].key != k {
      WithoutHeld(s[1..], k, x);
      assert Without(s, k)[1..] == Without(s[1..], k);
    }
  }

  lemma ConsHeld<K, V>(i: Item<K, V>, s: seq<Item<K, V>>, x: K)
    ensures Held([i] + s, x) == (if i.key == x then 1 else 0) + Held(s, x)
  {
    assert ([i] + s)[1..] == s;
  }

  lemma PutConserves<K, V>(cap: nat, ttl: int, s: seq<Item<K, V>>, k: K, v: Option<V>, now: int, x: K)
    ensures var o := PutItem(cap, ttl, s, k, v, now);
            Held(s, x) + (if k == x && Find(s, x) == None then 1 else 0) == Held(o.items, x) + Reports(o.departed, x)
  {
    hide Find, Without, Held, ReportedBackwards;
    FindsMember(s, k);
    if Find(s, k).Some? {
      WithoutHeld(s, k, x);
      var i := Find(s, k).value;
      ConsHeld(Item(k, v, if ttl != 0 then Deadline(ttl, now) else i.expiration), Without(s, k), x);
    } else {
      var t := [Item(k, v, Deadline(ttl, now))] + s;
      ConsHeld(Item(k, v, Deadline(ttl, now)), s, x);
      if |t| > cap {
        HeldConcat(t[..cap], t[cap..], x);
        assert t[..cap] + t[cap..] == t;
        BackwardsReports(t[cap..], x);
      }
    }
  }

  /** What a cache with these items has under the key, nil when it has nothing. */
  function Holding<K(==), V>(s: seq<Item<K, V>>, k: K): Option<V> {
    match Find(s, k)
    case None => None
    case Some(i) => i.value
  }

  /** The item CompareAndSwap reports to be in the cache afterwards is the one that is, except where
      a cache of capacity zero has evicted the new value at once. */
  lemma CasReportsWhatIsHeldIff<K, V>(
      cap: nat, ttl: int, s: seq<Item<K, V>>, k: K, o: Option<V>, v: Option<V>, now: int)
    ensures
      var after := CasItem(cap, ttl, s, k, o, v, now);
      after.result == Holding(after.items, k) <==>
      !(cap == 0 && Swaps(s, k, o) && Find(s, k) == None && v != None)
  {
    hide Without, ReportedBackwards;
  }

  /** And there it is not. */
  lemma CasAtCapacityZero()
    ensures
      var after := CasItem<int, char>(0, 0, [], 1, None, Some('a'), 0);
      after.result == Some('a') && Holding(after.items, 1) == None
  {
    CasReportsWhatIsHeldIff<int, char>(0, 0, [], 1, None, Some('a'), 0);
  }

  /** One operation: the keys it inserts and those it had are those it keeps and those it reports. */
  lemma ApplyConserves<K, V>(cap: nat, ttl: int, s: seq<Item<K, V>>, op: Op<K, V>, now: int, x: K)
    ensures var o := Apply(cap, ttl, s, op, now);
            Held(s, x) + Inserts(s, op, x) == Held(o.items, x) + Reports(o.departed, x)
  {
    hide Find, Without, ReportedBackwards, PutItem;
    if op.Clear? {
      BackwardsReports(s, x);
    } else {
      var k := op.key;
      FindsMember(s, k);
      PutConserves(cap, ttl, s, k, if op.Put? then op.value else if op.Cas? then op.newValue else None, now, x);
      if (op.Get? || op.Delete?) && Find(s, k).Some? {
        WithoutHeld(s, k, x);
        ConsHeld(Find(s, k).value, Without(s, k), x);
      }
    }
  }

  /** How often a run inserts `x` as a new key. */
  function Insertions<K(==), V(==)>(cap: nat, ttl: int, h: seq<Event<K, V>>, x: K): nat {
    if h == [] then 0
    else
      var before := h[..|h| - 1];
      Insertions(cap, ttl, before, x) + Inserts(Run(cap, ttl, before), h[|h| - 1].op, x)
  }

  /** Everything a run reports to the callback. */
  function AllDeparted<K(==), V(==)>(cap: nat, ttl: int, h: seq<Event<K, V>>): seq<Departure<K, V>> {
    if h == [] then []
    else
      var before, last := h[..|h| - 1], h[|h| - 1];
      AllDeparted(cap, ttl, before) + Apply(cap, ttl, Run(cap, ttl, before), last.op, last.now).departed
  }

  /** Over any run, every insertion of a key is accounted for once: it was reported to the
      callback, or it is still there. */
  lemma {:induction false} InsertionsAreAccountedFor<K, V>(cap: nat, ttl: int, h: seq<Event<K, V>>, x: K)
    ensures Insertions(cap, ttl, h, x) == Held(Run(cap, ttl, h), x) + Reports(AllDeparted(cap, ttl, h), x)
    decreases |h|
  {
    if h != [] {
      hide Apply, Inserts;
      var before, last := h[..|h| - 1], h[|h| - 1];
      var s := Run(cap, ttl, before);
      InsertionsAreAccountedFor(cap, ttl, before, x);
      ApplyConserves(cap, ttl, s, last.op, last.now, x);
      ReportsConcat(AllDeparted(cap, ttl, before), Apply(cap, ttl, s, last.op, last.now).departed, x);
    }
  }

  /** What is reported is the value the key had. */
  lemma ReportsBoundValue<K, V>(cap: nat, ttl: int, s: seq<Item<K, V>>, op: Op<K, V>, now: int, d: Departure<K, V>)
    requires d in Apply(cap, ttl, s, op, now).departed
    ensures (exists i <- s :: Reported(i) == d)
         || (cap == 0 && op.Put? && d == Departure(op.key, op.value))
         || (cap == 0 && op.Cas? && d == Departure(op.key, op.newValue))
  {
    hide Find, Without, ReportedBackwards;
    if op.Clear? {
      BackwardsMember(s, d);
    } else {
      FindsMember(s, op.key);
      if op.Put? || (op.Cas? && Swaps(s, op.key, op.oldValue)) {
        var t := [Item(op.key, if op.Put? then op.value else op.newValue, Deadline(ttl, now))] + s;
        BackwardsMember(t[cap..], d);
        var i :| i in t[cap..] && Reported(i) == d;
        var j :| cap <= j < |t| && t[j] == i;
        assert j > 0 ==> t[j] == s[j - 1];
      } else {
        assert Reported(Find(s, op.key).value) == d;
      }
    }
  }

  lemma {:induction false} BackwardsMember<K, V>(s: seq<Item<K, V>>, d: Departure<K, V>)
    requires d in ReportedBackwards(s)
    ensures exists i <- s :: Reported(i) == d
  {
    if d == Reported(s[0]) {
    } else {
      BackwardsMember(s[1..], d);
      var i :| i in s[1..] && Reported(i) == d;
      assert i in s;
    }
  }
}
