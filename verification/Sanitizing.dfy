/**
 What the standard sanitizers do to trace data, as relations on values, and what holds once the
 whole chain has run.
 */
module Sanitizing {
  import opened Results
  import opened Wire
  import opened Utf8
  import opened SpanAttributes

  datatype Span = Span(name: Bytes, start: Uint64, end: Uint64, attributes: Attributes)

  datatype Scope = Scope(attributes: Attributes, spans: seq<Span>)

  datatype Resource = Resource(attributes: Attributes, scopes: seq<Scope>)

  type Traces = seq<Resource>

  // ---------- Names the sanitizers put in ----------

  function ServiceNameKey(): Bytes { Text("service.name") }
  function EmptyServiceName(): Bytes { Text("empty-service-name") }
  function ServiceNameWrongType(): Bytes { Text("service-name-wrong-type") }
  function MissingServiceName(): Bytes { Text("missing-service-name") }
  function EmptySpanName(): Bytes { Text("empty-span-name") }
  function InvalidSpanName(): Bytes { Text("invalid-span-name") }

  function InvalidTagKey(i: nat): Bytes {
    Text("invalid-tag-key-" + Decimal(i))
  }

  // ---------- Empty service names ----------

  /** The service name a resource should have, if the one it has will not do. */
  function ServiceNameRepair(a: Attributes): Option<Bytes> {
    if ServiceNameKey() !in a then Some(MissingServiceName())
    else match a[ServiceNameKey()]
      case Str(s) => if s == [] then Some(EmptyServiceName()) else None
      case _ => Some(ServiceNameWrongType())
  }

  predicate HasServiceName(a: Attributes) {
    ServiceNameKey() in a && a[ServiceNameKey()].Str? && a[ServiceNameKey()].s != []
  }

  predicate HasInvalidServiceName(a: Attributes) {
    ServiceNameKey() in a && a[ServiceNameKey()].Str? && !ValidUtf8(a[ServiceNameKey()].s)
  }

  function FixServiceName(r: Resource): Resource {
    match ServiceNameRepair(r.attributes)
    case Some(name) => r.(attributes := r.attributes[ServiceNameKey() := Str(name)])
    case None => r
  }

  predicate NeedsServiceName(t: Traces) {
    exists i | 0 <= i < |t| :: ServiceNameRepair(t[i].attributes).Some?
  }

  function FixServiceNames(t: Traces): (u: Traces)
    ensures |u| == |t|
  {
    seq(|t|, i requires 0 <= i < |t| => FixServiceName(t[i]))
  }

  // ---------- Sanitizers of spans one by one ----------

  function MapSpans(t: Traces, f: Span -> Span): (u: Traces)
    ensures |u| == |t|
  {
    seq(|t|, i requires 0 <= i < |t| => t[i].(scopes := MapScopes(t[i].scopes, f)))
  }

  function MapScopes(ss: seq<Scope>, f: Span -> Span): (us: seq<Scope>)
    ensures |us| == |ss|
  {
    seq(|ss|, j requires 0 <= j < |ss| => ss[j].(spans := MapList(ss[j].spans, f)))
  }

  function MapList(ps: seq<Span>, f: Span -> Span): (us: seq<Span>)
    ensures |us| == |ps|
  {
    seq(|ps|, k requires 0 <= k < |ps| => f(ps[k]))
  }

  predicate InScopes(ss: seq<Scope>, p: Span -> bool) {
    exists j | 0 <= j < |ss| :: InSpans(ss[j].spans, p)
  }

  predicate InSpans(ps: seq<Span>, p: Span -> bool) {
    exists k | 0 <= k < |ps| :: p(ps[k])
  }

  /** Some span of the trace has the property. */
  predicate Somewhere(t: Traces, p: Span -> bool) {
    exists i | 0 <= i < |t| :: InScopes(t[i].scopes, p)
  }

  function FixSpanName(s: Span): Span {
    if s.name == [] then s.(name := EmptySpanName()) else s
  }

  predicate NeedsSpanName(s: Span) {
    s.name == []
  }

  /** A timestamp as time.Unix reads it: nanoseconds in an int64, negative ones included. */
  function AsTime(ts: Uint64): Int64 {
    ToInt64(ts)
  }

  predicate NeedsDuration(s: Span) {
    !(AsTime(s.start) < AsTime(s.end))
  }

  /** The end is set to one nanosecond after the start, which wraps at the largest timestamp.  How
      the warning spells the two instants is the library's. */
  function FixDuration(s: Span, spell: (Uint64, Uint64) -> Bytes): Span {
    if !NeedsDuration(s) then s
    else
      var newEnd := ToUint64(AsTime(s.start) + 1);
      s.(end := newEnd, attributes := WithWarnings(s.attributes, [spell(s.end, newEnd)]))
  }

  /** What the adjusted span satisfies, and exactly when. */
  lemma DurationFixed(s: Span, spell: (Uint64, Uint64) -> Bytes)
    ensures !NeedsDuration(FixDuration(s, spell)) <==> !NeedsDuration(s) || AsTime(s.start) < TWO_63 - 1
  {
    if NeedsDuration(s) && AsTime(s.start) < TWO_63 - 1 {
      assert AsTime(ToUint64(AsTime(s.start) + 1)) == AsTime(s.start) + 1;
    }
  }

  /** A span from the last instant to the first is beyond repair. */
  lemma LastInstantIsNotFixed(spell: (Uint64, Uint64) -> Bytes)
    ensures
      var s := Span([], TWO_63 - 1, 0, map[]);
      NeedsDuration(s) && NeedsDuration(FixDuration(s, spell))
  {
    DurationFixed(Span([], TWO_63 - 1, 0, map[]), spell);
  }

  lemma FixDurationChanges(s: Span, spell: (Uint64, Uint64) -> Bytes)
    ensures FixDuration(s, spell) == s <==> !NeedsDuration(s)
  {
    if NeedsDuration(s) {
      hide WithWarnings;
      WarningShows(s.attributes, spell(s.end, ToUint64(AsTime(s.start) + 1)));
    }
  }

  // ---------- Invalid UTF-8 ----------

  function CleanValue(v: Value): Value {
    if v.Str? && !ValidUtf8(v.s) then Raw(v.s) else v
  }

  predicate CleanAttributes(a: Attributes) {
    forall k <- a :: ValidUtf8(k) && (a[k].Str? ==> ValidUtf8(a[k].s))
  }

  function InvalidKeys(a: Attributes): set<Bytes> {
    set k | k in a && !ValidUtf8(k)
  }

  function TagKeys(n: nat): set<Bytes> {
    set i | 1 <= i <= n :: InvalidTagKey(i)
  }

  /** Invalid string values become bytes; each invalid key is replaced by a numbered one, which
      holds bytes, and takes the place of an attribute of that name if there is one. */
  ghost predicate AttributesSanitized(a: Attributes, b: Attributes) {
    var invalid, tags := InvalidKeys(a), TagKeys(|InvalidKeys(a)|);
    && b.Keys == a.Keys - invalid + tags
    && (forall k <- a.Keys - invalid - tags :: b[k] == CleanValue(a[k]))
    && forall k <- tags :: b[k].Raw?
  }

  /** An invalid name moves to an attribute before the attributes are sanitized. */
  function NameMoved(s: Span): Span {
    if ValidUtf8(s.name) then s
    else s.(name := InvalidSpanName(), attributes := s.attributes[InvalidSpanName() := Raw(s.name)])
  }

  ghost predicate SpanSanitized(s: Span, u: Span) {
    u == NameMoved(s).(attributes := u.attributes) && AttributesSanitized(NameMoved(s).attributes, u.attributes)
  }

  ghost predicate ScopeSanitized(s: Scope, u: Scope) {
    && AttributesSanitized(s.attributes, u.attributes)
    && |u.spans| == |s.spans|
    && forall k | 0 <= k < |s.spans| :: SpanSanitized(s.spans[k], u.spans[k])
  }

  ghost predicate ResourceSanitized(r: Resource, u: Resource) {
    && AttributesSanitized(r.attributes, u.attributes)
    && |u.scopes| == |r.scopes|
    && forall j | 0 <= j < |r.scopes| :: ScopeSanitized(r.scopes[j], u.scopes[j])
  }

  ghost predicate TracesSanitized(t: Traces, u: Traces) {
    && |u| == |t|
    && forall i | 0 <= i < |t| :: ResourceSanitized(t[i], u[i])
  }

  predicate CleanSpan(s: Span) {
    ValidUtf8(s.name) && CleanAttributes(s.attributes)
  }

  predicate CleanScope(s: Scope) {
    CleanAttributes(s.attributes) && forall k | 0 <= k < |s.spans| :: CleanSpan(s.spans[k])
  }

  predicate CleanResource(r: Resource) {
    CleanAttributes(r.attributes) && forall j | 0 <= j < |r.scopes| :: CleanScope(r.scopes[j])
  }

  /** The guard of the sanitizer is the negation of this. */
  predicate CleanTraces(t: Traces) {
    forall i | 0 <= i < |t| :: CleanResource(t[i])
  }

  lemma AttributesComeOutClean(a: Attributes, b: Attributes)
    requires AttributesSanitized(a, b)
    ensures CleanAttributes(b)
  {
    hide ValidUtf8, InvalidTagKey;
    var tags := TagKeys(|InvalidKeys(a)|);
    forall k <- b ensures ValidUtf8(k) && (b[k].Str? ==> ValidUtf8(b[k].s)) {
      if k in tags {
        var i :| 1 <= i <= |InvalidKeys(a)| && k == InvalidTagKey(i);
        TagKeyIsValid(i);
      }
    }
  }

  lemma TagKeyIsValid(i: nat)
    ensures ValidUtf8(InvalidTagKey(i))
  {
    TextIsValid("invalid-tag-key-" + Decimal(i));
  }

  /** Sanitizing changes the attributes exactly when they were not clean. */
  lemma AttributesChangeIff(a: Attributes, b: Attributes)
    requires AttributesSanitized(a, b)
    ensures b == a <==> CleanAttributes(a)
  {
    if CleanAttributes(a) {
      assert InvalidKeys(a) == {};
      assert TagKeys(0) == {};
      assert b.Keys == a.Keys;
    } else {
      AttributesComeOutClean(a, b);
    }
  }

  lemma SpanChangesIff(s: Span, u: Span)
    requires SpanSanitized(s, u)
    ensures CleanSpan(u) && (u == s <==> CleanSpan(s))
    ensures s.name != [] ==> u.name != []
    ensures u.start == s.start && u.end == s.end
  {
    hide AttributesSanitized, CleanAttributes;
    AttributesComeOutClean(NameMoved(s).attributes, u.attributes);
    AttributesChangeIff(NameMoved(s).attributes, u.attributes);
    TextIsValid("invalid-span-name");
  }

  lemma ScopeChangesIff(s: Scope, u: Scope)
    requires ScopeSanitized(s, u)
    ensures CleanScope(u) && (u == s <==> CleanScope(s))
  {
    hide AttributesSanitized, CleanAttributes, SpanSanitized, CleanSpan;
    AttributesComeOutClean(s.attributes, u.attributes);
    AttributesChangeIff(s.attributes, u.attributes);
    forall k | 0 <= k < |s.spans|
      ensures CleanSpan(u.spans[k]) && (u.spans[k] == s.spans[k] <==> CleanSpan(s.spans[k]))
    {
      SpanChangesIff(s.spans[k], u.spans[k]);
    }
    assert CleanScope(s) ==> u.spans == s.spans;
  }

  lemma ResourceChangesIff(r: Resource, u: Resource)
    requires ResourceSanitized(r, u)
    ensures CleanResource(u) && (u == r <==> CleanResource(r))
  {
    hide AttributesSanitized, CleanAttributes, ScopeSanitized, CleanScope;
    AttributesComeOutClean(r.attributes, u.attributes);
    AttributesChangeIff(r.attributes, u.attributes);
    forall j | 0 <= j < |r.scopes|
      ensures CleanScope(u.scopes[j]) && (u.scopes[j] == r.scopes[j] <==> CleanScope(r.scopes[j]))
    {
      ScopeChangesIff(r.scopes[j], u.scopes[j]);
    }
    assert CleanResource(r) ==> u.scopes == r.scopes;
  }

  /** The guarded fast path is sound: the full pass would leave the trace as it is exactly when the
      guard says that nothing needs doing. */
  lemma Utf8ChangesIff(t: Traces, u: Traces)
    requires TracesSanitized(t, u)
    ensures CleanTraces(u) && (u == t <==> CleanTraces(t))
  {
    hide ResourceSanitized, CleanResource;
    forall i | 0 <= i < |t| ensures CleanResource(u[i]) && (u[i] == t[i] <==> CleanResource(t[i])) {
      ResourceChangesIff(t[i], u[i]);
    }
    assert CleanTraces(t) ==> u == t;
  }

  lemma ServiceNamesChangeIff(t: Traces)
    ensures FixServiceNames(t) == t <==> !NeedsServiceName(t)
  {
    hide ServiceNameKey, MissingServiceName, EmptyServiceName, ServiceNameWrongType;
    var u := FixServiceNames(t);
    NamesAreNotEmpty();
    forall i | 0 <= i < |t| ensures u[i] == t[i] <==> ServiceNameRepair(t[i].attributes) == None {
      FixServiceNameChanges(t[i]);
    }
    assert !NeedsServiceName(t) ==> u == t;
  }

  lemma NamesAreNotEmpty()
    ensures MissingServiceName() != [] && EmptyServiceName() != [] && ServiceNameWrongType() != []
    ensures EmptySpanName() != [] && InvalidSpanName() != []
  {}

  lemma FixServiceNameChanges(r: Resource)
    ensures FixServiceName(r) == r <==> ServiceNameRepair(r.attributes) == None
    ensures ServiceNameRepair(FixServiceName(r).attributes) == None
  {
    hide ServiceNameKey, MissingServiceName, EmptyServiceName, ServiceNameWrongType;
    NamesAreNotEmpty();
    var repair := ServiceNameRepair(r.attributes);
    if repair.Some? {
      var b := FixServiceName(r).attributes;
      assert b[ServiceNameKey()] == Str(repair.value);
    }
  }

  /** A pass over the spans changes the trace exactly when it changes some span. */
  lemma MapSpansChangesIff(t: Traces, f: Span -> Span, p: Span -> bool)
    requires forall s :: f(s) == s <==> !p(s)
    ensures MapSpans(t, f) == t <==> !Somewhere(t, p)
  {
    forall i | 0 <= i < |t| ensures MapScopes(t[i].scopes, f) == t[i].scopes <==> !InScopes(t[i].scopes, p) {
      MapScopesChangesIff(t[i].scopes, f, p);
    }
    var u := MapSpans(t, f);
    assert forall i | 0 <= i < |t| :: u[i] == t[i] <==> MapScopes(t[i].scopes, f) == t[i].scopes;
    assert !Somewhere(t, p) ==> u == t;
  }

  lemma MapScopesChangesIff(ss: seq<Scope>, f: Span -> Span, p: Span -> bool)
    requires forall s :: f(s) == s <==> !p(s)
    ensures MapScopes(ss, f) == ss <==> !InScopes(ss, p)
  {
    forall j | 0 <= j < |ss| ensures MapList(ss[j].spans, f) == ss[j].spans <==> !InSpans(ss[j].spans, p) {
      var ps, us := ss[j].spans, MapList(ss[j].spans, f);
      assert !InSpans(ps, p) ==> us == ps;
      assert us == ps ==> forall k | 0 <= k < |ps| :: f(ps[k]) == ps[k];
    }
    var u := MapScopes(ss, f);
    assert forall j | 0 <= j < |ss| :: u[j] == ss[j] <==> MapList(ss[j].spans, f) == ss[j].spans;
    assert !InScopes(ss, p) ==> u == ss;
  }

  lemma CleanAttributesStay(a: Attributes)
    requires CleanAttributes(a)
    ensures AttributesSanitized(a, a)
  {
    assert InvalidKeys(a) == {};
    assert TagKeys(0) == {};
  }

  lemma CleanScopesStay(r: Resource)
    requires CleanResource(r)
    ensures ResourceSanitized(r, r)
  {
    hide AttributesSanitized, CleanAttributes;
    CleanAttributesStay(r.attributes);
    forall j | 0 <= j < |r.scopes| ensures ScopeSanitized(r.scopes[j], r.scopes[j]) {
      var s := r.scopes[j];
      CleanAttributesStay(s.attributes);
      forall k | 0 <= k < |s.spans| ensures SpanSanitized(s.spans[k], s.spans[k]) {
        assert CleanSpan(s.spans[k]);
        CleanAttributesStay(s.spans[k].attributes);
      }
    }
  }

  /** Skipping the pass on clean traces is a case of doing it. */
  lemma CleanTracesStay(t: Traces)
    requires CleanTraces(t)
    ensures TracesSanitized(t, t)
  {
    hide CleanResource, ResourceSanitized;
    forall i | 0 <= i < |t| ensures ResourceSanitized(t[i], t[i]) {
      CleanScopesStay(t[i]);
    }
  }

  // ---------- The whole chain ----------

  /** Service names, span names, UTF-8, durations: in this order. */
  ghost predicate ChainSanitized(t: Traces, u: Traces, spell: (Uint64, Uint64) -> Bytes) {
    exists v: Traces :: TracesSanitized(MapSpans(FixServiceNames(t), FixSpanName), v)
                     && u == MapSpans(v, s => FixDuration(s, spell))
  }

  lemma WarningKeepsClean(a: Attributes, warning: Bytes)
    requires CleanAttributes(a)
    ensures CleanAttributes(WithWarnings(a, [warning]))
  {
    hide ValidUtf8, Text;
    TextIsValid("@jaeger@warnings");
  }

  /** What one span has been through. */
  ghost predicate SpanChained(s: Span, u: Span, spell: (Uint64, Uint64) -> Bytes) {
    exists v: Span :: SpanSanitized(FixSpanName(s), v) && u == FixDuration(v, spell)
  }

  /** A sanitized span: its name is there and valid, its attributes are clean, and it starts before
      it ends, unless its start is the last instant there is. */
  lemma SpanPostState(s: Span, u: Span, spell: (Uint64, Uint64) -> Bytes)
    requires SpanChained(s, u, spell)
    ensures u.name != [] && ValidUtf8(u.name) && CleanAttributes(u.attributes)
    ensures u.start == s.start
    ensures AsTime(u.start) < AsTime(u.end) <==> AsTime(s.start) < TWO_63 - 1
  {
    hide CleanAttributes, ValidUtf8, AttributesSanitized, WithWarnings;
    var v: Span :| SpanSanitized(FixSpanName(s), v) && u == FixDuration(v, spell);
    NamesAreNotEmpty();
    SpanChangesIff(FixSpanName(s), v);
    DurationFixed(v, spell);
    if NeedsDuration(v) {
      WarningKeepsClean(v.attributes, spell(v.end, u.end));
    }
  }

  /** The service name of a sanitized resource is a non-empty string, exactly unless the one that
      came in was a string of invalid UTF-8. */
  lemma ServiceNamePostState(r: Resource, u: Resource)
    requires AttributesSanitized(FixServiceName(r).attributes, u.attributes)
    ensures HasServiceName(u.attributes) <==> !HasInvalidServiceName(r.attributes)
  {
    hide ValidUtf8, Text, InvalidTagKey;
    var a := FixServiceName(r).attributes;
    FixServiceNameChanges(r);
    NamesAreValid();
    ServiceNameIsNoTag(|InvalidKeys(a)|);
    assert ServiceNameKey() in a && a[ServiceNameKey()].Str?;
    assert ServiceNameKey() in a.Keys - InvalidKeys(a) - TagKeys(|InvalidKeys(a)|);
    assert u.attributes[ServiceNameKey()] == CleanValue(a[ServiceNameKey()]);
    assert ValidUtf8([]) by { AsciiIsValid([]); }
  }

  /** One byte that is no UTF-8 is enough to lose the name. */
  lemma InvalidServiceNameIsLost(u: Resource)
    requires
      var r := Resource(map[ServiceNameKey() := Str([0xff])], []);
      AttributesSanitized(FixServiceName(r).attributes, u.attributes)
    ensures !HasServiceName(u.attributes)
  {
    hide AttributesSanitized, FixServiceName, HasServiceName;
    ServiceNamePostState(Resource(map[ServiceNameKey() := Str([0xff])], []), u);
  }

  lemma NamesAreValid()
    ensures ValidUtf8(ServiceNameKey())
    ensures ValidUtf8(MissingServiceName()) && ValidUtf8(EmptyServiceName()) && ValidUtf8(ServiceNameWrongType())
  {
    TextIsValid("service.name");
    TextIsValid("missing-service-name");
    TextIsValid("empty-service-name");
    TextIsValid("service-name-wrong-type");
  }

  lemma ServiceNameIsNoTag(n: nat)
    ensures ServiceNameKey() !in TagKeys(n)
  {
    forall i | 1 <= i <= n ensures InvalidTagKey(i) != ServiceNameKey() {
      assert InvalidTagKey(i)[0] == ('i' as int) % 128 && ServiceNameKey()[0] == ('s' as int) % 128;
    }
  }

  /** The post-state of the standard chain, resource by resource, scope by scope, span by span. */
  lemma ChainPostState(t: Traces, u: Traces, spell: (Uint64, Uint64) -> Bytes, i: nat)
    requires ChainSanitized(t, u, spell) && i < |t|
    ensures |u| == |t| && |u[i].scopes| == |t[i].scopes| && CleanAttributes(u[i].attributes)
    ensures HasServiceName(u[i].attributes) <==> !HasInvalidServiceName(t[i].attributes)
    ensures forall j | 0 <= j < |t[i].scopes| ::
              CleanAttributes(u[i].scopes[j].attributes) && |u[i].scopes[j].spans| == |t[i].scopes[j].spans|
    ensures forall j, k | 0 <= j < |t[i].scopes| && 0 <= k < |t[i].scopes[j].spans| ::
              SpanChained(t[i].scopes[j].spans[k], u[i].scopes[j].spans[k], spell)
  {
    hide CleanAttributes, ValidUtf8, AttributesSanitized, FixDuration, SpanSanitized, FixServiceName, FixSpanName,
      HasServiceName, HasInvalidServiceName;
    var w := MapSpans(FixServiceNames(t), FixSpanName);
    var v: Traces :| TracesSanitized(w, v) && u == MapSpans(v, s => FixDuration(s, spell));
    assert ResourceSanitized(w[i], v[i]);
    SameSpans(t[i]);
    AttributesComeOutClean(w[i].attributes, v[i].attributes);
    ServiceNamePostState(t[i], v[i]);
    forall j | 0 <= j < |t[i].scopes| ensures CleanAttributes(u[i].scopes[j].attributes) {
      assert ScopeSanitized(w[i].scopes[j], v[i].scopes[j]);
      AttributesComeOutClean(w[i].scopes[j].attributes, v[i].scopes[j].attributes);
    }
    forall j, k | 0 <= j < |t[i].scopes| && 0 <= k < |t[i].scopes[j].spans|
      ensures SpanChained(t[i].scopes[j].spans[k], u[i].scopes[j].spans[k], spell)
    {
      assert ScopeSanitized(w[i].scopes[j], v[i].scopes[j]);
      assert SpanSanitized(w[i].scopes[j].spans[k], v[i].scopes[j].spans[k]);
    }
  }

  lemma SameSpans(r: Resource)
    ensures FixServiceName(r).scopes == r.scopes
  {}

  /** No service name is an invalid string and no span starts at the last instant. */
  predicate Mendable(t: Traces) {
    forall i | 0 <= i < |t| ::
      !HasInvalidServiceName(t[i].attributes) &&
      forall j | 0 <= j < |t[i].scopes| :: MendableSpans(t[i].scopes[j].spans)
  }

  predicate MendableSpans(ps: seq<Span>) {
    forall k | 0 <= k < |ps| :: AsTime(ps[k].start) < TWO_63 - 1
  }

  /** What has been through the chain needs nothing more from any of its sanitizers. */
  lemma ChainLeavesNothingToDo(t: Traces, u: Traces, spell: (Uint64, Uint64) -> Bytes)
    requires ChainSanitized(t, u, spell) && Mendable(t)
    ensures !NeedsServiceName(u) && CleanTraces(u)
    ensures !Somewhere(u, NeedsSpanName) && !Somewhere(u, NeedsDuration)
  {
    hide ChainSanitized, SpanChained, ValidUtf8, CleanAttributes, HasInvalidServiceName, AsTime, Text;
    if t != [] {
      ChainPostState(t, u, spell, 0);
    } else {
      ChainOfNothing(u, spell);
    }
    forall i | 0 <= i < |t|
      ensures ServiceNameRepair(u[i].attributes) == None && CleanResource(u[i])
      ensures !InScopes(u[i].scopes, NeedsSpanName) && !InScopes(u[i].scopes, NeedsDuration)
    {
      ChainPostState(t, u, spell, i);
      forall j, k | 0 <= j < |t[i].scopes| && 0 <= k < |t[i].scopes[j].spans|
        ensures CleanSpan(u[i].scopes[j].spans[k])
        ensures !NeedsSpanName(u[i].scopes[j].spans[k]) && !NeedsDuration(u[i].scopes[j].spans[k])
      {
        assert MendableSpans(t[i].scopes[j].spans);
        SpanPostState(t[i].scopes[j].spans[k], u[i].scopes[j].spans[k], spell);
      }
    }
  }

  lemma ChainOfNothing(u: Traces, spell: (Uint64, Uint64) -> Bytes)
    requires ChainSanitized([], u, spell)
    ensures u == []
  {}

  /** So sanitizing twice is sanitizing once, for everything that can be mended at all. */
  lemma ChainIsIdempotent(t: Traces, u: Traces, u': Traces, spell: (Uint64, Uint64) -> Bytes)
    requires ChainSanitized(t, u, spell) && Mendable(t) && ChainSanitized(u, u', spell)
    ensures u' == u
  {
    hide CleanTraces, TracesSanitized, Somewhere, MapSpans, FixServiceNames, NeedsServiceName, Mendable, FixDuration,
      NeedsDuration, FixSpanName;
    ChainLeavesNothingToDo(t, u, spell);
    ServiceNamesChangeIff(u);
    forall s ensures FixSpanName(s) == s <==> !NeedsSpanName(s) {
      FixSpanNameChanges(s);
    }
    MapSpansChangesIff(u, FixSpanName, NeedsSpanName);
    var v: Traces :| TracesSanitized(MapSpans(FixServiceNames(u), FixSpanName), v)
        && u' == MapSpans(v, s => FixDuration(s, spell));
    Utf8ChangesIff(u, v);
    forall s ensures FixDuration(s, spell) == s <==> !NeedsDuration(s) {
      FixDurationChanges(s, spell);
    }
    MapSpansChangesIff(u, s => FixDuration(s, spell), NeedsDuration);
  }

  lemma FixSpanNameChanges(s: Span)
    ensures FixSpanName(s) == s <==> !NeedsSpanName(s)
  {
    NamesAreNotEmpty();
  }
}
