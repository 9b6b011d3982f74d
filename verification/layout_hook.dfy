/**
 * The layout store behind `useGraphLayout` (web/src/hooks/use-graph-layout.ts).
 *
 * Every new graph payload is posted to a layout worker tagged with a fresh
 * request id; the worker's answers replace a single snapshot, and the hook
 * shows the snapshot only when it carries the id of the hook's own latest
 * request. The module state is a value of `Store`, and each entry point is a
 * function from store to store. Payload identity (`===`) is equality on `D`;
 * listener callbacks are named by numbers.
 *
 * The worker is a parameter: it answers a posted request `(id, data)` with
 * `(id, compute(data))`, at any later time and in any order.
 */
module LayoutHook {
  import opened Results
  import opened InsertionOrder

  datatype LayoutRequest<D> = LayoutRequest(id: nat, data: D)

  datatype LayoutResponse<L> = LayoutResponse(id: int, layout: L)

  datatype Store<D, L> = Store(
    lastRequested: Option<D>,
    requestId: nat,
    snapshot: Option<LayoutResponse<L>>,
    posted: seq<LayoutRequest<D>>,
    listeners: seq<nat>)

  /** The module's state at load time. */
  function Initial<D, L>(): Store<D, L>
  {
    Store(None, 0, None, [], [])
  }

  /** The requests so far are numbered 1, 2, ... and the last one holds the last payload. */
  ghost predicate Invariant<D(!new), L(!new)>(st: Store<D, L>, compute: D -> L)
  {
    && |st.posted| == st.requestId
    && (forall i :: 0 <= i < |st.posted| ==> st.posted[i].id == i + 1)
    && (st.lastRequested.Some? <==> st.requestId > 0)
    && (st.lastRequested.Some? ==> st.posted[st.requestId - 1].data == st.lastRequested.value)
    && (st.snapshot.Some? ==>
          && 1 <= st.snapshot.value.id <= st.requestId
          && st.snapshot.value.layout == compute(st.posted[st.snapshot.value.id - 1].data))
  }

  lemma InitialInvariant<D(!new), L(!new)>(compute: D -> L)
    ensures Invariant(Initial<D, L>(), compute)
  {
  }

  /** `requestLayout(data)`: the store afterwards and the returned id. */
  function RequestLayout<D(==), L>(st: Store<D, L>, data: D): (r: (Store<D, L>, nat))
    ensures st.lastRequested == Some(data) ==> r == (st, st.requestId)
    ensures st.lastRequested != Some(data) ==>
      && r.1 == st.requestId + 1
      && r.0 == st.(lastRequested := Some(data), requestId := r.1, posted := st.posted + [LayoutRequest(r.1, data)])
  {
    if st.lastRequested == Some(data) then (st, st.requestId)
    else
      var id := st.requestId + 1;
      (st.(lastRequested := Some(data), requestId := id, posted := st.posted + [LayoutRequest(id, data)]), id)
  }

  /** `subscribe(callback)`. */
  function Subscribe<D, L>(st: Store<D, L>, callback: nat): (r: Store<D, L>)
    ensures callback in r.listeners
    ensures forall c :: c != callback ==> (c in r.listeners <==> c in st.listeners)
  {
    st.(listeners := Insert(st.listeners, callback))
  }

  /** The function `subscribe` returns. */
  function Unsubscribe<D, L>(st: Store<D, L>, callback: nat): (r: Store<D, L>)
    ensures callback !in r.listeners
    ensures forall c :: c != callback ==> (c in r.listeners <==> c in st.listeners)
  {
    st.(listeners := Remove(st.listeners, callback))
  }

  /** Unsubscribing right after subscribing a new callback leaves the listeners as they were. */
  lemma SubscribeUnsubscribe<D, L>(st: Store<D, L>, callback: nat)
    requires callback !in st.listeners
    ensures Unsubscribe(Subscribe(st, callback), callback) == st
  {
    RemoveInsert(st.listeners, callback);
  }

  /** The worker's `message` handler: replace the snapshot, then call every listener. */
  function Deliver<D, L>(st: Store<D, L>, response: LayoutResponse<L>): (r: (Store<D, L>, seq<nat>))
    ensures r.0.snapshot == Some(response)
    ensures r.1 == st.listeners
    ensures r.0 == st.(snapshot := Some(response))
  {
    (st.(snapshot := Some(response)), st.listeners)
  }

  /** `useGraphLayout(data)`: the store afterwards and the layout it returns, `None` for `null`. */
  function UseGraphLayout<D(==), L>(st: Store<D, L>, data: Option<D>): (r: (Store<D, L>, Option<L>))
    ensures data.None? ==> r.0 == st
    ensures data.Some? ==> r.0 == RequestLayout(st, data.value).0
    ensures r.1.Some? ==> r.0.snapshot.Some? && r.1 == Some(r.0.snapshot.value.layout)
    ensures r.1.Some? ==> r.0.snapshot.value.id == if data.Some? then RequestLayout(st, data.value).1 else -1
    ensures r.0.snapshot.Some? && r.0.snapshot.value.id == (if data.Some? then RequestLayout(st, data.value).1 else -1) ==>
      r.1 == Some(r.0.snapshot.value.layout)
  {
    var (st', currentId) := if data.Some? then (var (s, id) := RequestLayout(st, data.value); (s, id as int)) else (st, -1);
    if st'.snapshot.Some? && st'.snapshot.value.id == currentId then (st', Some(st'.snapshot.value.layout))
    else (st', None)
  }

  datatype Event<D> =
    | Request(data: D)
    | Respond(index: nat)
    | Read(payload: Option<D>)
    | Listen(callback: nat)
    | Unlisten(callback: nat)

  /**
   * One event. `Respond(k)` is the worker answering the `k`-th posted request,
   * and does nothing when no such request was posted. Only `Read` has an output.
   */
  function Step<D(==), L>(st: Store<D, L>, e: Event<D>, compute: D -> L): (r: (Store<D, L>, Option<L>))
    ensures r.1.Some? ==> e.Read?
    ensures st.posted <= r.0.posted && |r.0.posted| <= |st.posted| + 1
    ensures |r.0.posted| == |st.posted| + 1 ==> e.Request? || e.Read?
    ensures r.0.listeners != st.listeners ==> e.Listen? || e.Unlisten?
    ensures e.Respond? && e.index < |st.posted| ==>
      r.0.snapshot == Some(LayoutResponse(st.posted[e.index].id, compute(st.posted[e.index].data)))
    ensures e.Respond? && e.index >= |st.posted| ==> r.0 == st
  {
    match e
    case Request(d) => (RequestLayout(st, d).0, None)
    case Respond(k) =>
      if k < |st.posted| then (Deliver(st, LayoutResponse(st.posted[k].id, compute(st.posted[k].data))).0, None)
      else (st, None)
    case Read(d) => UseGraphLayout(st, d)
    case Listen(c) => (Subscribe(st, c), None)
    case Unlisten(c) => (Unsubscribe(st, c), None)
  }

  /** Every event keeps the invariant, and a read only ever shows the layout of the payload it was given. */
  lemma StepPreserves<D(!new), L(!new)>(st: Store<D, L>, e: Event<D>, compute: D -> L)
    requires Invariant(st, compute)
    ensures Invariant(Step(st, e, compute).0, compute)
    ensures e.Read? && Step(st, e, compute).1.Some? ==>
      e.payload.Some? && Step(st, e, compute).1 == Some(compute(e.payload.value))
  {
    match e
    case Request(d) =>
      RequestPreserves(st, d, compute);
    case Respond(k) =>
    case Read(d) =>
      if d.Some? {
        RequestPreserves(st, d.value, compute);
      }
    case Listen(c) =>
    case Unlisten(c) =>
  }

  lemma RequestPreserves<D(!new), L(!new)>(st: Store<D, L>, data: D, compute: D -> L)
    requires Invariant(st, compute)
    ensures Invariant(RequestLayout(st, data).0, compute)
    ensures RequestLayout(st, data).1 == RequestLayout(st, data).0.requestId >= 1
    ensures RequestLayout(st, data).0.posted[RequestLayout(st, data).1 - 1].data == data
  {
    var r := RequestLayout(st, data).0;
    if st.lastRequested != Some(data) {
      assert forall i :: 0 <= i < |st.posted| ==> r.posted[i] == st.posted[i];
    }
  }

  /** The events applied in order, with the output of each. */
  function Run<D(==), L>(st: Store<D, L>, events: seq<Event<D>>, compute: D -> L): (r: (Store<D, L>, seq<Option<L>>))
    ensures |r.1| == |events|
    decreases |events|
  {
    if |events| == 0 then (st, [])
    else
      var (st', out) := Step(st, events[0], compute);
      var (last, outs) := Run(st', events[1..], compute);
      (last, [out] + outs)
  }

  /**
   * Whatever the interleaving of requests, worker answers and reads, a read
   * never shows a layout computed for a payload other than the one it was
   * given, and a read without a payload shows nothing.
   */
  lemma {:induction false} RunSound<D(!new), L(!new)>(st: Store<D, L>, events: seq<Event<D>>, compute: D -> L)
    requires Invariant(st, compute)
    ensures Invariant(Run(st, events, compute).0, compute)
    ensures forall i :: 0 <= i < |events| && events[i].Read? && Run(st, events, compute).1[i].Some? ==>
      events[i].payload.Some? && Run(st, events, compute).1[i] == Some(compute(events[i].payload.value))
    decreases |events|
  {
    if |events| > 0 {
      StepPreserves(st, events[0], compute);
      var st' := Step(st, events[0], compute).0;
      RunSound(st', events[1..], compute);
      forall i | 1 <= i < |events|
        ensures Run(st, events, compute).1[i] == Run(st', events[1..], compute).1[i - 1]
        ensures events[i] == events[1..][i - 1]
      {
      }
    }
  }

  /** The ids handed out are 1, 2, 3, ...: at least one and strictly increasing. */
  lemma PostedIds<D(!new), L(!new)>(st: Store<D, L>, compute: D -> L)
    requires Invariant(st, compute)
    ensures forall i :: 0 <= i < |st.posted| ==> st.posted[i].id >= 1
    ensures forall i, j :: 0 <= i < j < |st.posted| ==> st.posted[i].id < st.posted[j].id
  {
  }

  /** A repeated payload posts nothing; a new one posts exactly one request with the next id. */
  lemma RequestCounts<D(!new), L(!new)>(st: Store<D, L>, data: D, compute: D -> L)
    requires Invariant(st, compute)
    ensures st.lastRequested == Some(data) ==> RequestLayout(st, data).0.posted == st.posted
    ensures st.lastRequested != Some(data) ==>
      |RequestLayout(st, data).0.posted| == |st.posted| + 1 && RequestLayout(st, data).1 > st.requestId
  {
  }

  /** Without a payload the hook returns `null`: no issued id is `-1`. */
  lemma NoDataNoLayout<D(!new), L(!new)>(st: Store<D, L>, compute: D -> L)
    requires Invariant(st, compute)
    ensures UseGraphLayout(st, None).1 == None
  {
  }

  /** Once the answer to the latest request arrives, reading the same payload shows its layout. */
  lemma FreshAnswerShown<D(!new), L(!new)>(st: Store<D, L>, data: D, compute: D -> L)
    requires Invariant(st, compute)
    ensures var (st1, id) := RequestLayout(st, data);
      var st2 := Deliver(st1, LayoutResponse(id, compute(data))).0;
      UseGraphLayout(st2, Some(data)).1 == Some(compute(data))
  {
    RequestPreserves(st, data, compute);
  }

  /**
   * The snapshot is not guarded: an answer to an older request arriving after
   * the fresh one replaces it, and the hook then returns `null`.
   */
  lemma LateStaleAnswerHides(compute: int -> int)
    ensures var events := [Request(10), Request(20), Respond(1), Respond(0), Read(Some(20))];
      Run(Initial<int, int>(), events, compute).1[4] == None
  {
    var s0 := Initial<int, int>();
    var s1 := Step(s0, Request(10), compute).0;
    var s2 := Step(s1, Request(20), compute).0;
    assert s2.posted == [LayoutRequest(1, 10), LayoutRequest(2, 20)];
    var s3 := Step(s2, Respond(1), compute).0;
    var s4 := Step(s3, Respond(0), compute).0;
    assert s4.snapshot == Some(LayoutResponse(1, compute(10)));
    assert Step(s4, Read(Some(20)), compute).1 == None;
    var events := [Request(10), Request(20), Respond(1), Respond(0), Read(Some(20))];
    assert events[1..] == [Request(20), Respond(1), Respond(0), Read(Some(20))];
    assert events[1..][1..] == [Respond(1), Respond(0), Read(Some(20))];
    assert events[1..][1..][1..] == [Respond(0), Read(Some(20))];
    assert events[1..][1..][1..][1..] == [Read(Some(20))];
  }
}
