/** The buffered callback queue of kryten/buffered_callbacks.c: Channel
    Access callbacks are copied into a list by the producers and replayed,
    oldest first and a bounded batch at a time, from the application's own
    thread. The list is a sequence; the mutex, malloc and free are not
    modelled (a dequeued item is simply gone). Connection and event
    arguments are type parameters. */
module Callbacks {
  import opened Optional

  /** ECA_NORMAL, the status the printf producer returns. */
  const ECA_NORMAL: int := 1

  /** A buffered item by its Callback_Kinds tag. The producers never make a
      NULL_KIND item; it stands for any tag the dispatcher does not know. */
  datatype Item<C, E> =
    | ConnectionItem(cargs: C)
    | EventItem(eargs: E, dbr: Option<seq<int>>)
    | PrintfItem(text: string)
    | NullKindItem

  /** What process_buffered_callbacks does with an item. */
  datatype Dispatched<C, E> =
    | ToConnectionHandler(cargs: C)
    | ToEventHandler(eargs: E, dbr: Option<seq<int>>)
    | ToPrintfHandler(text: string)
    | UnexpectedKind

  /** The list of buffered items, oldest first. */
  datatype Queue<C, E> = Queue(items: seq<Item<C, E>>)

  /** initialise_buffered_callbacks: an empty list.
      (kryten/buffered_callbacks.c:255-259) */
  function Initialise<C, E>(): (q: Queue<C, E>)
    ensures Count(q) == 0
  {
    Queue([])
  }

  /** number_of_buffered_callbacks. (kryten/buffered_callbacks.c:263-268) */
  function Count<C, E>(q: Queue<C, E>): nat
  {
    |q.items|
  }

  /** load_element: ellAdd appends at the tail.
      (kryten/buffered_callbacks.c:139-150) */
  function Load<C, E>(q: Queue<C, E>, item: Item<C, E>): (r: Queue<C, E>)
    ensures Count(r) == Count(q) + 1
    ensures r.items[..Count(q)] == q.items && r.items[Count(q)] == item
  {
    Queue(q.items + [item])
  }

  /** unload_element: ellGet takes the head, and there is none exactly when
      the list is empty. (kryten/buffered_callbacks.c:156-171) */
  function Unload<C, E>(q: Queue<C, E>): (r: (Option<Item<C, E>>, Queue<C, E>))
    ensures r.0.None? <==> Count(q) == 0
    ensures r.0.None? ==> r.1 == q
    ensures r.0.Some? ==> [r.0.value] + r.1.items == q.items
  {
    if |q.items| == 0 then (None, q) else (Some(q.items[0]), Queue(q.items[1..]))
  }

  /** buffered_connection_handler. (kryten/buffered_callbacks.c:178-189) */
  function ConnectionHandler<C, E>(q: Queue<C, E>, cargs: C): (r: Queue<C, E>)
    ensures r == Load(q, ConnectionItem(cargs))
  {
    Queue(q.items + [ConnectionItem(cargs)])
  }

  /** buffered_event_handler: the item owns a copy of the payload, or has
      none when the callback had none. (kryten/buffered_callbacks.c:195-215) */
  function EventHandler<C, E>(q: Queue<C, E>, eargs: E, dbr: Option<seq<int>>): (r: Queue<C, E>)
    ensures r == Load(q, EventItem(eargs, dbr))
  {
    Queue(q.items + [EventItem(eargs, dbr)])
  }

  /** buffered_printf_handler: the already expanded text is queued and
      ECA_NORMAL returned. (kryten/buffered_callbacks.c:221-250) */
  function PrintfHandler<C, E>(q: Queue<C, E>, expanded: string): (r: (Queue<C, E>, int))
    ensures r.0 == Load(q, PrintfItem(expanded)) && r.1 == ECA_NORMAL
  {
    (Queue(q.items + [PrintfItem(expanded)]), ECA_NORMAL)
  }

  /** The switch of process_buffered_callbacks: each tag to its handler and
      any other tag to an error message. (kryten/buffered_callbacks.c:287-305) */
  function Dispatch<C, E>(item: Item<C, E>): (d: Dispatched<C, E>)
    ensures d.UnexpectedKind? <==> item.NullKindItem?
    ensures item.ConnectionItem? ==> d == ToConnectionHandler(item.cargs)
    ensures item.EventItem? ==> d == ToEventHandler(item.eargs, item.dbr)
    ensures item.PrintfItem? ==> d == ToPrintfHandler(item.text)
  {
    match item
    case ConnectionItem(c) => ToConnectionHandler(c)
    case EventItem(e, dbr) => ToEventHandler(e, dbr)
    case PrintfItem(t) => ToPrintfHandler(t)
    case NullKindItem => UnexpectedKind
  }

  function DispatchAll<C, E>(items: seq<Item<C, E>>): (ds: seq<Dispatched<C, E>>)
    ensures |ds| == |items|
    ensures forall k :: 0 <= k < |items| ==> ds[k] == Dispatch(items[k])
  {
    seq(|items|, k requires 0 <= k < |items| => Dispatch(items[k]))
  }

  /** How many items one call takes: all of them up to max, but the limit
      is tested only after an item, so at least one when there is any. */
  function BatchSize(count: nat, max: int): (n: nat)
    ensures n <= count
    ensures count > 0 ==> n >= 1
    ensures max >= 1 ==> n <= max
    ensures n < count ==> n >= max
  {
    if count == 0 then 0
    else if max <= 1 then 1
    else if count <= max then count
    else max
  }

  /** process_buffered_callbacks (max): unloads and dispatches items oldest
      first until the list is empty or n >= max, and returns n, the number
      of items removed. (kryten/buffered_callbacks.c:273-319) */
  method ProcessBatch<C, E>(q: Queue<C, E>, max: int) returns (n: int, calls: seq<Dispatched<C, E>>, rest: Queue<C, E>)
    ensures n == BatchSize(Count(q), max)
    ensures calls == DispatchAll(q.items[..n])
    ensures rest.items == q.items[n..]
    ensures max <= 0 && Count(q) > 0 ==> n == 1
  {
    n := 0;
    calls := [];
    rest := q;
    while true
      invariant 0 <= n <= |q.items|
      invariant rest.items == q.items[n..]
      invariant calls == DispatchAll(q.items[..n])
      invariant n <= BatchSize(Count(q), max)
      invariant n > 0 ==> n < max
      decreases |rest.items|
    {
      var u := Unload(rest);
      if u.0.None? {
        break;
      }
      calls := calls + [Dispatch(u.0.value)];
      rest := u.1;
      assert q.items[..n + 1] == q.items[..n] + [q.items[n]];
      n := n + 1;
      if n >= max {
        break;
      }
    }
  }

  /** The items come out in the order the producers put them in: loading a
      sequence of items into an empty list and unloading until it is empty
      gives the same sequence back. */
  function LoadAll<C, E>(q: Queue<C, E>, xs: seq<Item<C, E>>): (r: Queue<C, E>)
    ensures r.items == q.items + xs
    decreases |xs|
  {
    if |xs| == 0 then q else LoadAll(Load(q, xs[0]), xs[1..])
  }

  function Drain<C, E>(q: Queue<C, E>): (xs: seq<Item<C, E>>)
    decreases |q.items|
  {
    var u := Unload(q);
    match u.0
    case None => []
    case Some(x) => [x] + Drain(u.1)
  }

  lemma {:induction false} DrainGivesItems<C, E>(q: Queue<C, E>)
    ensures Drain(q) == q.items
    decreases |q.items|
  {
    if |q.items| > 0 {
      DrainGivesItems(Queue(q.items[1..]));
    }
  }

  lemma FifoOrder<C, E>(xs: seq<Item<C, E>>)
    ensures Drain(LoadAll(Initialise<C, E>(), xs)) == xs
  {
    DrainGivesItems(LoadAll(Initialise<C, E>(), xs));
  }

  /** Two batches take the same items, in the same order, as one batch of
      their combined size, so batching never reorders callbacks. */
  lemma BatchesCompose<C, E>(q: Queue<C, E>, a: nat, b: nat)
    requires a + b <= Count(q)
    ensures DispatchAll(q.items[..a]) + DispatchAll(q.items[a..][..b]) == DispatchAll(q.items[..a + b])
  {
    var whole := DispatchAll(q.items[..a + b]);
    var left := DispatchAll(q.items[..a]);
    var right := DispatchAll(q.items[a..][..b]);
    assert forall k :: 0 <= k < b ==> right[k] == whole[a + k];
  }

  /** Two successive calls, with limits a and then b, take as many items
      as one call with limit a + b, and dispatch the same items in the same
      order. */
  lemma SuccessiveBatches<C, E>(q: Queue<C, E>, a: int, b: int)
    requires a >= 1 && b >= 1
    ensures var n1 := BatchSize(Count(q), a);
            var n2 := BatchSize(Count(q) - n1, b);
            n1 + n2 == BatchSize(Count(q), a + b)
            && DispatchAll(q.items[..n1]) + DispatchAll(q.items[n1..][..n2]) == DispatchAll(q.items[..n1 + n2])
  {
    var n1 := BatchSize(Count(q), a);
    var n2 := BatchSize(Count(q) - n1, b);
    BatchesCompose(q, n1, n2);
  }
}
