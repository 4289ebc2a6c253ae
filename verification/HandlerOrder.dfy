/** Which handlers a record reaches, and in which order, without the functions that compute it: the logger's own first,
    then those of its ancestors for as long as the loggers propagate. */
module HandlerOrder {
  import opened Common
  import opened LogDelivery

  /** A slot in the handler list of the logger itself (0), its parent (1), the parent of that (2) and so on. */
  datatype Place = Place(logger: nat, slot: nat)

  ghost function HandlersOf(own: seq<Handler>, chain: Chain, i: nat): seq<Handler>
    requires i <= |chain.ancestors|
  {
    if i == 0 then own else chain.ancestors[i - 1].handlers
  }

  /** The logger and every ancestor before this one propagate. */
  ghost predicate IsReached(chain: Chain, i: nat) {
    && i <= |chain.ancestors| && (i > 0 ==> chain.propagate)
    && forall j | 0 <= j < i - 1 :: chain.ancestors[j].propagate
  }

  /** A handler that is reached and takes the record. */
  ghost predicate Takes(own: seq<Handler>, chain: Chain, r: Record, p: Place) {
    && IsReached(chain, p.logger) && p.slot < |HandlersOf(own, chain, p.logger)|
    && r.level >= HandlersOf(own, chain, p.logger)[p.slot].level
  }

  /** The handler receives the level and the message, with the arguments merged if there are any. */
  ghost predicate IsDelivery(f: Percent, own: seq<Handler>, chain: Chain, r: Record, p: Place, d: Delivery) {
    && Takes(own, chain, r, p) && d.handler == HandlersOf(own, chain, p.logger)[p.slot]
    && d.level == r.level && d.message == if r.args.Some? then f(r.msg, r.args.value) else r.msg
  }

  predicate Before(p: Place, q: Place) {
    p.logger < q.logger || (p.logger == q.logger && p.slot < q.slot)
  }

  predicate InOrder(at: seq<Place>) {
    forall m, n | 0 <= m < n < |at| :: Before(at[m], at[n])
  }

  /** The deliveries are one for each place that takes the record, of those from the i-th logger on, in order. */
  ghost predicate DeliveredFrom(f: Percent, own: seq<Handler>, chain: Chain, r: Record, i: nat, out: seq<Delivery>,
                                at: seq<Place>)
  {
    && |at| == |out| && InOrder(at)
    && (forall n | 0 <= n < |at| :: at[n].logger >= i && IsDelivery(f, own, chain, r, at[n], out[n]))
    && forall p: Place {:trigger p in at} | p.logger >= i && Takes(own, chain, r, p) :: p in at
  }

  ghost predicate Delivered(f: Percent, own: seq<Handler>, chain: Chain, r: Record, out: seq<Delivery>) {
    exists at :: DeliveredFrom(f, own, chain, r, 0, out, at)
  }

  /** Calling the handlers delivers to each handler that is reached and takes the record, once for each time it is
      there, the own ones first, then ancestor after ancestor. */
  lemma CallDelivers(f: Percent, own: seq<Handler>, chain: Chain, r: Record)
    ensures Delivered(f, own, chain, r, Call(f, own, chain, r))
  {
    var mine := FiredPlaces(f, own, chain, r, 0);
    var rest := AbovePlaces(f, own, chain, r, 1);
    OneMoreLogger(f, own, chain, r, 0, Fired(f, own, r), mine, FromLogger(f, chain, r, 1), rest);
    assert DeliveredFrom(f, own, chain, r, 0, Call(f, own, chain, r), mine + rest) by {
      assert chain.ancestors[0..] == chain.ancestors;
    }
  }

  /** What the ancestors from the i-th on receive. */
  ghost function FromLogger(f: Percent, chain: Chain, r: Record, i: nat): seq<Delivery>
    requires 1 <= i
  {
    if IsReached(chain, i) then Above(f, chain.ancestors[i - 1..], r) else []
  }

  /** The slots of one logger's handlers that take the record. */
  lemma FiredPlaces(f: Percent, own: seq<Handler>, chain: Chain, r: Record, i: nat) returns (at: seq<Place>)
    requires IsReached(chain, i)
    ensures OfLogger(f, own, chain, r, i, Fired(f, HandlersOf(own, chain, i), r), at)
  {
    var handlers := HandlersOf(own, chain, i);
    var keep := (h: Handler) => r.level >= h.level;
    FiredIsFilter(f, handlers, r);
    var slots := FilterPicks(keep, handlers);
    at := seq(|slots|, n requires 0 <= n < |slots| => Place(i, slots[n]));
    forall p: Place | p.logger == i && Takes(own, chain, r, p) ensures p in at {
      assert keep(handlers[p.slot]) && p.slot in slots;
      var n :| 0 <= n < |slots| && slots[n] == p.slot;
      assert at[n] == p;
    }
  }

  ghost predicate OfLogger(f: Percent, own: seq<Handler>, chain: Chain, r: Record, i: nat, out: seq<Delivery>,
                           at: seq<Place>)
  {
    && |at| == |out| && InOrder(at)
    && (forall n | 0 <= n < |at| :: at[n].logger == i && IsDelivery(f, own, chain, r, at[n], out[n]))
    && forall p: Place {:trigger p in at} | p.logger == i && Takes(own, chain, r, p) :: p in at
  }

  lemma {:induction false} FiredIsFilter(f: Percent, handlers: seq<Handler>, r: Record)
    ensures var taking := Filter((h: Handler) => r.level >= h.level, handlers);
            && |Fired(f, handlers, r)| == |taking|
            && forall n | 0 <= n < |taking| :: Fired(f, handlers, r)[n] == Delivery(taking[n], r.level, Message(f, r))
  {
    if handlers != [] { FiredIsFilter(f, handlers[1..], r); }
  }

  lemma OneMoreLogger(f: Percent, own: seq<Handler>, chain: Chain, r: Record, i: nat, mine: seq<Delivery>,
                      at: seq<Place>, rest: seq<Delivery>, places: seq<Place>)
    requires OfLogger(f, own, chain, r, i, mine, at) && DeliveredFrom(f, own, chain, r, i + 1, rest, places)
    ensures DeliveredFrom(f, own, chain, r, i, mine + rest, at + places)
  {
    OrderedTogether(at, places, i);
    forall n | 0 <= n < |at + places|
      ensures (at + places)[n].logger >= i && IsDelivery(f, own, chain, r, (at + places)[n], (mine + rest)[n])
    {
      if n >= |at| { assert (at + places)[n] == places[n - |at|] && (mine + rest)[n] == rest[n - |at|]; }
    }
    forall p: Place | p.logger >= i && Takes(own, chain, r, p) ensures p in at + places {
      assert p in at || p in places;
    }
  }

  lemma OrderedTogether(a: seq<Place>, b: seq<Place>, i: nat)
    requires InOrder(a) && InOrder(b)
    requires (forall n | 0 <= n < |a| :: a[n].logger == i) && forall n | 0 <= n < |b| :: b[n].logger > i
    ensures InOrder(a + b)
  {
    forall m, n | 0 <= m < n < |a + b| ensures Before((a + b)[m], (a + b)[n]) {
      if m >= |a| { assert Before(b[m - |a|], b[n - |a|]); }
    }
  }

  lemma {:induction false} AbovePlaces(f: Percent, own: seq<Handler>, chain: Chain, r: Record, i: nat)
    returns (at: seq<Place>)
    requires 1 <= i
    ensures DeliveredFrom(f, own, chain, r, i, FromLogger(f, chain, r, i), at)
    decreases |chain.ancestors| + 1 - i
  {
    if IsReached(chain, i) {
      var mine := FiredPlaces(f, own, chain, r, i);
      var rest := AbovePlaces(f, own, chain, r, i + 1);
      NextLogger(f, chain, r, i);
      OneMoreLogger(f, own, chain, r, i, Fired(f, chain.ancestors[i - 1].handlers, r), mine,
                    FromLogger(f, chain, r, i + 1), rest);
      at := mine + rest;
    } else {
      at := [];
      forall p: Place | p.logger >= i ensures !Takes(own, chain, r, p) {
        NotReachedBeyond(chain, i, p.logger);
      }
    }
  }

  lemma NotReachedBeyond(chain: Chain, i: nat, j: nat)
    requires !IsReached(chain, i) && j >= i
    ensures !IsReached(chain, j)
  {
  }

  lemma NextLogger(f: Percent, chain: Chain, r: Record, i: nat)
    requires 1 <= i && IsReached(chain, i)
    ensures FromLogger(f, chain, r, i)
         == Fired(f, chain.ancestors[i - 1].handlers, r) + FromLogger(f, chain, r, i + 1)
  {
    assert chain.ancestors[i - 1..][1..] == chain.ancestors[i..];
    assert IsReached(chain, i + 1) <==> i < |chain.ancestors| && chain.ancestors[i - 1].propagate;
    if i == |chain.ancestors| {
      assert Above(f, [], r) == [];
    }
  }

  /** A record that its logger passes is delivered at once without the queue, and through the empty queue when the
      thread takes it, unless it is below DEBUG. */
  lemma LoggedIsDelivered(f: Percent, chain: Chain, d: Direct, q: Queued, r: Record, threshold: int)
    requires q.queue == [] && r.level >= threshold
    ensures var next := DirectNext(f, chain, d, Log(r, threshold));
            && next.handlers == d.handlers && d.delivered <= next.delivered
            && Delivered(f, d.handlers, chain, r, next.delivered[|d.delivered|..])
    ensures var next := QueuedNext(f, chain, QueuedNext(f, chain, q, Log(r, threshold)), Consume);
            && next.handlers == q.handlers && next.queue == [] && q.delivered <= next.delivered
            && if r.level < 10 then next == q
               else Delivered(f, q.handlers, chain, r, next.delivered[|q.delivered|..])
  {
    CallDelivers(f, d.handlers, chain, r);
    assert (d.delivered + Call(f, d.handlers, chain, r))[|d.delivered|..] == Call(f, d.handlers, chain, r);
    if r.level >= DEBUG {
      CallDelivers(f, q.handlers, chain, r);
      CallRendered(f, q.handlers, chain, r);
      assert q.queue + [Rendered(f, r)] == [Rendered(f, r)];
      assert (q.delivered + Call(f, q.handlers, chain, r))[|q.delivered|..] == Call(f, q.handlers, chain, r);
    }
  }
}
