/** What the greedy pairing of causes with effects achieves: it is a maximum one-to-one pairing, nothing pairable is
    left over, and exactly which cause histories let the returned lists say so. */
module OptimalPairing {
  import opened Common
  import opened UnmatchedEvents

  // ---------------------------------------------------------------------------------------------------------------
  // One-to-one pairings of cause and effect positions
  // ---------------------------------------------------------------------------------------------------------------

  /** `p` sends some of the effects from position `from` on to distinct positions in `free`, each strictly earlier. */
  ghost predicate PairsWithin(p: map<nat, nat>, causes: seq<int>, free: set<nat>, effects: seq<int>, from: nat) {
    && (forall e | e in p :: from <= e < |effects| && p[e] in free && p[e] < |causes| && causes[p[e]] < effects[e])
    && (forall e, f | e in p && f in p && e != f :: p[e] != p[f])
  }

  /** A one-to-one pairing in which each cause is strictly earlier than its effect. */
  ghost predicate IsPairing(p: map<nat, nat>, causes: seq<int>, effects: seq<int>) {
    PairsWithin(p, causes, Positions(causes), effects, 0)
  }

  function Positions(s: seq<int>): (r: set<nat>)
    ensures forall i: nat :: i in r <==> i < |s|
  {
    if s == [] then {} else Positions(s[..|s| - 1]) + {|s| - 1}
  }

  /** How many of the `free` positions hold the value v. */
  function Holding(s: seq<int>, free: set<nat>, v: int): set<nat> {
    set i | i in free && i < |s| && s[i] == v
  }

  /** `work` lists the times at the free positions, in some order. */
  ghost predicate Represents(work: seq<int>, causes: seq<int>, free: set<nat>) {
    && (forall i | i in free :: i < |causes|)
    && (forall v: int :: multiset(work)[v] == |Holding(causes, free, v)|)
  }

  lemma RepresentsMember(work: seq<int>, causes: seq<int>, free: set<nat>, i: nat)
    requires Represents(work, causes, free) && i in free
    ensures causes[i] in work
  {
    assert i in Holding(causes, free, causes[i]);
    assert multiset(work)[causes[i]] > 0;
  }

  lemma RepresentsWitness(work: seq<int>, causes: seq<int>, free: set<nat>, v: int) returns (i: nat)
    requires Represents(work, causes, free) && v in work
    ensures i in free && causes[i] == v
  {
    assert v in multiset(work);
    assert Holding(causes, free, v) != {};
    i :| i in Holding(causes, free, v);
  }

  lemma RepresentsDelete(work: seq<int>, causes: seq<int>, free: set<nat>, c: nat)
    requires Represents(work, causes, free) && c in free
    ensures Represents(DeleteFirst(work, causes[c]), causes, free - {c})
  {
    DeleteFirstBag(work, causes[c]);
    forall v: int
      ensures multiset(DeleteFirst(work, causes[c]))[v] == |Holding(causes, free - {c}, v)|
    {
      if v == causes[c] {
        assert c in Holding(causes, free, v);
        assert Holding(causes, free - {c}, v) == Holding(causes, free, v) - {c};
      } else {
        assert Holding(causes, free - {c}, v) == Holding(causes, free, v);
      }
    }
  }

  lemma {:induction false} RepresentsAll(s: seq<int>)
    ensures Represents(s, s, Positions(s))
  {
    forall v: int ensures multiset(s)[v] == |Holding(s, Positions(s), v)| {
      CountPositions(s, v);
    }
  }

  lemma {:induction false} CountPositions(s: seq<int>, v: int)
    ensures multiset(s)[v] == |Holding(s, Positions(s), v)|
  {
    if s == [] {
      assert Holding(s, Positions(s), v) == {};
    } else {
      var n := |s| - 1;
      var t := s[..n];
      CountPositions(t, v);
      assert multiset(s)[v] == multiset(t)[v] + if s[n] == v then 1 else 0 by {
        assert s == t + [s[n]];
      }
      HoldingOneMore(s, v);
    }
  }

  lemma HoldingOneMore(s: seq<int>, v: int)
    requires s != []
    ensures var t := s[..|s| - 1];
      |Holding(s, Positions(s), v)| == |Holding(t, Positions(t), v)| + if s[|s| - 1] == v then 1 else 0
  {
    var n := |s| - 1;
    var before := Holding(s[..n], Positions(s[..n]), v);
    if s[n] == v {
      assert Holding(s, Positions(s), v) == before + {n};
    } else {
      assert Holding(s, Positions(s), v) == before;
    }
  }

  // ---------------------------------------------------------------------------------------------------------------
  // The exchange argument
  // ---------------------------------------------------------------------------------------------------------------

  /** Leaving one effect unpaired loses one pair. */
  lemma Unpair(p: map<nat, nat>, causes: seq<int>, free: set<nat>, effects: seq<int>, from: nat, e: nat)
    returns (q: map<nat, nat>)
    requires PairsWithin(p, causes, free, effects, from)
    ensures q.Keys == p.Keys - {e} && forall f | f in q :: q[f] == p[f]
    ensures PairsWithin(q, causes, free, effects, from)
    ensures |p| <= |q| + 1
  {
    q := p - {e};
    assert q.Keys == p.Keys - {e};
    assert |p| == |p.Keys| && |q| == |q.Keys|;
  }

  /** An effect may change to a position nobody holds, if that one is earlier too. */
  lemma Repair(p: map<nat, nat>, causes: seq<int>, free: set<nat>, effects: seq<int>, from: nat, e: nat, d: nat)
    returns (q: map<nat, nat>)
    requires PairsWithin(p, causes, free, effects, from) && e in p
    requires d in free && d < |causes| && causes[d] < effects[e] && forall f | f in p :: p[f] != d
    ensures q.Keys == p.Keys && q[e] == d && forall f | f in p && f != e :: q[f] == p[f]
    ensures PairsWithin(q, causes, free, effects, from)
    ensures |q| == |p|
  {
    q := p[e := d];
    assert q.Keys == p.Keys;
    assert |p| == |p.Keys| && |q| == |q.Keys|;
  }

  /** Giving the first effect its nearest free cause costs any pairing at most one pair of the rest: whoever held that
      cause can take the cause the first effect held, which is no later. */
  lemma Exchange(p: map<nat, nat>, causes: seq<int>, free: set<nat>, effects: seq<int>, from: nat, c: nat)
    returns (q: map<nat, nat>)
    requires PairsWithin(p, causes, free, effects, from)
    requires from < |effects| && c in free && c < |causes|
    requires forall d | d in free && d < |causes| && causes[d] < effects[from] :: causes[d] <= causes[c]
    ensures PairsWithin(q, causes, free - {c}, effects, from + 1)
    ensures |p| <= |q| + 1
  {
    if from in p {
      q := Unpair(p, causes, free, effects, from, from);
      if e :| e in q && q[e] == c {
        q := Repair(q, causes, free, effects, from, e, p[from]);
      }
    } else if e :| e in p && p[e] == c {
      q := Unpair(p, causes, free, effects, from, e);
    } else {
      q := p;
    }
  }

  /** With the effects newest first, no pairing is larger than the greedy one; in particular the early break loses no
      pair. */
  lemma {:induction false} NoLargerPairing(p: map<nat, nat>, causes: seq<int>, free: set<nat>, work: seq<int>,
                                           effects: seq<int>, from: nat)
    requires Descending(effects) && from <= |effects|
    requires Represents(work, causes, free)
    requires PairsWithin(p, causes, free, effects, from)
    ensures |p| <= |Picks(work, effects[from..])|
    decreases |effects| - from
  {
    if from == |effects| {
      assert p.Keys == {};
    } else {
      PicksStep(work, effects, from);
      var nearest := NearestDatetime(work, effects[from]);
      if nearest.None? {
        forall e | e in p ensures false {
          RepresentsMember(work, causes, free, p[e]);
        }
        assert p.Keys == {};
      } else {
        var c := RepresentsWitness(work, causes, free, nearest.value);
        forall d | d in free && d < |causes| && causes[d] < effects[from] ensures causes[d] <= causes[c] {
          RepresentsMember(work, causes, free, d);
        }
        var q := Exchange(p, causes, free, effects, from, c);
        RepresentsDelete(work, causes, free, c);
        NoLargerPairing(q, causes, free - {c}, DeleteFirst(work, causes[c]), effects, from + 1);
      }
    }
  }

  /** The picks are themselves a pairing. */
  lemma {:induction false} GreedyPairing(causes: seq<int>, free: set<nat>, work: seq<int>, effects: seq<int>, from: nat)
    returns (p: map<nat, nat>)
    requires from <= |effects|
    requires Represents(work, causes, free)
    ensures PairsWithin(p, causes, free, effects, from)
    ensures |p| == |Picks(work, effects[from..])|
    decreases |effects| - from
  {
    p := map[];
    if from < |effects| {
      PicksStep(work, effects, from);
      var nearest := NearestDatetime(work, effects[from]);
      if nearest.Some? {
        var c := RepresentsWitness(work, causes, free, nearest.value);
        RepresentsDelete(work, causes, free, c);
        var rest := GreedyPairing(causes, free - {c}, DeleteFirst(work, causes[c]), effects, from + 1);
        p := rest[from := c];
        assert p.Keys == rest.Keys + {from} && from !in rest.Keys;
      }
    }
  }

  /** The number of pairs found is the maximum over all one-to-one pairings. */
  lemma GreedyIsMaximum(causes: seq<int>, effects: seq<int>)
    requires Descending(effects)
    ensures exists p :: IsPairing(p, causes, effects) && |p| == |Picks(causes, effects)|
    ensures forall p | IsPairing(p, causes, effects) :: |p| <= |Picks(causes, effects)|
  {
    RepresentsAll(causes);
    assert effects[0..] == effects;
    var best := GreedyPairing(causes, Positions(causes), causes, effects, 0);
    assert IsPairing(best, causes, effects);
    forall p | IsPairing(p, causes, effects) ensures |p| <= |Picks(causes, effects)| {
      NoLargerPairing(p, causes, Positions(causes), causes, effects, 0);
    }
  }

  // ---------------------------------------------------------------------------------------------------------------
  // The returned lists
  // ---------------------------------------------------------------------------------------------------------------

  /** The times still free when the pairing loop ends. */
  function Leftover(work: seq<int>, effects: seq<int>): seq<int>
    decreases |effects|
  {
    if effects == [] then work
    else
      match NearestDatetime(work, effects[0])
      case None => work
      case Some(t) => Leftover(DeleteFirst(work, t), effects[1..])
  }

  /** Every time is either picked or left over, as often as it occurs. */
  lemma {:induction false} LeftoverCount(work: seq<int>, effects: seq<int>, v: int)
    ensures multiset(work)[v] == multiset(Picks(work, effects))[v] + multiset(Leftover(work, effects))[v]
    decreases |effects|
  {
    if effects != [] {
      var nearest := NearestDatetime(work, effects[0]);
      if nearest.Some? {
        var rest := DeleteFirst(work, nearest.value);
        LeftoverCount(rest, effects[1..], v);
        DeleteCount(work, nearest.value, v);
        assert Picks(work, effects) == [nearest.value] + Picks(rest, effects[1..]);
      }
    }
  }

  lemma DeleteCount(work: seq<int>, t: int, v: int)
    requires t in work
    ensures multiset(work)[v] == multiset(DeleteFirst(work, t))[v] + if t == v then 1 else 0
  {
    DeleteFirstBag(work, t);
    assert t in multiset(work);
  }

  lemma {:induction false} LeftoverIsLate(work: seq<int>, effects: seq<int>)
    requires Descending(effects)
    ensures forall t, e | t in Leftover(work, effects) && e in effects[|Picks(work, effects)|..] :: t >= e
    decreases |effects|
  {
    if effects != [] {
      var nearest := NearestDatetime(work, effects[0]);
      if nearest.Some? {
        var rest := DeleteFirst(work, nearest.value);
        LeftoverIsLate(rest, effects[1..]);
        var k := |Picks(work, effects)|;
        assert effects[k..] == effects[1..][k - 1..];
      }
    }
  }

  /** Causes logged at the same instant are equal entries; holds in particular when all times are distinct. */
  predicate SameTimeSameEvent(causes: seq<Event>) {
    forall i, j | 0 <= i < j < |causes| && causes[i].systemTimestamp == causes[j].systemTimestamp ::
      causes[i] == causes[j]
  }

  /** If all events at x's instant equal x, counting x is counting its time. */
  lemma {:induction false} CountByTime(events: seq<Event>, x: Event)
    requires forall i | 0 <= i < |events| && events[i].systemTimestamp == x.systemTimestamp :: events[i] == x
    ensures multiset(Times(events))[x.systemTimestamp] == multiset(events)[x]
  {
    if events != [] {
      CountByTime(events[1..], x);
      assert events == [events[0]] + events[1..];
      TimesHead(events);
    }
  }

  lemma TimesHead(events: seq<Event>)
    requires events != []
    ensures Times(events) == [events[0].systemTimestamp] + Times(events[1..])
  {
  }

  lemma MatchedTimes(causes: seq<Event>, picks: seq<int>)
    requires forall i | 0 <= i < |picks| :: picks[i] in Times(causes)
    ensures Times(MatchedCauses(causes, picks)) == picks
    ensures forall i | 0 <= i < |picks| :: MatchedCauses(causes, picks)[i] in causes
  {
    var m := MatchedCauses(causes, picks);
    forall i | 0 <= i < |picks|
      ensures m[i].systemTimestamp == picks[i] && m[i] in causes
    {
      var at := IndexOf(Times(causes), picks[i]);
      assert Times(causes)[at] == picks[i] && m[i] == causes[at];
    }
  }

  /** An entry is matched as often as its time is picked, and both are no more often than it occurs. */
  lemma MatchedCount(causes: seq<Event>, effects: seq<int>, x: Event)
    requires SameTimeSameEvent(causes) && x in causes
    ensures var picks := Picks(Times(causes), effects);
            && multiset(MatchedCauses(causes, picks))[x] == multiset(picks)[x.systemTimestamp]
            && multiset(causes)[x] == multiset(picks)[x.systemTimestamp]
                                      + multiset(Leftover(Times(causes), effects))[x.systemTimestamp]
  {
    var picks := Picks(Times(causes), effects);
    var m := MatchedCauses(causes, picks);
    MatchedTimes(causes, picks);
    SameTimeAs(causes, x);
    forall i | 0 <= i < |m| && m[i].systemTimestamp == x.systemTimestamp ensures m[i] == x {
      assert m[i] in causes;
    }
    CountByTime(m, x);
    CountByTime(causes, x);
    LeftoverCount(Times(causes), effects, x.systemTimestamp);
  }

  lemma SameTimeAs(causes: seq<Event>, x: Event)
    requires SameTimeSameEvent(causes) && x in causes
    ensures forall y | y in causes && y.systemTimestamp == x.systemTimestamp :: y == x
  {
  }

  /** All matched causes are there to be deleted. */
  lemma MatchedAreDistinctEntries(causes: seq<Event>, effects: seq<int>)
    requires SameTimeSameEvent(causes)
    ensures multiset(MatchedCauses(causes, Picks(Times(causes), effects))) <= multiset(causes)
  {
    var picks := Picks(Times(causes), effects);
    MatchedTimes(causes, picks);
    var m := MatchedCauses(causes, picks);
    forall x: Event
      ensures multiset(m)[x] <= multiset(causes)[x]
    {
      if x in multiset(m) {
        assert x in m && x in causes;
        MatchedCount(causes, effects, x);
      }
    }
  }

  /** Deleting entries that are all present removes exactly them. */
  lemma {:induction false} DeleteAllPresent<T>(s: seq<T>, ds: seq<T>)
    requires multiset(ds) <= multiset(s)
    ensures multiset(DeleteAll(s, ds)) == multiset(s) - multiset(ds)
    ensures |DeleteAll(s, ds)| == |s| - |ds|
    decreases |ds|
  {
    if ds != [] {
      assert ds == [ds[0]] + ds[1..];
      assert ds[0] in multiset(ds);
      assert ds[0] in multiset(s);
      DeleteFirstBag(s, ds[0]);
      DeleteAllPresent(DeleteFirst(s, ds[0]), ds[1..]);
    }
  }

  ghost predicate IsSublist<T(!new)>(r: seq<T>, s: seq<T>) {
    if r == [] then true
    else if s == [] then false
    else (r[0] == s[0] && IsSublist(r[1..], s[1..])) || IsSublist(r, s[1..])
  }

  lemma {:induction false} RemoveFirstsIsSublist<T(!new)>(s: seq<T>, m: multiset<T>)
    ensures IsSublist(RemoveFirsts(s, m), s)
  {
    if s != [] {
      RemoveFirstsIsSublist(s[1..], if s[0] in m then m - multiset{s[0]} else m);
    }
  }

  /** What the two returned lists are, for complete histories with the effects newest first. */
  lemma UnmatchedIsOptimal(causes: seq<Event>, effects: seq<Event>)
    requires Descending(Times(effects)) && SameTimeSameEvent(causes)
    ensures var r := Unmatched(ParserResult(false, causes), ParserResult(false, effects));
            var picks := Picks(Times(causes), Times(effects));
            // as many causes as effects are gone, and no pairing has more pairs
            && |causes| - |r.0| == |picks| == |effects| - |r.1|
            && (exists p :: IsPairing(p, Times(causes), Times(effects)) && |p| == |picks|)
            && (forall p | IsPairing(p, Times(causes), Times(effects)) :: |p| <= |causes| - |r.0|)
            // the missing entries are exactly the matched ones
            && multiset(r.0) + multiset(MatchedCauses(causes, picks)) == multiset(causes)
            && IsSublist(r.0, causes)
            && r.1 == effects[|picks|..]
            // nothing pairable is left over
            && forall c, e | c in r.0 && e in r.1 :: c.systemTimestamp >= e.systemTimestamp
  {
    var times := Times(effects);
    var picks := Picks(Times(causes), times);
    var m := MatchedCauses(causes, picks);
    GreedyIsMaximum(Times(causes), times);
    MatchedAreDistinctEntries(causes, times);
    DeleteAllPresent(causes, m);
    DeleteAllIsRemoveFirsts(causes, m);
    RemoveFirstsIsSublist(causes, multiset(m));
    NothingPairableLeft(causes, effects);
  }

  lemma NothingPairableLeft(causes: seq<Event>, effects: seq<Event>)
    requires Descending(Times(effects)) && SameTimeSameEvent(causes)
    ensures var r := Unmatched(ParserResult(false, causes), ParserResult(false, effects));
            forall c, e | c in r.0 && e in r.1 :: c.systemTimestamp >= e.systemTimestamp
  {
    var times := Times(effects);
    var picks := Picks(Times(causes), times);
    var m := MatchedCauses(causes, picks);
    LeftoverIsLate(Times(causes), times);
    forall c, e | c in DeleteAll(causes, m) && e in effects[|picks|..]
      ensures c.systemTimestamp >= e.systemTimestamp
    {
      LeftoverCause(causes, times, c);
      LateEffect(effects, |picks|, e);
    }
  }

  lemma LateEffect(effects: seq<Event>, k: nat, e: Event)
    requires k <= |effects| && e in effects[k..]
    ensures e.systemTimestamp in Times(effects)[k..]
  {
    var i :| 0 <= i < |effects| - k && effects[k..][i] == e;
    assert Times(effects)[k..][i] == e.systemTimestamp;
  }

  /** A cause that is returned still had its time free. */
  lemma LeftoverCause(causes: seq<Event>, effects: seq<int>, c: Event)
    requires SameTimeSameEvent(causes)
    requires c in DeleteAll(causes, MatchedCauses(causes, Picks(Times(causes), effects)))
    ensures c.systemTimestamp in Leftover(Times(causes), effects)
  {
    var m := MatchedCauses(causes, Picks(Times(causes), effects));
    MatchedAreDistinctEntries(causes, effects);
    DeleteAllPresent(causes, m);
    assert multiset(DeleteAll(causes, m))[c] > 0;
    assert c in multiset(causes);
    MatchedCount(causes, effects, c);
    assert c.systemTimestamp in multiset(Leftover(Times(causes), effects));
  }

  // ---------------------------------------------------------------------------------------------------------------
  // Exactly which cause histories are safe
  // ---------------------------------------------------------------------------------------------------------------

  /** Whatever the effects, as many causes as effects are removed. */
  ghost predicate AlwaysBalanced(causes: seq<Event>) {
    forall effects: seq<Event> | Descending(Times(effects)) ::
      var r := Unmatched(ParserResult(false, causes), ParserResult(false, effects));
      |causes| - |r.0| == |effects| - |r.1|
  }

  lemma {:induction false} LateEffectsTakeAll(work: seq<int>, effects: seq<int>, late: int)
    requires |effects| >= |work|
    requires (forall t | t in work :: t < late) && forall k | 0 <= k < |effects| :: effects[k] == late
    ensures |Picks(work, effects)| == |work|
    decreases |effects|
  {
    if work != [] {
      assert work[0] in work && work[0] < effects[0];
      var nearest := NearestDatetime(work, effects[0]);
      var rest := DeleteFirst(work, nearest.value);
      LateEffectsTakeAll(rest, effects[1..], late);
    }
  }

  lemma {:induction false} KeepsUndeleted<T>(s: seq<T>, ds: seq<T>, y: T)
    requires y in s && y !in ds
    ensures y in DeleteAll(s, ds)
    decreases |ds|
  {
    if ds != [] {
      DeleteFirstBag(s, ds[0]);
      assert y in multiset(s);
      assert y in multiset(DeleteFirst(s, ds[0]));
      KeepsUndeleted(DeleteFirst(s, ds[0]), ds[1..], y);
    }
  }

  function LaterThan(ts: seq<int>): (r: int)
    ensures forall t | t in ts :: t < r
  {
    if ts == [] then 0
    else
      assert ts == [ts[0]] + ts[1..];
      var rest := LaterThan(ts[1..]);
      if ts[0] < rest then rest else ts[0] + 1
  }

  /** Every match at the instant t names the same, first entry, so any other entry at t stays in the list. */
  lemma SecondCauseStays(causes: seq<Event>, picks: seq<int>, y: Event)
    requires forall k | 0 <= k < |picks| :: picks[k] in Times(causes)
    requires y in causes && y.systemTimestamp in Times(causes)
    requires causes[IndexOf(Times(causes), y.systemTimestamp)] != y
    ensures y in DeleteAll(causes, MatchedCauses(causes, picks))
  {
    var m := MatchedCauses(causes, picks);
    MatchedTimes(causes, picks);
    forall k | 0 <= k < |m| ensures m[k] != y {
      assert Times(m)[k] == picks[k];
    }
    KeepsUndeleted(causes, m, y);
  }

  /** Two different causes at one instant: enough late effects match the first of them twice, and the other is
      reported although it was used. */
  lemma SameTimeCausesUnbalance(causes: seq<Event>, i: nat, j: nat)
    requires i < j < |causes|
    requires causes[i].systemTimestamp == causes[j].systemTimestamp && causes[i] != causes[j]
    ensures !AlwaysBalanced(causes)
  {
    var effects := LateEffects(causes, |causes|);
    var times := Times(causes);
    var t := causes[i].systemTimestamp;
    assert times[i] == t && times[j] == t;
    var y := if causes[i] == causes[IndexOf(times, t)] then causes[j] else causes[i];
    SecondCauseStays(causes, Picks(times, Times(effects)), y);
    assert y in Unmatched(ParserResult(false, causes), ParserResult(false, effects)).0;
  }

  /** At least as many effects as causes, all later than every cause: one for each cause is not returned. */
  lemma LateEffects(causes: seq<Event>, n: nat) returns (effects: seq<Event>)
    requires n >= |causes|
    ensures |effects| == n && Descending(Times(effects))
    ensures forall c, e | c in causes && e in effects :: c.systemTimestamp < e.systemTimestamp
    ensures Unmatched(ParserResult(false, causes), ParserResult(false, effects)).1 == effects[|causes|..]
  {
    var late := LaterThan(Times(causes));
    effects := seq(n, _ => Event(late, "", map[]));
    forall c | c in causes ensures c.systemTimestamp < late {
      var k :| 0 <= k < |causes| && causes[k] == c;
      assert Times(causes)[k] in Times(causes);
    }
    LateEffectsTakeAll(Times(causes), Times(effects), late);
  }

  /** The removed causes and effects always balance exactly for those cause histories in which entries of the same
      instant are equal. */
  lemma BalancedExactlyWhen(causes: seq<Event>)
    ensures AlwaysBalanced(causes) <==> SameTimeSameEvent(causes)
  {
    if SameTimeSameEvent(causes) {
      forall effects: seq<Event> | Descending(Times(effects))
        ensures var r := Unmatched(ParserResult(false, causes), ParserResult(false, effects));
                |causes| - |r.0| == |effects| - |r.1|
      {
        UnmatchedIsOptimal(causes, effects);
      }
    } else {
      var i, j :| 0 <= i < j < |causes| && causes[i].systemTimestamp == causes[j].systemTimestamp
                  && causes[i] != causes[j];
      SameTimeCausesUnbalance(causes, i, j);
    }
  }

  /** Whatever the effects, no returned cause is earlier than a returned effect. */
  ghost predicate AlwaysExhausted(causes: seq<Event>) {
    forall effects: seq<Event> | Descending(Times(effects)) :: NothingPairable(causes, effects)
  }

  ghost predicate NothingPairable(causes: seq<Event>, effects: seq<Event>) {
    var r := Unmatched(ParserResult(false, causes), ParserResult(false, effects));
    forall c, e | c in r.0 && e in r.1 :: c.systemTimestamp >= e.systemTimestamp
  }

  /** The same histories are those for which nothing pairable is ever returned. */
  lemma ExhaustedExactlyWhen(causes: seq<Event>)
    ensures AlwaysExhausted(causes) <==> SameTimeSameEvent(causes)
  {
    if SameTimeSameEvent(causes) {
      forall effects: seq<Event> | Descending(Times(effects)) ensures NothingPairable(causes, effects) {
        NothingPairableLeft(causes, effects);
      }
    } else {
      var i, j :| 0 <= i < j < |causes| && causes[i].systemTimestamp == causes[j].systemTimestamp
                  && causes[i] != causes[j];
      OneLateEffectTooMany(causes, i, j);
    }
  }

  /** With one late effect more than causes, that effect and the overlooked cause are both returned. */
  lemma OneLateEffectTooMany(causes: seq<Event>, i: nat, j: nat)
    requires i < j < |causes|
    requires causes[i].systemTimestamp == causes[j].systemTimestamp && causes[i] != causes[j]
    ensures !AlwaysExhausted(causes)
  {
    var effects := LateEffects(causes, |causes| + 1);
    var times := Times(causes);
    var t := causes[i].systemTimestamp;
    assert times[i] == t && times[j] == t;
    var y := if causes[i] == causes[IndexOf(times, t)] then causes[j] else causes[i];
    SecondCauseStays(causes, Picks(times, Times(effects)), y);
    var r := Unmatched(ParserResult(false, causes), ParserResult(false, effects));
    assert y in r.0 && r.1[0] in r.1 && r.1[0] == effects[|causes|];
    assert !NothingPairable(causes, effects);
  }
}
