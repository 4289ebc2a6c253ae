/** Types shared by the models of the individual components. */
module Common {

  datatype Option<+T> = None | Some(value: T)

  datatype Result<+T, +E> = Success(value: T) | Failure(error: E)

  /** Elements never grow from left to right. */
  predicate Descending(s: seq<int>) {
    forall i, j | 0 <= i < j < |s| :: s[i] >= s[j]
  }

  /** `del s[s.index(x)]`, leaving `s` alone when the lookup raises ValueError. */
  function DeleteFirst<T(==)>(s: seq<T>, x: T): (r: seq<T>)
    ensures |r| == if x in s then |s| - 1 else |s|
    ensures forall i | 0 <= i < |r| :: r[i] in s
  {
    if s == [] then []
    else if s[0] == x then s[1..]
    else [s[0]] + DeleteFirst(s[1..], x)
  }

  /** The subsequence of `s` whose elements satisfy `keep`, in order. */
  function Filter<T>(keep: T -> bool, s: seq<T>): seq<T> {
    if s == [] then []
    else if keep(s[0]) then [s[0]] + Filter(keep, s[1..])
    else Filter(keep, s[1..])
  }

  lemma {:induction false} FilterMembers<T(!new)>(keep: T -> bool, s: seq<T>)
    ensures forall x :: x in Filter(keep, s) <==> x in s && keep(x)
  {
    if s != [] {
      FilterMembers(keep, s[1..]);
      assert s == [s[0]] + s[1..];
    }
  }

  lemma FilterOne<T>(keep: T -> bool, x: T)
    ensures Filter(keep, [x]) == if keep(x) then [x] else []
  {
    assert [x][1..] == [];
    assert Filter(keep, []) == [];
  }

  lemma {:induction false} FilterAppend<T>(keep: T -> bool, a: seq<T>, b: seq<T>)
    ensures Filter(keep, a + b) == Filter(keep, a) + Filter(keep, b)
  {
    if a == [] {
      assert a + b == b;
    } else {
      FilterAppend(keep, a[1..], b);
      HeadOfBoth(a, b);
      Regroup([a[0]], Filter(keep, a[1..]), Filter(keep, b));
    }
  }

  lemma Regroup<T>(a: seq<T>, b: seq<T>, c: seq<T>)
    ensures (a + b) + c == a + (b + c)
  {
  }

  lemma HeadOfBoth<T>(a: seq<T>, b: seq<T>)
    requires a != []
    ensures a + b != [] && (a + b)[0] == a[0] && (a + b)[1..] == a[1..] + b
  {
  }

  function Copies<T>(n: nat, x: T): (r: seq<T>)
    ensures |r| == n && forall i | 0 <= i < n :: r[i] == x
  {
    seq(n, _ => x)
  }

  lemma Lengthens<T>(s: seq<T>, more: seq<T>)
    ensures s + more == s <==> more == []
    ensures more + s == s <==> more == []
  {
    assert |s + more| == |s| + |more| && |more + s| == |s| + |more|;
    assert more == [] ==> s + more == s && more + s == s;
  }

  lemma FewerLeft<T>(s: set<T>, done: set<T>, x: T)
    requires x in s - done
    ensures |s - (done + {x})| < |s - done|
  {
    assert s - (done + {x}) == s - done - {x};
  }

  // ---------------------------------------------------------------------------------------------------------------
  // Positions: which elements of a sequence make up another
  // ---------------------------------------------------------------------------------------------------------------

  predicate Increasing(at: seq<nat>) {
    forall i, j | 0 <= i < j < |at| :: at[i] < at[j]
  }

  /** Positions in the tail of a sequence, as positions in the sequence. */
  function Shifted(rest: seq<nat>): (at: seq<nat>)
    ensures |at| == |rest| && forall k | 0 <= k < |at| :: at[k] == rest[k] + 1
  {
    seq(|rest|, k requires 0 <= k < |rest| => rest[k] + 1)
  }

  lemma ShiftedPositions(rest: seq<nat>)
    requires Increasing(rest)
    ensures Increasing(Shifted(rest)) && Increasing([0] + Shifted(rest))
    ensures forall i | i in rest :: i + 1 in Shifted(rest)
  {
    forall i | i in rest ensures i + 1 in Shifted(rest) {
      var k :| 0 <= k < |rest| && rest[k] == i;
      assert Shifted(rest)[k] == i + 1;
    }
  }

  /** `r` consists of the elements of `s` at these positions, which are all at which `keep` holds. */
  predicate PickedAt<T(==)>(keep: T -> bool, s: seq<T>, r: seq<T>, at: seq<nat>) {
    && |at| == |r| && Increasing(at)
    && (forall k | 0 <= k < |at| :: at[k] < |s| && keep(s[at[k]]) && r[k] == s[at[k]])
    && forall i {:trigger i in at} | 0 <= i < |s| && keep(s[i]) :: i in at
  }

  lemma {:induction false} FilterPicks<T>(keep: T -> bool, s: seq<T>) returns (at: seq<nat>)
    ensures PickedAt(keep, s, Filter(keep, s), at)
  {
    if s == [] {
      at := [];
      assert PickedAt(keep, [], [], at);
    } else {
      var rest := FilterPicks(keep, s[1..]);
      LaterPicks(keep, s, Filter(keep, s[1..]), rest);
      at := if keep(s[0]) then [0] + Shifted(rest) else Shifted(rest);
      if keep(s[0]) { FirstPick(keep, s, Filter(keep, s[1..]), rest); }
    }
  }

  lemma LaterPicks<T>(keep: T -> bool, s: seq<T>, r: seq<T>, rest: seq<nat>)
    requires s != [] && PickedAt(keep, s[1..], r, rest)
    ensures forall k | 0 <= k < |rest| :: rest[k] + 1 < |s| && keep(s[rest[k] + 1]) && r[k] == s[rest[k] + 1]
    ensures forall i {:trigger i in Shifted(rest)} | 1 <= i < |s| && keep(s[i]) :: i in Shifted(rest)
    ensures !keep(s[0]) ==> PickedAt(keep, s, r, Shifted(rest))
  {
    ShiftedPositions(rest);
    assert forall k | 0 <= k < |rest| :: s[1..][rest[k]] == s[rest[k] + 1];
    forall i | 1 <= i < |s| && keep(s[i]) ensures i in Shifted(rest) {
      assert s[1..][i - 1] == s[i] && i - 1 in rest;
    }
  }

  lemma FirstPick<T>(keep: T -> bool, s: seq<T>, r: seq<T>, rest: seq<nat>)
    requires s != [] && keep(s[0]) && PickedAt(keep, s[1..], r, rest)
    ensures PickedAt(keep, s, [s[0]] + r, [0] + Shifted(rest))
  {
    LaterPicks(keep, s, r, rest);
    ShiftedPositions(rest);
    FirstAndLater(Shifted(rest));
    OnePickMore(keep, s, r, Shifted(rest), [s[0]] + r, [0] + Shifted(rest));
  }

  lemma FirstAndLater(later: seq<nat>)
    ensures 0 in [0] + later && forall i | i in later :: i in [0] + later
  {
    assert ([0] + later)[0] == 0;
  }

  lemma OnePickMore<T>(keep: T -> bool, s: seq<T>, r: seq<T>, later: seq<nat>, all: seq<T>, at: seq<nat>)
    requires s != [] && keep(s[0]) && |later| == |r| && Increasing(at)
    requires forall k | 0 <= k < |later| :: later[k] < |s| && keep(s[later[k]]) && r[k] == s[later[k]]
    requires forall i {:trigger i in later} | 1 <= i < |s| && keep(s[i]) :: i in later
    requires |all| == |r| + 1 && all[0] == s[0] && forall k | 1 <= k < |all| :: all[k] == r[k - 1]
    requires |at| == |later| + 1 && at[0] == 0 && forall k | 1 <= k < |at| :: at[k] == later[k - 1]
    requires 0 in at && forall i | i in later :: i in at
    ensures PickedAt(keep, s, all, at)
  {
    forall i | 0 <= i < |s| && keep(s[i]) ensures i in at {
      assert i == 0 || i in later;
    }
  }

  predicate Decreasing(at: seq<nat>) {
    forall i, j | 0 <= i < j < |at| :: at[i] > at[j]
  }

  /** Positions in a reversed sequence of length `n`, as positions in the sequence. */
  function Mirrored(n: nat, at: seq<nat>): (r: seq<nat>)
    requires forall k | 0 <= k < |at| :: at[k] < n
    ensures |r| == |at| && forall k | 0 <= k < |r| :: r[k] == n - 1 - at[k]
  {
    seq(|at|, k requires 0 <= k < |at| => n - 1 - at[k])
  }

  lemma MirroredPositions(n: nat, at: seq<nat>)
    requires Increasing(at) && forall k | 0 <= k < |at| :: at[k] < n
    ensures Decreasing(Mirrored(n, at))
    ensures forall i | i in at :: n - 1 - i in Mirrored(n, at)
  {
    forall i | i in at ensures n - 1 - i in Mirrored(n, at) {
      var k :| 0 <= k < |at| && at[k] == i;
      assert Mirrored(n, at)[k] == n - 1 - i;
    }
  }

  /** Positions in a sequence that consists of the elements of another at `at`, as positions in that other. */
  function Composed(at: seq<nat>, inner: seq<nat>): (r: seq<nat>)
    requires forall k | 0 <= k < |inner| :: inner[k] < |at|
    ensures |r| == |inner| && forall k | 0 <= k < |r| :: r[k] == at[inner[k]]
  {
    seq(|inner|, k requires 0 <= k < |inner| => at[inner[k]])
  }

  lemma ComposedPositions(at: seq<nat>, inner: seq<nat>)
    requires Decreasing(at) && Increasing(inner) && forall k | 0 <= k < |inner| :: inner[k] < |at|
    ensures Decreasing(Composed(at, inner))
    ensures forall j | j in inner :: at[j] in Composed(at, inner)
  {
    forall j | j in inner ensures at[j] in Composed(at, inner) {
      var k :| 0 <= k < |inner| && inner[k] == j;
      assert Composed(at, inner)[k] == at[j];
    }
  }
}
