/** The daemon's ring of client screens as a value: what each locked operation does to it, which
    screen the cycle key brings up, and what holds over whole runs.

    nodes[0] is the tail, which belongs to the daemon's own screen; the last node is the head. */
module ClientRing {
  import opened Options

  /** last holds each client's last_priority, fg the clients marked as chosen by the user, never
      those that asked not to be selectable. */
  datatype State<N> = State(nodes: seq<N>, current: N, last: map<N, Option<N>>, fg: set<N>, never: set<N>)

  /** The index d places back from k in a ring of n, where going back from 0 leads to n - 1. */
  function Behind(n: nat, k: nat, d: nat): (j: nat)
    requires k < n && d <= n
    ensures j < n
  {
    if d <= k then k - d else k - d + n
  }

  lemma BehindStep(n: nat, k: nat, w: nat)
    requires k < n && w < n
    ensures Behind(n, Behind(n, k, w), 1) == Behind(n, k, w + 1)
    ensures Behind(n, k, 0) == Behind(n, k, n) == k && (w > 0 ==> Behind(n, k, w) != k)
  {
  }

  lemma BehindEverywhere(n: nat, k: nat, j: nat) returns (e: nat)
    requires k < n && j < n
    ensures 0 < e <= n && Behind(n, k, e) == j
  {
    e := if j < k then k - j else k - j + n;
  }

  ghost predicate Distinct<N>(s: seq<N>) {
    forall i, j :: 0 <= i < j < |s| ==> s[i] != s[j]
  }

  lemma DistinctFrom<N>(s: seq<N>, k: nat)
    requires Distinct(s) && k < |s|
    ensures forall j {:trigger s[j]} :: 0 <= j < |s| && j != k ==> s[j] != s[k]
  {
    forall j | 0 <= j < |s| && j != k ensures s[j] != s[k] {
      if j < k {
        assert s[j] != s[k];
      } else {
        assert s[k] != s[j];
      }
    }
  }

  ghost predicate Ring<N>(s: State<N>) {
    && |s.nodes| >= 1
    && Distinct(s.nodes)
    && s.current in s.nodes
    && s.last.Keys == (set n | n in s.nodes)
    && s.fg <= s.last.Keys && s.never <= s.last.Keys
    && (forall a, b :: a in s.fg && b in s.fg ==> a == b)
  }

  ghost function IndexOf<N>(nodes: seq<N>, n: N): (k: nat)
    requires n in nodes
    ensures k < |nodes| && nodes[k] == n
  {
    var k :| 0 <= k < |nodes| && nodes[k] == n;
    k
  }

  /** May the cycle key stop at node j? Not where the client refused, nor at the tail while there
      are clients. */
  ghost predicate Selectable<N>(s: State<N>, j: nat)
    requires j < |s.nodes|
  {
    s.nodes[j] !in s.never && (|s.nodes| == 1 || j != 0)
  }

  ghost predicate SomeSelectable<N>(s: State<N>) {
    exists j :: 0 <= j < |s.nodes| && Selectable(s, j)
  }

  /** One press of the cycle key from index k: the first selectable node going backwards. */
  ghost predicate FirstBehind<N>(s: State<N>, k: nat, d: nat)
    requires k < |s.nodes|
  {
    && 1 <= d <= |s.nodes|
    && Selectable(s, Behind(|s.nodes|, k, d))
    && forall e :: 0 < e < d ==> !Selectable(s, Behind(|s.nodes|, k, e))
  }

  ghost predicate Cycled<N>(s: State<N>, s': State<N>) {
    exists k, d :: 0 <= k < |s.nodes| && s.nodes[k] == s.current && FirstBehind(s, k, d)
                   && s' == Shown(s, s.nodes[Behind(|s.nodes|, k, d)])
  }

  /** The screen n brought to the front by the user. */
  ghost function Shown<N>(s: State<N>, n: N): State<N> {
    s.(current := n, last := s.last[n := Some(n)], fg := {n})
  }

  /** The list as ll_lcdlist_init leaves it. */
  ghost function Alone<N>(tail: N): State<N> {
    State([tail], tail, map[tail := None], {}, {})
  }

  ghost function Added<N>(s: State<N>, n: N): State<N> {
    s.(nodes := s.nodes + [n], current := n, last := s.last[n := None])
  }

  ghost function WithoutIndex<N>(nodes: seq<N>, k: nat): seq<N>
    requires k < |nodes|
  {
    nodes[..k] + nodes[k + 1..]
  }

  ghost function Removed<N>(s: State<N>, k: nat): State<N>
    requires 0 < k < |s.nodes|
  {
    var n := s.nodes[k];
    State(WithoutIndex(s.nodes, k),
          if s.current != n then s.current
          else if k < |s.nodes| - 1 then s.nodes[k + 1] else s.nodes[k - 1],
          s.last - {n}, s.fg - {n}, s.never - {n})
  }

  /** The node before k, as its prev link gives it: the tail is its own predecessor. */
  ghost function PrevOf<N>(nodes: seq<N>, k: nat): N
    requires k < |nodes|
  {
    if k == 0 then nodes[0] else nodes[k - 1]
  }

  /** A client asking for priority: to the front if it is not there, else back to where it came
      from, or to its predecessor. */
  ghost function Requested<N>(s: State<N>, k: nat): State<N>
    requires k < |s.nodes| && s.nodes[k] in s.last
  {
    var n := s.nodes[k];
    if s.current != n then s.(current := n, last := s.last[n := Some(s.current)])
    else if s.last[n] == Some(n) || s.last[n] == None then s.(current := PrevOf(s.nodes, k))
    else s.(current := s.last[n].value, last := s.last[n := None])
  }

  /** The remembered screen a request would return to is still in the list. */
  ghost predicate LivePriority<N>(s: State<N>, k: nat)
    requires k < |s.nodes| && s.nodes[k] in s.last
  {
    var n := s.nodes[k];
    s.current == n && s.last[n].Some? ==> s.last[n].value in s.nodes
  }

  datatype Op<N> = Add(n: N) | Remove(n: N) | Cycle | RequestPriority(n: N) | NeverSelect(n: N)

  ghost predicate Step<N>(s: State<N>, op: Op<N>, s': State<N>)
  {
    match op
    case Add(n) => n !in s.nodes && s' == Added(s, n)
    case Remove(n) => n in s.nodes && s' == if n == s.nodes[0] then s else Removed(s, IndexOf(s.nodes, n))
    case Cycle => Cycled(s, s')
    case RequestPriority(n) => n in s.nodes && n in s.last && s' == Requested(s, IndexOf(s.nodes, n))
    case NeverSelect(n) => n in s.nodes && s' == s.(never := s.never + {n})
  }

  lemma AddedShape<N>(s: State<N>, n: N)
    ensures Added(s, n).nodes == s.nodes + [n] && Added(s, n).current == n
  {
  }

  lemma ShownShape<N>(s: State<N>, n: N)
    ensures Shown(s, n).nodes == s.nodes && Shown(s, n).current == n
  {
  }

  lemma RemovedShape<N>(s: State<N>, k: nat)
    requires 0 < k < |s.nodes| && Distinct(s.nodes)
    ensures var r := Removed(s, k);
            && r.nodes == WithoutIndex(s.nodes, k) && |r.nodes| == |s.nodes| - 1
            && (forall i {:trigger r.nodes[i]} :: 0 <= i < |r.nodes| ==>
                  r.nodes[i] == if i < k then s.nodes[i] else s.nodes[i + 1])
            && (forall n :: n in r.nodes ==> n in s.nodes && n != s.nodes[k])
            && r.current == if s.current != s.nodes[k] then s.current
                            else if k < |s.nodes| - 1 then s.nodes[k + 1] else s.nodes[k - 1]
  {
  }

  lemma OnlyMembers<N>(s: State<N>, n: N)
    requires Ring(s) && n !in s.nodes
    ensures n !in s.last && n !in s.fg && n !in s.never
  {
    assert n !in s.last.Keys;
  }

  /** Going once round from k meets every node, so it meets a selectable one if there is any. */
  lemma SomewhereBehind<N>(s: State<N>, k: nat)
    requires k < |s.nodes| && SomeSelectable(s)
    ensures exists e :: 0 < e <= |s.nodes| && Selectable(s, Behind(|s.nodes|, k, e))
  {
    var j: nat :| j < |s.nodes| && Selectable(s, j);
    var e := if j < k then k - j else k - j + |s.nodes|;
    assert Behind(|s.nodes|, k, e) == j;
  }

  /** Going backwards from k there is a place to stop exactly when some node is selectable. */
  lemma StopsExactly<N>(s: State<N>, k: nat)
    requires k < |s.nodes|
    ensures (exists d :: FirstBehind(s, k, d)) <==> SomeSelectable(s)
  {
    hide Selectable, Behind;
    if SomeSelectable(s) {
      SomewhereBehind(s, k);
      var e :| 0 < e <= |s.nodes| && Selectable(s, Behind(|s.nodes|, k, e));
      FirstOne(s, k, e);
    }
  }

  lemma {:induction false} FirstOne<N>(s: State<N>, k: nat, e: nat)
    requires k < |s.nodes| && 0 < e <= |s.nodes| && Selectable(s, Behind(|s.nodes|, k, e))
    ensures exists d :: FirstBehind(s, k, d)
  {
    hide Selectable, Behind;
    if exists f :: 0 < f < e && Selectable(s, Behind(|s.nodes|, k, f)) {
      var f :| 0 < f < e && Selectable(s, Behind(|s.nodes|, k, f));
      FirstOne(s, k, f);
    } else {
      assert FirstBehind(s, k, e);
    }
  }

  /** A run to a state without a place to stop: the only client connects and asks never to be
      selected. */
  lemma NowhereToStop<N>(tail: N, a: N)
    requires tail != a
    ensures var s0 := Alone(tail);
            var s1 := Added(s0, a);
            var s2 := s1.(never := s1.never + {a});
            && Step(s0, Add(a), s1) && Step(s1, NeverSelect(a), s2) && Ring(s2)
            && !SomeSelectable(s2) && forall s' :: !Cycled(s2, s')
  {
    AloneIsRing(tail);
    AddedKeepsRing(Alone(tail), a);
  }

  lemma Apart<N>(s: State<N>, k: nat)
    requires Ring(s) && k < |s.nodes|
    ensures forall i :: 0 <= i < |s.nodes| && i != k ==> s.nodes[i] != s.nodes[k]
  {
  }

  lemma RingFacts<N>(s: State<N>)
    requires Ring(s)
    ensures |s.nodes| >= 1 && Distinct(s.nodes) && s.current in s.nodes
    ensures forall n :: n in s.nodes ==> n in s.last
  {
    forall n | n in s.nodes ensures n in s.last {
      assert n in s.last.Keys;
    }
  }

  lemma CycledTo<N>(s: State<N>, k: nat, d: nat)
    requires k < |s.nodes| && s.nodes[k] == s.current && FirstBehind(s, k, d)
    ensures Cycled(s, Shown(s, s.nodes[Behind(|s.nodes|, k, d)]))
  {
  }

  lemma RemovedKeepsRing<N>(s: State<N>, k: nat)
    requires Ring(s) && 0 < k < |s.nodes|
    ensures Ring(Removed(s, k)) && Removed(s, k).nodes[0] == s.nodes[0]
  {
    var r := Removed(s, k);
    forall n ensures n in r.nodes <==> n in s.nodes && n != s.nodes[k] {
      if n in s.nodes && n != s.nodes[k] {
        var i :| 0 <= i < |s.nodes| && s.nodes[i] == n;
        assert n == if i < k then r.nodes[i] else r.nodes[i - 1];
      }
    }
    assert r.last.Keys == (set n | n in r.nodes);
  }

  lemma AddedKeepsRing<N>(s: State<N>, n: N)
    requires Ring(s) && n !in s.nodes
    ensures Ring(Added(s, n))
  {
    assert (set m | m in s.nodes + [n]) == (set m | m in s.nodes) + {n};
  }

  /** A priority request keeps the foreground inside the list exactly when the remembered screen
      it may return to has not been removed. */
  lemma RequestKeepsRingExactly<N>(s: State<N>, k: nat)
    requires Ring(s) && k < |s.nodes|
    ensures Ring(Requested(s, k)) <==> LivePriority(s, k)
  {
    assert s.nodes[k] in s.last.Keys;
    assert PrevOf(s.nodes, k) in s.nodes;
  }

  lemma CycledKeepsRing<N>(s: State<N>, s': State<N>)
    requires Ring(s) && Cycled(s, s')
    ensures Ring(s') && s'.nodes == s.nodes && s'.fg == {s'.current} && s'.never == s.never
  {
  }

  lemma StepKeepsRing<N>(s: State<N>, op: Op<N>, s': State<N>)
    requires Ring(s) && Step(s, op, s')
    requires op.RequestPriority? ==> LivePriority(s, IndexOf(s.nodes, op.n))
    ensures Ring(s') && s'.nodes[0] == s.nodes[0]
  {
    match op
    case Add(n) => AddedKeepsRing(s, n);
    case Remove(n) =>
      if n != s.nodes[0] {
        RemovedKeepsRing(s, IndexOf(s.nodes, n));
      }
    case Cycle => CycledKeepsRing(s, s');
    case RequestPriority(n) => RequestKeepsRingExactly(s, IndexOf(s.nodes, n));
    case NeverSelect(n) =>
  }

  /** A run of the daemon in which nobody asks to return to a screen that has gone. */
  ghost predicate Run<N>(states: seq<State<N>>, ops: seq<Op<N>>) {
    && |states| == |ops| + 1
    && Ring(states[0])
    && forall i :: 0 <= i < |ops| ==> RunStep(states[i], ops[i], states[i + 1])
  }

  ghost predicate RunStep<N>(s: State<N>, op: Op<N>, s': State<N>) {
    && Step(s, op, s')
    && (op.RequestPriority? ==> LivePriority(s, IndexOf(s.nodes, op.n)))
  }

  /** Every state of every run is a ring with the same tail, its current screen in the list, and
      at most one screen marked as chosen by the user. */
  lemma {:induction false} RunKeepsRing<N>(states: seq<State<N>>, ops: seq<Op<N>>, i: nat)
    requires Run(states, ops) && i < |states|
    ensures Ring(states[i]) && states[i].nodes[0] == states[0].nodes[0]
  {
    if i > 0 {
      RunKeepsRing(states, ops, i - 1);
      assert RunStep(states[i - 1], ops[i - 1], states[i]);
      StepKeepsRing(states[i - 1], ops[i - 1], states[i]);
    }
  }

  /** Without the guard a run can lose the ring: a asks for priority over b, b is removed, and a's
      next request brings the removed b to the front. */
  lemma StalePriority<N>(tail: N, a: N, b: N)
    requires tail != a && tail != b && a != b
    ensures var s0 := Alone(tail);
            var s1 := Added(Added(s0, a), b);
            var s2 := Requested(s1, 1);
            var s3 := Removed(s2, 2);
            && Step(s0, Add(a), Added(s0, a)) && Step(Added(s0, a), Add(b), s1)
            && Ring(s0) && Ring(s1) && Ring(s2) && Ring(s3)
            && Requested(s3, 1).current == b && b !in s3.nodes && !Ring(Requested(s3, 1))
  {
    hide Ring;
    var s0 := Alone(tail);
    AloneIsRing(tail);
    var s1 := Added(Added(s0, a), b);
    AddedKeepsRing(s0, a);
    AddedKeepsRing(Added(s0, a), b);
    assert s1.nodes == [tail, a, b];
    RequestKeepsRingExactly(s1, 1);
    var s2 := Requested(s1, 1);
    RemovedKeepsRing(s2, 2);
    var s3 := Removed(s2, 2);
    assert s3.nodes == [tail, a];
    RequestKeepsRingExactly(s3, 1);
  }

  lemma AloneIsRing<N>(tail: N)
    ensures Ring(Alone(tail))
  {
    assert (set n | n in [tail]) == {tail};
  }

  // ---- the steps, from the list alone ----

  /** A client that connects joins at the head and is in front, remembering nothing; one that leaves
      closes the gap, and if it was in front gives way to the next one up, or to the one below when
      it was the head. */
  lemma AddAndRemove<N>(s: State<N>, s': State<N>, n: N, k: nat)
    requires Ring(s)
    ensures Step(s, Add(n), s') ==> s' == State(s.nodes + [n], n, s.last[n := None], s.fg, s.never)
    ensures 0 < k < |s.nodes| && s.nodes[k] == n && Step(s, Remove(n), s') ==>
              && s'.nodes == s.nodes[..k] + s.nodes[k + 1..]
              && s'.current == (if s.current != n then s.current
                                else if k + 1 < |s.nodes| then s.nodes[k + 1] else s.nodes[k - 1])
              && s'.last == s.last - {n} && s'.fg == s.fg - {n} && s'.never == s.never - {n}
    ensures n == s.nodes[0] && Step(s, Remove(n), s') ==> s' == s
  {
    if 0 < k < |s.nodes| && s.nodes[k] == n {
      DistinctFrom(s.nodes, k);
      assert IndexOf(s.nodes, n) == k;
    }
  }

  /** The cycle key goes backwards: to the selectable client nearest before the current one, and only
      if there is none before it to the one nearest the head. The tail counts only while it is alone. */
  lemma CycleGoesBack<N>(s: State<N>, s': State<N>, k: nat, j: nat)
    requires Ring(s) && Step(s, Cycle, s') && k < |s.nodes| && s.nodes[k] == s.current
    requires j < |s.nodes| && s.nodes[j] !in s.never && (j > 0 || |s.nodes| == 1)
    ensures exists i :: 0 <= i < |s.nodes| && s'.current == s.nodes[i] && s.nodes[i] !in s.never
              && (i > 0 || |s.nodes| == 1)
              && (j < k ==> j <= i < k)
              && (j >= k ==> i < k || j <= i)
    ensures s'.nodes == s.nodes && s'.never == s.never && s'.fg == {s'.current}
    ensures s'.last == s.last[s'.current := Some(s'.current)]
  {
    hide Ring;
    RingFacts(s);
    var k': nat, d: nat :| k' < |s.nodes| && s.nodes[k'] == s.current && FirstBehind(s, k', d)
                           && s' == Shown(s, s.nodes[Behind(|s.nodes|, k', d)]);
    DistinctFrom(s.nodes, k);
    assert k' == k;
    var n, i := |s.nodes|, Behind(|s.nodes|, k, d);
    var e := if j < k then k - j else k - j + n;
    assert Behind(n, k, e) == j && Selectable(s, j);
    assert d <= e;
  }

  /** What a request for priority does, by who is in front and what the client remembers. In front
      with nothing remembered, or itself, it gives way to the client before it in the list; the
      daemon's own screen stays. */
  lemma RequestExact<N>(s: State<N>, s': State<N>, k: nat)
    requires Ring(s) && k < |s.nodes| && Step(s, RequestPriority(s.nodes[k]), s')
    ensures var n := s.nodes[k];
            n in s.last
            && if s.current != n then s' == s.(current := n, last := s.last[n := Some(s.current)])
               else if s.last[n] == None || s.last[n] == Some(n) then
                 s' == s.(current := if k > 0 then s.nodes[k - 1] else n)
               else s' == s.(current := s.last[n].value, last := s.last[n := None])
  {
    DistinctFrom(s.nodes, k);
    assert IndexOf(s.nodes, s.nodes[k]) == k;
  }

  /** So a client that asks right after it has connected shows the one that connected before it ... */
  lemma ConnectThenRequest<N>(s: State<N>, n: N, t: State<N>, u: State<N>)
    requires Ring(s) && Step(s, Add(n), t) && Step(t, RequestPriority(n), u)
    ensures u.current == s.nodes[|s.nodes| - 1] && u.last == t.last && u.nodes == t.nodes
  {
    AddedKeepsRing(s, n);
    RequestExact(t, u, |s.nodes|);
  }

  /** ... and one that asks right after the cycle key has come to it shows the one before it. */
  lemma CycleThenRequest<N>(s: State<N>, t: State<N>, u: State<N>, k: nat)
    requires Ring(s) && Step(s, Cycle, t) && k < |t.nodes| && t.current == t.nodes[k]
    requires Step(t, RequestPriority(t.current), u)
    ensures u == t.(current := if k > 0 then t.nodes[k - 1] else t.nodes[0])
  {
    hide Ring;
    CycledKeepsRing(s, t);
    ShownRemembers(s, t);
    RequestExact(t, u, k);
  }

  lemma ShownRemembers<N>(s: State<N>, t: State<N>)
    requires Cycled(s, t)
    ensures t.current in t.last && t.last[t.current] == Some(t.current)
  {
  }

  /** Two requests in a row by a background client put back the screen that was in front. */
  lemma TwoRequestsRestore<N>(s: State<N>, k: nat)
    requires Ring(s) && k < |s.nodes| && s.nodes[k] != s.current
    ensures var twice := Requested(Requested(s, k), k);
            twice == s.(last := s.last[s.nodes[k] := None]) && Ring(twice)
  {
    assert s.nodes[k] in s.last.Keys;
    RequestKeepsRingExactly(s, k);
    RequestKeepsRingExactly(Requested(s, k), k);
  }

  /** How many of the first d nodes behind k are selectable. */
  ghost function Count<N>(s: State<N>, k: nat, d: nat): (c: nat)
    requires k < |s.nodes| && d <= |s.nodes|
    ensures c <= d
  {
    if d == 0 then 0
    else Count(s, k, d - 1) + if Selectable(s, Behind(|s.nodes|, k, d)) then 1 else 0
  }

  lemma {:induction false} CountMonotone<N>(s: State<N>, k: nat, d: nat, e: nat)
    requires k < |s.nodes| && d <= e <= |s.nodes|
    ensures Count(s, k, d) <= Count(s, k, e)
    ensures d < e && Selectable(s, Behind(|s.nodes|, k, e)) ==> Count(s, k, d) < Count(s, k, e)
  {
    if d < e {
      CountMonotone(s, k, d, e - 1);
    }
  }

  lemma {:induction false} CountFlat<N>(s: State<N>, k: nat, d: nat, e: nat)
    requires k < |s.nodes| && d <= e <= |s.nodes|
    requires forall f :: d < f <= e ==> !Selectable(s, Behind(|s.nodes|, k, f))
    ensures Count(s, k, e) == Count(s, k, d)
  {
    if d < e {
      CountFlat(s, k, d, e - 1);
    }
  }

  ghost function SelectableSet<N>(s: State<N>): set<nat> {
    set j: nat | j < |s.nodes| && Selectable(s, j)
  }

  /** The places of the selectable ones among the first d behind k. */
  ghost function Places<N>(s: State<N>, k: nat, d: nat): set<nat>
    requires k < |s.nodes| && d <= |s.nodes|
  {
    if d == 0 then {}
    else
      var j := Behind(|s.nodes|, k, d);
      Places(s, k, d - 1) + if Selectable(s, j) then {j} else {}
  }

  /** Places holds only places less than d behind, so not the next one. */
  lemma {:induction false} PlacesBehind<N>(s: State<N>, k: nat, d: nat, j: nat)
    requires k < |s.nodes| && d <= |s.nodes|
    ensures j in Places(s, k, d)
       <==> j < |s.nodes| && Selectable(s, j) && 1 <= (if j < k then k - j else k - j + |s.nodes|) <= d
  {
    hide Selectable;
    if d > 0 {
      PlacesBehind(s, k, d - 1, j);
      if j < |s.nodes| {
        BehindIs(|s.nodes|, k, d, j);
      }
    }
  }

  lemma BehindIs(n: nat, k: nat, d: nat, j: nat)
    requires k < n && 1 <= d <= n && j < n
    ensures j == Behind(n, k, d) <==> d == if j < k then k - j else k - j + n
  {
  }

  lemma OneMore(places: set<nat>, j: nat)
    ensures j !in places ==> |places + {j}| == |places| + 1
    ensures places + {} == places
  {
  }

  lemma CountNext<N>(s: State<N>, k: nat, d: nat)
    requires k < |s.nodes| && d <= |s.nodes|
    ensures Count(s, k, 0) == 0 && Places(s, k, 0) == {}
    ensures d > 0 ==>
      var j := Behind(|s.nodes|, k, d);
      && Count(s, k, d) == Count(s, k, d - 1) + (if Selectable(s, j) then 1 else 0)
      && Places(s, k, d) == Places(s, k, d - 1) + if Selectable(s, j) then {j} else {}
  {
    hide Selectable, Behind;
  }

  lemma {:induction false} CountIsSize<N>(s: State<N>, k: nat, d: nat)
    requires k < |s.nodes| && d <= |s.nodes|
    ensures Count(s, k, d) == |Places(s, k, d)|
  {
    hide Selectable, Behind, Count, Places;
    CountNext(s, k, d);
    if d > 0 {
      var j := Behind(|s.nodes|, k, d);
      CountIsSize(s, k, d - 1);
      PlacesBehind(s, k, d - 1, j);
      BehindIs(|s.nodes|, k, d, j);
      OneMore(Places(s, k, d - 1), j);
    }
  }

  lemma CountAll<N>(s: State<N>, k: nat)
    requires k < |s.nodes|
    ensures Count(s, k, |s.nodes|) == |SelectableSet(s)|
  {
    hide Selectable, Count, Places;
    CountIsSize(s, k, |s.nodes|);
    forall j: nat ensures j in SelectableSet(s) <==> j in Places(s, k, |s.nodes|) {
      PlacesBehind(s, k, |s.nodes|, j);
    }
    assert Places(s, k, |s.nodes|) == SelectableSet(s);
  }

  /** Successive presses of the cycle key. */
  ghost predicate Rotation<N>(states: seq<State<N>>) {
    && |states| >= 1 && Ring(states[0])
    && forall i :: 0 <= i < |states| - 1 ==> Cycled(states[i], states[i + 1])
  }

  /** One press, seen from the start k of a rotation: from distance d on to the next selectable one. */
  lemma TurnOnce<N>(s: State<N>, t: State<N>, t': State<N>, k: nat, d: nat) returns (e: nat)
    requires Ring(t) && t.nodes == s.nodes && t.never == s.never && Cycled(t, t')
    requires k < |s.nodes| && d < |s.nodes| && Selectable(s, k)
    requires t.current == s.nodes[Behind(|s.nodes|, k, d)]
    ensures d < e <= |s.nodes| && Selectable(s, Behind(|s.nodes|, k, e))
    ensures t'.current == s.nodes[Behind(|s.nodes|, k, e)]
    ensures forall f :: d < f < e ==> !Selectable(s, Behind(|s.nodes|, k, f))
  {
    var n := |s.nodes|;
    var k': nat, step: nat :| k' < n && t.nodes[k'] == t.current && FirstBehind(t, k', step)
                              && t' == Shown(t, t.nodes[Behind(n, k', step)]);
    assert k' == Behind(n, k, d);
    assert Behind(n, k', n - d) == k && Selectable(t, k);
    assert step <= n - d;
    e := d + step;
    assert Behind(n, k', step) == Behind(n, k, e);
    forall f | d < f < e ensures !Selectable(s, Behind(n, k, f)) {
      assert Behind(n, k', f - d) == Behind(n, k, f);
      assert !Selectable(t, Behind(n, k', f - d));
    }
  }

  /** After i presses the ring has turned past exactly i selectable screens. */
  lemma {:induction false} RotationDistance<N>(states: seq<State<N>>, k: nat, i: nat) returns (d: nat)
    requires Rotation(states) && i < |states|
    requires k < |states[0].nodes| && states[0].nodes[k] == states[0].current && Selectable(states[0], k)
    requires i <= |SelectableSet(states[0])|
    ensures d <= |states[0].nodes| && Count(states[0], k, d) == i
    ensures d == 0 || Selectable(states[0], Behind(|states[0].nodes|, k, d))
    ensures Ring(states[i]) && states[i].nodes == states[0].nodes && states[i].never == states[0].never
    ensures states[i].current == states[0].nodes[Behind(|states[0].nodes|, k, d)]
  {
    hide Cycled, Ring, Selectable;
    var s := states[0];
    if i == 0 {
      d := 0;
    } else {
      var d0 := RotationDistance(states, k, i - 1);
      CountAll(s, k);
      assert Cycled(states[i - 1], states[i]);
      CycledKeepsRing(states[i - 1], states[i]);
      d := TurnOnce(s, states[i - 1], states[i], k, d0);
      CountFlat(s, k, d0, d - 1);
    }
  }

  /** Starting from a selectable screen, as many presses as there are selectable screens show each
      of them exactly once and come back to the first. */
  lemma FullRotation<N>(states: seq<State<N>>, k: nat)
    requires Rotation(states) && k < |states[0].nodes| && states[0].nodes[k] == states[0].current
    requires Selectable(states[0], k) && |states| == |SelectableSet(states[0])| + 1
    ensures states[|states| - 1].current == states[0].current
    ensures forall j: nat :: j in SelectableSet(states[0]) ==>
                  exists i :: 0 < i < |states| && states[i].current == states[0].nodes[j]
    ensures forall i, j :: 0 < i < j < |states| ==> states[i].current != states[j].current
  {
    var s := states[0];
    var n := |s.nodes|;
    var turns := |SelectableSet(s)|;
    CountAll(s, k);
    var last := RotationDistance(states, k, turns);
    CountMonotone(s, k, last, n);
    assert last == n;
    forall j: nat | j in SelectableSet(s) ensures exists i :: 0 < i < |states| && states[i].current == s.nodes[j] {
      var e := if j < k then k - j else k - j + n;
      assert Behind(n, k, e) == j;
      var i := Count(s, k, e);
      CountMonotone(s, k, 0, e);
      CountMonotone(s, k, e, n);
      var d := RotationDistance(states, k, i);
      SameCount(s, k, d, e);
      assert states[i].current == s.nodes[j];
    }
    forall i, j | 0 < i < j < |states| ensures states[i].current != states[j].current {
      var di := RotationDistance(states, k, i);
      var dj := RotationDistance(states, k, j);
      BehindInjective(n, k, di, dj);
    }
  }

  lemma SameCount<N>(s: State<N>, k: nat, d: nat, e: nat)
    requires k < |s.nodes| && 0 < d <= |s.nodes| && 0 < e <= |s.nodes| && Count(s, k, d) == Count(s, k, e)
    requires Selectable(s, Behind(|s.nodes|, k, d)) && Selectable(s, Behind(|s.nodes|, k, e))
    ensures d == e
  {
    if d < e {
      CountMonotone(s, k, d, e);
    } else if e < d {
      CountMonotone(s, k, e, d);
    }
  }

  lemma BehindInjective(n: nat, k: nat, d: nat, e: nat)
    requires k < n && 0 < d <= n && 0 < e <= n && d != e
    ensures Behind(n, k, d) != Behind(n, k, e)
  {
  }
}
