/** The map phase as a history of emissions: every `MR_Emit` call is one
    atomic step, and the store after the phase is the fold of those steps.
    The lemmas relate the store to the history alone. */
module History {
  import opened Store

  /** One `MR_Emit(key, value)` call. */
  datatype Pair = Pair(key: Key, value: Value)

  function Reverse<T>(s: seq<T>): (r: seq<T>)
    ensures |r| == |s|
    ensures forall i :: 0 <= i < |s| ==> r[i] == s[|s| - 1 - i]
  {
    if |s| == 0 then [] else [s[|s| - 1]] + Reverse(s[..|s| - 1])
  }

  /** The store after emitting every pair of `es`, first to last. The map
      phase keeps the store's invariant. */
  function EmitAll(s: Store, route: Partitioner, es: seq<Pair>): (r: Store)
    requires RoutesInRange(route, |s.parts|)
    ensures |r.parts| == |s.parts|
    ensures Valid(s, route) ==> Valid(r, route)
    decreases |es|
  {
    if |es| == 0 then s
    else Emit(EmitAll(s, route, es[..|es| - 1]), route, es[|es| - 1].key, es[|es| - 1].value)
  }

  /** The values emitted under `k`, in emission order. */
  function Emitted(es: seq<Pair>, k: Key): seq<Value> {
    if |es| == 0 then []
    else Emitted(es[..|es| - 1], k) + (if es[|es| - 1].key == k then [es[|es| - 1].value] else [])
  }

  /** The position of the first emission of `k`; `|es|` if it was never emitted. */
  function FirstEmission(es: seq<Pair>, k: Key): (i: nat)
    ensures i <= |es|
    ensures forall j :: 0 <= j < i ==> es[j].key != k
    ensures i < |es| ==> es[i].key == k
  {
    if |es| == 0 then 0
    else if es[0].key == k then 0
    else 1 + FirstEmission(es[1..], k)
  }

  /** Appending an emission moves no key's first emission, and makes the
      appended key's first emission the last position if it is new. */
  lemma FirstEmissionAppend(es: seq<Pair>, e: Pair, k: Key)
    ensures FirstEmission(es + [e], k) ==
              if FirstEmission(es, k) < |es| then FirstEmission(es, k)
              else if e.key == k then |es| else |es| + 1
  {
    var es' := es + [e];
    var i, i' := FirstEmission(es, k), FirstEmission(es', k);
    if i < |es| {
      assert es'[i] == es[i];
    } else {
      assert forall j :: 0 <= j < |es| ==> es'[j] == es[j];
      if e.key == k { assert es'[|es|] == e; }
    }
  }

  /** One emission, seen from one key: its value list grows by the emitted
      value if the key is the emitted one, and is untouched otherwise. */
  lemma EmitOneKey(s: Store, route: Partitioner, e: Pair, k: Key)
    requires RoutesInRange(route, |s.parts|)
    ensures var pn := route(k, |s.parts|);
            ValuesOf(Emit(s, route, e.key, e.value).parts[pn], k) ==
              (if e.key == k then [e.value] else []) + ValuesOf(s.parts[pn], k)
  {
  }

  lemma ConcatAssoc<T>(a: seq<T>, b: seq<T>, c: seq<T>)
    ensures a + (b + c) == (a + b) + c
  {
  }

  lemma ReverseAppend<T>(a: seq<T>, x: T)
    ensures Reverse(a + [x]) == [x] + Reverse(a)
  {
    assert (a + [x])[..|a|] == a;
  }

  /** LIFO and no loss: after a run of emissions, a key's value list is the
      values emitted under it, most recent first, on top of what was there. */
  lemma {:induction false} EmitAllValues(s: Store, route: Partitioner, es: seq<Pair>, k: Key)
    requires RoutesInRange(route, |s.parts|)
    ensures var pn := route(k, |s.parts|);
            ValuesOf(EmitAll(s, route, es).parts[pn], k) == Reverse(Emitted(es, k)) + ValuesOf(s.parts[pn], k)
    decreases |es|
  {
    if |es| != 0 {
      var init, e := es[..|es| - 1], es[|es| - 1];
      var pn := route(k, |s.parts|);
      var before := EmitAll(s, route, init);
      var after := EmitAll(s, route, es);
      EmitAllValues(s, route, init, k);
      assert |before.parts| == |s.parts|;
      assert after == Emit(before, route, e.key, e.value);
      EmitOneKey(before, route, e, k);
      if e.key == k {
        assert Emitted(es, k) == Emitted(init, k) + [e.value];
        ReverseAppend(Emitted(init, k), e.value);
        ConcatAssoc([e.value], Reverse(Emitted(init, k)), ValuesOf(s.parts[pn], k));
        assert ValuesOf(after.parts[pn], k) == [e.value] + ValuesOf(before.parts[pn], k);
      } else {
        assert Emitted(es, k) == Emitted(init, k);
        assert ValuesOf(after.parts[pn], k) == ValuesOf(before.parts[pn], k);
      }
    }
  }

  /** How one emission changes one partition's keys: not at all if the key
      is routed elsewhere or already present, else by a new head. */
  ghost predicate KeyStep(p0: Partition, p: Partition, k: Key, routedHere: bool) {
    if !routedHere then p == p0
    else if IndexOf(p0, k).Some? then
      |p| == |p0| && forall i :: 0 <= i < |p| ==> p[i].key == p0[i].key
    else
      && |p| == |p0| + 1 && p[0].key == k
      && forall i :: 0 < i < |p| ==> p[i].key == p0[i - 1].key
  }

  lemma EmitKeysAt(s: Store, route: Partitioner, e: Pair, pn: nat)
    requires RoutesInRange(route, |s.parts|) && pn < |s.parts|
    ensures KeyStep(s.parts[pn], Emit(s, route, e.key, e.value).parts[pn], e.key,
                    route(e.key, |s.parts|) == pn)
  {
    var p0, p := s.parts[pn], Emit(s, route, e.key, e.value).parts[pn];
    if route(e.key, |s.parts|) == pn {
      assert |Keys(p)| == |p| && |Keys(p0)| == |p0|;
      assert forall i :: 0 <= i < |p| ==> p[i].key == Keys(p)[i];
      assert forall i :: 0 <= i < |p0| ==> p0[i].key == Keys(p0)[i];
    }
  }

  /** Partition `pn` holds an entry for exactly the emitted keys routed to it. */
  ghost predicate HoldsEmitted(p: Partition, es: seq<Pair>, route: Partitioner, n: nat, pn: nat)
    requires RoutesInRange(route, n)
  {
    forall k :: IndexOf(p, k).Some? <==> FirstEmission(es, k) < |es| && route(k, n) == pn
  }

  /** The entry list runs in reverse order of each key's first emission. */
  ghost predicate NewestFirst(p: Partition, es: seq<Pair>) {
    forall i, j :: 0 <= i < j < |p| ==> FirstEmission(es, p[i].key) > FirstEmission(es, p[j].key)
  }

  lemma HoldsEmittedStep(p0: Partition, p: Partition, init: seq<Pair>, e: Pair,
                         route: Partitioner, n: nat, pn: nat)
    requires RoutesInRange(route, n)
    requires HoldsEmitted(p0, init, route, n, pn)
    requires KeyStep(p0, p, e.key, route(e.key, n) == pn)
    ensures HoldsEmitted(p, init + [e], route, n, pn)
  {
    var here := route(e.key, n) == pn;
    forall k
      ensures IndexOf(p, k).Some? <==> FirstEmission(init + [e], k) < |init| + 1 && route(k, n) == pn
    {
      FirstEmissionAppend(init, e, k);
      if IndexOf(p, k).Some? {
        var i := IndexOf(p, k).value;
        if !(here && IndexOf(p0, e.key).None? && i == 0) {
          var i0 := if here && IndexOf(p0, e.key).None? then i - 1 else i;
          assert p0[i0].key == k;
        }
      }
      if IndexOf(p0, k).Some? {
        var i0 := IndexOf(p0, k).value;
        var i := if here && IndexOf(p0, e.key).None? then i0 + 1 else i0;
        assert p[i].key == k;
      }
      if k == e.key && here && IndexOf(p0, e.key).None? {
        assert p[0].key == k;
      }
    }
  }

  lemma NewestFirstStep(p0: Partition, p: Partition, init: seq<Pair>, e: Pair,
                        route: Partitioner, n: nat, pn: nat)
    requires RoutesInRange(route, n)
    requires HoldsEmitted(p0, init, route, n, pn) && NewestFirst(p0, init)
    requires KeyStep(p0, p, e.key, route(e.key, n) == pn)
    ensures NewestFirst(p, init + [e])
  {
    var here := route(e.key, n) == pn;
    forall i, j | 0 <= i < j < |p|
      ensures FirstEmission(init + [e], p[i].key) > FirstEmission(init + [e], p[j].key)
    {
      FirstEmissionAppend(init, e, p[i].key);
      FirstEmissionAppend(init, e, p[j].key);
      if here && IndexOf(p0, e.key).None? {
        assert IndexOf(p0, p0[j - 1].key).Some?;
        if i > 0 {
          assert IndexOf(p0, p0[i - 1].key).Some?;
        }
      } else {
        assert IndexOf(p0, p0[i].key).Some? && IndexOf(p0, p0[j].key).Some?;
      }
    }
  }

  /** Starting from empty partitions, partition `pn` holds an entry for exactly
      the emitted keys the partitioner sends to it, and its entry list runs in
      reverse order of each key's first emission: a new key is pushed at the
      head. This is the order in which the reduce phase visits the keys. */
  lemma {:induction false} EntryOrder(n: nat, route: Partitioner, es: seq<Pair>, pn: nat)
    requires RoutesInRange(route, n) && pn < n
    ensures var p := EmitAll(NewStore(n), route, es).parts[pn];
            && (forall k :: IndexOf(p, k).Some? <==> FirstEmission(es, k) < |es| && route(k, n) == pn)
            && (forall i, j :: 0 <= i < j < |p| ==> FirstEmission(es, p[i].key) > FirstEmission(es, p[j].key))
    decreases |es|
  {
    if |es| != 0 {
      var init, e := es[..|es| - 1], es[|es| - 1];
      assert es == init + [e];
      EntryOrder(n, route, init, pn);
      var s0 := EmitAll(NewStore(n), route, init);
      var p0, p := s0.parts[pn], EmitAll(NewStore(n), route, es).parts[pn];
      EmitKeysAt(s0, route, e, pn);
      HoldsEmittedStep(p0, p, init, e, route, n, pn);
      NewestFirstStep(p0, p, init, e, route, n, pn);
    }
  }
}
