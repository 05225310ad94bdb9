/** `MR_Run` without its threads: create the partitions, run the map phase
    as a sequence of emissions, run one draining reduce pass per partition,
    then clean up. Reduce passes on different partitions touch disjoint
    parts of the store, so running them one after another stands for running
    them in parallel. */
module Run {
  import HashPartition
  import opened Store
  import opened History
  import opened Reduce

  /** The default partitioner meets the routing requirement of the store
      whenever there is at least one partition. */
  lemma DefaultPartitionerRoutes(n: int)
    requires 0 < n
    ensures RoutesInRange(HashPartition.DefaultRoute, n)
  {
  }

  /** Some reducer call in `calls` is for key `k`. */
  ghost predicate Mentions(calls: seq<Entry>, k: Key) {
    exists i :: 0 <= i < |calls| && calls[i].key == k
  }

  lemma MentionsAppend(a: seq<Entry>, b: seq<Entry>, k: Key)
    ensures Mentions(a + b, k) <==> Mentions(a, k) || Mentions(b, k)
  {
    if Mentions(a + b, k) {
      var i :| 0 <= i < |a + b| && (a + b)[i].key == k;
      if i >= |a| { assert b[i - |a|].key == k; }
    }
    if Mentions(b, k) {
      var i :| 0 <= i < |b| && b[i].key == k;
      assert (a + b)[|a| + i].key == k;
    }
    if Mentions(a, k) {
      var i :| 0 <= i < |a| && a[i].key == k;
      assert (a + b)[i].key == k;
    }
  }

  lemma AppendNothing<T>(a: seq<T>)
    ensures a + [] == a
  {
  }

  /** After the map phase, partition `pn` holds one entry per emitted key
      routed to it, and each entry's values are that key's emissions, newest
      first. */
  lemma MappedPartition(n: nat, route: Partitioner, es: seq<Pair>, pn: nat)
    requires RoutesInRange(route, n) && pn < n
    ensures var p := EmitAll(NewStore(n), route, es).parts[pn];
            && UniqueKeys(p)
            && (forall j :: 0 <= j < |p| ==> route(p[j].key, n) == pn)
            && (forall j :: 0 <= j < |p| ==> p[j].values == Reverse(Emitted(es, p[j].key)))
            && (forall k :: Mentions(p, k) <==> FirstEmission(es, k) < |es| && route(k, n) == pn)
  {
    var s0 := NewStore(n);
    var s := EmitAll(s0, route, es);
    var p := s.parts[pn];
    assert Valid(s0, route);
    EntryOrder(n, route, es, pn);
    forall j | 0 <= j < |p|
      ensures p[j].values == Reverse(Emitted(es, p[j].key))
    {
      IndexOfUnique(p, j);
      EmitAllValues(s0, route, es, p[j].key);
      assert ValuesOf(s0.parts[pn], p[j].key) == [];
      AppendNothing(Reverse(Emitted(es, p[j].key)));
    }
    forall k
      ensures Mentions(p, k) <==> IndexOf(p, k).Some?
    {
      if Mentions(p, k) {
        var i :| 0 <= i < |p| && p[i].key == k;
      }
    }
  }

  /** What the reduce passes over partitions `0 .. pn - 1` have produced:
      one call per emitted key routed there, each seeing that key's values,
      newest first. */
  ghost predicate ReducedBelow(calls: seq<Entry>, es: seq<Pair>, route: Partitioner, n: nat, pn: nat)
    requires RoutesInRange(route, n)
  {
    && (forall i :: 0 <= i < |calls| ==> route(calls[i].key, n) < pn)
    && (forall k :: Mentions(calls, k) <==> FirstEmission(es, k) < |es| && route(k, n) < pn)
    && (forall i, j :: 0 <= i < j < |calls| ==> calls[i].key != calls[j].key)
    && (forall i :: 0 <= i < |calls| ==> calls[i].values == Reverse(Emitted(es, calls[i].key)))
  }

  /** One more reduce pass: the calls for partition `pn` are its entries. */
  lemma ReduceStep(n: nat, route: Partitioner, es: seq<Pair>, pn: nat, calls: seq<Entry>, more: seq<Entry>)
    requires RoutesInRange(route, n) && pn < n
    requires ReducedBelow(calls, es, route, n, pn)
    requires var p := EmitAll(NewStore(n), route, es).parts[pn];
             |more| == |p| && forall j :: 0 <= j < |more| ==> more[j] == p[j]
    ensures ReducedBelow(calls + more, es, route, n, pn + 1)
  {
    MappedPartition(n, route, es, pn);
    var p := EmitAll(NewStore(n), route, es).parts[pn];
    StepMentions(n, route, es, pn, calls, more, p);
    StepCalls(n, route, es, pn, calls, more, p);
  }

  lemma StepMentions(n: nat, route: Partitioner, es: seq<Pair>, pn: nat, calls: seq<Entry>,
                     more: seq<Entry>, p: Partition)
    requires RoutesInRange(route, n)
    requires forall k :: Mentions(calls, k) <==> FirstEmission(es, k) < |es| && route(k, n) < pn
    requires forall k :: Mentions(p, k) <==> FirstEmission(es, k) < |es| && route(k, n) == pn
    requires |more| == |p| && forall j :: 0 <= j < |more| ==> more[j].key == p[j].key
    ensures forall k :: Mentions(calls + more, k) <==> FirstEmission(es, k) < |es| && route(k, n) < pn + 1
  {
    forall k
      ensures Mentions(calls + more, k) <==> FirstEmission(es, k) < |es| && route(k, n) < pn + 1
    {
      MentionsAppend(calls, more, k);
    }
  }

  lemma StepCalls(n: nat, route: Partitioner, es: seq<Pair>, pn: nat, calls: seq<Entry>,
                  more: seq<Entry>, p: Partition)
    requires RoutesInRange(route, n)
    requires ReducedBelow(calls, es, route, n, pn)
    requires UniqueKeys(p)
    requires forall j :: 0 <= j < |p| ==> route(p[j].key, n) == pn
    requires forall j :: 0 <= j < |p| ==> p[j].values == Reverse(Emitted(es, p[j].key))
    requires |more| == |p| && forall j :: 0 <= j < |more| ==> more[j] == p[j]
    ensures var all := calls + more;
            && (forall i :: 0 <= i < |all| ==> route(all[i].key, n) < pn + 1)
            && (forall i, j :: 0 <= i < j < |all| ==> all[i].key != all[j].key)
            && (forall i :: 0 <= i < |all| ==> all[i].values == Reverse(Emitted(es, all[i].key)))
  {
    var all := calls + more;
    assert forall i :: |calls| <= i < |all| ==> all[i] == p[i - |calls|];
    assert forall i :: 0 <= i < |calls| ==> all[i] == calls[i];
  }

  /** The whole run: every emitted key gets exactly one reducer call, which
      sees every value emitted under that key, newest first; no other key is
      reduced; and the store is empty afterwards. */
  method Run(n: nat, route: Partitioner, es: seq<Pair>) returns (calls: seq<Entry>, final: Store)
    requires RoutesInRange(route, n)
    ensures forall k :: Mentions(calls, k) <==> FirstEmission(es, k) < |es|
    ensures forall i, j :: 0 <= i < j < |calls| ==> calls[i].key != calls[j].key
    ensures forall i :: 0 <= i < |calls| ==> calls[i].values == Reverse(Emitted(es, calls[i].key))
    ensures |final.parts| == n
    ensures forall pn :: 0 <= pn < n ==> final.parts[pn] == []
    ensures forall pn, k :: 0 <= pn < n ==> GetNext(final, k, pn).value.None?
  {
    var mapped := EmitAll(NewStore(n), route, es);
    var s := mapped;
    calls := [];
    var pn := 0;
    while pn < n
      invariant 0 <= pn <= n && |s.parts| == n
      invariant forall q :: pn <= q < n ==> s.parts[q] == mapped.parts[q]
      invariant ReducedBelow(calls, es, route, n, pn)
    {
      MappedPartition(n, route, es, pn);
      var more;
      s, more := ReducePartition(s, pn);
      ReduceStep(n, route, es, pn, calls, more);
      calls := calls + more;
      pn := pn + 1;
    }
    final := Cleanup(s);
  }
}
