/** The getter the reduce phase hands to each reducer, `get_next`, called
    repeatedly: what a run of calls returns and what it leaves behind. */
module Getter {
  import opened Wrappers
  import opened Store
  import opened History

  /** The store after a series of getter calls, and what each call returned. */
  datatype Trace = Trace(store: Store, results: seq<Option<Value>>)

  /** `m` successive calls of `get_next(k, pn)`. They leave the entry list,
      every other key and every other partition alone. */
  function CallGetNext(s: Store, k: Key, pn: nat, m: nat): (t: Trace)
    requires pn < |s.parts|
    ensures |t.store.parts| == |s.parts|
    ensures |t.results| == m
    ensures Keys(t.store.parts[pn]) == Keys(s.parts[pn])
    ensures forall k' :: k' != k ==> ValuesOf(t.store.parts[pn], k') == ValuesOf(s.parts[pn], k')
    ensures forall q :: 0 <= q < |s.parts| && q != pn ==> t.store.parts[q] == s.parts[q]
  {
    if m == 0 then Trace(s, [])
    else
      var t := CallGetNext(s, k, pn, m - 1);
      var r := GetNext(t.store, k, pn);
      Trace(r.store, t.results + [r.value])
  }

  /** `results[j]` is `vs[j]` while `vs` lasts, and NULL after it. */
  ghost predicate PopsInOrder<T>(results: seq<Option<T>>, vs: seq<T>) {
    forall j :: 0 <= j < |results| ==> results[j] == if j < |vs| then Some(vs[j]) else None
  }

  /** One more pop, on sequences of any element type. */
  lemma PopStep<T>(results: seq<Option<T>>, vs: seq<T>, cur: seq<T>, x: Option<T>, next: seq<T>)
    requires PopsInOrder(results, vs)
    requires cur == vs[if |results| < |vs| then |results| else |vs|..]
    requires cur == [] ==> x.None? && next == cur
    requires cur != [] ==> x == Some(cur[0]) && next == cur[1..]
    ensures PopsInOrder(results + [x], vs)
    ensures next == vs[if |results| + 1 < |vs| then |results| + 1 else |vs|..]
  {
  }

  /** Successive calls pop `k`'s value list from the head: call `j` returns
      its `j`-th value while any remain, and NULL from then on; the list keeps
      exactly the values not yet returned. */
  lemma {:induction false} CallsPopInOrder(s: Store, k: Key, pn: nat, m: nat)
    requires pn < |s.parts|
    ensures var vs, t := ValuesOf(s.parts[pn], k), CallGetNext(s, k, pn, m);
            && PopsInOrder(t.results, vs)
            && ValuesOf(t.store.parts[pn], k) == vs[if m < |vs| then m else |vs|..]
  {
    if m != 0 {
      CallsPopInOrder(s, k, pn, m - 1);
      var t := CallGetNext(s, k, pn, m - 1);
      var r := GetNext(t.store, k, pn);
      var vs, cur, next := ValuesOf(s.parts[pn], k), ValuesOf(t.store.parts[pn], k), ValuesOf(r.store.parts[pn], k);
      assert cur == [] ==> r.value.None? && next == cur;
      assert cur != [] ==> r.value == Some(cur[0]) && next == cur[1..];
      PopStep(t.results, vs, cur, r.value, next);
    }
  }

  /** The last value emitted is the first one the getter returns; popping it
      restores every key's values, and the very same store when the key
      already had an entry. */
  lemma EmitThenGetNext(s: Store, route: Partitioner, k: Key, v: Value)
    requires RoutesInRange(route, |s.parts|)
    ensures var pn := route(k, |s.parts|);
            var r := GetNext(Emit(s, route, k, v), k, pn);
            && r.value == Some(v)
            && (forall k' :: ValuesOf(r.store.parts[pn], k') == ValuesOf(s.parts[pn], k'))
            && (IndexOf(s.parts[pn], k).Some? ==> r.store == s)
  {
    var pn := route(k, |s.parts|);
    var s1 := Emit(s, route, k, v);
    var r := GetNext(s1, k, pn);
    assert ValuesOf(s1.parts[pn], k) == [v] + ValuesOf(s.parts[pn], k);
    assert ([v] + ValuesOf(s.parts[pn], k))[1..] == ValuesOf(s.parts[pn], k);
    if IndexOf(s.parts[pn], k).Some? {
      var p, p1, p2 := s.parts[pn], s1.parts[pn], r.store.parts[pn];
      IndexOfSameKeys(p1, p, k);
      IndexOfSameKeys(p2, p, k);
      var i := IndexOf(p, k).value;
      assert |p2| == |Keys(p2)| == |Keys(p)| == |p|;
      forall j | 0 <= j < |p|
        ensures p2[j] == p[j]
      {
        assert p2[j].key == Keys(p2)[j] == Keys(p)[j] == p[j].key;
        if j != i {
          IndexOfSameKeys(p2, p, p[j].key);
          assert IndexOf(p, p[j].key).Some?;
        }
      }
      assert p2 == p;
      assert r.store.parts == s.parts;
    }
  }

  /** Conservation, from an empty store: if `k` was emitted `|vs|` times, the
      first `|vs|` getter calls on its partition return those values, newest
      first, and every later call returns NULL. */
  lemma GetterReturnsEmitted(n: nat, route: Partitioner, es: seq<Pair>, k: Key, m: nat)
    requires RoutesInRange(route, n)
    ensures var s := EmitAll(NewStore(n), route, es);
            var t := CallGetNext(s, k, route(k, n), m);
            var vs := Emitted(es, k);
            forall j :: 0 <= j < m ==>
              t.results[j] == if j < |vs| then Some(vs[|vs| - 1 - j]) else None
  {
    var s := EmitAll(NewStore(n), route, es);
    var pn := route(k, n);
    EmitAllValues(NewStore(n), route, es, k);
    var vs := Emitted(es, k);
    assert ValuesOf(s.parts[pn], k) == Reverse(vs) by {
      assert ValuesOf(NewStore(n).parts[pn], k) == [];
      assert Reverse(vs) + [] == Reverse(vs);
    }
    CallsPopInOrder(s, k, pn, m);
    ReverseIndex(vs);
    assert PopsInOrder(CallGetNext(s, k, pn, m).results, Reverse(vs));
  }

  lemma {:induction false} ReverseIndex<T>(s: seq<T>)
    ensures forall i :: 0 <= i < |s| ==> Reverse(s)[i] == s[|s| - 1 - i]
    decreases |s|
  {
    if |s| != 0 {
      ReverseIndex(s[..|s| - 1]);
    }
  }
}
