/** The reduce phase on one partition: `reduce_` walks the entry list and
    calls the reducer once per entry, and the reducer drains its key through
    the getter until it returns NULL. */
module Reduce {
  import opened Store

  lemma MoveHead<T>(done: seq<T>, cur: seq<T>, whole: seq<T>)
    requires done + cur == whole && cur != []
    ensures (done + [cur[0]]) + cur[1..] == whole
  {
    assert (done + [cur[0]]) + cur[1..] == done + cur;
  }

  lemma NothingLeft<T>(done: seq<T>, cur: seq<T>, whole: seq<T>)
    requires done + cur == whole && cur == []
    ensures done == whole
  {
    assert done + cur == done;
  }

  /** A reducer's drain loop, `while ((v = get_next(k, pn)) != NULL)`: the
      values it receives are exactly `k`'s value list, head first, and the
      list is left empty; nothing else in the store changes. */
  method DrainKey(s: Store, k: Key, pn: nat) returns (out: Store, drained: seq<Value>)
    requires pn < |s.parts|
    ensures drained == ValuesOf(s.parts[pn], k)
    ensures |out.parts| == |s.parts|
    ensures ValuesOf(out.parts[pn], k) == []
    ensures Keys(out.parts[pn]) == Keys(s.parts[pn])
    ensures forall k' :: k' != k ==> ValuesOf(out.parts[pn], k') == ValuesOf(s.parts[pn], k')
    ensures forall q :: 0 <= q < |s.parts| && q != pn ==> out.parts[q] == s.parts[q]
  {
    out := s;
    drained := [];
    var r := GetNext(out, k, pn);
    while r.value.Some?
      invariant |out.parts| == |s.parts|
      invariant r == GetNext(out, k, pn)
      invariant drained + ValuesOf(out.parts[pn], k) == ValuesOf(s.parts[pn], k)
      invariant Keys(out.parts[pn]) == Keys(s.parts[pn])
      invariant forall k' :: k' != k ==> ValuesOf(out.parts[pn], k') == ValuesOf(s.parts[pn], k')
      invariant forall q :: 0 <= q < |s.parts| && q != pn ==> out.parts[q] == s.parts[q]
      decreases |ValuesOf(out.parts[pn], k)|
    {
      MoveHead(drained, ValuesOf(out.parts[pn], k), ValuesOf(s.parts[pn], k));
      drained := drained + [r.value.value];
      out := r.store;
      r := GetNext(out, k, pn);
    }
    NothingLeft(drained, ValuesOf(out.parts[pn], k), ValuesOf(s.parts[pn], k));
  }

  /** `reduce_` with draining reducers: one reducer call per entry, in entry
      list order, each seeing its entry's key and the values the getter hands
      it. Under the store's invariant the calls see exactly the entries, and
      every key of the partition ends up with no values. */
  method ReducePartition(s: Store, pn: nat) returns (out: Store, calls: seq<Entry>)
    requires pn < |s.parts|
    ensures |out.parts| == |s.parts|
    ensures forall q :: 0 <= q < |s.parts| && q != pn ==> out.parts[q] == s.parts[q]
    ensures Keys(out.parts[pn]) == Keys(s.parts[pn])
    ensures |calls| == |s.parts[pn]|
    ensures forall j :: 0 <= j < |calls| ==> calls[j].key == s.parts[pn][j].key
    ensures UniqueKeys(s.parts[pn]) ==> forall j :: 0 <= j < |calls| ==> calls[j] == s.parts[pn][j]
    ensures UniqueKeys(s.parts[pn]) ==> forall k :: ValuesOf(out.parts[pn], k) == []
  {
    var p := s.parts[pn];
    out := s;
    calls := [];
    var i := 0;
    while i < |out.parts[pn]|
      invariant |out.parts| == |s.parts|
      invariant forall q :: 0 <= q < |s.parts| && q != pn ==> out.parts[q] == s.parts[q]
      invariant Keys(out.parts[pn]) == Keys(p)
      invariant 0 <= i <= |p| && |calls| == i
      invariant forall j :: 0 <= j < i ==> calls[j].key == p[j].key
      invariant UniqueKeys(p) ==> forall j :: 0 <= j < i ==> calls[j] == p[j]
      invariant UniqueKeys(p) ==>
                  forall j :: 0 <= j < |p| ==> ValuesOf(out.parts[pn], p[j].key) == if j < i then [] else p[j].values
    {
      assert |out.parts[pn]| == |Keys(out.parts[pn])| == |Keys(p)| == |p|;
      var key := out.parts[pn][i].key;
      assert key == Keys(out.parts[pn])[i] == Keys(p)[i] == p[i].key;
      var drained;
      out, drained := DrainKey(out, key, pn);
      if UniqueKeys(p) {
        IndexOfUnique(p, i);
        forall j | 0 <= j < |p| && j != i
          ensures p[j].key != key
        {
        }
      }
      calls := calls + [Entry(key, drained)];
      i := i + 1;
    }
    if UniqueKeys(p) {
      forall k
        ensures ValuesOf(out.parts[pn], k) == []
      {
        IndexOfSameKeys(out.parts[pn], p, k);
        if IndexOf(p, k).Some? {
          assert k == p[IndexOf(p, k).value].key;
        }
      }
    }
  }
}
