/** The two-level partition store of the library: an array of partitions, each
    a list of entries (one per key), each entry a stack of values. Every
    operation is one atomic step; the partition locks only serialise steps. */
module Store {
  import opened Wrappers
  import opened CStrings

  type Key = CString
  type Value = CString

  /** An `entry_t`: a key and its value list; `values[0]` is the list's head,
      the most recently emitted value still stored. */
  datatype Entry = Entry(key: Key, values: seq<Value>)

  /** A partition's entry list, head first. */
  type Partition = seq<Entry>

  /** The global partition array, one partition per reducer. */
  datatype Store = Store(parts: seq<Partition>)

  /** A partitioner as the library receives it: a key and the partition count
      to a partition index. */
  type Partitioner = (Key, int) --> int

  /** The partitioner is defined on every key and sends it into `[0, n)`. */
  ghost predicate RoutesInRange(route: Partitioner, n: int) {
    forall k: Key :: route.requires(k, n) && 0 <= route(k, n) < n
  }

  /** The keys of a partition, in list order. */
  function Keys(p: Partition): seq<Key> {
    seq(|p|, i requires 0 <= i < |p| => p[i].key)
  }

  /** At most one entry per key. */
  ghost predicate UniqueKeys(p: Partition) {
    forall i, j :: 0 <= i < j < |p| ==> p[i].key != p[j].key
  }

  /** The invariant of the store: every partition holds at most one entry per
      key, and only keys the partitioner sends to it. */
  ghost predicate Valid(s: Store, route: Partitioner) {
    && RoutesInRange(route, |s.parts|)
    && (forall pn :: 0 <= pn < |s.parts| ==> UniqueKeys(s.parts[pn]))
    && (forall pn, i :: 0 <= pn < |s.parts| && 0 <= i < |s.parts[pn]| ==>
          route(s.parts[pn][i].key, |s.parts|) == pn)
  }

  /** The linear scan shared by `get_entry` and `get_next`: the position of the
      first entry whose key equals `k`. */
  function IndexOf(p: Partition, k: Key): (r: Option<nat>)
    ensures r.Some? ==> r.value < |p| && p[r.value].key == k
    ensures r.Some? ==> forall j :: 0 <= j < r.value ==> p[j].key != k
    ensures r.None? ==> forall j :: 0 <= j < |p| ==> p[j].key != k
  {
    if |p| == 0 then None
    else if p[0].key == k then Some(0)
    else match IndexOf(p[1..], k)
      case None => None
      case Some(i) => Some(i + 1)
  }

  /** The values stored under `k` in `p`, head first; none if `k` has no entry. */
  function ValuesOf(p: Partition, k: Key): seq<Value> {
    match IndexOf(p, k)
    case None => []
    case Some(i) => p[i].values
  }

  /** The scan only looks at keys: partitions with the same keys in the same
      order find every key at the same position. */
  lemma IndexOfSameKeys(p: Partition, q: Partition, k: Key)
    requires Keys(p) == Keys(q)
    ensures IndexOf(p, k) == IndexOf(q, k)
  {
    assert |p| == |Keys(p)| == |Keys(q)| == |q|;
    assert forall j :: 0 <= j < |p| ==> p[j].key == Keys(p)[j] == Keys(q)[j] == q[j].key;
  }

  /** Under the invariant, each entry is the one the scan finds for its key. */
  lemma IndexOfUnique(p: Partition, i: nat)
    requires UniqueKeys(p) && i < |p|
    ensures IndexOf(p, p[i].key) == Some(i)
    ensures ValuesOf(p, p[i].key) == p[i].values
  {
  }

  /** The store of `MR_Run` before the map phase: `n` partitions, all empty. */
  function NewStore(n: nat): (s: Store)
    ensures |s.parts| == n
    ensures forall pn, k :: 0 <= pn < n ==> IndexOf(s.parts[pn], k).None?
  {
    Store(seq(n, _ => []))
  }

  /** `generate_entry`: a fresh entry for `key` with an empty value list. */
  function NewEntry(key: Key): (e: Entry)
    ensures e.key == key && ValuesOf([e], key) == []
  {
    Entry(key, [])
  }

  /** Where `get_entry` left the store and the entry it returned: partition
      `part`, position `index`. */
  datatype EntryRef = EntryRef(store: Store, part: nat, index: nat)

  /** `get_entry`: find the entry for `k` in the partition the partitioner
      picks, or push a new one at the head of that partition's list. */
  function GetEntry(s: Store, route: Partitioner, k: Key): (r: EntryRef)
    requires RoutesInRange(route, |s.parts|)
    ensures r.part == route(k, |s.parts|)
    ensures |r.store.parts| == |s.parts|
    ensures r.index < |r.store.parts[r.part]| && r.store.parts[r.part][r.index].key == k
    ensures forall pn :: 0 <= pn < |s.parts| && pn != r.part ==> r.store.parts[pn] == s.parts[pn]
    ensures IndexOf(s.parts[r.part], k).Some? ==>
              r.store == s && Some(r.index) == IndexOf(s.parts[r.part], k)
    ensures IndexOf(s.parts[r.part], k).None? ==>
              r.index == 0 && r.store.parts[r.part] == [Entry(k, [])] + s.parts[r.part]
    ensures UniqueKeys(s.parts[r.part]) ==> UniqueKeys(r.store.parts[r.part])
  {
    var pn := route(k, |s.parts|);
    var p := s.parts[pn];
    match IndexOf(p, k)
    case Some(i) => EntryRef(s, pn, i)
    case None => EntryRef(Store(s.parts[pn := [NewEntry(k)] + p]), pn, 0)
  }

  /** Replacing the value list of the entry the scan finds for `k` changes
      what `k` maps to, and nothing else. */
  lemma SetValues(p: Partition, k: Key, i: nat, vs: seq<Value>)
    requires IndexOf(p, k) == Some(i)
    ensures var p' := p[i := p[i].(values := vs)];
            && Keys(p') == Keys(p)
            && ValuesOf(p', k) == vs
            && forall k' :: k' != k ==> ValuesOf(p', k') == ValuesOf(p, k')
  {
    var p' := p[i := p[i].(values := vs)];
    assert Keys(p') == Keys(p);
    forall k' { IndexOfSameKeys(p', p, k'); }
  }

  /** Pushing a fresh entry for an absent key keeps every key's values and puts
      the key at the head of the key list. */
  lemma PrependEntry(p: Partition, k: Key)
    requires IndexOf(p, k).None?
    ensures var p' := [Entry(k, [])] + p;
            && Keys(p') == [k] + Keys(p)
            && IndexOf(p', k) == Some(0)
            && forall k' :: ValuesOf(p', k') == ValuesOf(p, k')
  {
    var p' := [Entry(k, [])] + p;
    assert p'[1..] == p;
    assert Keys(p') == [k] + Keys(p);
  }

  /** `MR_Emit`: route `k` to its partition and push `v` on top of that key's
      value stack. */
  function Emit(s: Store, route: Partitioner, k: Key, v: Value): (r: Store)
    requires RoutesInRange(route, |s.parts|)
    ensures |r.parts| == |s.parts|
    ensures var pn := route(k, |s.parts|);
            && (forall q :: 0 <= q < |s.parts| && q != pn ==> r.parts[q] == s.parts[q])
            && ValuesOf(r.parts[pn], k) == [v] + ValuesOf(s.parts[pn], k)
            && (forall k' :: k' != k ==> ValuesOf(r.parts[pn], k') == ValuesOf(s.parts[pn], k'))
            && Keys(r.parts[pn]) == (if IndexOf(s.parts[pn], k).Some? then Keys(s.parts[pn])
                                     else [k] + Keys(s.parts[pn]))
    ensures Valid(s, route) ==> Valid(r, route)
  {
    var e := GetEntry(s, route, k);
    var p := e.store.parts[e.part];
    var i := e.index;
    var r := Store(e.store.parts[e.part := p[i := p[i].(values := [v] + p[i].values)]]);
    if IndexOf(s.parts[e.part], k).None? then
      PrependEntry(s.parts[e.part], k);
      SetValues(p, k, i, [v] + p[i].values);
      EmitValid(s, route, k, r);
      r
    else
      SetValues(p, k, i, [v] + p[i].values);
      EmitValid(s, route, k, r);
      r
  }

  /** The invariant survives an emit: the only key that can be new in the
      partition is `k`, and `k` is where the partitioner sends it. */
  lemma EmitValid(s: Store, route: Partitioner, k: Key, r: Store)
    requires RoutesInRange(route, |s.parts|)
    requires var pn := route(k, |s.parts|);
             && |r.parts| == |s.parts|
             && (forall q :: 0 <= q < |s.parts| && q != pn ==> r.parts[q] == s.parts[q])
             && Keys(r.parts[pn]) == (if IndexOf(s.parts[pn], k).Some? then Keys(s.parts[pn])
                                      else [k] + Keys(s.parts[pn]))
    ensures Valid(s, route) ==> Valid(r, route)
  {
    var pn := route(k, |s.parts|);
    if Valid(s, route) {
      var p, p' := s.parts[pn], r.parts[pn];
      assert forall i :: 0 <= i < |p'| ==> p'[i].key == Keys(p')[i];
      assert forall i :: 0 <= i < |p| ==> p[i].key == Keys(p)[i];
      if IndexOf(p, k).None? {
        assert forall i :: 0 < i < |p'| ==> p'[i].key == p[i - 1].key;
      }
    }
  }

  /** What one call of the getter returns and the store it leaves. */
  datatype Popped = Popped(store: Store, value: Option<Value>)

  /** `get_next`: remove and return the head of `k`'s value list in partition
      `pn`; `None` (the C code's NULL) if `k` has no entry there or its list is
      empty, and then nothing changes. An exhausted entry stays in the list. */
  function GetNext(s: Store, k: Key, pn: nat): (r: Popped)
    requires pn < |s.parts|
    ensures |r.store.parts| == |s.parts|
    ensures r.value.None? <==> ValuesOf(s.parts[pn], k) == []
    ensures r.value.None? ==> r.store == s
    ensures r.value.Some? ==>
              && r.value.value == ValuesOf(s.parts[pn], k)[0]
              && ValuesOf(r.store.parts[pn], k) == ValuesOf(s.parts[pn], k)[1..]
    ensures forall q :: 0 <= q < |s.parts| && q != pn ==> r.store.parts[q] == s.parts[q]
    ensures Keys(r.store.parts[pn]) == Keys(s.parts[pn])
    ensures forall k' :: k' != k ==> ValuesOf(r.store.parts[pn], k') == ValuesOf(s.parts[pn], k')
  {
    var p := s.parts[pn];
    match IndexOf(p, k)
    case None => Popped(s, None)
    case Some(i) =>
      if |p[i].values| == 0 then Popped(s, None)
      else
        SetValues(p, k, i, p[i].values[1..]);
        var p' := p[i := p[i].(values := p[i].values[1..])];
        Popped(Store(s.parts[pn := p']), Some(p[i].values[0]))
  }

  /** `cleanup_partitions`, as a reset: every partition loses all its entries
      and values, drained or not. */
  function Cleanup(s: Store): (r: Store)
    ensures |r.parts| == |s.parts|
    ensures forall pn, k :: 0 <= pn < |r.parts| ==> GetNext(r, k, pn) == Popped(r, None)
    ensures forall pn :: 0 <= pn < |r.parts| ==> Keys(r.parts[pn]) == []
  {
    NewStore(|s.parts|)
  }
}
