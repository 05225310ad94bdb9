# MapReduce partition store, modelled in Dafny

This project models the sequential core of a small in-memory MapReduce
library written in C (`mapreduce.c`). Map callbacks publish `(key, value)`
pairs with `MR_Emit`. Each pair goes to one of `num_partitions` partitions,
chosen by a partitioner; the default one is a djb2 string hash. A partition is
a linked list of entries, one per key, and each entry holds a stack of values.
In the reduce phase one thread per partition walks the entry list and calls
the user reducer once per key. The reducer drains the key's values with the
getter `get_next`, newest first, until it returns NULL. Finally
`cleanup_partitions` releases everything.

The model removes the threads. Each `MR_Emit` is one atomic step, because the
partition lock only serialises the calls. The store is a pure value:

- `CStrings`: keys and values are C strings, that is, the bytes before the
  terminating NUL (`byte` is `unsigned char`).
- `HashPartition`: `MR_DefaultHashPartition`. `Djb2` is a reference
  definition, a fold over the bytes from the seed. `HashFrom` is the loop as
  written, stopping at the first NUL, with `unsigned long` arithmetic wrapping
  modulo 2^64.
- `Store`: the partition array (`Store`), entry lists (`Partition`), entries
  (`Entry`, with `values[0]` the head of the value list), `get_entry`,
  `MR_Emit`, `get_next` and `cleanup_partitions`. The partitioner is a
  parameter, as it is for `MR_Run`.
- `History`: the map phase as a sequence of emissions, and what the store
  holds afterwards in terms of that sequence alone.
- `Getter`: any number of successive `get_next` calls on one key.
- `Reduce`: `reduce_`. The reducer is a user callback; the model fixes it to
  a loop that drains its key with the getter.
- `Run`: `MR_Run` with its phases run one after another.

Two things the C code does not guard against, and how the model treats them:

- No check rejects a partition count of zero, so `hash % 0` divides by zero. The
  model asks for a partitioner that maps every key into `[0, n)`, which
  forces `n > 0`.
- `cleanup_partitions` is not idempotent: it frees the partition array and
  does not reset it, so a second call would free it twice. The model's reset to empty partitions
  stands for the single call `MR_Run` makes.
- The getter hands back a fresh copy (`strdup`) and frees the stored value.
  With value semantics this is just "return the head and drop it".

## Model

| member | source | states |
|---|---|---|
| CStrings.Content | mapreduce.c:224 | The string a `char*` buffer denotes is a prefix of the buffer that holds no NUL and stops at the first NUL. |
| CStrings.ContentOfString | mapreduce.c:224 | A buffer without a NUL denotes all of its bytes. |
| CStrings.ContentOfTerminated | mapreduce.c:224 | A string followed by NUL and any trailing bytes denotes exactly that string. |
| HashPartition.HashFrom | mapreduce.c:222-226 | The hash loop, run from `h` over a buffer and stopped at the first NUL, computes the reference fold from `h` (one `h*33 + c` mod 2^64 step per byte, first to last) of the string the buffer denotes. |
| HashPartition.DefaultHashPartition | mapreduce.c:221-228 | The partition index is in `[0, n)` for every `n > 0`, and equals the djb2 hash of the bytes before the first NUL, modulo `n`. |
| HashPartition.PartitionIgnoresTail | mapreduce.c:221-228 | Two buffers holding the same string route to the same partition, whatever follows their terminators. |
| HashPartition.DefaultRoute | mapreduce.c:221-228 | On a stored key, the default partitioner returns an index in `[0, n)` equal to the key's djb2 hash modulo `n`. |
| HashPartition.OneLetterKeys | mapreduce.c:222-227 | Worked values: "a", "b" and "c" hash to 177670, 177671 and 177672, so over two partitions "a" and "c" share partition 0 and "b" goes to 1. |
| Store.IndexOf | mapreduce.c:66-72 | The scan finds the first entry whose key equals the given key, or reports that no entry has it. |
| Store.NewStore | mapreduce.c:184-190 | Before the map phase there are `n` partitions and no key has an entry in any of them. |
| Store.NewEntry | mapreduce.c:52-59 | A new entry carries the key and no values. |
| Store.GetEntry | mapreduce.c:62-79 | Find-or-create in the partition the partitioner picks. An existing entry is returned and the store is unchanged. Otherwise exactly one new entry with no values goes at the head of that partition. Other partitions are untouched, and at most one entry per key is kept. |
| Store.Emit | mapreduce.c:165-179 | Only the partition the partitioner picks changes. In it, the key's values become the new value followed by the old ones, no other key's values change, and the key list gains the key at the head only if it was absent. The store invariant is preserved. |
| Store.EmitValid | mapreduce.c:62-79 | An emit keeps every partition free of duplicate keys and holding only keys routed to it. |
| Store.GetNext | mapreduce.c:83-102 | Returns NULL exactly when the key has no entry or no values left, and then changes nothing. Otherwise it returns the head of the key's values and leaves the tail. The entry list (exhausted entries included), other keys and other partitions are unchanged. |
| Store.Cleanup | mapreduce.c:125-144 | Afterwards every partition has no entries, and every getter call returns NULL, whether or not the values were drained. |
| History.EmitAllValues | mapreduce.c:170-176 | After any run of emissions, a key's value list is the values emitted under it in reverse emission order, on top of what it held before: no loss, no duplication, LIFO. |
| History.EmitAll | mapreduce.c:165-179 | The map phase as one `MR_Emit` per emitted pair, first to last. It keeps the number of partitions and preserves the store invariant (one entry per key, keys in their own partition). |
| History.EntryOrder | mapreduce.c:74-77 | From empty partitions, partition `pn` has an entry for exactly the emitted keys routed to it. The entries run in strictly decreasing order of each key's first emission. |
| Getter.CallsPopInOrder | mapreduce.c:87-101 | The `j`-th of successive getter calls returns the `j`-th stored value while any remain and NULL afterwards. The key keeps exactly the values not yet returned. |
| Getter.CallGetNext | mapreduce.c:83-102 | `m` successive getter calls on one key give `m` results. They change neither the entry list nor any other key or partition. |
| Getter.EmitThenGetNext | mapreduce.c:170-176 | The getter's next call returns the value just emitted, and restores every key's values. If the key already had an entry, it restores the very same store. |
| Getter.GetterReturnsEmitted | mapreduce.c:83-102 | Conservation: if a key was emitted `m` times, the first `m` getter calls return exactly those values, newest first, and every later call returns NULL. |
| Reduce.DrainKey | mapreduce.c:83-102 | Calling the getter until NULL yields exactly the key's value list, head first. It leaves the key with no values and changes nothing else. |
| Reduce.ReducePartition | mapreduce.c:111-122 | One reducer call per entry, in entry list order, while the reducer drains its key. When keys are unique the calls see exactly the entries, and every key ends with no values. |
| Run.DefaultPartitionerRoutes | mapreduce.c:221-228 | For any positive partition count, the default partitioner meets the store's routing requirement. |
| Run.MappedPartition | mapreduce.c:165-179 | After the map phase, each partition holds one entry per emitted key routed to it. Each entry's values are that key's emissions, newest first. |
| Run.Run | mapreduce.c:182-218 | Every emitted key gets exactly one reducer call, and no other key gets one. Each call sees all values emitted under its key, newest first. After cleanup the store is empty. |

## Left out

- Threads and locks: `pthread_mutex_*`, `pthread_create` and `pthread_join` in `MR_Emit`, `cleanup_partitions` and `MR_Run`. Each emit is one atomic step. The reduce passes run one after another; they touch disjoint partitions.
- Mapper thread handles in `MR_Run`. `(i - 1) % num_mappers` overwrites handles when there are more files than mappers, and joins handles never created when there are fewer. Both are undefined behaviour, not modellable logic.
- Memory ownership: `malloc`, `strdup` and `free` become value semantics. This includes freeing `reduce_args` and, in `cleanup_partitions`, the partition array. That array is not reset, so a second call would free it twice.
- `display_partitions`: output only.
- The `assert` after `generate_entry`'s allocation. It runs after the pointer is used, and allocation failure is out of scope.
- User mappers and input files: external collaborators. The map phase is a sequence of emitted pairs.
- Reduce.ReducePartition: the user reducer called at `mapreduce.c:118` is fixed to a loop that drains its key, here and in `Run.Run`. A reducer that stops early is covered one key at a time by `Getter.CallGetNext` and `Getter.CallsPopInOrder`, which describe any number of getter calls.
- Store.Partitioner: a custom partitioner is assumed to be a deterministic function of the key's bytes and the partition count. `MR_Emit` calls it twice, once to pick the lock and once inside `get_entry` to pick the list. A partitioner that is not deterministic could lock one partition and insert into another, and break the invariant that each key sits in its own partition.
- HashPartition.DefaultHashPartition: a buffer without a NUL is read to its end. C would read past it.
- Store.Emit: a custom partitioner that returns an index outside `[0, n)` indexes out of bounds in C. The model requires every index to be in range.
- Integer widths of partition numbers (`int` and `unsigned long`) are not modelled. Partition counts are naturals, and indices are in range by the requirement above.
