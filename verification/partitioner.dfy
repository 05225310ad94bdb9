/** The default partitioner: the djb2 string hash of a key, reduced modulo the
    partition count. */
module HashPartition {
  import opened CStrings

  const SEED := 5381
  const MULTIPLIER := 33

  /** `unsigned long` is 64 bits wide (LP64), and its arithmetic wraps. */
  const WORD := 0x1_0000_0000_0000_0000

  type Word = x: int | 0 <= x < WORD

  /** One step of the hash loop, `hash * 33 + c` in `unsigned long`. */
  function Step(h: Word, c: byte): Word {
    (h * MULTIPLIER + c) % WORD
  }

  /** The hash of `s` continued from `h`: one step per byte, first to last. */
  function Fold(h: Word, s: seq<byte>): Word {
    if |s| == 0 then h else Step(Fold(h, s[..|s| - 1]), s[|s| - 1])
  }

  /** Reference djb2 hash of a whole byte string: the seed, then one step per
      byte from first to last. */
  function Djb2(s: seq<byte>): Word {
    Fold(SEED, s)
  }

  /** Stepping over `b` and then folding `t` is folding `[b] + t`. */
  lemma {:induction false} FoldCons(h: Word, b: byte, t: seq<byte>)
    ensures Fold(Step(h, b), t) == Fold(h, [b] + t)
    decreases |t|
  {
    if |t| != 0 {
      FoldCons(h, b, t[..|t| - 1]);
      SplitLast(b, t);
    }
  }

  lemma SplitLast<T>(b: T, t: seq<T>)
    requires |t| != 0
    ensures ([b] + t)[..|t|] == [b] + t[..|t| - 1] && ([b] + t)[|t|] == t[|t| - 1]
  {
  }

  /** The hash loop as written: continue from `h` over the buffer, one step per
      byte, until the first NUL. It computes the reference fold, from `h`, of
      the string the buffer denotes. */
  function HashFrom(h: Word, buf: seq<byte>): (r: Word)
    ensures r == Fold(h, Content(buf))
    decreases |buf|
  {
    if |buf| == 0 || buf[0] == NUL then h
    else
      FoldCons(h, buf[0], Content(buf[1..]));
      HashFrom(Step(h, buf[0]), buf[1..])
  }

  /** MR_DefaultHashPartition: the partition index of a key. */
  function DefaultHashPartition(key: seq<byte>, n: int): (r: nat)
    requires 0 < n
    ensures r < n
    ensures r == Djb2(Content(key)) % n
  {
    HashFrom(SEED, key) % n
  }

  /** Two buffers that denote the same string land in the same partition,
      whatever follows their terminators. */
  lemma PartitionIgnoresTail(s: CString, rest1: seq<byte>, rest2: seq<byte>, n: int)
    requires 0 < n
    ensures DefaultHashPartition(s + [NUL] + rest1, n) == DefaultHashPartition(s + [NUL] + rest2, n)
            == Djb2(s) % n
  {
    ContentOfTerminated(s, rest1);
    ContentOfTerminated(s, rest2);
  }

  /** The default partitioner applied to a stored key: the key's own bytes
      are the whole string. */
  function DefaultRoute(k: CString, n: int): (r: int)
    requires 0 < n
    ensures 0 <= r < n
    ensures r == Djb2(k) % n
  {
    ContentOfString(k);
    DefaultHashPartition(k, n)
  }

  /** The hash on one-letter keys, as the word-count example routes them over
      two partitions. */
  lemma OneLetterKeys()
    ensures Djb2([97]) == 177670 && Djb2([98]) == 177671 && Djb2([99]) == 177672
    ensures DefaultHashPartition([97, 0], 2) == 0
    ensures DefaultHashPartition([98, 0], 2) == 1
    ensures DefaultHashPartition([99, 0], 2) == 0
  {
  }
}
