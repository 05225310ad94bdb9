/** C strings as the model sees them: the bytes of a `char*` buffer before its
    terminating NUL. Keys and values of the store are C strings; comparing two
    of them with `strcmp(a, b) == 0` is sequence equality here. */
module CStrings {

  /** An `unsigned char`. */
  type byte = x: int | 0 <= x < 256

  const NUL: byte := 0

  predicate NoNul(s: seq<byte>) {
    forall i :: 0 <= i < |s| ==> s[i] != NUL
  }

  /** The contents of a NUL-terminated string, terminator excluded. */
  type CString = s: seq<byte> | NoNul(s) witness []

  /** The string a buffer denotes: its bytes before the first NUL. A buffer
      without a NUL is read to its end (C would read past it). */
  function Content(buf: seq<byte>): (s: CString)
    ensures s <= buf
    ensures |s| < |buf| ==> buf[|s|] == NUL
  {
    if |buf| == 0 || buf[0] == NUL then [] else [buf[0]] + Content(buf[1..])
  }

  /** A buffer holding no NUL denotes all of its bytes. */
  lemma {:induction false} ContentOfString(s: CString)
    ensures Content(s) == s
    decreases |s|
  {
    if |s| != 0 {
      ContentOfString(s[1..]);
      assert s == [s[0]] + s[1..];
    }
  }

  /** A string followed by its terminator and any trailing bytes denotes that
      string, whatever the trailing bytes are. */
  lemma {:induction false} ContentOfTerminated(s: CString, rest: seq<byte>)
    ensures Content(s + [NUL] + rest) == s
    decreases |s|
  {
    var buf := s + [NUL] + rest;
    if |s| != 0 {
      assert buf[1..] == s[1..] + [NUL] + rest;
      ContentOfTerminated(s[1..], rest);
    }
  }
}
