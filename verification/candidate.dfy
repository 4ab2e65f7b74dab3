/** The candidate message one worker of `forge_thread`
    (src/gitbruteforce.c) hashes per iteration: the base message, a
    newline, and 30 random bytes as 60 lowercase hex characters, built in a
    buffer of the base's length plus 62.  The random bytes are an input
    here; the source draws them from `rand() % 256`. */
module Candidate {
  import opened Wrappers
  import opened CStrings
  import opened Hex

  /** Random bytes appended per candidate. */
  const SUFFIX_BYTES: nat := 30

  /** Chars the buffer holds beyond the base message: "\n", the hex
      suffix, and a terminator. */
  const BUFFER_EXTRA: nat := 62

  predicate IsSuffixBytes(rnd: seq<int>) {
    |rnd| == SUFFIX_BYTES && AreBytes(rnd)
  }

  /** The candidate for the random bytes `rnd`: `|base| + 61` chars, the
      base message as its prefix, then a newline and 60 lowercase hex
      chars. */
  function Candidate(base: seq<char>, rnd: seq<int>): (c: seq<char>)
    requires IsSuffixBytes(rnd)
    ensures WellFormed(base, c)
    ensures |c| == |base| + 61
  {
    var c := base + "\n" + Encode(rnd);
    assert c[..|base|] == base;
    assert c[|base| + 1..] == Encode(rnd);
    c
  }

  /** The shape every candidate has, stated without the random bytes. */
  predicate WellFormed(base: seq<char>, c: seq<char>) {
    && |c| == |base| + 1 + 2 * SUFFIX_BYTES
    && c[..|base|] == base
    && c[|base|] == '\n'
    && IsLowerHex(c[|base| + 1..])
  }

  /** Conversely every well-formed message is the candidate for the bytes
      its suffix spells, so the shape is exactly what the generator can
      produce. */
  lemma WellFormedIsCandidate(base: seq<char>, c: seq<char>)
    requires WellFormed(base, c)
    ensures IsSuffixBytes(Decode(c[|base| + 1..]))
    ensures Candidate(base, Decode(c[|base| + 1..])) == c
  {
    var suffix := c[|base| + 1..];
    EncodeDecode(suffix);
    assert c == c[..|base|] + [c[|base|]] + suffix;
  }

  /** Different random bytes give different candidates. */
  lemma CandidateInjective(base: seq<char>, rnd1: seq<int>, rnd2: seq<int>)
    requires IsSuffixBytes(rnd1) && IsSuffixBytes(rnd2)
    requires Candidate(base, rnd1) == Candidate(base, rnd2)
    ensures rnd1 == rnd2
  {
    var c := Candidate(base, rnd1);
    assert c[|base| + 1..] == Encode(rnd1);
    assert Candidate(base, rnd2)[|base| + 1..] == Encode(rnd2);
    DecodeEncode(rnd1);
    DecodeEncode(rnd2);
  }

  /** The buffer `forge_thread` allocates before its loop: `calloc` of the
      base length plus 62, with the base message copied to its start.  As
      a C string it holds the base message unchanged. */
  function InitialBuffer(base: seq<char>): (buf: seq<char>)
    requires NulFree(base)
    ensures |buf| == |base| + BUFFER_EXTRA
    ensures buf[..|base|] == base
    ensures CStr(buf, 0) == Some(base)
  {
    var b := Strncpy(Zeros(|base| + BUFFER_EXTRA), 0, base, |base|);
    assert StrncpyBytes(base, |base|) == base;
    assert b[..|base|] == base;
    StrlenOf(b, 0, |base|);
    b
  }

  /** The buffer part way through a mutation: base, newline, the first
      `i` bytes in hex, and a terminator after them. */
  predicate Partial(r: seq<char>, base: seq<char>, rnd: seq<int>, i: nat)
    requires IsSuffixBytes(rnd) && i <= SUFFIX_BYTES
  {
    && |r| == |base| + BUFFER_EXTRA
    && r[..|base| + 2 + 2 * i] == base + "\n" + Encode(rnd[..i]) + [NUL]
  }

  /** `strncpy(&buf[len], "\n", 2)` starts the mutation. */
  lemma NewlineStarts(buf: seq<char>, base: seq<char>, rnd: seq<int>)
    requires |buf| == |base| + BUFFER_EXTRA && buf[..|base|] == base
    requires IsSuffixBytes(rnd)
    ensures Partial(Strncpy(buf, |base|, "\n", 2), base, rnd, 0)
  {
    var r := Strncpy(buf, |base|, "\n", 2);
    assert StrncpyBytes("\n", 2) == ['\n', NUL];
    assert r[..|base| + 2] == r[..|base|] + r[|base|..|base| + 2];
    assert rnd[..0] == [];
  }

  /** One `byte_to_hex_string` call extends the hex text by one byte. */
  lemma HexStep(r: seq<char>, base: seq<char>, rnd: seq<int>, i: nat)
    requires IsSuffixBytes(rnd) && i < SUFFIX_BYTES
    requires Partial(r, base, rnd, i)
    ensures Partial(ByteToHexString(r, |base| + 1 + 2 * i, rnd[i]).buf, base, rnd, i + 1)
  {
    var p := |base| + 1 + 2 * i;
    var w := ByteToHexString(r, p, rnd[i]).buf;
    var done := base + "\n" + Encode(rnd[..i]);
    assert r[..p] == r[..p + 1][..p] == done;
    assert rnd[..i + 1] == rnd[..i] + [rnd[i]];
    EncodeSnoc(rnd[..i], rnd[i]);
    assert w[..p + 3] == r[..p] + ByteHex(rnd[i]) + [NUL];
  }

  /** After thirty bytes the buffer holds the candidate as a C string, and
      the base message is still at its start. */
  lemma Completed(r: seq<char>, base: seq<char>, rnd: seq<int>)
    requires NulFree(base) && IsSuffixBytes(rnd)
    requires Partial(r, base, rnd, SUFFIX_BYTES)
    ensures r[..|base|] == base
    ensures CStr(r, 0) == Some(Candidate(base, rnd))
  {
    var n := |base| + 1 + 2 * SUFFIX_BYTES;
    assert rnd[..SUFFIX_BYTES] == rnd;
    var c := Candidate(base, rnd);
    assert r[..n + 1] == c + [NUL];
    assert r[..|base|] == r[..n + 1][..|base|];
    assert r[0..n] == r[..n + 1][..n] == c;
    HexNulFree(Encode(rnd));
    assert NulFree(c);
    StrlenOf(r, 0, n);
  }

  /** One iteration's mutation of the candidate buffer: "\n" (two chars,
      so a NUL follows it) after the base message, then thirty calls of
      `byte_to_hex_string`, each overwriting the previous terminator.
      Whatever the previous iteration left in the buffer, it now holds the
      candidate for `rnd` as a C string and the base message is untouched. */
  method Mutate(buf: seq<char>, base: seq<char>, rnd: seq<int>) returns (r: seq<char>)
    requires NulFree(base)
    requires |buf| == |base| + BUFFER_EXTRA && buf[..|base|] == base
    requires IsSuffixBytes(rnd)
    ensures |r| == |buf| && r[..|base|] == base
    ensures CStr(r, 0) == Some(Candidate(base, rnd))
  {
    r := Strncpy(buf, |base|, "\n", 2);
    NewlineStarts(buf, base, rnd);
    var i := 0;
    while i < SUFFIX_BYTES
      invariant i <= SUFFIX_BYTES
      invariant Partial(r, base, rnd, i)
    {
      HexStep(r, base, rnd, i);
      r := ByteToHexString(r, |base| + 1 + 2 * i, rnd[i]).buf;
      i := i + 1;
    }
    Completed(r, base, rnd);
  }
}
