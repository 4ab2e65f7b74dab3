/** NUL-terminated character buffers as the C code uses them.

    A buffer is a `seq<char>` whose length is its allocation size; one `char`
    stands for one C `char`, and '\0' is the terminator.  A C string held
    outside a buffer (an argument such as `raw_header`) is a NUL-free
    sequence whose terminator is implicit.  The writes below are pure
    functions returning the new buffer; a write that would leave the
    allocation is excluded by its precondition, and callers that model
    such a write check the bound first. */
module CStrings {
  import opened Wrappers

  const NUL: char := '\0'

  /** The contents of a C string: no terminator inside it. */
  predicate NulFree(s: seq<char>) {
    NUL !in s
  }

  /** A freshly `calloc`ed buffer of `n` chars. */
  function Zeros(n: nat): (r: seq<char>)
    ensures |r| == n
  {
    seq(n, _ => NUL)
  }

  /** Writes `src` into `buf` starting at index `off`; nothing else changes. */
  function Overwrite(buf: seq<char>, off: nat, src: seq<char>): (r: seq<char>)
    requires off + |src| <= |buf|
    ensures |r| == |buf|
    ensures r[..off] == buf[..off]
    ensures r[off..off + |src|] == src
    ensures r[off + |src|..] == buf[off + |src|..]
  {
    buf[..off] + src + buf[off + |src|..]
  }

  /** The exact `n` chars `strncpy(dst, src, n)` stores: the first `n`
      chars of `src`, padded with NULs when `src` is shorter than `n`. */
  function StrncpyBytes(src: seq<char>, n: nat): (r: seq<char>)
    requires NulFree(src)
    ensures |r| == n
  {
    if n <= |src| then src[..n] else src + Zeros(n - |src|)
  }

  /** `strncpy(&buf[off], src, n)`: at most `n` chars of `src` land at
      `off`, the rest of the `n` are NULs, and nothing outside them changes. */
  function Strncpy(buf: seq<char>, off: nat, src: seq<char>, n: nat): (r: seq<char>)
    requires NulFree(src)
    requires off + n <= |buf|
    ensures |r| == |buf|
    ensures r[..off] == buf[..off] && r[off + n..] == buf[off + n..]
    ensures forall k :: off <= k < off + n ==> r[k] == (if k - off < |src| then src[k - off] else NUL)
  {
    Overwrite(buf, off, StrncpyBytes(src, n))
  }

  /** `strlen(&buf[start])`, or None when no terminator lies inside the
      allocation, so the C call would read past its end. */
  function Strlen(buf: seq<char>, start: nat): (r: Option<nat>)
    decreases |buf| - start
    ensures r.Some? ==> start + r.value < |buf|
    ensures r.Some? ==> buf[start + r.value] == NUL && NulFree(buf[start..start + r.value])
    ensures r.None? ==> start >= |buf| || NulFree(buf[start..])
  {
    if start >= |buf| then None
    else if buf[start] == NUL then Some(0)
    else match Strlen(buf, start + 1)
      case None => None
      case Some(k) => Some(k + 1)
  }

  /** The terminator `Strlen` finds is the first one: any NUL-free run
      ending at a NUL is what it measures. */
  lemma {:induction false} StrlenOf(buf: seq<char>, start: nat, k: nat)
    requires start + k < |buf|
    requires buf[start + k] == NUL
    requires NulFree(buf[start..start + k])
    ensures Strlen(buf, start) == Some(k)
    decreases k
  {
    if k > 0 {
      assert buf[start] == buf[start..start + k][0];
      assert buf[start + 1..start + 1 + (k - 1)] == buf[start..start + k][1..];
      StrlenOf(buf, start + 1, k - 1);
    }
  }

  /** The C string stored in `buf` from `start`. */
  function CStr(buf: seq<char>, start: nat): (r: Option<seq<char>>)
    ensures r.Some? ==> NulFree(r.value) && start + |r.value| < |buf|
    ensures r.Some? ==> buf[start..start + |r.value|] == r.value && buf[start + |r.value|] == NUL
  {
    match Strlen(buf, start)
    case None => None
    case Some(k) => Some(buf[start..start + k])
  }

  /** The char `strncmp` sees at index `i` of a C string: past the
      contents it reads the terminator. */
  function At(s: seq<char>, i: nat): char {
    if i < |s| then s[i] else NUL
  }

  /** `strncmp(a, b, n)` on two C strings, as the C library loop: compare
      char by char for at most `n` chars, stopping at the first difference
      or at a common terminator.  Only the sign of the result matters: it
      is zero exactly when the two strings agree on their first `n` chars,
      a string shorter than `n` counting as its whole contents. */
  function Strncmp(a: seq<char>, b: seq<char>, n: nat): (r: int)
    ensures NulFree(a) && NulFree(b) ==> (r == 0 <==> a[..Min(n, |a|)] == b[..Min(n, |b|)])
    decreases n
  {
    if n == 0 then 0
    else if At(a, 0) != At(b, 0) then
      HeadsDiffer(a, b, n);
      (At(a, 0) as int) - (At(b, 0) as int)
    else if At(a, 0) == NUL then
      assert NulFree(a) ==> |a| == 0;
      assert NulFree(b) ==> |b| == 0;
      0
    else
      TailsAgree(a, b, n);
      Strncmp(a[1..], b[1..], n - 1)
  }

  function Min(x: nat, y: nat): nat {
    if x <= y then x else y
  }

  /** Different first chars (the terminator standing in for an empty
      string) make the first `n` chars differ. */
  lemma HeadsDiffer(a: seq<char>, b: seq<char>, n: nat)
    requires n > 0 && At(a, 0) != At(b, 0)
    ensures a[..Min(n, |a|)] != b[..Min(n, |b|)]
  {
    if |a| > 0 && |b| > 0 {
      assert a[..Min(n, |a|)][0] != b[..Min(n, |b|)][0];
    } else if |a| > 0 {
      assert |a[..Min(n, |a|)]| > 0;
    } else {
      assert |b[..Min(n, |b|)]| > 0;
    }
  }

  /** Past a common first char, the first `n` chars agree exactly when the
      first `n - 1` chars of the tails do. */
  lemma TailsAgree(a: seq<char>, b: seq<char>, n: nat)
    requires n > 0 && At(a, 0) == At(b, 0) != NUL
    ensures NulFree(a) ==> NulFree(a[1..])
    ensures NulFree(b) ==> NulFree(b[1..])
    ensures a[..Min(n, |a|)] == b[..Min(n, |b|)]
        <==> a[1..][..Min(n - 1, |a| - 1)] == b[1..][..Min(n - 1, |b| - 1)]
  {
    var ma, mb := Min(n, |a|), Min(n, |b|);
    assert Min(n - 1, |a| - 1) == ma - 1 && Min(n - 1, |b| - 1) == mb - 1;
    var ta, tb := a[1..][..ma - 1], b[1..][..mb - 1];
    assert ta == a[1..ma] && tb == b[1..mb];
    assert a[..ma] == [a[0]] + ta;
    assert b[..mb] == [b[0]] + tb;
    assert ([a[0]] + ta)[1..] == ta && ([b[0]] + tb)[1..] == tb;
  }

  /** With `n` the length of `b` (the `strncmp(x, target, strlen(target))`
      idiom), equality means `b` is a prefix of `a`. */
  lemma StrncmpPrefix(a: seq<char>, b: seq<char>)
    requires NulFree(a) && NulFree(b)
    ensures Strncmp(a, b, |b|) == 0 <==> b <= a
  {
    assert b[..Min(|b|, |b|)] == b;
  }
}
