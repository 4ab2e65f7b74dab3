/** The bytes git hashes for a commit, and the buffer arithmetic
    `compute_commit_hash` (src/gitbruteforce.c) uses to build them.

    The loose-object encoding of a commit is the ASCII header
    `commit <decimal length>`, a NUL, then the content: the raw header,
    a newline and the message.  The digest itself is not modelled here;
    this module states which bytes are handed to it. */
module CommitObject {
  import opened Wrappers
  import opened CStrings
  import Decimal

  const KIND: seq<char> := "commit "

  /** What follows the framing NUL: raw header, "\n", message. */
  function Content(header: seq<char>, msg: seq<char>): (c: seq<char>)
    ensures |c| == |header| + 1 + |msg|
  {
    header + "\n" + msg
  }

  /** The framing `sprintf(data, "commit %zu", n)` prints, terminator included. */
  function Prefix(n: nat): (p: seq<char>)
    ensures |p| == |KIND| + Decimal.NumDigits(n) + 1
    ensures NulFree(p[..|p| - 1]) && p[|p| - 1] == NUL
  {
    KIND + Decimal.Render(n) + [NUL]
  }

  /** The loose-object encoding of a commit whose content is `content`. */
  function Frame(content: seq<char>): (b: seq<char>)
    ensures |b| == 7 + Decimal.NumDigits(|content|) + 1 + |content|
  {
    Prefix(|content|) + content
  }

  /** Reads a loose commit object back: checks the kind, reads the decimal
      length up to the first NUL, and returns the content when the length
      field is canonical and matches the number of bytes that follow. */
  function ParseObject(b: seq<char>): Option<seq<char>> {
    if |b| < |KIND| || b[..|KIND|] != KIND then None
    else match Strlen(b, |KIND|)
      case None => None
      case Some(k) =>
        var digits := b[|KIND|..|KIND| + k];
        if Decimal.Canonical(digits) && Decimal.Parse(digits) == |b| - (|KIND| + k + 1)
        then Some(b[|KIND| + k + 1..])
        else None
  }

  /** The length field reads back as the number of content bytes after the
      NUL, and the content is recovered intact. */
  lemma ParseFrame(content: seq<char>)
    ensures ParseObject(Frame(content)) == Some(content)
  {
    var b := Frame(content);
    var digits := Decimal.Render(|content|);
    var k := |digits|;
    assert b[..|KIND|] == KIND;
    assert b[|KIND|..|KIND| + k] == digits;
    StrlenOf(b, |KIND|, k);
    Decimal.ParseRender(|content|);
    assert b[|KIND| + k + 1..] == content;
  }

  /** Whatever `ParseObject` accepts is exactly the framing of what it
      returns: no other byte string parses. */
  lemma ParseObjectSound(b: seq<char>)
    ensures ParseObject(b).Some? ==> Frame(ParseObject(b).value) == b
  {
    if ParseObject(b).Some? {
      var k := Strlen(b, |KIND|).value;
      var digits := b[|KIND|..|KIND| + k];
      var content := b[|KIND| + k + 1..];
      Decimal.RenderParse(digits);
      assert b == b[..|KIND|] + digits + [b[|KIND| + k]] + content;
    }
  }

  /** A worked example: a two-line header and the message "hello" make 26
      content bytes, so the object starts "commit 26" and a NUL. */
  lemma FrameExample()
    ensures Frame(Content("tree abc\nparent def\n", "hello"))
         == "commit 26\0tree abc\nparent def\n\nhello"
  {
    var c := Content("tree abc\nparent def\n", "hello");
    assert |c| == 26;
    assert Decimal.Render(26) == "26" by {
      assert Decimal.Render(2) == "2";
    }
    assert Prefix(26) == "commit 26\0";
  }

  /** Writing `src` at the end of `p` into trailing zeros. */
  lemma OverwriteZeros(p: seq<char>, n: nat, src: seq<char>)
    requires |src| <= n
    ensures Overwrite(p + Zeros(n), |p|, src) == p + src + Zeros(n - |src|)
  {
    var b := p + Zeros(n);
    assert b[|p| + |src|..] == Zeros(n - |src|);
  }

  /** `sprintf` into a fresh buffer: the framing, then zeros. */
  lemma WriteFraming(alloc: nat, framing: seq<char>)
    requires |framing| <= alloc
    ensures Overwrite(Zeros(alloc), 0, framing) == framing + Zeros(alloc - |framing|)
  {
    var e: seq<char> := [];
    assert Zeros(alloc) == e + Zeros(alloc);
    OverwriteZeros(e, alloc, framing);
  }

  /** The framing `sprintf` leaves is measured back by `strlen`. */
  lemma FramingMeasured(alloc: nat, framing: seq<char>)
    requires 0 < |framing| <= alloc
    requires NulFree(framing[..|framing| - 1]) && framing[|framing| - 1] == NUL
    ensures Strlen(framing + Zeros(alloc - |framing|), 0) == Some(|framing| - 1)
  {
    var b0 := framing + Zeros(alloc - |framing|);
    assert b0[0..|framing| - 1] == framing[..|framing| - 1];
    StrlenOf(b0, 0, |framing| - 1);
  }

  /** `strncpy` of a whole C string, without its terminator, into zeros. */
  lemma CopyIntoZeros(p: seq<char>, a: nat, src: seq<char>)
    requires NulFree(src) && |src| <= a
    ensures Strncpy(p + Zeros(a), |p|, src, |src|) == (p + src) + Zeros(a - |src|)
  {
    assert StrncpyBytes(src, |src|) == src;
    OverwriteZeros(p, a, src);
  }

  /** `strncpy(..., "\n", 2)` into zeros: the newline and a NUL after it. */
  lemma NewlineIntoZeros(p: seq<char>, a: nat)
    requires 2 <= a
    ensures Strncpy(p + Zeros(a), |p|, "\n", 2) == (p + "\n") + Zeros(a - 1)
  {
    var nl := StrncpyBytes("\n", 2);
    OverwriteZeros(p, a, nl);
    assert nl + Zeros(a - 2) == "\n" + Zeros(a - 1);
  }

  /** With at least one zero after the content, the final `strlen` measures
      the content and the bytes up to it are the loose-object encoding. */
  lemma MeasureContent(framing: seq<char>, c: seq<char>, z: nat)
    requires NulFree(c) && framing == Prefix(|c|)
    requires z >= 1
    ensures Strlen(framing + c + Zeros(z), |framing|) == Some(|c|)
    ensures (framing + c + Zeros(z))[..|framing| + |c|] == Frame(c)
  {
    var b := framing + c + Zeros(z);
    assert b[|framing|..|framing| + |c|] == c;
    StrlenOf(b, |framing|, |c|);
    assert b[..|framing| + |c|] == framing + c;
  }

  /** With none, `strlen` runs past the end of the buffer. */
  lemma MeasureOverruns(framing: seq<char>, c: seq<char>)
    requires NulFree(c)
    ensures Strlen(framing + c + Zeros(0), |framing|).None?
  {
    var b := framing + c + Zeros(0);
    assert b[|framing|..] == c;
  }

  /** The final `strlen` over the filled buffer. */
  lemma MeasureFinal(data: seq<char>, framing: seq<char>, c: seq<char>, z: nat)
    requires NulFree(c) && framing == Prefix(|c|)
    requires data == framing + c + Zeros(z)
    ensures z == 0 ==> Strlen(data, |framing|).None?
    ensures z > 0 ==> Strlen(data, |framing|) == Some(|c|) && data[..|framing| + |c|] == Frame(c)
  {
    if z == 0 {
      MeasureOverruns(framing, c);
    } else {
      MeasureContent(framing, c, z);
    }
  }

  lemma ContentNulFree(header: seq<char>, msg: seq<char>)
    requires NulFree(header) && NulFree(msg)
    ensures NulFree(Content(header, msg))
  {
  }

  /** `compute_commit_hash` on a `calloc`ed buffer of `alloc` chars: the
      `sprintf` of the framing and the `strlen` that measures it for
      `sizer_length`, followed by `CopyAndMeasure`.  The result is the bytes
      handed to the digest, or None when a write leaves the allocation or
      the last `strlen` finds no terminator inside it.  That happens exactly
      when the framing, the content and one terminator do not all fit;
      otherwise the digest is fed the loose-object encoding of the header,
      "\n" and the message. */
  method HashedBytesIn(alloc: nat, header: seq<char>, msg: seq<char>) returns (r: Option<seq<char>>)
    requires NulFree(header) && NulFree(msg)
    ensures r.Some? <==> |Prefix(|header| + 1 + |msg|)| + |header| + 1 + |msg| < alloc
    ensures r.Some? ==> r.value == Frame(Content(header, msg))
  {
    var framing := Prefix(|header| + 1 + |msg|);
    if |framing| > alloc {
      return None;
    }
    var data := Overwrite(Zeros(alloc), 0, framing);
    WriteFraming(alloc, framing);
    FramingMeasured(alloc, framing);
    var sizer := Strlen(data, 0).value + 1;
    r := CopyAndMeasure(data, sizer, framing, header, msg);
  }

  /** The rest of `compute_commit_hash` once the framing is in place and
      `sizer` is its length: `strncpy` the header, "\n" (two chars, so a
      NUL follows it) and the message, then take `sizer` plus the `strlen`
      of what follows. */
  method CopyAndMeasure(data: seq<char>, sizer: nat, ghost framing: seq<char>, header: seq<char>, msg: seq<char>)
    returns (r: Option<seq<char>>)
    requires NulFree(header) && NulFree(msg)
    requires framing == Prefix(|header| + 1 + |msg|) && sizer == |framing| <= |data|
    requires data == framing + Zeros(|data| - sizer)
    ensures r.Some? <==> sizer + |header| + 1 + |msg| < |data|
    ensures r.Some? ==> r.value == Frame(Content(header, msg))
  {
    var hl := |header| + 1 + |msg|;
    var alloc := |data|;
    if sizer + |header| + 2 > alloc || sizer + hl > alloc {
      return None;
    }
    var buf := CopyParts(data, sizer, framing, header, msg);
    var c := Content(header, msg);
    ContentNulFree(header, msg);
    MeasureFinal(buf, framing, c, alloc - sizer - hl);
    var n := Strlen(buf, sizer);
    if n.None? {
      return None;
    }
    r := Some(buf[..sizer + n.value]);
  }

  /** `strncpy(&buf[off], src, strlen(src))` where `buf` holds `p`
      (with `off == |p|`) followed by zeros: `src` is appended, no
      terminator is written, and the zeros after it are left as they were. */
  method CopyString(buf: seq<char>, off: nat, ghost p: seq<char>, src: seq<char>) returns (r: seq<char>)
    requires NulFree(src)
    requires off == |p| && off + |src| <= |buf|
    requires buf == p + Zeros(|buf| - off)
    ensures r == (p + src) + Zeros(|buf| - off - |src|)
  {
    r := Strncpy(buf, off, src, |src|);
    CopyIntoZeros(p, |buf| - off, src);
  }

  /** `strncpy(&buf[off], "\n", 2)` where `buf` holds `p` followed by
      zeros: the newline is appended and the padding NUL lands on a zero. */
  method CopyNewline(buf: seq<char>, off: nat, ghost p: seq<char>) returns (r: seq<char>)
    requires off == |p| && off + 2 <= |buf|
    requires buf == p + Zeros(|buf| - off)
    ensures r == (p + "\n") + Zeros(|buf| - off - 1)
  {
    r := Strncpy(buf, off, "\n", 2);
    NewlineIntoZeros(p, |buf| - off);
  }

  /** The three `strncpy` calls after the framing: the header, "\n" with
      one padding NUL, and the message.  When they all fit, the buffer holds
      the framing, the content and the remaining zeros. */
  method CopyParts(data: seq<char>, sizer: nat, ghost framing: seq<char>, header: seq<char>, msg: seq<char>)
    returns (buf: seq<char>)
    requires NulFree(header) && NulFree(msg)
    requires sizer + |header| + 2 <= |data| && sizer + |header| + 1 + |msg| <= |data|
    requires sizer == |framing| && data == framing + Zeros(|data| - sizer)
    ensures buf == framing + Content(header, msg) + Zeros(|data| - sizer - (|header| + 1 + |msg|))
  {
    buf := CopyString(data, sizer, framing, header);
    buf := CopyNewline(buf, sizer + |header|, framing + header);
    buf := CopyString(buf, sizer + |header| + 1, framing + header + "\n", msg);
    assert framing + header + "\n" + msg == framing + Content(header, msg);
  }

  /** The allocation the source makes: "commit ", four digits for the
      length, one NUL, and the content.  Framing and content fit it for
      every length of at most four digits. */
  function SourceAlloc(hl: nat): (n: nat)
    ensures hl < 10000 ==> |Prefix(hl)| + hl <= n
  {
    Decimal.NumDigitsBound(hl, 4);
    |KIND| + 4 + 1 + hl
  }

  /** For every four-digit length, framing and content fill the source's
      allocation to its last byte, leaving no room for the terminator the
      final `strlen` needs. */
  lemma SourceAllocFull(hl: nat)
    requires 1000 <= hl < 10000
    ensures |Prefix(hl)| + hl == SourceAlloc(hl)
  {
    Decimal.NumDigitsBound(hl, 4);
    Decimal.NumDigitsBound(hl, 3);
  }

  /** `compute_commit_hash` as written: the digest input is well defined
      only while the length has at most three digits. */
  method HashedBytesAsWritten(header: seq<char>, msg: seq<char>) returns (r: Option<seq<char>>)
    requires NulFree(header) && NulFree(msg)
    ensures r.Some? <==> |header| + 1 + |msg| < 1000
    ensures r.Some? ==> r.value == Frame(Content(header, msg))
  {
    var hl := |header| + 1 + |msg|;
    Decimal.NumDigitsBound(hl, 3);
    r := HashedBytesIn(SourceAlloc(hl), header, msg);
  }

  /** The allocation with room for the terminator the final `strlen`
      stops at. */
  function CorrectedAlloc(hl: nat): nat {
    SourceAlloc(hl) + 1
  }

  /** `compute_commit_hash` with the corrected allocation: for every length
      that fits the four digits reserved for it, the digest is fed exactly
      the loose-object encoding of `header ++ "\n" ++ message`, which reads
      back as that content, and no trailing NUL is hashed. */
  method HashedBytes(header: seq<char>, msg: seq<char>) returns (b: seq<char>)
    requires NulFree(header) && NulFree(msg)
    requires |header| + 1 + |msg| < 10000
    ensures b == Frame(Content(header, msg))
    ensures ParseObject(b) == Some(header + "\n" + msg)
  {
    var hl := |header| + 1 + |msg|;
    Decimal.NumDigitsBound(hl, 4);
    var r := HashedBytesIn(CorrectedAlloc(hl), header, msg);
    ParseFrame(Content(header, msg));
    b := r.value;
  }
}
