/** Length-prefixed string framing: `read_str` / `write_str` (core/src/lib.rs). */
module Framing {
  import opened Util

  type byte = x: nat | x < 256

  /** `mem::size_of::<usize>()` on a 64-bit target. */
  const PrefixSize: nat := 8

  /** Every `usize` is below 2^64. */
  const UsizeLimit: nat := 0x1_0000_0000_0000_0000

  function Pow256(n: nat): (p: nat)
    ensures p >= 1
  {
    if n == 0 then 1 else 256 * Pow256(n - 1)
  }

  /** `usize::to_be_bytes`, for any width: most significant byte first. */
  function BeBytes(n: nat, width: nat): (bs: seq<byte>)
    requires n < Pow256(width)
    ensures |bs| == width
  {
    if width == 0 then [] else BeBytes(n / 256, width - 1) + [n % 256]
  }

  /** `usize::from_be_bytes`. */
  function FromBe(bs: seq<byte>): (n: nat)
    ensures n < Pow256(|bs|)
  {
    if bs == [] then 0 else FromBe(bs[..|bs| - 1]) * 256 + bs[|bs| - 1]
  }

  lemma PrefixRange()
    ensures Pow256(PrefixSize) == UsizeLimit
  {
  }

  lemma {:induction false} FromBeBeBytes(n: nat, width: nat)
    requires n < Pow256(width)
    ensures FromBe(BeBytes(n, width)) == n
  {
    if width > 0 {
      FromBeBeBytes(n / 256, width - 1);
      var bs := BeBytes(n, width);
      assert bs[..|bs| - 1] == BeBytes(n / 256, width - 1);
    }
  }

  lemma {:induction false} BeBytesFromBe(bs: seq<byte>)
    ensures BeBytes(FromBe(bs), |bs|) == bs
  {
    if bs != [] {
      var init := bs[..|bs| - 1];
      BeBytesFromBe(init);
      var n := FromBe(bs);
      assert n / 256 == FromBe(init) && n % 256 == bs[|bs| - 1];
      assert bs == init + [bs[|bs| - 1]];
    }
  }

  /** Length of the well-formed UTF-8 sequence at the start of `bs`, or 0 when
      the bytes there are not one (Table 3-7 of the Unicode Standard, section 3.9). */
  function SequenceLength(bs: seq<byte>): (n: nat)
    ensures n <= |bs| && n <= 4
  {
    if bs == [] then 0
    else
      var b0 := bs[0];
      if b0 <= 0x7F then 1
      else if 0xC2 <= b0 <= 0xDF then
        (if |bs| >= 2 && Cont(bs[1], 0x80, 0xBF) then 2 else 0)
      else if 0xE0 <= b0 <= 0xEF then
        var (lo, hi) := if b0 == 0xE0 then (0xA0, 0xBF) else if b0 == 0xED then (0x80, 0x9F) else (0x80, 0xBF);
        (if |bs| >= 3 && Cont(bs[1], lo, hi) && Cont(bs[2], 0x80, 0xBF) then 3 else 0)
      else if 0xF0 <= b0 <= 0xF4 then
        var (lo, hi) := if b0 == 0xF0 then (0x90, 0xBF) else if b0 == 0xF4 then (0x80, 0x8F) else (0x80, 0xBF);
        (if |bs| >= 4 && Cont(bs[1], lo, hi) && Cont(bs[2], 0x80, 0xBF) && Cont(bs[3], 0x80, 0xBF) then 4 else 0)
      else 0
  }

  predicate Cont(b: byte, lo: byte, hi: byte) {
    lo <= b <= hi
  }

  /** What `String::from_utf8` accepts: a concatenation of well-formed sequences. */
  predicate ValidUtf8(bs: seq<byte>)
    decreases |bs|
  {
    bs == [] || (SequenceLength(bs) > 0 && ValidUtf8(bs[SequenceLength(bs)..]))
  }

  /** ASCII text is valid UTF-8. */
  lemma {:induction false} AsciiIsUtf8(bs: seq<byte>)
    requires forall k :: 0 <= k < |bs| ==> bs[k] < 0x80
    ensures ValidUtf8(bs)
  {
    if bs != [] {
      AsciiIsUtf8(bs[1..]);
    }
  }

  datatype IoError =
    | UnexpectedEof            // `read_exact` hit the end of the stream
    | InvalidData(message: string)

  const ParseFailure: string := "Failed to parse string"

  /** The bytes `write_str(s)` emits: the byte length of `s` as eight big-endian
      bytes, then the bytes of `s`. */
  function Encode(s: seq<byte>): (frame: seq<byte>)
    requires |s| < UsizeLimit
    ensures |frame| == PrefixSize + |s|
    ensures frame[PrefixSize..] == s
  {
    PrefixRange();
    BeBytes(|s|, PrefixSize) + s
  }

  /** The length prefix of a frame, the part `write_str` writes first. */
  function Header(s: seq<byte>): (header: seq<byte>)
    requires |s| < UsizeLimit
    ensures header + s == Encode(s)
  {
    PrefixRange();
    BeBytes(|s|, PrefixSize)
  }

  /** What `read_str` returns on a stream holding `bs`, and what it leaves
      unread. A read that runs out of bytes drains the stream. */
  function Decode(bs: seq<byte>): (out: (Result<seq<byte>, IoError>, seq<byte>)) {
    if |bs| < PrefixSize then (Err(UnexpectedEof), [])
    else
      var n := FromBe(bs[..PrefixSize]);
      var rest := bs[PrefixSize..];
      if |rest| < n then (Err(UnexpectedEof), [])
      else if ValidUtf8(rest[..n]) then (Ok(rest[..n]), rest[n..])
      else (Err(InvalidData(ParseFailure)), rest[n..])
  }

  /** A stream whose header announces `|s|` and whose payload begins with `s`. */
  lemma DecodeAnnounced(bs: seq<byte>, s: seq<byte>, rest: seq<byte>)
    requires |bs| >= PrefixSize
    requires FromBe(bs[..PrefixSize]) == |s|
    requires bs[PrefixSize..] == s + rest
    ensures Decode(bs) == (if ValidUtf8(s) then Ok(s) else Err(InvalidData(ParseFailure)), rest)
  {
    assert (s + rest)[..|s|] == s;
    assert (s + rest)[|s|..] == rest;
  }

  /** A frame followed by anything: its header announces the payload's length. */
  lemma EncodeLayout(s: seq<byte>, rest: seq<byte>)
    requires |s| < UsizeLimit
    ensures var bs := Encode(s) + rest;
      && |bs| >= PrefixSize
      && FromBe(bs[..PrefixSize]) == |s|
      && bs[PrefixSize..] == s + rest
  {
    var bs := Encode(s) + rest;
    PrefixRange();
    var header := BeBytes(|s|, PrefixSize);
    assert bs == header + (s + rest);
    assert bs[..PrefixSize] == header;
    FromBeBeBytes(|s|, PrefixSize);
  }

  /** Reading what `write_str(s)` wrote gives `s` back and leaves the rest. */
  lemma DecodeEncode(s: seq<byte>, rest: seq<byte>)
    requires ValidUtf8(s) && |s| < UsizeLimit
    ensures Decode(Encode(s) + rest) == (Ok(s), rest)
  {
    EncodeLayout(s, rest);
    DecodeAnnounced(Encode(s) + rest, s, rest);
  }

  /** The JSON texts of `Request` and `Response` hold only field names, piece
      letters, numbers and punctuation, so they are ASCII: every such frame
      is read back without a UTF-8 failure. */
  lemma AsciiFrameRoundTrip(s: seq<byte>, rest: seq<byte>)
    requires forall k :: 0 <= k < |s| ==> s[k] < 0x80
    requires |s| < UsizeLimit
    ensures Decode(Encode(s) + rest) == (Ok(s), rest)
  {
    AsciiIsUtf8(s);
    DecodeEncode(s, rest);
  }

  /** Conversely, a successful read consumed exactly one frame: the stream was
      a frame of the returned string followed by what is left. */
  lemma EncodeDecode(bs: seq<byte>)
    requires Decode(bs).0.Ok?
    ensures var (r, rest) := Decode(bs);
      && ValidUtf8(r.value)
      && |r.value| < UsizeLimit
      && bs == Encode(r.value) + rest
  {
    var n := FromBe(bs[..PrefixSize]);
    var rest := bs[PrefixSize..];
    PrefixRange();
    BeBytesFromBe(bs[..PrefixSize]);
    assert BeBytes(n, PrefixSize) == bs[..PrefixSize];
    assert bs == bs[..PrefixSize] + rest[..n] + rest[n..];
  }

  /** A read fails exactly when the header or the payload is short, or the
      payload is not UTF-8; nothing bounds the length the header announces. */
  lemma DecodeFailures(bs: seq<byte>)
    ensures |bs| < PrefixSize ==> Decode(bs) == (Err(UnexpectedEof), [])
    ensures |bs| >= PrefixSize && |bs| - PrefixSize < FromBe(bs[..PrefixSize]) ==>
      Decode(bs) == (Err(UnexpectedEof), [])
    ensures |bs| >= PrefixSize && FromBe(bs[..PrefixSize]) <= |bs| - PrefixSize ==>
      var payload := bs[PrefixSize..PrefixSize + FromBe(bs[..PrefixSize])];
      (Decode(bs).0 == Ok(payload) <==> ValidUtf8(payload)) &&
      (!ValidUtf8(payload) ==> Decode(bs).0 == Err(InvalidData(ParseFailure)))
  {
    if |bs| >= PrefixSize {
      var n := FromBe(bs[..PrefixSize]);
      if n <= |bs| - PrefixSize {
        assert bs[PrefixSize..][..n] == bs[PrefixSize..PrefixSize + n];
      }
    }
  }

  /** The receiving end of a stream: the bytes not yet read. */
  class Reader {
    var pending: seq<byte>

    constructor (bytes: seq<byte>)
      ensures pending == bytes
    {
      pending := bytes;
    }

    /** `Read::read_exact`: exactly `n` bytes, or `UnexpectedEof` once the
        stream ends first (having consumed what was there). */
    method ReadExact(n: nat) returns (r: Result<seq<byte>, IoError>)
      modifies this
      ensures n <= |old(pending)| ==> r == Ok(old(pending)[..n]) && pending == old(pending)[n..]
      ensures n > |old(pending)| ==> r == Err(UnexpectedEof) && pending == []
    {
      if n <= |pending| {
        r := Ok(pending[..n]);
        pending := pending[n..];
      } else {
        r := Err(UnexpectedEof);
        pending := [];
      }
    }

    /** `read_str`. */
    method ReadStr() returns (r: Result<seq<byte>, IoError>)
      modifies this
      ensures (r, pending) == Decode(old(pending))
    {
      var size := ReadExact(PrefixSize);
      if size.Err? {
        return Err(size.error);
      }
      var n := FromBe(size.value);
      var data := ReadExact(n);
      if data.Err? {
        return Err(data.error);
      }
      if !ValidUtf8(data.value) {
        return Err(InvalidData(ParseFailure));
      }
      r := Ok(data.value);
    }
  }

  /** The sending end of a stream: the bytes written so far. */
  class Writer {
    var written: seq<byte>

    constructor ()
      ensures written == []
    {
      written := [];
    }

    /** `Write::write_all` on a sink that accepts everything. */
    method WriteAll(bs: seq<byte>)
      modifies this
      ensures written == old(written) + bs
    {
      written := written + bs;
    }

    /** `write_str`: a `&str` is valid UTF-8 and its length fits a `usize`. */
    method WriteStr(s: seq<byte>)
      requires ValidUtf8(s) && |s| < UsizeLimit
      modifies this
      ensures written == old(written) + Encode(s)
    {
      var header := Header(s);
      WriteAll(header);
      WriteAll(s);
      assert written == old(written) + (header + s);
    }
  }

  /** A string written to one end is read back whole at the other. */
  method FrameRoundTrip(s: seq<byte>, rest: seq<byte>) returns (r: Result<seq<byte>, IoError>)
    requires ValidUtf8(s) && |s| < UsizeLimit
    ensures r == Ok(s)
  {
    var w := new Writer();
    w.WriteStr(s);
    assert w.written == Encode(s);
    var rd := new Reader(w.written + rest);
    DecodeEncode(s, rest);
    r := rd.ReadStr();
  }
}
