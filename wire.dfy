/**
 * The wire format shared by the host and the worker: an unsigned 32-bit
 * little-endian length followed by exactly that many payload bytes.
 */
module Wire {
  import opened Basics

  /** An octet on one of the two IPC pipes. */
  type byte = x: int | 0 <= x < 256

  /** 2^32: the smallest length that a 4-byte prefix cannot carry. */
  const LengthLimit: nat := 0x1_0000_0000

  /** The single byte the worker writes once it is ready. */
  const ReadyByte: byte := 0xFD

  /** 256 to the power k: one more than the largest number k bytes can carry. */
  function Pow256(k: nat): (p: nat)
    ensures p > 0
  {
    if k == 0 then 1 else 256 * Pow256(k - 1)
  }

  /** Reading bytes as an unsigned little-endian integer. */
  function LeNat(b: seq<byte>): nat {
    if b == [] then 0 else b[0] + 256 * LeNat(b[1..])
  }

  /** Writing n as k unsigned little-endian bytes, dropping what does not fit. */
  function LeBytes(n: nat, k: nat): (b: seq<byte>)
    ensures |b| == k
  {
    if k == 0 then [] else [n % 256] + LeBytes(n / 256, k - 1)
  }

  lemma {:induction false} LeNatBound(b: seq<byte>)
    ensures LeNat(b) < Pow256(|b|)
  {
    if b != [] {
      LeNatBound(b[1..]);
    }
  }

  lemma {:induction false} LeNatOfLeBytes(n: nat, k: nat)
    requires n < Pow256(k)
    ensures LeNat(LeBytes(n, k)) == n
  {
    if k > 0 {
      var b := LeBytes(n, k);
      assert b[0] == n % 256 && b[1..] == LeBytes(n / 256, k - 1);
      LeNatOfLeBytes(n / 256, k - 1);
    }
  }

  lemma {:induction false} LeBytesOfLeNat(b: seq<byte>)
    ensures LeBytes(LeNat(b), |b|) == b
  {
    if b != [] {
      var n := LeNat(b);
      DivModByte(b[0], LeNat(b[1..]));
      LeBytesOfLeNat(b[1..]);
      assert LeBytes(n, |b|) == [b[0]] + b[1..];
    }
  }

  /** Euclidean division of a + 256 * q by 256, for a byte a. */
  lemma DivModByte(a: int, q: int)
    requires 0 <= a < 256
    ensures (a + 256 * q) / 256 == q && (a + 256 * q) % 256 == a
  {
  }

  lemma FourBytes()
    ensures Pow256(4) == LengthLimit
  {
  }

  /** Reading a 4-byte prefix as an unsigned 32-bit little-endian integer. */
  function LeUint32(b: seq<byte>): (n: nat)
    requires |b| == 4
    ensures n < LengthLimit
  {
    LeNatBound(b);
    FourBytes();
    LeNat(b)
  }

  /** Writing a length below 2^32 as 4 unsigned little-endian bytes. */
  function Uint32Le(n: nat): (b: seq<byte>)
    requires n < LengthLimit
    ensures |b| == 4
  {
    LeBytes(n, 4)
  }

  /** Decoding the written prefix gives back the length. */
  lemma LengthRoundTrip(n: nat)
    requires n < LengthLimit
    ensures LeUint32(Uint32Le(n)) == n
  {
    FourBytes();
    LeNatOfLeBytes(n, 4);
  }

  /** Every 4-byte prefix is the encoding of the length it denotes. */
  lemma Uint32LeOfLeUint32(b: seq<byte>)
    requires |b| == 4
    ensures Uint32Le(LeUint32(b)) == b
  {
    LeBytesOfLeNat(b);
  }

  /** The length prefix of a payload, or None when its length needs more than 4 bytes. */
  function EncodeLength(n: nat): (r: Option<seq<byte>>)
    ensures r.Some? <==> n < LengthLimit
    ensures r.Some? ==> |r.value| == 4 && LeUint32(r.value) == n
  {
    if n < LengthLimit then LengthRoundTrip(n); Some(Uint32Le(n)) else None
  }

  predicate Fits(p: seq<byte>) {
    |p| < LengthLimit
  }

  ghost predicate AllFit(ps: seq<seq<byte>>) {
    forall i :: 0 <= i < |ps| ==> Fits(ps[i])
  }

  /** One frame: the length prefix, then the payload. */
  function Frame(p: seq<byte>): (f: seq<byte>)
    requires Fits(p)
    ensures |f| == 4 + |p|
  {
    Uint32Le(|p|) + p
  }

  /** The frames of the payloads, back to back, in order. */
  function Frames(ps: seq<seq<byte>>): seq<byte>
    requires AllFit(ps)
  {
    if ps == [] then [] else Frame(ps[0]) + Frames(ps[1..])
  }

  lemma FramesCons(p: seq<byte>, ps: seq<seq<byte>>)
    requires Fits(p) && AllFit(ps)
    ensures AllFit([p] + ps) && Frames([p] + ps) == Frame(p) + Frames(ps)
  {
    assert ([p] + ps)[1..] == ps;
  }

  lemma {:induction false} FramesAppend(ps: seq<seq<byte>>, p: seq<byte>)
    requires AllFit(ps) && Fits(p)
    ensures AllFit(ps + [p])
    ensures Frames(ps + [p]) == Frames(ps) + Frame(p)
  {
    assert AllFit(ps + [p]);
    if ps == [] {
      assert [p][1..] == [];
    } else {
      assert (ps + [p])[1..] == ps[1..] + [p];
      FramesAppend(ps[1..], p);
    }
  }

  /**
   * Reading one frame from the front of a byte sequence: take 4 bytes,
   * read them as the length L, then take the next L bytes. None when the
   * sequence ends first.
   */
  function ParseFrame(s: seq<byte>): (r: Option<(seq<byte>, seq<byte>)>)
    ensures r.Some? ==> |r.value.1| < |s|
  {
    if |s| < 4 then None
    else
      var n := LeUint32(s[..4]);
      if |s| - 4 < n then None else Some((s[4..4 + n], s[4 + n..]))
  }

  /** A frame followed by anything parses back to its payload and leaves the rest. */
  lemma ParseFrameOfFrame(p: seq<byte>, rest: seq<byte>)
    requires Fits(p)
    ensures ParseFrame(Frame(p) + rest) == Some((p, rest))
  {
    var s := Frame(p) + rest;
    LengthRoundTrip(|p|);
    assert s[..4] == Uint32Le(|p|);
    assert s[4..4 + |p|] == p;
    assert s[4 + |p|..] == rest;
  }

  /** Conversely, a successful frame read consumed exactly one frame of its payload. */
  lemma FrameOfParseFrame(s: seq<byte>)
    requires ParseFrame(s).Some?
    ensures var (p, rest) := ParseFrame(s).value;
            Fits(p) && s == Frame(p) + rest
  {
    var (p, rest) := ParseFrame(s).value;
    Uint32LeOfLeUint32(s[..4]);
    assert s == s[..4] + p + rest;
  }

  /** A header that was read and the payload read after it form one frame. */
  lemma HeaderThenPayload(header: seq<byte>, p: seq<byte>)
    requires |header| == 4 && LeUint32(header) == |p|
    ensures Fits(p) && header + p == Frame(p)
  {
    Uint32LeOfLeUint32(header);
  }

  /** Frames followed by anything that are the start of other frames were the first of those. */
  lemma {:induction false} FramesPrefix(a: seq<seq<byte>>, b: seq<seq<byte>>, x: seq<byte>)
    requires AllFit(a) && AllFit(b) && Frames(a) + x == Frames(b)
    ensures |a| <= |b| && a == b[..|a|]
  {
    if a != [] {
      assert b != [];
      AppendAssoc(Frame(a[0]), Frames(a[1..]), x);
      ParseFrameOfFrame(a[0], Frames(a[1..]) + x);
      ParseFrameOfFrame(b[0], Frames(b[1..]));
      FramesPrefix(a[1..], b[1..], x);
      assert a == [a[0]] + a[1..];
      assert b[..|a|] == [b[0]] + b[1..][..|a| - 1];
    }
  }

  /** Splitting a whole byte sequence into frames; None if it does not end on a frame boundary. */
  function ParseFrames(s: seq<byte>): (r: Option<seq<seq<byte>>>)
    decreases |s|
  {
    if s == [] then Some([])
    else match ParseFrame(s)
      case None => None
      case Some((p, rest)) =>
        match ParseFrames(rest)
        case None => None
        case Some(ps) => Some([p] + ps)
  }

  /** Back-to-back frames are split into exactly the payloads that were framed. */
  lemma {:induction false} ParseFramesOfFrames(ps: seq<seq<byte>>)
    requires AllFit(ps)
    ensures ParseFrames(Frames(ps)) == Some(ps)
  {
    if ps != [] {
      ParseFrameOfFrame(ps[0], Frames(ps[1..]));
      ParseFramesOfFrames(ps[1..]);
      assert [ps[0]] + ps[1..] == ps;
    }
  }

  /** And a sequence that splits into frames is those frames back to back. */
  lemma {:induction false} FramesOfParseFrames(s: seq<byte>)
    requires ParseFrames(s).Some?
    ensures AllFit(ParseFrames(s).value) && Frames(ParseFrames(s).value) == s
    decreases |s|
  {
    if s != [] {
      var (p, rest) := ParseFrame(s).value;
      FrameOfParseFrame(s);
      FramesOfParseFrames(rest);
      var ps := ParseFrames(rest).value;
      assert ParseFrames(s).value == [p] + ps;
      assert ([p] + ps)[1..] == ps;
    }
  }
}
