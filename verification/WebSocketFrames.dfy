/** The WebSocket text frames the local radar server writes to browsers, and a reader for them
    (section 5.2 of RFC 6455). */
module WebSocketFrames {
  import opened Common

  const TWO_32 := 0x1_0000_0000

  /** A socket as the bytes handed to `sendall` so far. */
  class BrowserSocket {
    var sent: Bytes

    constructor ()
      ensures sent == []
    {
      sent := [];
    }

    /** `_BrowserSocket.send`, on the UTF-8 payload. */
    method Send(payload: Bytes)
      modifies this
      ensures sent == old(sent) + Frame(payload)
    {
      var n := |payload|;
      var frame: Bytes := [0x81];
      if n < 126 {
        frame := frame + [n];
      } else if n < 65536 {
        frame := frame + [126, (n / 0x100) % 256, n % 256];
        assert BigEndian(n, 2) == [(n / 0x100) % 256, n % 256];
      } else {
        frame := frame + [127, 0, 0, 0, 0, (n / 0x100_0000) % 256, (n / 0x1_0000) % 256,
                          (n / 0x100) % 256, n % 256];
        LowWord(n);
        assert frame == [0x81] + ([127] + BigEndian(n % TWO_32, 8));
      }
      assert frame == Head(n);
      sent := sent + (frame + payload);
      assert sent == old(sent) + Frame(payload);
    }

    /** Any number of messages, sent one after the other. */
    method SendAll(ms: seq<Bytes>)
      modifies this
      ensures sent == old(sent) + Stream(ms)
    {
      var i := 0;
      assert ms[..0] == [] && ms[..|ms|] == ms;
      while i < |ms|
        invariant 0 <= i <= |ms|
        invariant sent == old(sent) + Stream(ms[..i])
      {
        Send(ms[i]);
        assert ms[..i + 1][..i] == ms[..i];
        i := i + 1;
      }
    }
  }

  // ---------------------------------------------------------------- the frame format

  /** The `n` low-order bytes of v, most significant first. */
  function BigEndian(v: nat, n: nat): (b: Bytes)
    ensures |b| == n
  {
    if n == 0 then [] else BigEndian(v / 256, n - 1) + [v % 256]
  }

  function FromBigEndian(b: Bytes): nat {
    if b == [] then 0 else 256 * FromBigEndian(b[..|b| - 1]) + b[|b| - 1]
  }

  lemma {:induction false} BigEndianInverse(v: nat, n: nat)
    requires v < Pow256(n)
    ensures FromBigEndian(BigEndian(v, n)) == v
  {
    if n > 0 {
      BigEndianInverse(v / 256, n - 1);
      assert BigEndian(v, n)[..n - 1] == BigEndian(v / 256, n - 1);
    }
  }

  lemma {:induction false} BigEndianOnto(b: Bytes)
    ensures FromBigEndian(b) < Pow256(|b|)
    ensures BigEndian(FromBigEndian(b), |b|) == b
  {
    if b != [] {
      var front := b[..|b| - 1];
      BigEndianOnto(front);
      assert FromBigEndian(b) / 256 == FromBigEndian(front);
      assert b == front + [b[|b| - 1]];
    }
  }

  /** FIN, opcode text, no mask, and the length in the shortest of the three forms. Only the low 32 bits of
      the 64-bit form are written. */
  function Head(n: nat): Bytes {
    [0x81] + if n < 126 then [n]
             else if n < 65536 then [126] + BigEndian(n, 2)
             else [127] + BigEndian(n % TWO_32, 8)
  }

  function Frame(payload: Bytes): Bytes {
    Head(|payload|) + payload
  }

  function Stream(ms: seq<Bytes>): Bytes {
    if ms == [] then [] else Stream(ms[..|ms| - 1]) + Frame(ms[|ms| - 1])
  }

  lemma PushByte(v: nat, n: nat, d: Byte)
    ensures BigEndian(256 * v + d, n + 1) == BigEndian(v, n) + [d]
  {
  }

  lemma FourBytes(a: Byte, b: Byte, c: Byte, d: Byte)
    ensures BigEndian(0x100_0000 * a + 0x1_0000 * b + 0x100 * c + d, 8) == [0, 0, 0, 0, a, b, c, d]
  {
    hide BigEndian;
    ZeroBytes();
    PushByte(0, 4, a);
    PushByte(a, 5, b);
    PushByte(256 * a + b, 6, c);
    PushByte(256 * (256 * a + b) + c, 7, d);
  }

  lemma ZeroBytes()
    ensures BigEndian(0, 4) == [0, 0, 0, 0]
  {
    assert BigEndian(0, 2) == [0, 0];
  }

  /** The shifts and masks of the 64-bit form spell the low word of n. */
  lemma LowWord(n: nat)
    ensures BigEndian(n % TWO_32, 8)
         == [0, 0, 0, 0, (n / 0x100_0000) % 256, (n / 0x1_0000) % 256, (n / 0x100) % 256, n % 256]
  {
    FourBytes((n / 0x100_0000) % 256, (n / 0x1_0000) % 256, (n / 0x100) % 256, n % 256);
    Quotients(n);
  }

  lemma Quotients(n: nat)
    ensures n % TWO_32 == 0x100_0000 * ((n / 0x100_0000) % 256) + 0x1_0000 * ((n / 0x1_0000) % 256)
                          + 0x100 * ((n / 0x100) % 256) + n % 256
  {
    var n1 := n / 256;
    var n2 := n1 / 256;
    var n3 := n2 / 256;
    var n4 := n3 / 256;
    var b0, b1, b2, b3 := n % 256, n1 % 256, n2 % 256, n3 % 256;
    assert n == 256 * n1 + b0 && n1 == 256 * n2 + b1 && n2 == 256 * n3 + b2 && n3 == 256 * n4 + b3;
    DivisionIsUnique(n, 0x1_0000, n2, 0x100 * b1 + b0);
    DivisionIsUnique(n, 0x100_0000, n3, 0x1_0000 * b2 + 0x100 * b1 + b0);
    DivisionIsUnique(n, TWO_32, n4, 0x100_0000 * b3 + 0x1_0000 * b2 + 0x100 * b1 + b0);
  }

  // ---------------------------------------------------------------- a reader

  datatype Split = Split(message: Bytes, rest: Bytes)

  function TakePayload(b: Bytes, at: nat, n: nat): Option<Split> {
    if at + n > |b| then None else Some(Split(b[at..at + n], b[at + n..]))
  }

  /** One unmasked, unfragmented text frame from the front of `b`; lengths must come in minimal form. */
  function ReadFrame(b: Bytes): Option<Split> {
    if |b| < 2 || b[0] != 0x81 then None
    else if b[1] < 126 then TakePayload(b, 2, b[1])
    else if b[1] == 126 then
      if |b| < 4 then None
      else
        var n := FromBigEndian(b[2..4]);
        if n < 126 then None else TakePayload(b, 4, n)
    else if b[1] == 127 then
      if |b| < 10 || b[2] >= 128 then None
      else
        var n := FromBigEndian(b[2..10]);
        if n < 65536 then None else TakePayload(b, 10, n)
    else None  // the mask bit is set
  }

  function ReadStream(b: Bytes): Option<seq<Bytes>>
    decreases |b|
  {
    if b == [] then Some([])
    else
      var s := ReadFrame(b);
      if s.None? then None
      else
        var rest := ReadStream(s.value.rest);
        if rest.None? then None else Some([s.value.message] + rest.value)
  }

  /** The announced length is the payload's length modulo 2^32, in the shortest form that holds it. */
  lemma ReadHead(n: nat, tail: Bytes)
    ensures n < 126 ==> |Head(n)| == 2 && ReadFrame(Head(n) + tail) == TakePayload(Head(n) + tail, 2, n)
    ensures 126 <= n < 65536 ==> |Head(n)| == 4 && ReadFrame(Head(n) + tail) == TakePayload(Head(n) + tail, 4, n)
    ensures 65536 <= n ==>
              |Head(n)| == 10
              && ReadFrame(Head(n) + tail)
                 == if n % TWO_32 < 65536 then None else TakePayload(Head(n) + tail, 10, n % TWO_32)
  {
    var b := Head(n) + tail;
    if 126 <= n < 65536 {
      assert b[2..4] == BigEndian(n, 2);
      assert Pow256(2) == 65536;
      BigEndianInverse(n, 2);
    } else if n >= 65536 {
      assert b[2..10] == BigEndian(n % TWO_32, 8);
      LowWord(n);
      assert b[2] == BigEndian(n % TWO_32, 8)[0] == 0;
      assert Pow256(8) == TWO_32 * TWO_32 by {
        assert Pow256(4) == TWO_32 by { assert Pow256(2) == 65536; }
        assert Pow256(6) == 65536 * Pow256(4);
      }
      BigEndianInverse(n % TWO_32, 8);
    }
  }

  /** A frame is read back exactly when its payload is shorter than 2^32 bytes. */
  lemma FrameRoundTripIff(m: Bytes, rest: Bytes)
    ensures ReadFrame(Frame(m) + rest) == Some(Split(m, rest)) <==> |m| < TWO_32
  {
    hide Head, ReadFrame;
    var b := Frame(m) + rest;
    var h := Head(|m|);
    assert b == h + (m + rest);
    ReadHead(|m|, m + rest);
    assert b[|h|..|h| + |m|] == m && b[|h| + |m|..] == rest;
  }

  /** The shortest payload that is not read back: its announced length is 0, in the long form. */
  lemma LongFrameIsRefused() returns (m: Bytes)
    ensures |m| == TWO_32 && ReadFrame(Frame(m)) == None
  {
    m := seq(TWO_32, _ => 0);
    ReadHead(TWO_32, m);
  }

  /** Any sequence of messages, each under 2^32 bytes, comes out of the concatenated frames as it went in. */
  lemma {:induction false} StreamRoundTrip(ms: seq<Bytes>, tail: Bytes, rest: seq<Bytes>)
    requires forall i :: 0 <= i < |ms| ==> |ms[i]| < TWO_32
    requires ReadStream(tail) == Some(rest)
    ensures ReadStream(Stream(ms) + tail) == Some(ms + rest)
    decreases |ms|
  {
    hide ReadFrame, Frame;
    if ms == [] {
      assert Stream(ms) + tail == tail && ms + rest == rest;
    } else {
      var front, m := ms[..|ms| - 1], ms[|ms| - 1];
      FrameRoundTripIff(m, tail);
      FrameNotEmpty(m);
      assert ReadStream(Frame(m) + tail) == Some([m] + rest);
      StreamRoundTrip(front, Frame(m) + tail, [m] + rest);
      assert Stream(ms) + tail == Stream(front) + (Frame(m) + tail);
      assert ms + rest == front + ([m] + rest);
    }
  }

  lemma FrameNotEmpty(m: Bytes)
    ensures Frame(m) != []
  {
  }

  lemma MessagesComeBack(ms: seq<Bytes>)
    requires forall i :: 0 <= i < |ms| ==> |ms[i]| < TWO_32
    ensures ReadStream(Stream(ms)) == Some(ms)
  {
    hide Stream;
    StreamRoundTrip(ms, [], []);
    assert Stream(ms) + [] == Stream(ms) && ms + [] == ms;
  }

  /** Conversely, what the reader accepts as a message under 2^32 bytes is the frame the server writes. */
  lemma AcceptedIsFrame(b: Bytes)
    requires ReadFrame(b).Some? && |ReadFrame(b).value.message| < TWO_32
    ensures b == Frame(ReadFrame(b).value.message) + ReadFrame(b).value.rest
  {
    hide BigEndian, FromBigEndian;
    var n := |ReadFrame(b).value.message|;
    if b[1] == 126 {
      BigEndianOnto(b[2..4]);
      assert b[..4] == Head(n);
      PutTogether(b, 4, n);
    } else if b[1] == 127 {
      BigEndianOnto(b[2..10]);
      assert n % TWO_32 == n;
      assert b[2..10] == BigEndian(n, 8);
      assert b[..10] == [0x81] + ([127] + b[2..10]);
      assert b[..10] == Head(n);
      PutTogether(b, 10, n);
    } else {
      assert b[..2] == [0x81] + [b[1]] == Head(n);
      PutTogether(b, 2, n);
    }
  }

  lemma PutTogether(b: Bytes, at: nat, n: nat)
    requires at + n <= |b| && b[..at] == Head(n)
    ensures b == Frame(b[at..at + n]) + b[at + n..]
  {
    hide Head;
    assert b == b[..at] + b[at..at + n] + b[at + n..];
  }

  /** The three forms of a frame, byte by byte (section 5.2 of RFC 6455): final fragment, opcode 1 for text, no mask. */
  lemma FrameForms(m: Bytes)
    ensures |m| < 126 ==> Frame(m) == [0x81, |m|] + m
    ensures 126 <= |m| < 0x1_0000 ==> Frame(m) == [0x81, 126, |m| / 0x100, |m| % 0x100] + m
    ensures 0x1_0000 <= |m| < 0x1_0000_0000 ==>
              Frame(m) == [0x81, 127, 0, 0, 0, 0, |m| / 0x100_0000, (|m| / 0x1_0000) % 0x100, (|m| / 0x100) % 0x100,
                           |m| % 0x100] + m
  {
    HeadForms(|m|);
    hide Head;
  }

  lemma HeadForms(n: nat)
    ensures n < 126 ==> Head(n) == [0x81, n]
    ensures 126 <= n < 0x1_0000 ==> Head(n) == [0x81, 126, n / 0x100, n % 0x100]
    ensures 0x1_0000 <= n < 0x1_0000_0000 ==>
              Head(n) == [0x81, 127, 0, 0, 0, 0, n / 0x100_0000, (n / 0x1_0000) % 0x100, (n / 0x100) % 0x100, n % 0x100]
  {
    hide BigEndian;
    if n < 126 {
      assert Head(n) == [0x81] + [n];
    } else if n < 0x1_0000 {
      TwoBytes(n);
      assert Head(n) == [0x81] + ([126] + [n / 0x100, n % 0x100]);
    } else if n < 0x1_0000_0000 {
      LowWord(n);
      assert (n / 0x100_0000) % 256 == n / 0x100_0000;
      var low: Bytes := [0, 0, 0, 0, n / 0x100_0000, (n / 0x1_0000) % 0x100, (n / 0x100) % 0x100, n % 0x100];
      assert Head(n) == [0x81] + ([127] + low);
    }
  }

  lemma TwoBytes(n: nat)
    requires n < 0x1_0000
    ensures BigEndian(n, 2) == [n / 0x100, n % 0x100]
  {
    assert BigEndian(n / 256, 1) == [n / 256];
  }
}
