/** The LoRaWAN MAC frame parser of the packet sniffer (frame layout: section 4 of the LoRaWAN 1.0.3
    Specification). */
module LoRaWan {
  import opened Common

  /** The flag bits the parser prints from FCtrl; the middle two depend on the direction. */
  datatype Flags = Flags(adr: bool, adrAckReq: bool, ack: bool, fPending: bool)

  datatype Frame =
    | TooShort                                       // fewer than four bytes: nothing is printed
    | Truncated(mtype: nat)
    | JoinRequest(joinEui: Bytes, devEui: Bytes, devNonce: nat)
    | JoinAccept
    | Data(mtype: nat, devAddr: nat, flags: Flags, fCnt: nat, fOpts: Bytes, port: Option<Byte>,
           payload: Bytes, mic: Bytes)
    | FOptsOverrun(devAddr: nat)
    | Rejoin1(rejoinEui: Bytes, rejoinDevEui: Bytes)
    | Rejoin(rejoinType: Byte, rejoinDev: Bytes)
    | Proprietary(shown: Bytes, size: nat)

  function Bit(b: Byte, n: nat): bool {
    match n
    case 4 => (b / 16) % 2 == 1
    case 5 => (b / 32) % 2 == 1
    case 6 => (b / 64) % 2 == 1
    case _ => b / 128 == 1
  }

  function FlagsOf(mtype: nat, fctrl: Byte): Flags {
    var up := mtype % 2 == 0;
    Flags(Bit(fctrl, 7), up && Bit(fctrl, 6), Bit(fctrl, 5), !up && Bit(fctrl, 4))
  }

  /** The data-frame case of `decode_lorawan`. */
  method DecodeDataFrame(buf: Bytes) returns (f: Frame)
    requires |buf| >= 4 && 2 <= buf[0] / 32 <= 5
    ensures f == FrameOf(buf)
  {
    hide FlagsOf, FromLittleEndian, Build, Header;
    var mtype := buf[0] / 32;
    if |buf| < 12 { return Truncated(mtype); }
    var devaddr := FromLittleEndian(buf[1..5]);
    var fctrl := buf[5];
    var fcnt := FromLittleEndian(buf[6..8]);
    var fol := fctrl % 16;
    var fp := 8 + fol;
    if fp + 4 > |buf| { return FOptsOverrun(devaddr); }
    var hasPort := fp + 4 < |buf|;
    var fport := if hasPort then Some(buf[fp]) else None;
    var plen := if hasPort then |buf| - fp - 1 - 4 else 0;
    assert fctrl == 16 * (fctrl / 16) + fol;
    ghost var rest := buf[fp..|buf| - 4];
    assert hasPort ==> rest[1..] == buf[fp + 1..fp + 1 + plen];
    f := Data(mtype, devaddr, FlagsOf(mtype, fctrl), fcnt, buf[8..fp], fport,
              if hasPort then buf[fp + 1..fp + 1 + plen] else [], buf[|buf| - 4..]);
  }

  /** `decode_lorawan`, with the branches and lengths of the C function. */
  method DecodeLoRaWan(buf: Bytes) returns (f: Frame)
    ensures f == FrameOf(buf)
  {
    hide FromLittleEndian, Cut, Reported;
    if |buf| < 4 { return TooShort; }
    var mtype := buf[0] / 32;
    if mtype == 0 {
      if |buf| < 23 { return Truncated(0); }
      return JoinRequest(buf[1..9], buf[9..17], FromLittleEndian(buf[17..19]));
    } else if mtype == 1 {
      return JoinAccept;
    } else if mtype in {2, 3, 4, 5} {
      f := DecodeDataFrame(buf);
    } else if mtype == 6 {
      if |buf| < 19 { return Truncated(6); }
      if buf[1] == 1 && |buf| >= 24 {
        return Rejoin1(buf[2..10], buf[10..18]);
      }
      return Rejoin(buf[1], buf[5..13]);
    } else {
      return Proprietary(if |buf| < 24 then buf else buf[..24], |buf|);
    }
  }

  // ---------------------------------------------------------------- the layout of the specification

  /** A data frame in the parts the specification names. */
  datatype DataParts = DataParts(
    mtype: nat, minor: nat, devAddr: nat, fctrlHigh: nat, fCnt: nat, fOpts: Bytes,
    app: Option<(Byte, Bytes)>, mic: Bytes)

  predicate IsDataParts(p: DataParts) {
    2 <= p.mtype <= 5 && p.minor < 32 && p.devAddr < Pow256(4) && p.fctrlHigh < 16 && p.fCnt < Pow256(2)
    && |p.fOpts| < 16 && |p.mic| == 4
  }

  function AppBytes(p: DataParts): Bytes {
    if p.app.Some? then [p.app.value.0] + p.app.value.1 else []
  }

  /** MHDR | DevAddr | FCtrl | FCnt | FOpts | [FPort | FRMPayload] | MIC */
  function Header(p: DataParts): Bytes
    requires IsDataParts(p)
  {
    [32 * p.mtype + p.minor] + LittleEndian(p.devAddr, 4) + [16 * p.fctrlHigh + |p.fOpts|]
    + LittleEndian(p.fCnt, 2)
  }

  function Build(p: DataParts): Bytes
    requires IsDataParts(p)
  {
    Header(p) + p.fOpts + AppBytes(p) + p.mic
  }

  /** What the parser reports of a frame built from `p`. */
  function Reported(p: DataParts): Frame
    requires IsDataParts(p)
  {
    Data(p.mtype, p.devAddr, FlagsOf(p.mtype, 16 * p.fctrlHigh + |p.fOpts|), p.fCnt, p.fOpts,
         if p.app.Some? then Some(p.app.value.0) else None,
         if p.app.Some? then p.app.value.1 else [], p.mic)
  }

  function Eui(b: Bytes, pos: nat): Bytes
    requires pos + 8 <= |b|
  {
    b[pos..pos + 8]
  }

  /** Reading a frame as the specification cuts it: eight header bytes, then FOpts as long as FCtrl says,
      the MIC at the end, and whatever lies between as port and payload. */
  function FrameOf(buf: Bytes): Frame {
    if |buf| < 4 then TooShort
    else
      var mtype := buf[0] / 32;
      if mtype == 0 then
        if |buf| < 23 then Truncated(0)
        else JoinRequest(Eui(buf, 1), Eui(buf, 9), FromLittleEndian(buf[17..19]))
      else if mtype == 1 then JoinAccept
      else if mtype <= 5 then
        if |buf| < 12 then Truncated(mtype)
        else if 12 + buf[5] % 16 > |buf| then FOptsOverrun(FromLittleEndian(buf[1..5]))
        else Reported(Cut(buf))
      else if mtype == 6 then
        if |buf| < 19 then Truncated(6)
        else if buf[1] == 1 && |buf| >= 24 then Rejoin1(Eui(buf, 2), Eui(buf, 10))
        else Rejoin(buf[1], Eui(buf, 5))
      else Proprietary(if |buf| < 24 then buf else buf[..24], |buf|)
  }

  predicate IsAcceptedData(buf: Bytes) {
    |buf| >= 12 && 64 <= buf[0] < 192 && 12 + buf[5] % 16 <= |buf|
  }

  function Cut(buf: Bytes): (p: DataParts)
    requires IsAcceptedData(buf)
    ensures IsDataParts(p)
  {
    var fp := 8 + buf[5] % 16;
    var rest := buf[fp..|buf| - 4];
    LittleEndianOnto(buf[1..5]);
    LittleEndianOnto(buf[6..8]);
    DataParts(buf[0] / 32, buf[0] % 32, FromLittleEndian(buf[1..5]), buf[5] / 16,
              FromLittleEndian(buf[6..8]), buf[8..fp],
              if rest == [] then None else Some((rest[0], rest[1..])), buf[|buf| - 4..])
  }

  /** The parser reports a data frame exactly when the header, the FOpts it announces and the MIC fit. */
  lemma DataAcceptedIff(buf: Bytes)
    ensures FrameOf(buf).Data? <==> IsAcceptedData(buf)
  {
  }

  /** Every accepted data frame is partitioned: the parts, put back together, are the bytes received. */
  lemma PartitionsExactly(buf: Bytes)
    requires IsAcceptedData(buf)
    ensures Build(Cut(buf)) == buf
  {
    var p := Cut(buf);
    var fp := 8 + buf[5] % 16;
    LittleEndianOnto(buf[1..5]);
    LittleEndianOnto(buf[6..8]);
    assert Header(p) == buf[..8] by {
      assert buf[..8] == [buf[0]] + buf[1..5] + [buf[5]] + buf[6..8];
    }
    assert AppBytes(p) == buf[fp..|buf| - 4];
    assert buf == buf[..8] + buf[8..fp] + buf[fp..|buf| - 4] + buf[|buf| - 4..];
  }

  /** The header fields, read where the parser reads them. */
  lemma HeaderRead(p: DataParts)
    requires IsDataParts(p)
    ensures var h := Header(p);
            |h| == 8 && h[0] / 32 == p.mtype && h[0] % 32 == p.minor
            && h[5] % 16 == |p.fOpts| && h[5] / 16 == p.fctrlHigh
            && FromLittleEndian(h[1..5]) == p.devAddr && FromLittleEndian(h[6..8]) == p.fCnt
  {
    var h := Header(p);
    assert h[1..5] == LittleEndian(p.devAddr, 4) && h[6..8] == LittleEndian(p.fCnt, 2);
    LittleEndianInverse(p.devAddr, 4);
    LittleEndianInverse(p.fCnt, 2);
    hide LittleEndian, FromLittleEndian, Pow256;
    assert h[0] == 32 * p.mtype + p.minor && h[5] == 16 * p.fctrlHigh + |p.fOpts|;
  }

  /** Where the parts of a built frame stand. */
  lemma BuiltSlices(h: Bytes, o: Bytes, app: Bytes, mic: Bytes)
    requires |h| == 8 && |mic| == 4
    ensures var (buf, fp) := (h + o + app + mic, 8 + |o|);
            buf[0] == h[0] && buf[5] == h[5] && buf[1..5] == h[1..5] && buf[6..8] == h[6..8]
            && buf[8..fp] == o && buf[fp..|buf| - 4] == app && buf[|buf| - 4..] == mic
  {
    var buf := h + o + app + mic;
    assert buf[..8] == h;
    assert buf[1..5] == buf[..8][1..5] && buf[6..8] == buf[..8][6..8];
  }

  /** The parser inverts the builder, for all FOpts lengths and all payloads. */
  lemma CutInvertsBuild(p: DataParts)
    requires IsDataParts(p)
    ensures IsAcceptedData(Build(p)) && Cut(Build(p)) == p
    ensures FrameOf(Build(p)) == Reported(p)
  {
    hide Header, FromLittleEndian, LittleEndian, Pow256;
    HeaderRead(p);
    BuiltSlices(Header(p), p.fOpts, AppBytes(p), p.mic);
    AppBytesRead(p);
  }

  lemma AppBytesRead(p: DataParts)
    ensures var rest := AppBytes(p); p.app == if rest == [] then None else Some((rest[0], rest[1..]))
  {
    if p.app.Some? {
      assert AppBytes(p)[1..] == p.app.value.1;
      assert p.app.value == (p.app.value.0, p.app.value.1);
    }
  }

  /** Two frames the parser accepts and reports with the same parts are the same bytes. */
  lemma CutIsInjective(a: Bytes, b: Bytes)
    requires IsAcceptedData(a) && IsAcceptedData(b) && Cut(a) == Cut(b)
    ensures a == b
  {
    PartitionsExactly(a);
    PartitionsExactly(b);
  }

  /** A join request built from its three parts is read back, whatever its MIC. */
  lemma JoinRequestRoundTrip(minor: nat, joinEui: Bytes, devEui: Bytes, nonce: nat, mic: Bytes)
    requires minor < 32 && |joinEui| == |devEui| == 8 && nonce < Pow256(2) && |mic| == 4
    ensures var b: Bytes := [minor] + joinEui + devEui + LittleEndian(nonce, 2) + mic;
            FrameOf(b) == JoinRequest(joinEui, devEui, nonce)
  {
    var b: Bytes := [minor] + joinEui + devEui + LittleEndian(nonce, 2) + mic;
    LittleEndianInverse(nonce, 2);
    assert b[1..9] == joinEui && b[9..17] == devEui && b[17..19] == LittleEndian(nonce, 2);
  }

  // ---------------------------------------------------------------- flags, and the rejoin requests

  function OnIf(b: bool): nat { if b then 1 else 0 }

  /** The high half of FCtrl: ADR, ADRACKReq (uplinks only), ACK, FPending (downlinks only), from bit 7 down. */
  function FlagBits(adr: bool, adrAckReq: bool, ack: bool, fPending: bool): nat {
    8 * OnIf(adr) + 4 * OnIf(adrAckReq) + 2 * OnIf(ack) + OnIf(fPending)
  }

  /** A data frame built with these flags is reported with them, each from its own bit: message types 2 and 4 go up, 3
      and 5 come down, and the bit that means something only in the other direction is not reported. */
  lemma FlagsComeBack(p: DataParts, adr: bool, adrAckReq: bool, ack: bool, fPending: bool)
    requires IsDataParts(p) && p.fctrlHigh == FlagBits(adr, adrAckReq, ack, fPending)
    ensures var up := p.mtype == 2 || p.mtype == 4;
            FrameOf(Build(p))
            == Data(p.mtype, p.devAddr, Flags(adr, up && adrAckReq, ack, !up && fPending), p.fCnt, p.fOpts,
                    if p.app.Some? then Some(p.app.value.0) else None,
                    if p.app.Some? then p.app.value.1 else [], p.mic)
  {
    hide Build, FrameOf;
    CutInvertsBuild(p);
    FlagsRead(p.mtype, p.fctrlHigh, |p.fOpts|, adr, adrAckReq, ack, fPending);
  }

  lemma FlagsRead(mtype: nat, high: nat, low: nat, adr: bool, adrAckReq: bool, ack: bool, fPending: bool)
    requires 2 <= mtype <= 5 && low < 16 && high == FlagBits(adr, adrAckReq, ack, fPending)
    ensures high < 16
    ensures var up := mtype == 2 || mtype == 4;
            FlagsOf(mtype, 16 * high + low) == Flags(adr, up && adrAckReq, ack, !up && fPending)
  {
  }

  /** The rejoin requests of the specification (section 6.2.4 of LoRaWAN 1.1): types 0 and 2 carry a NetID before the
      device, type 1 the join server. */
  lemma RejoinRoundTrip(minor: nat, kind: Byte, netId: Bytes, devEui: Bytes, count: Bytes, mic: Bytes)
    requires minor < 32 && kind != 1 && |netId| == 3 && |devEui| == 8 && |count| == 2 && |mic| == 4
    ensures var b: Bytes := [192 + minor, kind] + netId + devEui + count + mic;
            FrameOf(b) == Rejoin(kind, devEui)
  {
    var b: Bytes := [192 + minor, kind] + netId + devEui + count + mic;
    assert b[5..13] == devEui;
  }

  lemma RejoinTypeOneRoundTrip(minor: nat, joinEui: Bytes, devEui: Bytes, count: Bytes, mic: Bytes)
    requires minor < 32 && |joinEui| == |devEui| == 8 && |count| == 2 && |mic| == 4
    ensures var b: Bytes := [192 + minor, 1] + joinEui + devEui + count + mic;
            FrameOf(b) == Rejoin1(joinEui, devEui)
  {
    var b: Bytes := [192 + minor, 1] + joinEui + devEui + count + mic;
    assert b[2..10] == joinEui && b[10..18] == devEui;
  }

  /** The frames of which nothing is taken apart, and those that are too short for their type. */
  lemma OtherFrames(buf: Bytes)
    ensures |buf| < 4 ==> FrameOf(buf) == TooShort
    ensures |buf| >= 4 && 32 <= buf[0] < 64 ==> FrameOf(buf) == JoinAccept
    ensures |buf| >= 4 && 224 <= buf[0] ==>
              FrameOf(buf) == Proprietary(if |buf| <= 24 then buf else buf[..24], |buf|)
    ensures 4 <= |buf| < 23 && buf[0] < 32 ==> FrameOf(buf) == Truncated(0)
    ensures 4 <= |buf| < 12 && 64 <= buf[0] < 192 ==> FrameOf(buf) == Truncated(buf[0] / 32)
    ensures 4 <= |buf| < 19 && 192 <= buf[0] < 224 ==> FrameOf(buf) == Truncated(6)
    ensures |buf| >= 12 && 64 <= buf[0] < 192 && 12 + buf[5] % 16 > |buf| ==>
              FrameOf(buf) == FOptsOverrun(FromLittleEndian(buf[1..5]))
  {
    assert buf[..|buf|] == buf;
    hide FromLittleEndian, Reported, Cut;
  }
}
