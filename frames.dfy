/** The PN532 frames the MIFARE layer builds and the reply frames it decodes.
    Command frames are the data part handed to the transport (command code first);
    reply frames are the raw bytes the transport reads back, whose first bytes are
    the transport's own header. */
module Frames {
  import opened Base

  // PN532 command codes (section 7 of the PN532 User Manual).
  const SamConfiguration: byte := 0x14
  const InListPassiveTarget: byte := 0x4A
  const InDataExchange: byte := 0x40
  /** Baud-rate code of InListPassiveTarget for 106 kbps ISO/IEC 14443 Type A. */
  const Iso14443A: byte := 0x00

  // MIFARE commands carried inside InDataExchange.
  const MifareAuthA: byte := 0x60
  const MifareAuthB: byte := 0x61
  const MifareRead: byte := 0x30
  const MifareWrite: byte := 0xA0

  /** First reply byte after the header of an answered InDataExchange. */
  const ExchangeReply: byte := 0x41
  /** First reply byte after the header of an answered SAMConfiguration. */
  const SamConfigReply: byte := 0x15

  /** Which of the two sector keys authentication uses. */
  datatype KeySlot = KeyA | KeyB

  /** SAMConfiguration: normal mode, timeout 20 x 50 ms, IRQ pin used. */
  const SamConfigFrame: seq<byte> := [SamConfiguration, 0x01, 0x14, 0x01]

  /** InListPassiveTarget: at most one target, ISO/IEC 14443 Type A. */
  const ListTargetFrame: seq<byte> := [InListPassiveTarget, 1, Iso14443A]

  /** The MIFARE commands the layer sends through InDataExchange to target 1. */
  datatype MifareCommand =
    | Authenticate(slot: KeySlot, block: byte, key: seq<byte>, uid: seq<byte>)
    | Read(addr: byte)
    | Write(addr: byte, data: seq<byte>)

  /** Keys are 6 bytes, UIDs at most 7, a written block 16 bytes (Classic) or a page 4 (Ultralight). */
  predicate WellFormed(c: MifareCommand) {
    match c
    case Authenticate(_, _, key, uid) => |key| == 6 && |uid| <= 7
    case Read(_) => true
    case Write(_, data) => |data| == 16 || |data| == 4
  }

  function AuthCode(slot: KeySlot): byte {
    if slot == KeyA then MifareAuthA else MifareAuthB
  }

  /** InDataExchange to target 1 carrying an authentication: the command for
      the key slot, the block, the 6-byte key and the UID. */
  function AuthFrame(slot: KeySlot, block: byte, key: seq<byte>, uid: seq<byte>): (f: seq<byte>)
    ensures |f| == 4 + |key| + |uid|
  {
    [InDataExchange, 1, AuthCode(slot), block] + key + uid
  }

  /** InDataExchange to target 1 carrying a read of block (page) `addr`. */
  function ReadFrame(addr: byte): (f: seq<byte>)
    ensures |f| == 4
  {
    [InDataExchange, 1, MifareRead, addr]
  }

  /** InDataExchange to target 1 carrying a write of `data` to block (page) `addr`. */
  function WriteFrame(addr: byte, data: seq<byte>): (f: seq<byte>)
    ensures |f| == 4 + |data|
  {
    [InDataExchange, 1, MifareWrite, addr] + data
  }

  /** The InDataExchange frame carrying `c`. */
  function Encode(c: MifareCommand): (f: seq<byte>)
    ensures |f| >= 4 && f[0] == InDataExchange && f[1] == 1
    ensures c.Authenticate? && WellFormed(c) ==> |f| == 10 + |c.uid|
    ensures c.Read? ==> |f| == 4
    ensures c.Write? ==> |f| == 4 + |c.data|
  {
    match c
    case Authenticate(slot, block, key, uid) => AuthFrame(slot, block, key, uid)
    case Read(addr) => ReadFrame(addr)
    case Write(addr, data) => WriteFrame(addr, data)
  }

  /** Reads a frame back as the command it carries, following the fixed offsets:
      0 command code, 1 target number, 2 MIFARE command, 3 block, then the key and
      UID (authentication) or the data (write). */
  function Decode(f: seq<byte>): Option<MifareCommand> {
    if |f| < 4 || f[0] != InDataExchange || f[1] != 1 then None
    else if f[2] == MifareAuthA || f[2] == MifareAuthB then
      if 10 <= |f| <= 17 then
        Some(Authenticate(if f[2] == MifareAuthA then KeyA else KeyB, f[3], f[4..10], f[10..]))
      else None
    else if f[2] == MifareRead then
      if |f| == 4 then Some(Read(f[3])) else None
    else if f[2] == MifareWrite then
      if |f| == 8 || |f| == 20 then Some(Write(f[3], f[4..])) else None
    else None
  }

  /** Every well-formed command is recovered from its frame. */
  lemma DecodeEncode(c: MifareCommand)
    requires WellFormed(c)
    ensures Decode(Encode(c)) == Some(c)
  {
    var f := Encode(c);
    match c
    case Authenticate(slot, block, key, uid) =>
      assert f[4..10] == key && f[10..] == uid;
    case Read(addr) =>
    case Write(addr, data) =>
      assert f[4..] == data;
  }

  /** A frame that decodes is exactly the encoding of a well-formed command. */
  lemma EncodeDecode(f: seq<byte>)
    requires Decode(f).Some?
    ensures WellFormed(Decode(f).value) && Encode(Decode(f).value) == f
  {
    var c := Decode(f).value;
    match c
    case Authenticate(slot, block, key, uid) =>
      assert f == f[..4] + f[4..10] + f[10..];
    case Read(addr) =>
    case Write(addr, data) =>
      assert f == f[..4] + f[4..];
  }

  /** Status pair of an InDataExchange reply: byte 6 is the response code and
      byte 7 the error status, which must be zero. */
  predicate ExchangeOk(r: seq<byte>)
    requires |r| >= 8
  {
    r[6] == ExchangeReply && r[7] == 0x00
  }

  /** The one check an Ultralight page read makes: the error status is zero. */
  predicate PageReadOk(r: seq<byte>)
    requires |r| >= 8
  {
    r[7] == 0x00
  }

  /** The response code of a SAMConfiguration reply. */
  predicate SamConfigured(r: seq<byte>)
    requires |r| >= 6
  {
    r[5] == SamConfigReply
  }

  /** A discovered ISO/IEC 14443 Type A target: SENS_RES (ATQA) as a 16-bit value,
      SEL_RES (SAK) and the UID. */
  datatype Target = Target(sensRes: nat, selRes: byte, uid: seq<byte>)

  predicate ValidTarget(t: Target) {
    t.sensRes < 0x1_0000 && |t.uid| <= 7
  }

  /** A 20-byte InListPassiveTarget reply whose UID, when a target is reported,
      fits the driver's 7-byte UID buffer (and so the 20 bytes read). */
  predicate TargetReplyFits(r: seq<byte>) {
    |r| == 20 && (r[7] == 1 ==> r[12] <= 7)
  }

  /** Decodes an InListPassiveTarget reply: byte 7 the number of targets found,
      9-10 SENS_RES, 11 SEL_RES, 12 the UID length, then the UID. */
  function DecodeTarget(r: seq<byte>): (t: Option<Target>)
    requires TargetReplyFits(r)
    ensures t.Some? <==> r[7] == 1
    ensures t.Some? ==> ValidTarget(t.value) && |t.value.uid| == r[12]
    ensures t.Some? ==> t.value.sensRes / 0x100 == r[9] && t.value.sensRes % 0x100 == r[10]
    ensures t.Some? ==> t.value.selRes == r[11]
    ensures t.Some? ==> forall i :: 0 <= i < r[12] ==> t.value.uid[i] == r[13 + i]
  {
    if r[7] != 1 then None
    else Some(Target((r[9] as int) * 0x100 + r[10], r[11], r[13 .. 13 + r[12]]))
  }

  /** SENS_RES and SEL_RES packed into 24 bits, as the driver computes them. */
  function TypeCode(r: seq<byte>): (code: nat)
    requires |r| >= 12
    ensures code < 0x100_0000
    ensures code / 0x1_0000 == r[9] && code / 0x100 % 0x100 == r[10] && code % 0x100 == r[11]
  {
    var high := (r[9] as int) * 0x100 + r[10];
    ByteSplit(high, r[11]);
    ByteSplit(r[9], r[10]);
    high * 0x100 + r[11]
  }

  /** Appending a byte `low` to `high` keeps both recoverable. */
  lemma ByteSplit(high: nat, low: byte)
    ensures (high * 0x100 + low) / 0x100 == high && (high * 0x100 + low) % 0x100 == low
  {
  }

  /** The reply a reader gives when it finds exactly the one target `t`
      (header bytes and trailing bytes zero). */
  function TargetReply(t: Target): (r: seq<byte>)
    requires ValidTarget(t)
    ensures |r| == 20
  {
    Zeros(7) + [1, 1, t.sensRes / 0x100, t.sensRes % 0x100, t.selRes, |t.uid|] + t.uid + Zeros(7 - |t.uid|)
  }

  /** Decoding the reply for one target gives that target back. */
  lemma DecodeTargetReply(t: Target)
    requires ValidTarget(t)
    ensures TargetReplyFits(TargetReply(t))
    ensures DecodeTarget(TargetReply(t)) == Some(t)
  {
    var r := TargetReply(t);
    assert r[7] == 1 && r[12] == |t.uid|;
    assert r[13 .. 13 + |t.uid|] == t.uid;
  }

  /** A reply reporting one target with SENS_RES 00 04, SEL_RES 08 and UID DE AD BE EF. */
  lemma DecodeClassicExample(r: seq<byte>)
    requires |r| == 20 && r[7] == 1 && r[9] == 0x00 && r[10] == 0x04 && r[11] == 0x08
    requires r[12] == 4 && r[13..17] == [0xDE, 0xAD, 0xBE, 0xEF]
    ensures TargetReplyFits(r)
    ensures DecodeTarget(r) == Some(Target(0x0004, 0x08, [0xDE, 0xAD, 0xBE, 0xEF]))
    ensures TypeCode(r) == 0x00_0408
  {
  }
}
