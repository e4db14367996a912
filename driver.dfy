/** The MIFARE data-access layer of the PN532 driver: the `Mifare` object, which
    builds command frames in the shared packet buffer, sends them through the
    reader, checks the replies, and writes a payload to a MIFARE Classic or
    Ultralight card block by block. */
module Driver {
  import opened Base
  import opened Frames
  import opened Payload
  import opened Transport

  /** PN532_PACKBUFFSIZE: the shared command and reply buffer. */
  const PacketBufferSize: nat := 64
  /** The driver's UID buffer holds at most 7 bytes. */
  const UidBufferSize: nat := 7
  /** The block (page) routines accept addresses 0..63 only. */
  const BlockLimit: nat := 64

  /** The kind of card `writePayload` writes to. */
  datatype CardType = Classic | Ultralight | Unknown

  /** The chunk buffer holds the `count` payload bytes from offset `at`, zeros after them. */
  ghost predicate Holds(buffer: seq<byte>, p: seq<byte>, at: nat, count: nat) {
    forall x :: 0 <= x < |buffer| ==> buffer[x] == if x < count then ByteAt(p, at + x) else 0
  }

  /** Storing the next payload byte extends what the buffer holds by one. */
  lemma HoldsPush(buffer: seq<byte>, p: seq<byte>, at: nat, count: nat)
    requires Holds(buffer, p, at, count) && count < |buffer|
    ensures Holds(buffer[count := ByteAt(p, at + count)], p, at, count + 1)
  {
  }

  /** A cleared buffer holds nothing, from any offset. */
  lemma HoldsNothing(buffer: seq<byte>, p: seq<byte>, at: nat)
    requires forall x :: 0 <= x < |buffer| ==> buffer[x] == 0
    ensures Holds(buffer, p, at, 0)
  {
  }

  /** `log` is `start` followed by the first writes of `plan`, in order. */
  ghost predicate PartOf(log: seq<Block>, start: seq<Block>, plan: seq<Block>) {
    |start| <= |log| <= |start| + |plan| && log == start + plan[..|log| - |start|]
  }

  /** The writes a chunker has confirmed extend the log with a prefix of its
      plan, and make up the whole plan exactly when there are as many of them. */
  lemma PartOfPlan(log: seq<Block>, start: seq<Block>, plan: seq<Block>)
    requires PartOf(log, start, plan)
    ensures start <= log && log[|start|..] <= plan
    ensures log == start + plan <==> |log| == |start| + |plan|
  {
    assert log[|start|..] == plan[..|log| - |start|];
  }

  /** `start` followed by the first `k` writes of the plan is part of it. */
  lemma PrefixPartOf(start: seq<Block>, plan: seq<Block>, k: nat)
    requires k <= |plan|
    ensures PartOf(start + plan[..k], start, plan) && |start + plan[..k]| == |start| + k
  {
  }

  class Mifare {
    const board: Board
    const packetbuffer: array<byte>
    const uid: array<byte>
    var uidLength: byte
    const keyA: seq<byte>
    const keyB: seq<byte>
    const useKey: KeySlot
    const cardType: CardType
    /** Every block (page) write the card confirmed, in order. */
    ghost var log: seq<Block>

    ghost predicate Valid()
      reads this`uidLength
    {
      packetbuffer.Length == PacketBufferSize && uid.Length == UidBufferSize && packetbuffer != uid
      && uidLength as nat <= UidBufferSize && |keyA| == 6 && |keyB| == 6
    }

    /** The key selected by `useKey`. */
    function Key(): seq<byte> {
      if useKey == KeyA then keyA else keyB
    }

    /** The UID of the card last found. */
    function Uid(): (u: seq<byte>)
      reads this`uidLength, uid
      requires Valid()
      ensures |u| == uidLength as nat
    {
      uid[..uidLength]
    }

    constructor (board: Board, keyA: seq<byte>, keyB: seq<byte>, useKey: KeySlot, cardType: CardType)
      requires |keyA| == 6 && |keyB| == 6
      ensures Valid() && fresh(packetbuffer) && fresh(uid)
      ensures this.board == board && this.keyA == keyA && this.keyB == keyB
      ensures this.useKey == useKey && this.cardType == cardType
      ensures uidLength == 0 && uid[..] == Zeros(UidBufferSize) && log == []
    {
      this.board := board;
      this.keyA := keyA;
      this.keyB := keyB;
      this.useKey := useKey;
      this.cardType := cardType;
      packetbuffer := new byte[PacketBufferSize](_ => 0);
      uid := new byte[UidBufferSize](_ => 0);
      uidLength := 0;
      log := [];
    }

    // ------------------------------------------------ packet buffer loops

    /** The loop of `classic_authenticateBlock` that puts the UID after the key. */
    method PutUid()
      requires Valid()
      modifies packetbuffer
      ensures packetbuffer[..10] == old(packetbuffer[..10])
      ensures packetbuffer[10..10 + uidLength] == Uid()
      ensures packetbuffer[10 + uidLength..] == old(packetbuffer[10 + uidLength..])
    {
      var i: byte := 0;
      while i < uidLength
        invariant i <= uidLength
        invariant packetbuffer[..10] == old(packetbuffer[..10])
        invariant forall j :: 0 <= j < i ==> packetbuffer[10 + j] == uid[j]
        invariant packetbuffer[10 + uidLength..] == old(packetbuffer[10 + uidLength..])
      {
        packetbuffer[10 + i] := uid[i];
        i := i + 1;
      }
    }

    /** The loop of the two write routines that puts `count` bytes of `block`
        after the 4-byte command header. */
    method PutData(block: array<byte>, count: nat)
      requires Valid() && block != packetbuffer && count <= block.Length && count <= ClassicBlockSize
      modifies packetbuffer
      ensures packetbuffer[..4] == old(packetbuffer[..4])
      ensures packetbuffer[4..4 + count] == block[..count]
      ensures packetbuffer[4 + count..] == old(packetbuffer[4 + count..])
    {
      var b := 0;
      while b < count
        invariant b <= count
        invariant packetbuffer[..4] == old(packetbuffer[..4])
        invariant forall j :: 0 <= j < b ==> packetbuffer[4 + j] == block[j]
        invariant packetbuffer[4 + count..] == old(packetbuffer[4 + count..])
      {
        packetbuffer[4 + b] := block[b];
        b := b + 1;
      }
    }

    /** The loop of `classic_readMemoryBlock` that copies the 16 bytes after the
        status pair out of the reply. */
    method TakeBlock(block: array<byte>)
      requires Valid() && block != packetbuffer && block.Length >= ClassicBlockSize
      modifies block
      ensures block[..16] == packetbuffer[8..24]
      ensures forall j :: 16 <= j < block.Length ==> block[j] == old(block[j])
    {
      var i := 8;
      while i < 24
        invariant 8 <= i <= 24
        invariant forall j :: 8 <= j < i ==> block[j - 8] == packetbuffer[j]
        invariant forall j :: i - 8 <= j < block.Length ==> block[j] == old(block[j])
      {
        block[i - 8] := packetbuffer[i];
        i := i + 1;
      }
    }

    /** The exchange every command makes: the first `n` bytes of the packet
        buffer are sent and, when the reader acknowledges them, an `m`-byte reply
        is read back into its front. */
    method Exchange(n: nat, m: nat) returns (ack: bool)
      requires Valid() && n <= PacketBufferSize && m <= PacketBufferSize
      modifies board, packetbuffer
      ensures var e := Transact(old(board.State()), old(packetbuffer[..n]), m);
              ack == e.acked && board.State() == e.after
              && (ack ==> packetbuffer[..m] == e.reply)
    {
      ghost var e := Transact(board.State(), packetbuffer[..n], m);
      ack := board.SendCommandCheckAck(packetbuffer, n);
      if ack {
        board.ReadData(packetbuffer, m);
      }
    }

    // ---------------------------------------------------- reader commands

    /** `SAMConfig`: configures the secure access module; succeeds when the
        command is acknowledged and the reply carries the SAMConfiguration
        response code. */
    method SamConfig() returns (ok: bool)
      requires Valid()
      modifies board, packetbuffer
      ensures var e := Transact(old(board.State()), SamConfigFrame, 8);
              board.State() == e.after && ok == (e.acked && SamConfigured(e.reply))
              && (e.acked ==> packetbuffer[..8] == e.reply)
    {
      packetbuffer[0] := SamConfiguration;
      packetbuffer[1] := 0x01;
      packetbuffer[2] := 0x14;
      packetbuffer[3] := 0x01;
      assert packetbuffer[..4] == SamConfigFrame;
      ghost var e := Transact(board.State(), SamConfigFrame, 8);
      var ack := Exchange(4, 8);
      if !ack {
        return false;
      }
      ok := packetbuffer[5] == SamConfigReply;
    }

    /** `readTarget`: lists one ISO/IEC 14443 Type A target. It fails unless the
        command is acknowledged and the reply reports exactly one target; then
        the UID length and UID bytes are taken from the reply. */
    method ReadTarget() returns (found: bool)
      requires Valid()
      requires NextAck(board.acks) ==> TargetReplyFits(NextReply(board.replies, 20))
      modifies board, packetbuffer, uid, this`uidLength
      ensures Valid()
      ensures var e := Transact(old(board.State()), ListTargetFrame, 20);
              board.State() == e.after
              && (found <==> e.acked && DecodeTarget(e.reply).Some?)
              && (found ==> Uid() == DecodeTarget(e.reply).value.uid)
              && (!found ==> uidLength == old(uidLength) && uid[..] == old(uid[..]))
    {
      packetbuffer[0] := InListPassiveTarget;
      packetbuffer[1] := 1;
      packetbuffer[2] := Iso14443A;
      assert packetbuffer[..3] == ListTargetFrame;
      ghost var e := Transact(board.State(), ListTargetFrame, 20);
      var ack := Exchange(3, 20);
      if !ack {
        return false;
      }
      assert packetbuffer[..20] == e.reply && TargetReplyFits(e.reply);
      if packetbuffer[7] != 1 {
        return false;
      }
      uidLength := packetbuffer[12];
      var i: byte := 0;
      while i < uidLength
        invariant i <= uidLength && uidLength == e.reply[12] <= 7
        invariant forall j :: 0 <= j < i ==> uid[j] == e.reply[13 + j]
        modifies uid
      {
        uid[i] := packetbuffer[13 + i];
        i := i + 1;
      }
      assert Uid() == DecodeTarget(e.reply).value.uid;
      found := true;
    }

    /** `classic_authenticateBlock`: authenticates `blockNumber` with the selected
        key and the UID; succeeds iff the reply's status pair is 0x41 0x00. */
    method ClassicAuthenticateBlock(blockNumber: byte) returns (ok: bool)
      requires Valid()
      modifies board, packetbuffer
      ensures var e := Transact(old(board.State()), AuthFrame(useKey, blockNumber, Key(), Uid()), 12);
              board.State() == e.after && ok == (e.acked && ExchangeOk(e.reply))
              && (e.acked ==> packetbuffer[..12] == e.reply)
    {
      packetbuffer[0] := InDataExchange;
      packetbuffer[1] := 1;
      packetbuffer[2] := AuthCode(useKey);
      packetbuffer[3] := blockNumber;
      var key := Key();
      forall i | 0 <= i < 6 {
        packetbuffer[4 + i] := key[i];
      }
      assert packetbuffer[..10] == [InDataExchange, 1, AuthCode(useKey), blockNumber] + key;
      PutUid();
      ghost var frame := AuthFrame(useKey, blockNumber, key, Uid());
      assert packetbuffer[..10 + uidLength] == packetbuffer[..10] + packetbuffer[10..10 + uidLength] == frame;
      ghost var e := Transact(board.State(), frame, 12);
      var ack := Exchange(10 + uidLength as nat, 12);
      if !ack {
        return false;
      }
      ok := packetbuffer[6] == ExchangeReply && packetbuffer[7] == 0x00;
    }

    /** `classic_readMemoryBlock`: refuses addresses from 64 on without any I/O,
        authenticates the block, then reads it. The 16 bytes after the status pair
        are copied into `block` whenever the read is acknowledged, even when the
        status reports an error; success is the status pair 0x41 0x00. */
    method ClassicReadBlock(addr: byte, block: array<byte>) returns (ok: bool)
      requires Valid() && block.Length >= ClassicBlockSize && block != packetbuffer && block != uid
      modifies board, packetbuffer, block
      ensures addr as nat >= BlockLimit ==>
                !ok && board.State() == old(board.State()) && unchanged(packetbuffer, block)
      ensures addr as nat < BlockLimit ==>
                var auth := Transact(old(board.State()), AuthFrame(useKey, addr, Key(), Uid()), 12);
                var rd := Transact(auth.after, ReadFrame(addr), 24);
                if !(auth.acked && ExchangeOk(auth.reply)) then
                  !ok && board.State() == auth.after && unchanged(block)
                else
                  board.State() == rd.after
                  && (rd.acked ==> block[..16] == rd.reply[8..24] && ok == ExchangeOk(rd.reply))
                  && (!rd.acked ==> !ok && unchanged(block))
      ensures forall j :: 16 <= j < block.Length ==> block[j] == old(block[j])
    {
      if addr as nat >= BlockLimit {
        return false;
      }
      ghost var auth := Transact(board.State(), AuthFrame(useKey, addr, Key(), Uid()), 12);
      var authed := ClassicAuthenticateBlock(addr);
      if !authed {
        return false;
      }
      packetbuffer[0] := InDataExchange;
      packetbuffer[1] := 1;
      packetbuffer[2] := MifareRead;
      packetbuffer[3] := addr;
      assert packetbuffer[..4] == ReadFrame(addr);
      ghost var rd := Transact(auth.after, ReadFrame(addr), 24);
      var ack := Exchange(4, 24);
      if !ack {
        return false;
      }
      TakeBlock(block);
      assert packetbuffer[8..24] == rd.reply[8..24];
      ok := packetbuffer[6] == ExchangeReply && packetbuffer[7] == 0x00;
    }

    /** `classic_writeMemoryBlock`: refuses addresses from 64 on without any I/O,
        authenticates the block, then writes the 16 bytes of `block`; succeeds
        iff both replies carry the status pair 0x41 0x00. */
    method ClassicWriteBlock(addr: byte, block: array<byte>) returns (ok: bool)
      requires Valid() && block.Length >= ClassicBlockSize && block != packetbuffer
      modifies board, packetbuffer, this`log
      ensures Valid()
      ensures addr as nat >= BlockLimit ==> !ok && board.State() == old(board.State())
      ensures addr as nat < BlockLimit ==>
                var auth := Transact(old(board.State()), AuthFrame(useKey, addr, Key(), Uid()), 12);
                var wr := Transact(auth.after, WriteFrame(addr, old(block[..16])), 8);
                if !(auth.acked && ExchangeOk(auth.reply)) then
                  !ok && board.State() == auth.after
                else
                  board.State() == wr.after && ok == (wr.acked && ExchangeOk(wr.reply))
      ensures log == if ok then old(log) + [Block(addr as nat, old(block[..16]))] else old(log)
    {
      if addr as nat >= BlockLimit {
        return false;
      }
      ghost var data := block[..16];
      ghost var auth := Transact(board.State(), AuthFrame(useKey, addr, Key(), Uid()), 12);
      var authed := ClassicAuthenticateBlock(addr);
      if !authed {
        return false;
      }
      packetbuffer[0] := InDataExchange;
      packetbuffer[1] := 1;
      packetbuffer[2] := MifareWrite;
      packetbuffer[3] := addr;
      PutData(block, 16);
      ghost var frame := WriteFrame(addr, data);
      assert packetbuffer[..20] == packetbuffer[..4] + packetbuffer[4..20] == frame;
      ghost var wr := Transact(auth.after, frame, 8);
      var ack := Exchange(20, 8);
      if !ack {
        return false;
      }
      ok := packetbuffer[6] == ExchangeReply && packetbuffer[7] == 0x00;
      if ok {
        log := log + [Block(addr as nat, data)];
      }
    }

    /** `ultralight_readMemoryBlock`: refuses addresses from 64 on without any I/O,
        then reads the page. Only the error status is checked, and the 4 page
        bytes after it are copied into `block` only on success. */
    method UltralightReadBlock(addr: byte, block: array<byte>) returns (ok: bool)
      requires Valid() && block.Length >= UltralightPageSize && block != packetbuffer
      modifies board, packetbuffer, block
      ensures addr as nat >= BlockLimit ==>
                !ok && board.State() == old(board.State()) && unchanged(packetbuffer)
      ensures addr as nat < BlockLimit ==>
                var rd := Transact(old(board.State()), ReadFrame(addr), 26);
                board.State() == rd.after && ok == (rd.acked && PageReadOk(rd.reply))
                && (ok ==> block[..4] == rd.reply[8..12])
      ensures !ok ==> unchanged(block)
      ensures forall j :: 4 <= j < block.Length ==> block[j] == old(block[j])
    {
      if addr as nat >= BlockLimit {
        return false;
      }
      packetbuffer[0] := InDataExchange;
      packetbuffer[1] := 1;
      packetbuffer[2] := MifareRead;
      packetbuffer[3] := addr;
      assert packetbuffer[..4] == ReadFrame(addr);
      ghost var rd := Transact(board.State(), ReadFrame(addr), 26);
      var ack := Exchange(4, 26);
      if !ack {
        return false;
      }
      if packetbuffer[7] == 0x00 {
        forall i | 0 <= i < 4 {
          block[i] := packetbuffer[8 + i];
        }
        assert block[..4] == rd.reply[8..12];
        ok := true;
      } else {
        ok := false;
      }
    }

    /** `ultralight_writeMemoryBlock`: refuses addresses from 64 on without any I/O,
        then writes the 4 bytes of `block`; succeeds iff the reply's status pair
        is 0x41 0x00. */
    method UltralightWriteBlock(addr: byte, block: array<byte>) returns (ok: bool)
      requires Valid() && block.Length >= UltralightPageSize && block != packetbuffer
      modifies board, packetbuffer, this`log
      ensures Valid()
      ensures addr as nat >= BlockLimit ==> !ok && board.State() == old(board.State())
      ensures addr as nat < BlockLimit ==>
                var wr := Transact(old(board.State()), WriteFrame(addr, old(block[..4])), 8);
                board.State() == wr.after && ok == (wr.acked && ExchangeOk(wr.reply))
      ensures log == if ok then old(log) + [Block(addr as nat, old(block[..4]))] else old(log)
    {
      if addr as nat >= BlockLimit {
        return false;
      }
      ghost var data := block[..4];
      packetbuffer[0] := InDataExchange;
      packetbuffer[1] := 1;
      packetbuffer[2] := MifareWrite;
      packetbuffer[3] := addr;
      PutData(block, 4);
      ghost var frame := WriteFrame(addr, data);
      assert packetbuffer[..8] == packetbuffer[..4] + packetbuffer[4..8] == frame;
      ghost var wr := Transact(board.State(), frame, 8);
      var ack := Exchange(8, 8);
      if !ack {
        return false;
      }
      ok := packetbuffer[6] == ExchangeReply && packetbuffer[7] == 0x00;
      if ok {
        log := log + [Block(addr as nat, data)];
      }
    }

    // ------------------------------------------------------------ payload

    /** One `classic_writeMemoryBlock` call of the Classic chunker, seen against
        its plan: `buffer` at `addr` is write `k` of `plan`, and on success the
        log has grown by exactly that write. */
    method ClassicPlannedWrite(addr: byte, buffer: array<byte>, ghost plan: seq<Block>, ghost k: nat, ghost start: seq<Block>)
      returns (ok: bool)
      requires Valid() && buffer.Length == ClassicBlockSize && buffer != packetbuffer
      requires k < |plan| && plan[k] == Block(addr as nat, buffer[..]) && log == start + plan[..k]
      modifies board, packetbuffer, this`log
      ensures Valid()
      ensures log == if ok then start + plan[..k + 1] else old(log)
    {
      assert buffer[..16] == buffer[..];
      ok := ClassicWriteBlock(addr, buffer);
      assert plan[..k + 1] == plan[..k] + [plan[k]];
    }

    /** The end of a data block in the Classic chunker's loop: the full buffer,
        holding the 16 payload bytes of slot `r` of sector `q`, is written to
        block `4 + 4 * q + r` and, on success, cleared. */
    method ClassicFlush(addr: byte, buffer: array<byte>, ghost text: seq<byte>, ghost q: nat, ghost r: nat, ghost start: seq<Block>)
      returns (ok: bool)
      requires Valid() && buffer.Length == ClassicBlockSize && buffer != packetbuffer
      requires r < 3 && addr as nat == FirstBlock + 4 * q + r && 4 * q + r < |ClassicPlan(text)|
      requires Holds(buffer[..], text, 48 * q + 16 * r, ClassicBlockSize)
      requires log == start + ClassicPlan(text)[..4 * q + r]
      modifies board, packetbuffer, buffer, this`log
      ensures Valid()
      ensures log == if ok then start + ClassicPlan(text)[..4 * q + r + 1] else old(log)
      ensures ok ==> Holds(buffer[..], text, 48 * q + 16 * (r + 1), 0)
    {
      ClassicDataBlock(text, q, r, buffer[..]);
      ok := ClassicPlannedWrite(addr, buffer, ClassicPlan(text), 4 * q + r, start);
      if ok {
        forall x | 0 <= x < 16 {
          buffer[x] := 0;
        }
        HoldsNothing(buffer[..], text, 48 * q + 16 * (r + 1));
      }
    }

    /** The trailer branch of the Classic chunker's loop: the footer is copied
        into the buffer and written to the trailer of sector `q`, and the buffer
        is cleared on success. */
    method ClassicCloseTrailer(addr: byte, buffer: array<byte>, ghost text: seq<byte>, ghost q: nat, ghost start: seq<Block>)
      returns (ok: bool)
      requires Valid() && buffer.Length == ClassicBlockSize && buffer != packetbuffer
      requires addr as nat == FirstBlock + 4 * q + 3 && 48 * q + 48 < |text|
      requires log == start + ClassicPlan(text)[..4 * q + 3]
      modifies board, packetbuffer, buffer, this`log
      ensures Valid() && 4 * q + 4 < |ClassicPlan(text)|
      ensures log == if ok then start + ClassicPlan(text)[..4 * q + 4] else old(log)
      ensures ok ==> Holds(buffer[..], text, 48 * (q + 1), 0)
    {
      forall x | 0 <= x < 16 {
        buffer[x] := Footer[x];
      }
      ClassicTrailer(text, q);
      ok := ClassicPlannedWrite(addr, buffer, ClassicPlan(text), 4 * q + 3, start);
      if ok {
        forall x | 0 <= x < 16 {
          buffer[x] := 0;
        }
        HoldsNothing(buffer[..], text, 48 * (q + 1));
      }
    }

    /** One `ultralight_writeMemoryBlock` call of the Ultralight chunker, seen
        against its plan, as `ClassicPlannedWrite`; a page is written only below
        address 64. */
    method UltralightPlannedWrite(addr: byte, buffer: array<byte>, ghost plan: seq<Block>, ghost k: nat, ghost start: seq<Block>)
      returns (ok: bool)
      requires Valid() && buffer.Length == UltralightPageSize && buffer != packetbuffer
      requires k < |plan| && plan[k] == Block(addr as nat, buffer[..]) && log == start + plan[..k]
      modifies board, packetbuffer, this`log
      ensures Valid()
      ensures ok ==> addr as nat < BlockLimit
      ensures log == if ok then start + plan[..k + 1] else old(log)
    {
      assert buffer[..4] == buffer[..];
      ok := UltralightWriteBlock(addr, buffer);
      assert plan[..k + 1] == plan[..k] + [plan[k]];
    }

    /** The end of `classic_writePayload`, once the payload is used up: writes
        the partly filled block if there is one, then fills and closes the sector. */
    method ClassicCloseSector(ghost payload: seq<byte>, blockBuffer: array<byte>, blockCount: byte, byteCount: nat,
                              ghost sector: nat, ghost slot: nat, ghost start: seq<Block>) returns (ok: bool)
      requires Valid() && blockBuffer.Length == ClassicBlockSize && blockBuffer != packetbuffer
      requires slot < 4 && byteCount < 16 && (slot == 3 ==> byteCount == 0)
      requires blockCount as nat == FirstBlock + 4 * sector + slot
      requires |payload| == 48 * sector + 16 * slot + byteCount
      requires Holds(blockBuffer[..], payload, 48 * sector + 16 * slot, byteCount)
      requires |ClassicPlan(payload)| == 4 * sector + 4
      requires log == start + ClassicPlan(payload)[..4 * sector + slot]
      modifies board, packetbuffer, blockBuffer, this`log
      ensures Valid() && PartOf(log, start, ClassicPlan(payload))
      ensures ok <==> |log| == |start| + |ClassicPlan(payload)|
    {
      var blockCount := blockCount;
      ghost var slot := slot;
      if byteCount > 0 {
        ClassicDataBlock(payload, sector, slot, blockBuffer[..]);
        ok := ClassicPlannedWrite(blockCount, blockBuffer, ClassicPlan(payload), 4 * sector + slot, start);
        if !ok {
          PrefixPartOf(start, ClassicPlan(payload), 4 * sector + slot);
          return false;
        }
        blockCount := blockCount + 1;
        slot := slot + 1;
      }
      ok := ClassicFillSector(payload, blockBuffer, blockCount, sector, slot, start);
    }

    /** The zero-fill loop and the closing footer write of `classic_writePayload`:
        every data block of the sector from `slot` on lies past the payload's end
        and is written with zeros, then the trailer with the footer. */
    method ClassicFillSector(ghost payload: seq<byte>, blockBuffer: array<byte>, blockCount: byte,
                             ghost sector: nat, ghost slot: nat, ghost start: seq<Block>) returns (ok: bool)
      requires Valid() && blockBuffer.Length == ClassicBlockSize && blockBuffer != packetbuffer
      requires slot <= 3 && blockCount as nat == FirstBlock + 4 * sector + slot
      requires 48 * sector + 16 * slot >= |payload|
      requires |ClassicPlan(payload)| == 4 * sector + 4
      requires log == start + ClassicPlan(payload)[..4 * sector + slot]
      modifies board, packetbuffer, blockBuffer, this`log
      ensures Valid() && PartOf(log, start, ClassicPlan(payload))
      ensures ok <==> |log| == |start| + |ClassicPlan(payload)|
    {
      ghost var plan := ClassicPlan(payload);
      var blockCount := blockCount;
      ghost var slot := slot;
      while blockCount % 4 < 3
        invariant Valid() && slot <= 3 && blockCount as nat == FirstBlock + 4 * sector + slot
        invariant 48 * sector + 16 * slot >= |payload|
        invariant log == start + plan[..4 * sector + slot]
        decreases 3 - slot
      {
        TrailerSlot(sector, slot);
        forall x | 0 <= x < 16 {
          blockBuffer[x] := 0;
        }
        ClassicDataBlock(payload, sector, slot, blockBuffer[..]);
        ok := ClassicPlannedWrite(blockCount, blockBuffer, plan, 4 * sector + slot, start);
        if !ok {
          PrefixPartOf(start, plan, 4 * sector + slot);
          return false;
        }
        blockCount := blockCount + 1;
        slot := slot + 1;
      }
      TrailerSlot(sector, slot);
      forall x | 0 <= x < 16 {
        blockBuffer[x] := Footer[x];
      }
      ClassicTrailer(payload, sector);
      ok := ClassicPlannedWrite(blockCount, blockBuffer, plan, 4 * sector + 3, start);
    }

    /** The data branch of the Classic chunker's loop: byte `c`, the next payload
        byte, goes into the buffer; when that fills it, the buffer is written to
        data block `r` of sector `q` and, on success, cleared, and the chunker
        moves on to the next block. */
    method ClassicDataByte(c: byte, buffer: array<byte>, blockCount: byte, byteCount: nat,
                           ghost text: seq<byte>, ghost q: nat, ghost r: nat, ghost start: seq<Block>)
      returns (ok: bool, blocks: byte, count: nat, ghost next: nat)
      requires Valid() && buffer.Length == ClassicBlockSize && buffer != packetbuffer
      requires r < 3 && byteCount < ClassicBlockSize && blockCount as nat == FirstBlock + 4 * q + r
      requires 48 * q + 16 * r + byteCount < |text| && c == text[48 * q + 16 * r + byteCount]
      requires 4 * q + r < |ClassicPlan(text)|
      requires Holds(buffer[..], text, 48 * q + 16 * r, byteCount)
      requires log == start + ClassicPlan(text)[..4 * q + r]
      modifies board, packetbuffer, buffer, this`log
      ensures Valid()
      ensures next == if byteCount + 1 == ClassicBlockSize then r + 1 else r
      ensures count == if byteCount + 1 == ClassicBlockSize then 0 else byteCount + 1
      ensures blocks as nat == FirstBlock + 4 * q + next && 4 * q + next < |ClassicPlan(text)|
      ensures ok ==> Holds(buffer[..], text, 48 * q + 16 * next, count)
      ensures log == if ok then start + ClassicPlan(text)[..4 * q + next] else old(log)
    {
      HoldsPush(buffer[..], text, 48 * q + 16 * r, byteCount);
      buffer[byteCount] := c;
      count, blocks, next, ok := byteCount + 1, blockCount, r, true;
      if count == 16 {
        count := 0;
        ok := ClassicFlush(blocks, buffer, text, q, r, start);
        blocks, next := blocks + 1, r + 1;
      }
    }

    /** `classic_writePayload`: cuts the zero-terminated payload into 16-byte
        blocks written from block 4 on, skipping each sector trailer and closing
        every sector it enters with the footer, and stops at the first failed
        write. The confirmed writes are always a prefix of `ClassicPlan`, and the
        chunker succeeds iff it has written all of it. */
    method ClassicWritePayload(payload: seq<byte>) returns (ok: bool)
      requires Valid()
      modifies board, packetbuffer, this`log
      ensures Valid()
      ensures var plan := ClassicPlan(payload[..Strlen8(payload)]);
              old(log) <= log && log[|old(log)|..] <= plan && (ok <==> log == old(log) + plan)
    {
      var len := Strlen8(payload);
      var blockBuffer := new byte[ClassicBlockSize](_ => 0);
      var position, blockCount: byte, byteCount := 0, FirstBlock as byte, 0;
      ghost var text := payload[..len];
      ghost var plan, start := ClassicPlan(text), log;
      ghost var sector: nat, slot: nat := 0, 0;
      ClassicPlanShort(text);
      while position < len
        invariant Valid() && position <= len && byteCount < 16 && slot < 4
        invariant blockCount as nat == FirstBlock + 4 * sector + slot
        invariant position == 48 * sector + 16 * slot + byteCount
        invariant slot == 3 ==> byteCount == 0
        invariant len > 0 && position == len ==> byteCount > 0 || slot > 0
        invariant Holds(blockBuffer[..], text, 48 * sector + 16 * slot, byteCount)
        invariant 4 * sector + slot < |plan|
        invariant log == start + plan[..4 * sector + slot]
        decreases len as nat - position, if slot == 3 then 1 else 0
      {
        TrailerSlot(sector, slot);
        if blockCount % 4 < 3 {
          ok, blockCount, byteCount, slot := ClassicDataByte(payload[position], blockBuffer, blockCount, byteCount, text, sector, slot, start);
          if !ok {
            PartOfPlan(log, start, plan);
            return false;
          }
          position := position + 1;
        } else {
          ok := ClassicCloseTrailer(blockCount, blockBuffer, text, sector, start);
          if !ok {
            PartOfPlan(log, start, plan);
            return false;
          }
          blockCount := blockCount + 1;
          byteCount := 0;
          sector, slot := sector + 1, 0;
        }
      }
      SectorsOf(len as nat, sector);
      ok := ClassicCloseSector(text, blockBuffer, blockCount, byteCount, sector, slot, start);
      PartOfPlan(log, start, plan);
    }

    /** The end of a page in the Ultralight chunker's loop: the full buffer,
        holding the 4 payload bytes of page `k` of the plan, is written to page
        `4 + k` and, on success, cleared. */
    method UltralightFlush(addr: byte, buffer: array<byte>, ghost text: seq<byte>, ghost k: nat, ghost start: seq<Block>)
      returns (ok: bool)
      requires Valid() && buffer.Length == UltralightPageSize && buffer != packetbuffer
      requires addr as nat == FirstBlock + k && k < |UltralightPlan(text)|
      requires Holds(buffer[..], text, 4 * k, UltralightPageSize)
      requires log == start + UltralightPlan(text)[..k]
      modifies board, packetbuffer, buffer, this`log
      ensures Valid()
      ensures ok ==> addr as nat < BlockLimit
      ensures log == if ok then start + UltralightPlan(text)[..k + 1] else old(log)
      ensures ok ==> buffer[..] == Zeros(UltralightPageSize)
    {
      UltralightPage(text, k, buffer[..]);
      ok := UltralightPlannedWrite(addr, buffer, UltralightPlan(text), k, start);
      if ok {
        forall x | 0 <= x < 4 {
          buffer[x] := 0;
        }
      }
    }

    /** `ultralight_writePayload`: cuts the zero-terminated payload into 4-byte
        pages written from page 4 on, the last one zero-padded, and stops at the
        first failed write; an empty payload writes nothing. The confirmed
        writes are always a prefix of `UltralightPlan`, the chunker succeeds iff
        it has written all of it, and then every page lay below address 64. */
    method UltralightWritePayload(payload: seq<byte>) returns (ok: bool)
      requires Valid()
      modifies board, packetbuffer, this`log
      ensures Valid()
      ensures var plan := UltralightPlan(payload[..Strlen8(payload)]);
              old(log) <= log && log[|old(log)|..] <= plan && (ok <==> log == old(log) + plan)
              && (ok ==> FirstBlock + |plan| <= BlockLimit)
    {
      var len := Strlen8(payload);
      var blockBuffer := new byte[UltralightPageSize](_ => 0);
      var position, blockCount: byte, byteCount := 0, FirstBlock as byte, 0;
      ghost var text := payload[..len];
      ghost var plan, start := UltralightPlan(text), log;
      ghost var page: nat := 0;
      while position < len
        invariant Valid() && position <= len && byteCount < 4
        invariant blockCount as nat == FirstBlock + page <= BlockLimit
        invariant position == 4 * page + byteCount
        invariant Holds(blockBuffer[..], text, 4 * page, byteCount)
        invariant log == start + plan[..page]
      {
        HoldsPush(blockBuffer[..], text, 4 * page, byteCount);
        blockBuffer[byteCount] := payload[position];
        byteCount := byteCount + 1;
        position := position + 1;
        if byteCount == 4 {
          byteCount := 0;
          ok := UltralightFlush(blockCount, blockBuffer, text, page, start);
          if !ok {
            PartOfPlan(log, start, plan);
            return false;
          }
          HoldsNothing(blockBuffer[..], text, 4 * (page + 1));
          blockCount := blockCount + 1;
          page := page + 1;
        }
      }
      if byteCount > 0 {
        UltralightPage(text, page, blockBuffer[..]);
        ok := UltralightPlannedWrite(blockCount, blockBuffer, plan, page, start);
        if !ok {
          PartOfPlan(log, start, plan);
          return false;
        }
        page := page + 1;
      }
      PartOfPlan(log, start, plan);
      return true;
    }

    /** `writePayload`: finds the card, then writes the payload with the chunker
        of the configured card type; no card found, or a card type other than
        Classic and Ultralight, fails without writing anything. When it
        succeeds, the card written is the one just found. */
    method WritePayload(payload: seq<byte>) returns (ok: bool)
      requires Valid()
      requires NextAck(board.acks) ==> TargetReplyFits(NextReply(board.replies, 20))
      modifies board, packetbuffer, uid, this`uidLength, this`log
      ensures Valid() && old(log) <= log
      ensures var e := Transact(old(board.State()), ListTargetFrame, 20);
              var found := e.acked && DecodeTarget(e.reply).Some?;
              var text := payload[..Strlen8(payload)];
              (!found ==> !ok && log == old(log) && board.State() == e.after)
              && (found ==> Uid() == DecodeTarget(e.reply).value.uid)
              && (found && cardType == Classic ==>
                    log[|old(log)|..] <= ClassicPlan(text) && (ok <==> log == old(log) + ClassicPlan(text)))
              && (found && cardType == Ultralight ==>
                    log[|old(log)|..] <= UltralightPlan(text) && (ok <==> log == old(log) + UltralightPlan(text)))
              && (cardType == Unknown ==> !ok && log == old(log) && board.State() == e.after)
    {
      var found := ReadTarget();
      if !found {
        return false;
      }
      match cardType
      case Classic =>
        ok := ClassicWritePayload(payload);
      case Ultralight =>
        ok := UltralightWritePayload(payload);
      case Unknown =>
        ok := false;
    }
  }
}
