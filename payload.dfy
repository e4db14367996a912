/** Where a payload goes on the card: the sequence of block (or page) writes the
    chunkers perform, as pure functions, and what they promise. */
module Payload {
  import opened Base

  /** One write: the block or page address and the bytes it receives. */
  datatype Block = Block(addr: nat, data: seq<byte>)

  /** Payload storage starts at block (page) 4: 0-3 hold the manufacturer data
      and the first sector's trailer (Classic), or the UID and lock bytes (Ultralight). */
  const FirstBlock: nat := 4
  const ClassicBlockSize: nat := 16
  const UltralightPageSize: nat := 4

  /** The sector trailer a Classic sector is closed with: the NFC Forum public key A
      D3 F7 D3 F7 D3 F7, access bits 7F 07 88, GPB 40 and key B FF FF FF FF FF FF. */
  const Footer: seq<byte> := [0xD3, 0xF7, 0xD3, 0xF7, 0xD3, 0xF7, 0x7F, 0x07, 0x88, 0x40,
                              0xFF, 0xFF, 0xFF, 0xFF, 0xFF, 0xFF]

  /** Every fourth Classic block (addresses 3, 7, 11, ...) is its sector's trailer. */
  predicate IsTrailer(addr: nat) {
    addr % 4 == 3
  }

  /** Byte `x` of the payload's storage area: the payload byte, or zero past its end. */
  function ByteAt(p: seq<byte>, x: nat): byte {
    if x < |p| then p[x] else 0
  }

  /** The payload zero-padded to `n` bytes. */
  function Padded(p: seq<byte>, n: nat): (r: seq<byte>)
    requires |p| <= n
    ensures |r| == n && forall x :: 0 <= x < n ==> r[x] == ByteAt(p, x)
  {
    Chunk(p, 0, n)
  }

  // ---------------------------------------------------------------- Classic

  /** How many 4-block sectors a Classic payload of `len` bytes occupies: each
      holds 3 x 16 data bytes, and even an empty payload fills (with zeros) and
      closes the first one. */
  function Sectors(len: nat): (s: nat)
    ensures s >= 1 && len <= 48 * s
    ensures len > 0 ==> 48 * (s - 1) < len
    ensures len == 0 ==> s == 1
  {
    if len <= 48 then 1 else 1 + Sectors(len - 48)
  }

  /** A payload whose last byte lies in sector `q` (or an empty one, with `q` 0)
      occupies `q + 1` sectors. */
  lemma {:induction false} SectorsOf(len: nat, q: nat)
    requires 48 * q <= len <= 48 * q + 48
    requires len > 48 * q || q == 0
    ensures Sectors(len) == q + 1
  {
    if q > 0 {
      SectorsOf(len - 48, q - 1);
    }
  }

  /** Slot `r` of sector `q` (counting sectors from block 4) is block `4 + 4 * q + r`,
      which is a trailer exactly in slot 3. */
  lemma TrailerSlot(q: nat, r: nat)
    requires r < 4
    ensures (FirstBlock + 4 * q + r) % 4 == r
    ensures IsTrailer(FirstBlock + 4 * q + r) <==> r == 3
  {
    assert FirstBlock + 4 * q + r == 4 * (q + 1) + r;
  }

  /** The `n` bytes of the zero-padded payload from offset `at`. */
  function Chunk(p: seq<byte>, at: nat, n: nat): (c: seq<byte>)
    ensures |c| == n && forall i :: 0 <= i < n ==> c[i] == ByteAt(p, at + i)
  {
    seq<byte>(n, (i: nat) => ByteAt(p, at + i))
  }

  /** Write `k` of the Classic plan, to block `4 + k`: the footer in every
      sector's slot 3, otherwise the next 16 bytes of the zero-padded payload
      (three data blocks, 48 bytes, per sector). */
  function ClassicWrite(p: seq<byte>, k: nat): Block {
    if k % 4 == 3 then Block(FirstBlock + k, Footer)
    else Block(FirstBlock + k, Chunk(p, 48 * (k / 4) + 16 * (k % 4), ClassicBlockSize))
  }

  /** Every Classic block write of the payload `p`, in order: from block 4 on,
      sector by sector, three data blocks and the trailer, up to and including
      the sector holding the payload's last byte. */
  function ClassicPlan(p: seq<byte>): (plan: seq<Block>)
    ensures |plan| == 4 * Sectors(|p|)
  {
    seq(4 * Sectors(|p|), (k: nat) => ClassicWrite(p, k))
  }

  /** Block `4 + 4 * q + r` of the Classic plan: a trailer carrying the footer in
      slot 3, otherwise the 16 payload bytes from offset `48 * q + 16 * r`, zero
      past the payload's end. */
  lemma ClassicPlanAt(p: seq<byte>, q: nat, r: nat)
    requires r < 4 && 4 * q + r < |ClassicPlan(p)|
    ensures 48 * q + 48 <= 48 * Sectors(|p|)
    ensures ClassicPlan(p)[4 * q + r].addr == FirstBlock + 4 * q + r
    ensures IsTrailer(ClassicPlan(p)[4 * q + r].addr) <==> r == 3
    ensures r == 3 ==> ClassicPlan(p)[4 * q + r].data == Footer
    ensures r < 3 ==> ClassicPlan(p)[4 * q + r].data == Chunk(p, 48 * q + 16 * r, ClassicBlockSize)
  {
    var k := 4 * q + r;
    assert k / 4 == q && k % 4 == r;
    TrailerSlot(q, r);
  }

  /** The Classic plan writes blocks 4, 5, 6, ... once each and in order, ending
      on a trailer; exactly the blocks `k` with `k % 4 == 3` are trailers, and each
      carries the footer. */
  lemma ClassicLayout(p: seq<byte>)
    ensures forall k :: 0 <= k < |ClassicPlan(p)| ==> ClassicPlan(p)[k].addr == FirstBlock + k
    ensures forall k :: 0 <= k < |ClassicPlan(p)| ==>
              (IsTrailer(ClassicPlan(p)[k].addr) <==> k % 4 == 3) &&
              (IsTrailer(ClassicPlan(p)[k].addr) ==> ClassicPlan(p)[k].data == Footer)
    ensures IsTrailer(ClassicPlan(p)[|ClassicPlan(p)| - 1].addr)
  {
    forall k | 0 <= k < |ClassicPlan(p)|
      ensures ClassicPlan(p)[k].addr == FirstBlock + k
      ensures IsTrailer(ClassicPlan(p)[k].addr) <==> k % 4 == 3
      ensures IsTrailer(ClassicPlan(p)[k].addr) ==> ClassicPlan(p)[k].data == Footer
    {
      ClassicPlanAt(p, k / 4, k % 4);
    }
    ClassicPlanAt(p, Sectors(|p|) - 1, 3);
  }

  /** A payload whose length fits a `uint8_t` stays within 6 sectors, below block 28. */
  lemma ClassicPlanShort(p: seq<byte>)
    requires |p| < 256
    ensures |ClassicPlan(p)| <= 24
  {
  }

  /** Data block `r` of sector `q` of the Classic plan carries the 16 payload
      bytes from offset `48 * q + 16 * r`, zero past the payload's end. */
  lemma ClassicDataBlock(p: seq<byte>, q: nat, r: nat, data: seq<byte>)
    requires r < 3 && 4 * q + r < |ClassicPlan(p)| && |data| == ClassicBlockSize
    requires forall x :: 0 <= x < ClassicBlockSize ==> data[x] == ByteAt(p, 48 * q + 16 * r + x)
    ensures ClassicPlan(p)[4 * q + r] == Block(FirstBlock + 4 * q + r, data)
  {
    ClassicPlanAt(p, q, r);
    assert ClassicPlan(p)[4 * q + r].data == data;
  }

  /** The trailer of sector `q` of the Classic plan carries the footer. */
  lemma ClassicTrailer(p: seq<byte>, q: nat)
    requires 4 * q + 3 < |ClassicPlan(p)|
    ensures ClassicPlan(p)[4 * q + 3] == Block(FirstBlock + 4 * q + 3, Footer)
  {
    ClassicPlanAt(p, q, 3);
  }

  /** A 10-byte payload fills block 4 with its bytes and six zeros, blocks 5 and 6
      with zeros, and closes sector 1 at block 7. */
  lemma ClassicTenBytes(p: seq<byte>)
    requires |p| == 10
    ensures ClassicPlan(p) == [Block(4, p + Zeros(6)), Block(5, Zeros(16)), Block(6, Zeros(16)), Block(7, Footer)]
  {
    assert Sectors(10) == 1;
    ClassicPlanAt(p, 0, 0);
    ClassicPlanAt(p, 0, 1);
    ClassicPlanAt(p, 0, 2);
    ClassicPlanAt(p, 0, 3);
    assert Chunk(p, 0, 16) == p + Zeros(6);
    assert Chunk(p, 16, 16) == Zeros(16);
    assert Chunk(p, 32, 16) == Zeros(16);
  }

  /** An empty payload still zero-fills blocks 4-6 and writes the footer to block 7. */
  lemma ClassicEmpty()
    ensures ClassicPlan([]) == [Block(4, Zeros(16)), Block(5, Zeros(16)), Block(6, Zeros(16)), Block(7, Footer)]
  {
    ClassicPlanAt([], 0, 0);
    ClassicPlanAt([], 0, 1);
    ClassicPlanAt([], 0, 2);
    ClassicPlanAt([], 0, 3);
    assert Chunk([], 0, 16) == Zeros(16);
    assert Chunk([], 16, 16) == Zeros(16);
    assert Chunk([], 32, 16) == Zeros(16);
  }

  // ------------------------------------------------------------- Ultralight

  /** How many 4-byte pages a payload of `len` bytes needs. */
  function Pages(len: nat): (n: nat)
    ensures len <= 4 * n < len + 4
  {
    (len + 3) / 4
  }

  /** Every Ultralight page write of the payload `p`, in order from page 4: the
      payload cut into 4-byte pages, the last one zero-padded. */
  function UltralightPlan(p: seq<byte>): (plan: seq<Block>)
    ensures |plan| == Pages(|p|)
    ensures forall k :: 0 <= k < |plan| ==> plan[k].addr == FirstBlock + k && |plan[k].data| == UltralightPageSize
    ensures forall k, i :: 0 <= k < |plan| && 0 <= i < UltralightPageSize ==> plan[k].data[i] == ByteAt(p, 4 * k + i)
  {
    var n := Pages(|p|);
    var padded := Padded(p, 4 * n);
    seq(n, k requires 0 <= k < n => Block(FirstBlock + k, padded[4 * k .. 4 * k + 4]))
  }

  /** Page `k` of the Ultralight plan carries the 4 payload bytes from offset
      `4 * k`, zero past the payload's end. */
  lemma UltralightPage(p: seq<byte>, k: nat, data: seq<byte>)
    requires k < |UltralightPlan(p)| && |data| == UltralightPageSize
    requires forall x :: 0 <= x < UltralightPageSize ==> data[x] == ByteAt(p, 4 * k + x)
    ensures UltralightPlan(p)[k] == Block(FirstBlock + k, data)
  {
    assert UltralightPlan(p)[k].data == data;
  }
}
