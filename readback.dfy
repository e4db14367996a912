/** What reading the written blocks back gives: the data area of the Classic
    writes and the contents of the Ultralight writes, and the round trips that
    recover the payload from them. */
module ReadBack {
  import opened Base
  import opened Payload

  // ---------------------------------------------------------------- Classic

  /** The data area of a sequence of Classic writes: the bytes of its non-trailer
      blocks, concatenated in write order. */
  function DataArea(plan: seq<Block>): seq<byte> {
    if plan == [] then []
    else DataArea(plan[..|plan| - 1])
         + (if IsTrailer(plan[|plan| - 1].addr) then [] else plan[|plan| - 1].data)
  }

  /** The data area of two runs of writes is the data area of the first followed
      by that of the second. */
  lemma {:induction false} DataAreaAppend(a: seq<Block>, b: seq<Block>)
    ensures DataArea(a + b) == DataArea(a) + DataArea(b)
  {
    if b == [] {
      assert a + b == a;
    } else {
      var init, last := b[..|b| - 1], b[|b| - 1];
      assert b == init + [last];
      assert a + b == (a + init) + [last];
      DataAreaAppend(a, init);
      DataAreaSnoc(a + init, last);
      DataAreaSnoc(init, last);
    }
  }

  /** One more write adds its data, unless it is a trailer. */
  lemma DataAreaSnoc(a: seq<Block>, last: Block)
    ensures DataArea(a + [last]) == DataArea(a) + (if IsTrailer(last.addr) then [] else last.data)
  {
    assert (a + [last])[..|a|] == a;
  }

  /** Two adjacent chunks of the zero-padded payload make one. */
  lemma ChunkJoin(p: seq<byte>, at: nat, m: nat, n: nat)
    ensures Chunk(p, at, m) + Chunk(p, at + m, n) == Chunk(p, at, m + n)
  {
  }

  /** The four writes of sector `q`: its three data blocks and its trailer. */
  function SectorWrites(p: seq<byte>, q: nat): (w: seq<Block>)
    ensures |w| == 4
  {
    [ClassicWrite(p, 4 * q), ClassicWrite(p, 4 * q + 1), ClassicWrite(p, 4 * q + 2), ClassicWrite(p, 4 * q + 3)]
  }

  /** Sector `q` of the plan is its four writes. */
  lemma PlanSector(p: seq<byte>, q: nat)
    requires 4 * q + 4 <= |ClassicPlan(p)|
    ensures ClassicPlan(p)[4 * q .. 4 * q + 4] == SectorWrites(p, q)
  {
  }

  /** A sector's writes contribute its 48 bytes; the trailer none. */
  lemma SectorData(p: seq<byte>, q: nat)
    ensures DataArea(SectorWrites(p, q)) == Chunk(p, 48 * q, 48)
  {
    var w, at := SectorWrites(p, q), 48 * q;
    assert (4 * q + 1) / 4 == q && (4 * q + 2) / 4 == q && (4 * q + 3) / 4 == q;
    assert w == [Block(FirstBlock + 4 * q, Chunk(p, at, 16)), Block(FirstBlock + 4 * q + 1, Chunk(p, at + 16, 16)),
                 Block(FirstBlock + 4 * q + 2, Chunk(p, at + 32, 16)), Block(FirstBlock + 4 * q + 3, Footer)];
    TrailerSlot(q, 0);
    TrailerSlot(q, 1);
    TrailerSlot(q, 2);
    TrailerSlot(q, 3);
    assert w[..3][..2] == w[..2] && w[..2][..1] == w[..1] && w[..1][..0] == [];
    assert DataArea(w[..1]) == Chunk(p, at, 16);
    assert DataArea(w[..2]) == Chunk(p, at, 16) + Chunk(p, at + 16, 16);
    assert DataArea(w[..3]) == Chunk(p, at, 16) + Chunk(p, at + 16, 16) + Chunk(p, at + 32, 16);
    assert w[..4] == w;
    ChunkJoin(p, at, 16, 16);
    ChunkJoin(p, at, 32, 16);
  }

  /** The first `n` sectors of the plan lay down the first `48 * n` bytes of the
      zero-padded payload. */
  lemma {:induction false} SectorsData(p: seq<byte>, n: nat)
    requires 4 * n <= |ClassicPlan(p)|
    ensures DataArea(ClassicPlan(p)[..4 * n]) == Chunk(p, 0, 48 * n)
  {
    if n > 0 {
      SectorsData(p, n - 1);
      PlanSector(p, n - 1);
      NextSector(ClassicPlan(p), p, n - 1);
    }
  }

  /** Writes laying down the first `48 * q` bytes, followed by sector `q`'s
      writes, lay down the first `48 * (q + 1)`. */
  lemma NextSector(plan: seq<Block>, p: seq<byte>, q: nat)
    requires 4 * q + 4 <= |plan|
    requires DataArea(plan[..4 * q]) == Chunk(p, 0, 48 * q)
    requires plan[4 * q .. 4 * q + 4] == SectorWrites(p, q)
    ensures DataArea(plan[..4 * q + 4]) == Chunk(p, 0, 48 * q + 48)
  {
    var i, j := 4 * q, 4 * q + 4;
    SectorData(p, q);
    TakeSplit(plan, i, j);
    DataAreaAppend(plan[..i], plan[i..j]);
    ChunkJoin(p, 0, 48 * q, 48);
  }

  /** A prefix of a sequence splits at any shorter length. */
  lemma TakeSplit<T>(s: seq<T>, i: nat, j: nat)
    requires i <= j <= |s|
    ensures s[..j] == s[..i] + s[i..j]
  {
  }

  /** Round trip: the non-trailer blocks of the Classic plan, read back in order,
      are the payload followed by zeros up to the end of its last sector's data
      blocks; the footer never takes a payload byte. */
  lemma ClassicRoundTrip(p: seq<byte>)
    ensures DataArea(ClassicPlan(p)) == Padded(p, 48 * Sectors(|p|))
    ensures DataArea(ClassicPlan(p))[..|p|] == p
  {
    ClassicDataArea(p);
    PaddedPrefix(p, 48 * Sectors(|p|));
  }

  /** All sectors of the plan lay down the payload zero-padded to whole sectors. */
  lemma ClassicDataArea(p: seq<byte>)
    ensures DataArea(ClassicPlan(p)) == Chunk(p, 0, 48 * Sectors(|p|))
  {
    var plan, n := ClassicPlan(p), Sectors(|p|);
    SectorsData(p, n);
    TakeAll(plan, 4 * n);
  }

  /** The prefix of a sequence as long as it is the whole sequence. */
  lemma TakeAll<T>(s: seq<T>, n: nat)
    requires n == |s|
    ensures s[..n] == s
  {
  }

  /** The zero-padded payload begins with the payload. */
  lemma PaddedPrefix(p: seq<byte>, n: nat)
    requires |p| <= n
    ensures Padded(p, n)[..|p|] == p
  {
    assert Padded(p, n)[..|p|] == p;
  }

  // ------------------------------------------------------------- Ultralight

  /** The bytes of every write of `plan`, concatenated in write order. */
  function Contents(plan: seq<Block>): seq<byte> {
    if plan == [] then [] else Contents(plan[..|plan| - 1]) + plan[|plan| - 1].data
  }

  /** The first `k` pages of the Ultralight plan hold the first `4 * k` bytes
      of the zero-padded payload. */
  lemma {:induction false} UltralightPrefix(p: seq<byte>, k: nat)
    requires k <= |UltralightPlan(p)|
    ensures Contents(UltralightPlan(p)[..k]) == Padded(p, 4 * Pages(|p|))[..4 * k]
  {
    var plan, padded := UltralightPlan(p), Padded(p, 4 * Pages(|p|));
    if k > 0 {
      UltralightPrefix(p, k - 1);
      assert plan[..k][..k - 1] == plan[..k - 1];
      assert plan[k - 1].data == padded[4 * (k - 1) .. 4 * k];
      assert padded[..4 * (k - 1)] + padded[4 * (k - 1) .. 4 * k] == padded[..4 * k];
    }
  }

  /** Round trip: the pages read back in order are the payload zero-padded to a
      multiple of 4 bytes; an empty payload writes no page at all. */
  lemma UltralightRoundTrip(p: seq<byte>)
    ensures Contents(UltralightPlan(p)) == Padded(p, 4 * Pages(|p|))
    ensures Contents(UltralightPlan(p))[..|p|] == p
    ensures |p| == 0 <==> UltralightPlan(p) == []
  {
    var plan := UltralightPlan(p);
    UltralightPrefix(p, |plan|);
    assert plan[..|plan|] == plan;
  }
}
