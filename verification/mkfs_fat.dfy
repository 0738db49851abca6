/**
 * The file allocation table of the FAT build: entry `i` is word
 * `i % (BSIZE / 4)` of block `fatstart + i / (BSIZE / 4)` of the image
 * (mkfs/mkfs.c:311-317, 323-326).  An entry holds the next block of a
 * chain, 0 at the end of a file's chain, and 0xFFFFFFFF for blocks in use
 * by the metadata.
 */
module MkfsFat {
  import opened MkfsCodec
  import opened MkfsLayout
  import opened MkfsInode

  /** The block that holds entry `i`. */
  function FatBlk(g: Geometry, start: nat, i: nat): nat
    requires g.Sizes()
  {
    start + i / (g.bsize / 4)
  }

  /** The word of that block that holds entry `i`. */
  function FatSlot(g: Geometry, i: nat): (k: nat)
    requires g.Sizes()
    ensures 4 * k + 4 <= g.bsize
  {
    i % (g.bsize / 4)
  }

  /** Entry `i` lies in a block of the image (otherwise `rsect` fails). */
  predicate FatIn(g: Geometry, start: nat, d: seq<seq<byte>>, i: nat)
    requires g.Sizes()
  {
    FatBlk(g, start, i) < |d|
  }

  /** FAT entry `i` of image `d` with the table at block `start`. */
  function FatAt(g: Geometry, start: nat, d: seq<seq<byte>>, i: nat): (w: nat)
    requires Formatted(g, d) && FatIn(g, start, d, i)
    ensures w < U32
  {
    WordAt(d[FatBlk(g, start, i)], FatSlot(g, i))
  }

  /** Two entries share block and word only when they are the same entry. */
  lemma SameSlot(g: Geometry, i: nat, j: nat)
    requires g.Sizes()
    ensures i / (g.bsize / 4) == j / (g.bsize / 4) && FatSlot(g, i) == FatSlot(g, j) ==> i == j
  {
  }

  /**
   * `buf[j] = v` on the FAT block holding entry `j`, written back: entry `j`
   * reads `v`, every other entry and every other block are unchanged.
   */
  function SetFat(g: Geometry, start: nat, d: seq<seq<byte>>, j: nat, v: nat): (d': seq<seq<byte>>)
    requires Formatted(g, d) && FatIn(g, start, d, j) && v < U32
    ensures Formatted(g, d') && |d'| == |d|
    ensures forall i :: FatIn(g, start, d, i) ==> FatAt(g, start, d', i) == (if i == j then v else FatAt(g, start, d, i))
    ensures forall b :: 0 <= b < |d| && b != FatBlk(g, start, j) ==> d'[b] == d[b]
  {
    var bj := FatBlk(g, start, j);
    var d' := d[bj := SetWord(d[bj], FatSlot(g, j), v)];
    forall i | FatIn(g, start, d, i)
      ensures FatAt(g, start, d', i) == (if i == j then v else FatAt(g, start, d, i))
    {
      SameSlot(g, i, j);
    }
    d'
  }

  /**
   * `getfreeblk(prevblk)` on the table: the head entry `head` becomes 0 (the
   * end of a chain) and, when `prev` is not 0, entry `prev` links to `head`;
   * only the blocks holding those two entries change.
   */
  function PopFree(g: Geometry, start: nat, d: seq<seq<byte>>, head: nat, prev: nat): (d': seq<seq<byte>>)
    requires Formatted(g, d) && FatIn(g, start, d, head) && head < U32
    requires prev != 0 ==> FatIn(g, start, d, prev)
    ensures Formatted(g, d') && |d'| == |d|
    ensures forall i :: FatIn(g, start, d, i) ==>
              FatAt(g, start, d', i) == (if prev != 0 && i == prev then head else if i == head then 0 else FatAt(g, start, d, i))
    ensures forall b :: 0 <= b < |d| && b != FatBlk(g, start, head) && (prev == 0 || b != FatBlk(g, start, prev)) ==> d'[b] == d[b]
  {
    var d1 := SetFat(g, start, d, head, 0);
    if prev != 0 then SetFat(g, start, d1, prev, head) else d1
  }

  /**
   * The writes that end `getfreeblk`: block `b` becomes `buf` and, when
   * `prev` is not 0, entry `prev` gets `head` -- inside `buf` when both
   * share a block, otherwise in `prev`'s own block.
   */
  function Relink(g: Geometry, start: nat, d: seq<seq<byte>>, b: nat, buf: seq<byte>, head: nat, prev: nat): (d': seq<seq<byte>>)
    requires Formatted(g, d) && b < |d| && |buf| == g.bsize && head < U32
    requires prev != 0 ==> FatIn(g, start, d, prev)
    ensures |d'| == |d|
  {
    var pb := FatBlk(g, start, prev);
    if prev == 0 then d[b := buf]
    else if b == pb then d[b := SetWord(buf, FatSlot(g, prev), head)]
    else d[b := buf][pb := SetWord(d[pb], FatSlot(g, prev), head)]
  }

  /**
   * `PopFree` as `getfreeblk` performs it: the head's block with the head's
   * entry cleared, then the link from `prev`.
   */
  lemma PopFreeWrites(g: Geometry, start: nat, d: seq<seq<byte>>, head: nat, prev: nat)
    requires Formatted(g, d) && FatIn(g, start, d, head) && head < U32
    requires prev != 0 ==> FatIn(g, start, d, prev)
    ensures var b := FatBlk(g, start, head);
      PopFree(g, start, d, head, prev) == Relink(g, start, d, b, SetWord(d[b], FatSlot(g, head), 0), head, prev)
  {
  }

  /** Block `b` of the table holds words `b * W .. (b + 1) * W - 1` of `ws`. */
  ghost predicate TableBlock(g: Geometry, start: nat, d: seq<seq<byte>>, ws: seq<nat>, b: nat)
    requires g.Sizes()
  {
    var w := g.bsize / 4;
    && start + b < |d| && (b + 1) * w <= |ws|
    && (forall i :: 0 <= i < |ws| ==> ws[i] < U32)
    && d[start + b] == EncodeWords(ws[b * w .. (b + 1) * w])
  }

  /** Blocks `0 .. n - 1` of the table hold their words of `ws`. */
  ghost predicate Tabled(g: Geometry, start: nat, d: seq<seq<byte>>, ws: seq<nat>, n: nat)
    requires g.Sizes()
  {
    forall b :: 0 <= b < n ==> TableBlock(g, start, d, ws, b)
  }

  /** Writing block `i` of the table after blocks `0 .. i - 1` leaves `0 .. i` written. */
  lemma TableGrows(g: Geometry, start: nat, d: seq<seq<byte>>, ws: seq<nat>, i: nat)
    requires g.Sizes() && start + i < |d| && (i + 1) * (g.bsize / 4) <= |ws|
    requires forall j :: 0 <= j < |ws| ==> ws[j] < U32
    requires Tabled(g, start, d, ws, i)
    ensures var w := g.bsize / 4;
      Tabled(g, start, d[start + i := EncodeWords(ws[i * w .. (i + 1) * w])], ws, i + 1)
  {
    var w := g.bsize / 4;
    var d' := d[start + i := EncodeWords(ws[i * w .. (i + 1) * w])];
    forall b | 0 <= b < i + 1
      ensures TableBlock(g, start, d', ws, b)
    {
      if b < i {
        assert TableBlock(g, start, d, ws, b);
      }
    }
  }

  /** A table written block by block from `ws` reads back `ws` entry by entry. */
  lemma FatOfTable(g: Geometry, start: nat, d: seq<seq<byte>>, ws: seq<nat>, n: nat)
    requires Formatted(g, d) && |ws| == n * (g.bsize / 4)
    requires Tabled(g, start, d, ws, n)
    ensures forall i :: 0 <= i < |ws| ==> FatIn(g, start, d, i) && FatAt(g, start, d, i) == ws[i]
  {
    forall i | 0 <= i < |ws|
      ensures FatIn(g, start, d, i) && FatAt(g, start, d, i) == ws[i]
    {
      FatEntry(g, start, d, ws, n, i);
    }
  }

  /** Entry `i` of a table written from `ws` reads back `ws[i]`. */
  lemma FatEntry(g: Geometry, start: nat, d: seq<seq<byte>>, ws: seq<nat>, n: nat, i: nat)
    requires Formatted(g, d) && |ws| == n * (g.bsize / 4) && i < |ws|
    requires Tabled(g, start, d, ws, n)
    ensures FatIn(g, start, d, i) && FatAt(g, start, d, i) == ws[i]
  {
    var w := g.bsize / 4;
    WordInBlocks(i, w, n);
    FatEntryOfBlock(g, start, d, ws, i, i / w, i % w);
  }

  /** Word `k` of table block `b` is entry `b * W + k`, and it reads the word written there. */
  lemma FatEntryOfBlock(g: Geometry, start: nat, d: seq<seq<byte>>, ws: seq<nat>, i: nat, b: nat, k: nat)
    requires Formatted(g, d) && k < g.bsize / 4 && i == b * (g.bsize / 4) + k
    requires TableBlock(g, start, d, ws, b)
    ensures i < |ws| && FatIn(g, start, d, i) && FatAt(g, start, d, i) == ws[i]
  {
    var w := g.bsize / 4;
    DivMod(i, w, b, k);
    MulLe(b + 1, b + 1, w);
    assert (b + 1) * w == b * w + w;
    EncodedWord(ws, b * w, (b + 1) * w, k);
  }

  /** Word `k` of the encoding of `ws[lo..hi]` is `ws[lo + k]`. */
  lemma EncodedWord(ws: seq<nat>, lo: nat, hi: nat, k: nat)
    requires lo + k < hi <= |ws| && forall j :: 0 <= j < |ws| ==> ws[j] < U32
    ensures WordAt(EncodeWords(ws[lo..hi]), k) == ws[lo + k]
  {
    assert ws[lo..hi][k] == ws[lo + k];
  }

  /** `i / W < n`, and block `i / W` of `n` blocks of `W` words holds word `i`. */
  lemma WordInBlocks(i: nat, w: nat, n: nat)
    requires w > 0 && i < n * w
    ensures i / w < n && (i / w) * w + i % w == i && (i / w + 1) * w <= n * w
  {
    var q := i / w;
    MulLe(n, q, w);
    assert (q + 1) * w == q * w + w;
    MulSign(n - q, w);
    assert n * w == (n - q) * w + q * w;
  }
}
