/**
 * On-disk inodes as mkfs writes them, and the block map of a file in the
 * classic build: `addrs[0 .. NDIRECT-1]` hold the first NDIRECT block
 * numbers, `addrs[NDIRECT]` the indirect block, whose 32-bit words number
 * the next NINDIRECT blocks.  A disk is a sequence of BSIZE-byte blocks.
 */
module MkfsInode {
  import opened MkfsCodec
  import opened MkfsLayout

  /**
   * `struct dinode`, with its fields decoded (the bytes of each are those
   * of XShort / XInt).  `addrs` is the classic build's map, `startblk` the
   * FAT build's first block.
   */
  datatype DInode = DInode(typ: nat, nlink: nat, size: nat, addrs: seq<nat>, startblk: nat)

  function Zeros(n: nat): seq<byte>
  {
    seq(n, _ => 0)
  }

  /** An inode whose map has the NDIRECT + 1 slots of `addrs`. */
  predicate Shaped(g: Geometry, din: DInode)
  {
    |din.addrs| == g.ndirect + 1
  }

  /** An inode slot of a freshly zeroed inode block. */
  function ZeroInode(g: Geometry): (din: DInode)
    ensures Shaped(g, din)
  {
    DInode(0, 0, 0, seq(g.ndirect + 1, _ => 0), 0)
  }

  /** The inode `ialloc(type)` writes: zeroed but for the type, one link and size 0. */
  function NewInode(g: Geometry, typ: nat): (din: DInode)
    ensures Shaped(g, din) && din.nlink == 1 && din.size == 0
    ensures din == ZeroInode(g).(typ := typ, nlink := 1)
  {
    DInode(typ, 1, 0, seq(g.ndirect + 1, _ => 0), 0)
  }

  /** Every block of `d` is BSIZE bytes long, and block numbers fit a `uint`. */
  predicate Formatted(g: Geometry, d: seq<seq<byte>>)
  {
    g.Sizes() && |d| < U32 && forall b :: 0 <= b < |d| ==> |d[b]| == g.bsize
  }

  /** The indirect-block pointer `addrs[NDIRECT]`. */
  function Ind(g: Geometry, din: DInode): nat
    requires Shaped(g, din)
  {
    din.addrs[g.ndirect]
  }

  /**
   * The disk block holding file block `fbn`, or 0 when none is assigned:
   * `addrs[fbn]` for a direct block, word `fbn - NDIRECT` of the indirect
   * block otherwise (none while the indirect block is unassigned).
   */
  function BlockOf(g: Geometry, din: DInode, d: seq<seq<byte>>, fbn: nat): nat
    requires Formatted(g, d) && Shaped(g, din) && fbn < g.MaxFile()
  {
    if fbn < g.ndirect then din.addrs[fbn]
    else if Ind(g, din) == 0 || Ind(g, din) >= |d| then 0
    else WordAt(d[Ind(g, din)], fbn - g.ndirect)
  }

  /**
   * The invariant mkfs keeps for a file while it appends to it, with
   * `fb` the next free block (`freeblock`): every assigned block lies below
   * `fb`, no block serves two file blocks or both a file block and the
   * indirect block, and every block from `fb` on is still zero.
   */
  ghost predicate Sane(g: Geometry, din: DInode, d: seq<seq<byte>>, fb: nat)
    requires Formatted(g, d) && Shaped(g, din)
  {
    && 0 < fb <= |d|
    && Ind(g, din) < fb
    && (forall f :: 0 <= f < g.MaxFile() ==> BlockOf(g, din, d, f) < fb)
    && (forall f1, f2 :: 0 <= f1 < g.MaxFile() && 0 <= f2 < g.MaxFile() && f1 != f2 && BlockOf(g, din, d, f1) != 0
          ==> BlockOf(g, din, d, f1) != BlockOf(g, din, d, f2))
    && (Ind(g, din) != 0 ==> forall f :: 0 <= f < g.MaxFile() ==> BlockOf(g, din, d, f) != Ind(g, din))
    && (forall b :: fb <= b < |d| ==> d[b] == Zeros(g.bsize))
  }

  /** The file block of byte offset `o`. */
  function Fbn(o: nat, bsize: nat): nat
    requires bsize > 0
  {
    o / bsize
  }

  /** The offset of byte `o` inside its block. */
  function Boff(o: nat, bsize: nat): (r: nat)
    requires bsize > 0
    ensures r < bsize
  {
    o % bsize
  }

  /** Byte `o` of the file is stored in an assigned block of the image and equals `v`. */
  ghost predicate Holds(g: Geometry, din: DInode, d: seq<seq<byte>>, o: nat, v: byte)
    requires Formatted(g, d) && Shaped(g, din)
  {
    && Fbn(o, g.bsize) < g.MaxFile()
    && var x := BlockOf(g, din, d, Fbn(o, g.bsize));
       0 < x < |d| && d[x][Boff(o, g.bsize)] == v
  }

  /** The map of `din'` agrees with that of `din` on every block `din` assigns. */
  ghost predicate KeepsMap(g: Geometry, din: DInode, d: seq<seq<byte>>, din': DInode, d': seq<seq<byte>>)
    requires Formatted(g, d) && Shaped(g, din) && Formatted(g, d') && Shaped(g, din')
  {
    forall f :: 0 <= f < g.MaxFile() && BlockOf(g, din, d, f) != 0 ==> BlockOf(g, din', d', f) == BlockOf(g, din, d, f)
  }

  /** Every byte of the file `din` over `d` is also a byte of `din'` over `d'`. */
  ghost predicate KeepsBytes(g: Geometry, din: DInode, d: seq<seq<byte>>, din': DInode, d': seq<seq<byte>>)
    requires Formatted(g, d) && Shaped(g, din) && Formatted(g, d') && Shaped(g, din')
  {
    forall o: nat, v: byte :: Holds(g, din, d, o, v) ==> Holds(g, din', d', o, v)
  }

  /** Only the block addresses of an inode decide where its bytes are. */
  lemma SameAddrs(g: Geometry, din: DInode, din': DInode, d: seq<seq<byte>>, fb: nat)
    requires Formatted(g, d) && Shaped(g, din) && din'.addrs == din.addrs
    ensures Shaped(g, din')
    ensures forall f :: 0 <= f < g.MaxFile() ==> BlockOf(g, din', d, f) == BlockOf(g, din, d, f)
    ensures Sane(g, din, d, fb) ==> Sane(g, din', d, fb)
    ensures forall o: nat, v: byte :: Holds(g, din, d, o, v) ==> Holds(g, din', d, o, v)
  {
  }

  /**
   * One allocation step of `iappend`: `din'` over `d'` differs from `din`
   * over `d` only in block addresses, meets `Sane` with next free block
   * `fb`, and keeps every block assignment and every byte of `din`.
   */
  ghost predicate Extends(g: Geometry, din: DInode, d: seq<seq<byte>>, din': DInode, d': seq<seq<byte>>, fb: nat)
  {
    && Formatted(g, d) && Formatted(g, d') && Shaped(g, din) && Shaped(g, din')
    && din' == din.(addrs := din'.addrs)
    && Sane(g, din', d', fb)
    && KeepsMap(g, din, d, din', d')
    && KeepsBytes(g, din, d, din', d')
  }

  /** Two allocation steps make one. */
  lemma ExtendsTrans(g: Geometry, din: DInode, d: seq<seq<byte>>, din1: DInode, d1: seq<seq<byte>>, fb1: nat,
                     din2: DInode, d2: seq<seq<byte>>, fb2: nat)
    requires Extends(g, din, d, din1, d1, fb1) && Extends(g, din1, d1, din2, d2, fb2)
    ensures Extends(g, din, d, din2, d2, fb2)
  {
  }

  lemma WordOfZeros(n: nat, k: nat)
    requires 4 * k + 4 <= n
    ensures WordAt(Zeros(n), k) == 0
  {
  }

  /** An inode `ialloc` just wrote has an empty map, which is sane over any image zero from `fb` on. */
  lemma NewInodeSane(g: Geometry, typ: nat, d: seq<seq<byte>>, fb: nat)
    requires Formatted(g, d) && 0 < fb <= |d|
    requires forall b :: fb <= b < |d| ==> d[b] == Zeros(g.bsize)
    ensures Sane(g, NewInode(g, typ), d, fb)
    ensures forall f :: 0 <= f < g.MaxFile() ==> BlockOf(g, NewInode(g, typ), d, f) == 0
  {
  }

  /**
   * Assigning the free block `fb` to the empty direct slot `fbn` (mkfs/mkfs.c:410-411)
   * keeps the invariant with `fb + 1` free, maps `fbn` to `fb`, and keeps the
   * rest of the map and every byte of the file.
   */
  lemma AllocDirect(g: Geometry, din: DInode, d: seq<seq<byte>>, fb: nat, fbn: nat)
    requires Formatted(g, d) && Shaped(g, din) && Sane(g, din, d, fb)
    requires fbn < g.ndirect && din.addrs[fbn] == 0 && fb < |d|
    ensures var din' := din.(addrs := din.addrs[fbn := fb]);
      && Shaped(g, din') && Sane(g, din', d, fb + 1) && BlockOf(g, din', d, fbn) == fb
      && KeepsMap(g, din, d, din', d) && KeepsBytes(g, din, d, din', d)
      && (forall f :: 0 <= f < g.MaxFile() && f != fbn ==> BlockOf(g, din', d, f) == BlockOf(g, din, d, f))
  {
    var din' := din.(addrs := din.addrs[fbn := fb]);
    assert forall f :: 0 <= f < g.MaxFile() && f != fbn ==> BlockOf(g, din', d, f) == BlockOf(g, din, d, f);
  }

  /**
   * Assigning the free block `fb` as the indirect block (mkfs/mkfs.c:415-416):
   * the block is zero, so the map does not change.
   */
  lemma AllocIndirect(g: Geometry, din: DInode, d: seq<seq<byte>>, fb: nat)
    requires Formatted(g, d) && Shaped(g, din) && Sane(g, din, d, fb)
    requires Ind(g, din) == 0 && fb < |d|
    ensures var din' := din.(addrs := din.addrs[g.ndirect := fb]);
      && Shaped(g, din') && Sane(g, din', d, fb + 1) && Ind(g, din') == fb
      && (forall f :: 0 <= f < g.MaxFile() ==> BlockOf(g, din', d, f) == BlockOf(g, din, d, f))
      && KeepsMap(g, din, d, din', d) && KeepsBytes(g, din, d, din', d)
  {
    var din' := din.(addrs := din.addrs[g.ndirect := fb]);
    forall f | 0 <= f < g.MaxFile()
      ensures BlockOf(g, din', d, f) == BlockOf(g, din, d, f)
    {
      if f >= g.ndirect {
        WordOfZeros(g.bsize, f - g.ndirect);
      }
    }
    assert Ind(g, din') == fb;
    assert forall f :: 0 <= f < g.MaxFile() ==> BlockOf(g, din', d, f) < fb;
  }

  /**
   * Writing the free block `fb` into the empty entry `fbn - NDIRECT` of the
   * indirect block (mkfs/mkfs.c:419-421): the invariant holds with `fb + 1`
   * free, `fbn` maps to `fb`, and the rest of the map and the file's bytes stay.
   */
  lemma AllocIndirectEntry(g: Geometry, din: DInode, d: seq<seq<byte>>, fb: nat, fbn: nat)
    requires Formatted(g, d) && Shaped(g, din) && Sane(g, din, d, fb)
    requires g.ndirect <= fbn < g.MaxFile() && 0 < Ind(g, din) && BlockOf(g, din, d, fbn) == 0
    requires fb < |d|
    ensures var d' := d[Ind(g, din) := SetWord(d[Ind(g, din)], fbn - g.ndirect, fb)];
      && Formatted(g, d') && Sane(g, din, d', fb + 1) && BlockOf(g, din, d', fbn) == fb
      && KeepsMap(g, din, d, din, d') && KeepsBytes(g, din, d, din, d')
      && (forall f :: 0 <= f < g.MaxFile() && f != fbn ==> BlockOf(g, din, d', f) == BlockOf(g, din, d, f))
  {
    var ind := Ind(g, din);
    var d' := d[ind := SetWord(d[ind], fbn - g.ndirect, fb)];
    assert forall f :: 0 <= f < g.MaxFile() && f != fbn ==> BlockOf(g, din, d', f) == BlockOf(g, din, d, f);
    forall o: nat, v: byte | Holds(g, din, d, o, v)
      ensures Holds(g, din, d', o, v)
    {
      assert BlockOf(g, din, d, Fbn(o, g.bsize)) != ind;
    }
  }

  /**
   * Overwriting a block other than the indirect block keeps the map, and
   * keeps the invariant when the block lies below `fb`.
   */
  lemma WriteKeepsMap(g: Geometry, din: DInode, d: seq<seq<byte>>, fb: nat, x: nat, blk: seq<byte>)
    requires Formatted(g, d) && Shaped(g, din) && Sane(g, din, d, fb)
    requires 0 < x < fb && x != Ind(g, din) && |blk| == g.bsize
    ensures Formatted(g, d[x := blk]) && Sane(g, din, d[x := blk], fb)
    ensures forall f :: 0 <= f < g.MaxFile() ==> BlockOf(g, din, d[x := blk], f) == BlockOf(g, din, d, f)
  {
    var d' := d[x := blk];
    forall f | 0 <= f < g.MaxFile()
      ensures BlockOf(g, din, d', f) == BlockOf(g, din, d, f)
    {
    }
  }

  /**
   * Copying `bytes` into block `x = BlockOf(fbn)` at offset `a` (mkfs/mkfs.c:426-428)
   * makes them file bytes `fbn * BSIZE + a ...`.
   */
  lemma WriteNewBytes(g: Geometry, din: DInode, d: seq<seq<byte>>, fb: nat, fbn: nat, a: nat, bytes: seq<byte>)
    requires Formatted(g, d) && Shaped(g, din) && Sane(g, din, d, fb)
    requires fbn < g.MaxFile() && 0 < BlockOf(g, din, d, fbn) < |d| && a + |bytes| <= g.bsize
    ensures var x := BlockOf(g, din, d, fbn);
      var d' := d[x := d[x][..a] + bytes + d[x][a + |bytes|..]];
      && Formatted(g, d')
      && (forall j :: 0 <= j < |bytes| ==> Holds(g, din, d', fbn * g.bsize + a + j, bytes[j]))
  {
    var x := BlockOf(g, din, d, fbn);
    var blk := d[x][..a] + bytes + d[x][a + |bytes|..];
    var d' := d[x := blk];
    WriteKeepsMap(g, din, d, fb, x, blk);
    assert BlockOf(g, din, d', fbn) == x;
    forall j | 0 <= j < |bytes|
      ensures Holds(g, din, d', fbn * g.bsize + a + j, bytes[j])
    {
      assert blk[a + j] == bytes[j];
      NewByte(g, din, d', x, fbn, a + j, bytes[j]);
    }
  }

  /** Byte `k` of the block mapped at `fbn` is file byte `fbn * BSIZE + k`. */
  lemma NewByte(g: Geometry, din: DInode, d: seq<seq<byte>>, x: nat, fbn: nat, k: nat, v: byte)
    requires Formatted(g, d) && Shaped(g, din) && fbn < g.MaxFile()
    requires BlockOf(g, din, d, fbn) == x && 0 < x < |d| && k < g.bsize && d[x][k] == v
    ensures Holds(g, din, d, fbn * g.bsize + k, v)
  {
    DivMod(fbn * g.bsize + k, g.bsize, fbn, k);
  }

  /**
   * The same copy keeps every other file byte, except those of block `fbn`
   * at or after `a`.
   */
  lemma WriteOldBytes(g: Geometry, din: DInode, d: seq<seq<byte>>, fb: nat, fbn: nat, a: nat, bytes: seq<byte>)
    requires Formatted(g, d) && Shaped(g, din) && Sane(g, din, d, fb)
    requires fbn < g.MaxFile() && 0 < BlockOf(g, din, d, fbn) < |d| && a + |bytes| <= g.bsize
    ensures var x := BlockOf(g, din, d, fbn);
      var d' := d[x := d[x][..a] + bytes + d[x][a + |bytes|..]];
      && Formatted(g, d')
      && (forall o: nat, v: byte :: Holds(g, din, d, o, v) && (Fbn(o, g.bsize) != fbn || Boff(o, g.bsize) < a)
            ==> Holds(g, din, d', o, v))
  {
    var x := BlockOf(g, din, d, fbn);
    var blk := d[x][..a] + bytes + d[x][a + |bytes|..];
    var d' := d[x := blk];
    WriteKeepsMap(g, din, d, fb, x, blk);
    forall o: nat, v: byte | Holds(g, din, d, o, v) && (Fbn(o, g.bsize) != fbn || Boff(o, g.bsize) < a)
      ensures Holds(g, din, d', o, v)
    {
      var y := BlockOf(g, din, d, Fbn(o, g.bsize));
      if Fbn(o, g.bsize) != fbn {
        assert y != x;
      } else {
        assert blk[Boff(o, g.bsize)] == d[x][Boff(o, g.bsize)];
      }
    }
  }

  /**
   * `d'` is `d` with `bytes` copied to offset `a` of the block of file block
   * `fbn`: the map is the same, the bytes read back at `fbn * BSIZE + a ..`,
   * and every file byte outside block `fbn` or before `a` in it is kept.
   */
  ghost predicate CopiedInto(g: Geometry, din: DInode, d: seq<seq<byte>>, d': seq<seq<byte>>, fbn: nat, a: nat, bytes: seq<byte>)
    requires Formatted(g, d) && Formatted(g, d') && Shaped(g, din)
  {
    && (forall f :: 0 <= f < g.MaxFile() ==> BlockOf(g, din, d', f) == BlockOf(g, din, d, f))
    && (forall j :: 0 <= j < |bytes| ==> Holds(g, din, d', fbn * g.bsize + a + j, bytes[j]))
    && (forall o: nat, v: byte :: Holds(g, din, d, o, v) && (Fbn(o, g.bsize) != fbn || Boff(o, g.bsize) < a)
          ==> Holds(g, din, d', o, v))
  }

  /** The copy of one chunk into an assigned block keeps the invariant and does what `CopiedInto` says. */
  lemma WriteChunk(g: Geometry, din: DInode, d: seq<seq<byte>>, fb: nat, fbn: nat, a: nat, bytes: seq<byte>)
    requires Formatted(g, d) && Shaped(g, din) && Sane(g, din, d, fb)
    requires fbn < g.MaxFile() && 0 < BlockOf(g, din, d, fbn) < |d| && a + |bytes| <= g.bsize
    ensures var x := BlockOf(g, din, d, fbn);
      var d' := d[x := d[x][..a] + bytes + d[x][a + |bytes|..]];
      && Formatted(g, d') && Sane(g, din, d', fb)
      && CopiedInto(g, din, d, d', fbn, a, bytes)
  {
    var x := BlockOf(g, din, d, fbn);
    WriteKeepsMap(g, din, d, fb, x, d[x][..a] + bytes + d[x][a + |bytes|..]);
    WriteNewBytes(g, din, d, fb, fbn, a, bytes);
    WriteOldBytes(g, din, d, fb, fbn, a, bytes);
  }

  /** An offset before `off` lies in an earlier block, or earlier in the same block. */
  lemma BeforeInBlock(o: nat, off: nat, bsize: nat)
    requires bsize > 0 && o < off
    ensures Fbn(o, bsize) != Fbn(off, bsize) || Boff(o, bsize) < Boff(off, bsize)
  {
  }

  /**
   * `din'` over `d'` is `din` over `d` with `src[..n]` appended at file
   * offset `off`: only block addresses differ, the invariant holds with
   * next free block `fb`, the map is kept, every file byte before `off` is
   * kept, and the appended bytes read back at `off ..`.
   */
  ghost predicate Appended(g: Geometry, din: DInode, d: seq<seq<byte>>, din': DInode, d': seq<seq<byte>>, fb: nat,
                           off: nat, src: seq<byte>, n: nat)
    requires Formatted(g, d) && Formatted(g, d') && n <= |src|
  {
    && Shaped(g, din) && Shaped(g, din') && din' == din.(addrs := din'.addrs)
    && Sane(g, din', d', fb)
    && KeepsMap(g, din, d, din', d')
    && (forall o: nat, v: byte :: o < off && Holds(g, din, d, o, v) ==> Holds(g, din', d', o, v))
    && (forall k :: 0 <= k < n ==> Holds(g, din', d', off + k, src[k]))
  }

  /**
   * One pass of the classic loop: after mapping block `off / BSIZE` and
   * copying `src[..n1]` to `off % BSIZE` in it, `src[..n1]` is appended at `off`.
   */
  lemma ChunkLands(g: Geometry, din: DInode, d: seq<seq<byte>>, din': DInode, d': seq<seq<byte>>, d'': seq<seq<byte>>,
                   fb: nat, off: nat, fbn: nat, a: nat, src: seq<byte>, n1: nat)
    requires Extends(g, din, d, din', d', fb) && Formatted(g, d'') && fbn < g.MaxFile()
    requires fbn == Fbn(off, g.bsize) && a == Boff(off, g.bsize) && n1 <= |src|
    requires CopiedInto(g, din', d', d'', fbn, a, src[..n1]) && Sane(g, din', d'', fb)
    ensures Appended(g, din, d, din', d'', fb, off, src, n1)
  {
    forall o: nat, v: byte | o < off && Holds(g, din, d, o, v)
      ensures Holds(g, din', d'', o, v)
    {
      assert Holds(g, din', d', o, v);
      BeforeInBlock(o, off, g.bsize);
    }
    assert fbn * g.bsize + a == off;
    forall k | 0 <= k < n1
      ensures Holds(g, din', d'', off + k, src[k])
    {
      assert src[..n1][k] == src[k];
    }
  }

  /**
   * Two appends in a row make one: `src[..p]` at `off`, then
   * `src[p..][..n1]` at `off + p`, is `src[..p + n1]` at `off`.
   */
  lemma AppendedTrans(g: Geometry, din: DInode, d: seq<seq<byte>>, din1: DInode, d1: seq<seq<byte>>, fb1: nat,
                      din2: DInode, d2: seq<seq<byte>>, fb2: nat, off: nat, at: nat, src: seq<byte>, p: nat, n1: nat)
    requires Formatted(g, d) && Formatted(g, d1) && Formatted(g, d2) && p + n1 <= |src| && at == off + p
    requires Appended(g, din, d, din1, d1, fb1, off, src, p)
    requires Appended(g, din1, d1, din2, d2, fb2, at, src[p..], n1)
    ensures Appended(g, din, d, din2, d2, fb2, off, src, p + n1)
  {
    forall k | 0 <= k < p + n1
      ensures Holds(g, din2, d2, off + k, src[k])
    {
      if k >= p {
        assert src[p..][k - p] == src[k];
      } else {
        assert Holds(g, din1, d1, off + k, src[k]);
      }
    }
  }

  /**
   * What `iappend` promises: `din2` is `din` grown by `|data|` bytes, with
   * the same type and link count, a sane map that keeps every block `din`
   * assigned, the old bytes in place and `data` at offsets `size ..`.
   */
  ghost predicate Grown(g: Geometry, din: DInode, d: seq<seq<byte>>, din2: DInode, d2: seq<seq<byte>>, fb: nat, data: seq<byte>)
    requires Formatted(g, d) && Formatted(g, d2)
  {
    && Shaped(g, din) && Shaped(g, din2)
    && din2 == din.(size := din.size + |data|, addrs := din2.addrs)
    && Sane(g, din2, d2, fb)
    && KeepsMap(g, din, d, din2, d2)
    && (forall o: nat, v: byte :: o < din.size && Holds(g, din, d, o, v) ==> Holds(g, din2, d2, o, v))
    && (forall k :: 0 <= k < |data| ==> Holds(g, din2, d2, din.size + k, data[k]))
  }

  /**
   * Block `b` belongs to no file block and is not the indirect block of
   * `din` over `d`.  Block 0 counts as foreign: `iappend` never writes it.
   */
  ghost predicate Foreign(g: Geometry, din: DInode, d: seq<seq<byte>>, b: nat)
    requires Formatted(g, d) && Shaped(g, din)
  {
    b == 0 || (b != Ind(g, din) && forall f :: 0 <= f < g.MaxFile() ==> BlockOf(g, din, d, f) != b)
  }

  /**
   * The footprint of `iappend` on the image: from `din` over `d` with next
   * free block `fb` to `din'` over `d'`, the indirect block is kept once
   * assigned, every newly assigned block (the indirect one included) comes
   * from `fb` on, and every block below `fb` that is foreign to the file is
   * unchanged.
   */
  ghost predicate Confined(g: Geometry, din: DInode, d: seq<seq<byte>>, fb: nat, din': DInode, d': seq<seq<byte>>)
    requires Formatted(g, d) && Shaped(g, din) && Formatted(g, d') && Shaped(g, din')
  {
    && |d'| == |d|
    && (Ind(g, din) != 0 ==> Ind(g, din') == Ind(g, din))
    && (Ind(g, din) == 0 ==> Ind(g, din') == 0 || fb <= Ind(g, din'))
    && (forall f :: 0 <= f < g.MaxFile() && BlockOf(g, din, d, f) == 0 ==>
          BlockOf(g, din', d', f) == 0 || fb <= BlockOf(g, din', d', f))
    && (forall b :: 0 <= b < fb && b < |d| && Foreign(g, din, d, b) ==> d'[b] == d[b])
  }

  /** Two confined steps make one, when the map of the first is kept by the second. */
  lemma ConfinedTrans(g: Geometry, din: DInode, d: seq<seq<byte>>, fb: nat, din1: DInode, d1: seq<seq<byte>>, fb1: nat,
                      din2: DInode, d2: seq<seq<byte>>)
    requires Formatted(g, d) && Formatted(g, d1) && Formatted(g, d2) && Shaped(g, din) && Shaped(g, din1) && Shaped(g, din2)
    requires Confined(g, din, d, fb, din1, d1) && Confined(g, din1, d1, fb1, din2, d2) && fb <= fb1
    requires KeepsMap(g, din, d, din1, d1) && KeepsMap(g, din1, d1, din2, d2)
    ensures Confined(g, din, d, fb, din2, d2)
  {
    forall b | 0 <= b < fb && b < |d| && Foreign(g, din, d, b)
      ensures d2[b] == d[b]
    {
      if b != 0 {
        forall f | 0 <= f < g.MaxFile()
          ensures BlockOf(g, din1, d1, f) != b
        {
          assert BlockOf(g, din, d, f) != b;
        }
      }
      assert Foreign(g, din1, d1, b);
    }
    forall f | 0 <= f < g.MaxFile() && BlockOf(g, din, d, f) == 0
      ensures BlockOf(g, din2, d2, f) == 0 || fb <= BlockOf(g, din2, d2, f)
    {
      if BlockOf(g, din1, d1, f) != 0 {
        assert BlockOf(g, din2, d2, f) == BlockOf(g, din1, d1, f);
      }
    }
  }

  /**
   * The classic loop after copying `data[..p]`: `din0` over `d0` with next
   * free block `fb0` became `din` over `d` with `fb`; the bytes were
   * appended and the image changed only inside the file or from `fb0` on.
   */
  ghost predicate Progress(g: Geometry, din0: DInode, d0: seq<seq<byte>>, fb0: nat, din: DInode, d: seq<seq<byte>>, fb: nat,
                           data: seq<byte>, p: nat)
    requires Formatted(g, d0) && Formatted(g, d) && p <= |data|
  {
    && fb0 <= fb
    && Appended(g, din0, d0, din, d, fb, din0.size, data, p)
    && Confined(g, din0, d0, fb0, din, d)
  }

  /** One more chunk of the classic loop keeps `Progress`. */
  lemma ProgressStep(g: Geometry, din0: DInode, d0: seq<seq<byte>>, fb0: nat, din: DInode, d: seq<seq<byte>>, fb: nat,
                     din': DInode, d': seq<seq<byte>>, fb': nat, data: seq<byte>, p: nat, n1: nat)
    requires Formatted(g, d0) && Formatted(g, d) && Formatted(g, d') && p + n1 <= |data|
    requires Progress(g, din0, d0, fb0, din, d, fb, data, p)
    requires Appended(g, din, d, din', d', fb', din0.size + p, data[p..], n1)
    requires Confined(g, din, d, fb, din', d') && fb <= fb'
    ensures Progress(g, din0, d0, fb0, din', d', fb', data, p + n1)
  {
    AppendedTrans(g, din0, d0, din, d, fb, din', d', fb', din0.size, din0.size + p, data, p, n1);
    ConfinedTrans(g, din0, d0, fb0, din, d, fb, din', d');
  }

  /**
   * No block of `o` (a file block or its indirect block) is a block of
   * `din`: two files of the image share no block.
   */
  ghost predicate Apart(g: Geometry, din: DInode, o: DInode, d: seq<seq<byte>>)
    requires Formatted(g, d) && Shaped(g, din) && Shaped(g, o)
  {
    && Foreign(g, din, d, Ind(g, o))
    && forall f :: 0 <= f < g.MaxFile() ==> Foreign(g, din, d, BlockOf(g, o, d, f))
  }

  /**
   * Another file `o` apart from the file `din` that `iappend` grew into
   * `din'` keeps its map, its bytes and its invariant, and stays apart
   * from `din'`: the next `iappend` of `o` may follow.
   */
  lemma OtherFileKept(g: Geometry, din: DInode, d: seq<seq<byte>>, fb: nat, din': DInode, d': seq<seq<byte>>, fb': nat,
                      o: DInode)
    requires Formatted(g, d) && Formatted(g, d') && Shaped(g, din) && Shaped(g, din') && Shaped(g, o)
    requires Sane(g, o, d, fb) && Sane(g, din', d', fb') && fb <= fb'
    requires Confined(g, din, d, fb, din', d') && KeepsMap(g, din, d, din', d') && Apart(g, din, o, d)
    ensures forall f :: 0 <= f < g.MaxFile() ==> BlockOf(g, o, d', f) == BlockOf(g, o, d, f)
    ensures Sane(g, o, d', fb') && KeepsBytes(g, o, d, o, d') && Apart(g, din', o, d')
  {
    var ind := Ind(g, o);
    if ind != 0 && ind < |d| {
      assert d'[ind] == d[ind];
    }
    assert forall f :: 0 <= f < g.MaxFile() ==> BlockOf(g, o, d', f) == BlockOf(g, o, d, f);
    forall o': nat, v: byte | Holds(g, o, d, o', v)
      ensures Holds(g, o, d', o', v)
    {
      var x := BlockOf(g, o, d, Fbn(o', g.bsize));
      assert d'[x] == d[x];
    }
    StillApart(g, din, d, fb, din', d', o, ind);
    forall f | 0 <= f < g.MaxFile()
      ensures Foreign(g, din', d', BlockOf(g, o, d', f))
    {
      StillApart(g, din, d, fb, din', d', o, BlockOf(g, o, d, f));
    }
  }

  /** Sharing no block is symmetric. */
  lemma ApartSym(g: Geometry, din: DInode, o: DInode, d: seq<seq<byte>>)
    requires Formatted(g, d) && Shaped(g, din) && Shaped(g, o) && Apart(g, din, o, d)
    ensures Apart(g, o, din, d)
  {
    forall f | 0 <= f < g.MaxFile()
      ensures Foreign(g, o, d, BlockOf(g, din, d, f))
    {
      var y := BlockOf(g, din, d, f);
      if y != 0 {
        assert Foreign(g, din, d, Ind(g, o));
        forall f' | 0 <= f' < g.MaxFile()
          ensures BlockOf(g, o, d, f') != y
        {
          assert Foreign(g, din, d, BlockOf(g, o, d, f'));
        }
      }
    }
    var y := Ind(g, din);
    if y != 0 {
      assert Foreign(g, din, d, Ind(g, o));
      forall f' | 0 <= f' < g.MaxFile()
        ensures BlockOf(g, o, d, f') != y
      {
        assert Foreign(g, din, d, BlockOf(g, o, d, f'));
      }
    }
  }

  /** A file `ialloc` just wrote owns no block, so it shares none with any file. */
  lemma NewInodeApart(g: Geometry, typ: nat, din: DInode, d: seq<seq<byte>>)
    requires Formatted(g, d) && Shaped(g, din)
    ensures Apart(g, din, NewInode(g, typ), d) && Apart(g, NewInode(g, typ), din, d)
  {
    assert forall f :: 0 <= f < g.MaxFile() ==> BlockOf(g, NewInode(g, typ), d, f) == 0;
    ApartSym(g, din, NewInode(g, typ), d);
  }

  /**
   * A grown file stays grown while another file's `iappend` keeps its
   * map, its bytes and its invariant.
   */
  lemma GrownKept(g: Geometry, din: DInode, d: seq<seq<byte>>, din1: DInode, d1: seq<seq<byte>>, fb1: nat,
                  d2: seq<seq<byte>>, fb2: nat, data: seq<byte>)
    requires Formatted(g, d) && Formatted(g, d1) && Formatted(g, d2)
    requires Grown(g, din, d, din1, d1, fb1, data) && Sane(g, din1, d2, fb2)
    requires forall f :: 0 <= f < g.MaxFile() ==> BlockOf(g, din1, d2, f) == BlockOf(g, din1, d1, f)
    requires KeepsBytes(g, din1, d1, din1, d2)
    ensures Grown(g, din, d, din1, d2, fb2, data)
  {
    forall k | 0 <= k < |data|
      ensures Holds(g, din1, d2, din.size + k, data[k])
    {
      assert Holds(g, din1, d1, din.size + k, data[k]);
    }
  }

  /**
   * After `iappend` grew `din` into `din1`: the file `o` apart from it kept
   * its map and bytes, and may be appended to next.
   */
  lemma FirstAppendDone(g: Geometry, din: DInode, d: seq<seq<byte>>, fb: nat, din1: DInode, d1: seq<seq<byte>>, fb1: nat,
                        o: DInode, data: seq<byte>)
    requires Formatted(g, d) && Formatted(g, d1) && Shaped(g, o)
    requires Grown(g, din, d, din1, d1, fb1, data) && Confined(g, din, d, fb, din1, d1) && fb <= fb1
    requires Sane(g, o, d, fb) && Apart(g, din, o, d)
    ensures Sane(g, o, d1, fb1) && Apart(g, o, din1, d1)
    ensures forall f :: 0 <= f < g.MaxFile() ==> BlockOf(g, o, d1, f) == BlockOf(g, o, d, f)
    ensures KeepsBytes(g, o, d, o, d1)
  {
    OtherFileKept(g, din, d, fb, din1, d1, fb1, o);
    ApartSym(g, din1, o, d1);
  }

  /**
   * After `iappend` then grew the file `o` into `o2`: both files are grown
   * by their bytes since the image `d`, and they still share no block.
   */
  lemma SecondAppendDone(g: Geometry, din: DInode, d: seq<seq<byte>>, din1: DInode, d1: seq<seq<byte>>, fb1: nat,
                         o: DInode, o2: DInode, d2: seq<seq<byte>>, fb2: nat, data: seq<byte>, more: seq<byte>)
    requires Formatted(g, d) && Formatted(g, d1) && Formatted(g, d2) && Shaped(g, o)
    requires Grown(g, din, d, din1, d1, fb1, data) && Apart(g, o, din1, d1)
    requires forall f :: 0 <= f < g.MaxFile() ==> BlockOf(g, o, d1, f) == BlockOf(g, o, d, f)
    requires KeepsBytes(g, o, d, o, d1)
    requires Grown(g, o, d1, o2, d2, fb2, more) && Confined(g, o, d1, fb1, o2, d2) && fb1 <= fb2
    ensures Grown(g, din, d, din1, d2, fb2, data) && Grown(g, o, d, o2, d2, fb2, more) && Apart(g, din1, o2, d2)
  {
    OtherFileKept(g, o, d1, fb1, o2, d2, fb2, din1);
    GrownKept(g, din, d, din1, d1, fb1, d2, fb2, data);
    ApartSym(g, o2, din1, d2);
    forall o': nat, v: byte | o' < o.size && Holds(g, o, d, o', v)
      ensures Holds(g, o2, d2, o', v)
    {
      assert Holds(g, o, d1, o', v);
    }
  }

  /** A block of `o` below `fb` that `din` does not own is not owned by `din'` either. */
  lemma StillApart(g: Geometry, din: DInode, d: seq<seq<byte>>, fb: nat, din': DInode, d': seq<seq<byte>>, o: DInode, b: nat)
    requires Formatted(g, d) && Formatted(g, d') && Shaped(g, din) && Shaped(g, din') && Shaped(g, o)
    requires Confined(g, din, d, fb, din', d') && KeepsMap(g, din, d, din', d')
    requires b < fb && Foreign(g, din, d, b)
    ensures Foreign(g, din', d', b)
  {
    if b != 0 {
      forall f | 0 <= f < g.MaxFile()
        ensures BlockOf(g, din', d', f) != b
      {
        assert BlockOf(g, din, d, f) != b;
      }
    }
  }

  /** Appending all of `data` at the end of the file, then setting the size, grows the file. */
  lemma AppendedSized(g: Geometry, din: DInode, d: seq<seq<byte>>, din': DInode, d': seq<seq<byte>>, fb: nat, data: seq<byte>)
    requires Formatted(g, d) && Formatted(g, d')
    requires Appended(g, din, d, din', d', fb, din.size, data, |data|)
    ensures Grown(g, din, d, din'.(size := din.size + |data|), d', fb, data)
  {
    SameAddrs(g, din', din'.(size := din.size + |data|), d', fb);
  }
}
