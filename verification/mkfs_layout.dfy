/**
 * The disk layout mkfs computes before it writes anything (mkfs/mkfs.c,
 * the globals at lines 28-35 and `main` up to the first write).  Two builds
 * exist: the classic one
 *   [ boot | super | log | inode blocks | free bitmap | data blocks ]
 * and the FAT build (compiled with SNU)
 *   [ boot | super | log | FAT blocks | inode blocks | data blocks ].
 * The constants of param.h and fs.h are parameters gathered in `Geometry`.
 */
module MkfsLayout {

  /**
   * BSIZE, FSSIZE, NINODES (the FAT build takes it from param.h), IPB,
   * LOGSIZE, NDIRECT and NINDIRECT.
   */
  datatype Geometry = Geometry(bsize: nat, fssize: nat, ninodes: nat, ipb: nat,
                               logsize: nat, ndirect: nat, nindirect: nat)
  {
    /**
     * Whole 32-bit words per block, and an indirect block that is read
     * whole into `uint indirect[NINDIRECT]`.
     */
    predicate Sizes()
    {
      bsize > 0 && bsize % 4 == 0 && nindirect * 4 == bsize
    }

    /**
     * What the source relies on besides `Sizes`: block numbers that fit a
     * `uint`, and an image larger than its metadata in either build.
     */
    predicate Valid()
    {
      && Sizes() && ipb > 0 && fssize < 0x1_0000_0000
      && BitmapLayout(this).nmeta < fssize
      && FatLayout(this).nmeta < fssize
    }

    /** MAXFILE: the direct blocks and one indirect block's worth. */
    function MaxFile(): nat
    {
      ndirect + nindirect
    }

    /** Words per block (`BSIZE / sizeof(uint)`), the FAT entries one block holds. */
    function WordsPerBlock(): nat
    {
      bsize / 4
    }
  }

  /**
   * The computed layout.  `nmap` and `mapstart` are the free bitmap in the
   * classic build and the FAT in the FAT build; `freehead` and `freeblks`
   * are only meaningful in the FAT build.
   */
  datatype Layout = Layout(nmeta: nat, nblocks: int, nlog: nat, ninodeblocks: nat,
                           nmap: nat, logstart: nat, inodestart: nat, mapstart: nat,
                           freehead: nat, freeblks: int)

  /** The classic build defines NINODES as 200 itself. */
  const ClassicNInodes: nat := 200

  /** `ninodeblocks = NINODES / IPB + 1`: enough blocks for inodes 0 .. NINODES. */
  function InodeBlocks(ninodes: nat, ipb: nat): (n: nat)
    requires ipb > 0
    ensures n * ipb > ninodes && n > 0
  {
    DivPlusOne(ninodes, ipb);
    ninodes / ipb + 1
  }

  /**
   * The classic layout (mkfs/mkfs.c:28-30, 104-106, 117, 129-130): the
   * regions follow each other from block 2 without gaps, the data blocks
   * fill the rest of the image, the inode blocks hold every inode and the
   * bitmap has one bit for every block of the image.
   */
  function BitmapLayout(g: Geometry): (l: Layout)
    requires g.bsize > 0 && g.ipb > 0
    ensures l.logstart == 2 && l.nlog == g.logsize
    ensures l.inodestart == l.logstart + l.nlog
    ensures l.mapstart == l.inodestart + l.ninodeblocks
    ensures l.nmeta == l.mapstart + l.nmap
    ensures l.nmeta + l.nblocks == g.fssize
    ensures l.ninodeblocks * g.ipb > ClassicNInodes
    ensures l.nmap * (g.bsize * 8) > g.fssize
  {
    var nbitmap := g.fssize / (g.bsize * 8) + 1;
    DivPlusOne(g.fssize, g.bsize * 8);
    var ninodeblocks := InodeBlocks(ClassicNInodes, g.ipb);
    var nmeta := 2 + g.logsize + ninodeblocks + nbitmap;
    Layout(nmeta, g.fssize - nmeta, g.logsize, ninodeblocks, nbitmap,
           2, 2 + g.logsize, 2 + g.logsize + ninodeblocks, 0, 0)
  }

  /**
   * The FAT layout (mkfs/mkfs.c:29-30, 34, 102, 106, 117-123): log, FAT and
   * inode blocks follow each other from block 2, the free list starts at
   * the first data block and counts every data block, and the FAT has one
   * 32-bit entry for every block of the image.
   */
  function FatLayout(g: Geometry): (l: Layout)
    requires g.bsize > 0 && g.bsize % 4 == 0 && g.ipb > 0
    ensures l.logstart == 2 && l.nlog == g.logsize
    ensures l.mapstart == l.logstart + l.nlog
    ensures l.inodestart == l.mapstart + l.nmap
    ensures l.nmeta == l.inodestart + l.ninodeblocks
    ensures l.nmeta + l.nblocks == g.fssize
    ensures l.freehead == l.nmeta && l.freeblks == l.nblocks
    ensures l.ninodeblocks * g.ipb > g.ninodes
    ensures l.nmap * (g.bsize / 4) > g.fssize
  {
    var nfat := (g.fssize * 4) / g.bsize + 1;
    FatCapacity(g.fssize, g.bsize);
    var ninodeblocks := InodeBlocks(g.ninodes, g.ipb);
    var nmeta := 2 + g.logsize + nfat + ninodeblocks;
    Layout(nmeta, g.fssize - nmeta, g.logsize, ninodeblocks, nfat,
           2, 2 + g.logsize + nfat, 2 + g.logsize, nmeta, g.fssize - nmeta)
  }

  /**
   * The size `main` gives the root directory at the end (mkfs/mkfs.c:196-200):
   * rounded up to a whole number of blocks, always past the current size.
   */
  function RootDirSize(size: nat, bsize: nat): (r: nat)
    requires bsize > 0
    ensures r % bsize == 0 && size < r <= size + bsize
  {
    DivPlusOne(size, bsize);
    (size / bsize + 1) * bsize
  }

  lemma DivPlusOne(x: nat, y: nat)
    requires y > 0
    ensures x < (x / y + 1) * y <= x + y
    ensures (x / y + 1) * y % y == 0
  {
    var q := x / y;
    assert x == q * y + x % y;
    assert (q + 1) * y == q * y + y;
    DivMod((q + 1) * y, y, q + 1, 0);
  }

  /** `o = q * y + r` with `r < y` determines quotient and remainder. */
  lemma DivMod(o: nat, y: nat, q: nat, r: nat)
    requires y > 0 && r < y && o == q * y + r
    ensures o / y == q && o % y == r
  {
    var q', r' := o / y, o % y;
    var k := q' - q;
    assert k * y == r - r' by {
      assert k * y == q' * y - q * y;
    }
    MulSign(k, y);
  }

  /** A non-zero multiple of `y` is at least `y` away from 0. */
  lemma MulSign(k: int, y: int)
    requires y >= 0
    ensures k >= 1 ==> k * y >= y
    ensures k <= -1 ==> k * y <= -y
  {
  }

  /** Multiplying by a natural number keeps the order. */
  lemma MulLe(a: int, b: int, c: nat)
    ensures a <= b ==> a * c <= b * c
  {
    assert b * c - a * c == (b - a) * c;
  }

  /** `(FSSIZE * 4) / BSIZE + 1` FAT blocks hold more than FSSIZE words. */
  lemma FatCapacity(fssize: nat, bsize: nat)
    requires bsize > 0 && bsize % 4 == 0
    ensures ((fssize * 4) / bsize + 1) * (bsize / 4) > fssize
  {
    var w := bsize / 4;
    assert bsize == 4 * w;
    var q := (fssize * 4) / bsize;
    DivPlusOne(fssize * 4, bsize);
    assert fssize * 4 < (q + 1) * (4 * w);
    assert (q + 1) * (4 * w) == 4 * ((q + 1) * w);
  }
}
