/**
 * The image mkfs/mkfs.c builds, held in memory: `disk` is the image file
 * (FSSIZE blocks of BSIZE bytes, so `wsect` and `rsect` become array
 * updates and reads), `inodes` the inode table, and the globals
 * `freeinode`, `freeblock`, `sb.freehead` and `sb.freeblks` are fields.
 * A read of a block past the end of the image makes mkfs die; a method
 * reports that by returning `ok == false`, after which its state is of no
 * interest.  `fatBuild` says whether the program was compiled with SNU.
 */
module Mkfs {
  import opened MkfsCodec
  import opened MkfsLayout
  import opened MkfsInode
  import opened MkfsFat
  import opened MkfsCopy

  class Image {
    const g: Geometry
    const fatBuild: bool
    const lay: Layout
    var disk: array<seq<byte>>
    /** The inode table; an inode never written reads as zero. */
    var inodes: map<nat, DInode>
    var freeinode: nat
    var freeblock: nat
    /** `sb.freehead` and `sb.freeblks` of the FAT build. */
    var freehead: nat
    var freeblks: nat

    ghost predicate Valid()
      reads this, disk
    {
      ImageOk(g, lay, fatBuild, disk[..], inodes, freehead, freeblks)
    }

    /** `rinode(inum)`: the inode as last written, zero if never written. */
    function Inode(inum: nat): DInode
      reads this
    {
      if inum in inodes then inodes[inum] else ZeroInode(g)
    }

    /** The FAT block holding entry `i` lies inside the image. */
    predicate FatReadable(i: nat)
      reads this
      requires g.Sizes()
    {
      FatBlk(g, lay.mapstart, i) < disk.Length
    }

    /** FAT entry `i` as it stands on the image. */
    ghost function Fat(i: nat): nat
      reads this, disk
      requires Valid() && FatReadable(i)
    {
      FatAt(g, lay.mapstart, disk[..], i)
    }

    /**
     * The globals and the zeroed image as `main` sets them up before its
     * first allocation (mkfs/mkfs.c:28-41, 100-139): the layout of the
     * build, `freeinode = 1`, `freeblock = nmeta`, every block zero, and in
     * the FAT build a free list starting at the first data block.
     */
    constructor (g: Geometry, fatBuild: bool)
      requires g.Valid()
      ensures Valid() && this.g == g && this.fatBuild == fatBuild
      ensures lay == (if fatBuild then FatLayout(g) else BitmapLayout(g))
      ensures fresh(disk) && forall b :: 0 <= b < disk.Length ==> disk[b] == Zeros(g.bsize)
      ensures inodes == map[] && freeinode == 1 && freeblock == lay.nmeta
      ensures freehead == lay.freehead && freeblks == lay.freeblks
    {
      this.g := g;
      this.fatBuild := fatBuild;
      var l := if fatBuild then FatLayout(g) else BitmapLayout(g);
      lay := l;
      disk := new seq<byte>[g.fssize](_ => Zeros(g.bsize));
      inodes := map[];
      freeinode := 1;
      freeblock := l.nmeta;
      freehead := l.freehead;
      freeblks := l.freeblks as nat;
    }

    /**
     * `ialloc(type)`: hand out the next inode number and write a fresh
     * inode of that type with one link and size 0.
     */
    method Ialloc(typ: nat) returns (inum: nat)
      requires Valid() && typ < 0x1_0000
      modifies this`freeinode, this`inodes
      ensures Valid()
      ensures inum == old(freeinode) && freeinode == inum + 1
      ensures inodes == old(inodes)[inum := NewInode(g, typ)]
    {
      inum := freeinode;
      freeinode := freeinode + 1;
      inodes := inodes[inum := NewInode(g, typ)];
    }

    /**
     * `balloc(used)` of the classic build: dies unless `used < BSIZE * 8`;
     * otherwise writes the bitmap block with bit `i` set exactly for the
     * blocks `i < used`, and no other block.
     */
    method BallocBitmap(used: nat) returns (ok: bool)
      requires Valid() && !fatBuild
      modifies disk
      ensures Valid()
      ensures ok <==> used < g.bsize * 8
      ensures ok ==> forall i :: 0 <= i < g.bsize * 8 ==> BitSet(disk[lay.mapstart], i) == (i < used)
      ensures forall b :: 0 <= b < disk.Length && b != lay.mapstart ==> disk[b] == old(disk[b])
      ensures !ok ==> disk[..] == old(disk[..])
    {
      if used >= g.bsize * 8 {
        return false;
      }
      var buf := new byte[g.bsize](_ => 0);
      forall j | 0 <= j < g.bsize * 8
        ensures !BitSet(buf[..], j)
      {
        BitOfZero(j % 8);
      }
      for i := 0 to used
        modifies buf
        invariant forall j :: 0 <= j < g.bsize * 8 ==> BitSet(buf[..], j) == (j < i)
      {
        ghost var before := buf[..];
        buf[i / 8] := OrBit(buf[i / 8], i % 8);
        assert buf[..] == before[i / 8 := OrBit(before[i / 8], i % 8)];
        forall j | 0 <= j < g.bsize * 8
          ensures BitSet(buf[..], j) == (j <= i)
        {
          SetBit(before, i, j);
        }
      }
      disk[lay.mapstart] := buf[..];
      return true;
    }

    /**
     * `balloc(used)` of the FAT build: every entry of the table is written,
     * 0xFFFFFFFF for the blocks in use, `i + 1` for every later block of the
     * image (one free list in block order), 0 for the entries past the image;
     * no block outside the table changes.
     */
    method BallocFat(used: nat)
      requires Valid() && fatBuild && used <= g.fssize
      modifies disk
      ensures Valid()
      ensures forall i :: 0 <= i < lay.nmap * (g.bsize / 4) ==>
                FatReadable(i) && Fat(i) == (if i < used then U32 - 1 else if i < g.fssize then i + 1 else 0)
      ensures forall b :: 0 <= b < disk.Length && !(lay.mapstart <= b < lay.mapstart + lay.nmap) ==> disk[b] == old(disk[b])
    {
      var w := g.bsize / 4;
      var buf := new nat[lay.nmap * w](_ => 0);
      for i := 0 to used
        modifies buf
        invariant forall j :: 0 <= j < buf.Length ==> buf[j] == (if j < i then U32 - 1 else 0)
      {
        buf[i] := U32 - 1;
      }
      for i := used to g.fssize
        modifies buf
        invariant forall j :: 0 <= j < buf.Length ==> buf[j] == (if j < used then U32 - 1 else if j < i then j + 1 else 0)
      {
        buf[i] := i + 1;
      }
      WriteTable(buf);
    }

    /** The last loop of the FAT `balloc`: block `fatstart + i` gets words `i * W ..` of `buf`. */
    method WriteTable(buf: array<nat>)
      requires Valid() && fatBuild && buf.Length == lay.nmap * (g.bsize / 4)
      requires forall i :: 0 <= i < buf.Length ==> buf[i] < U32
      modifies disk
      ensures Valid()
      ensures forall i :: 0 <= i < buf.Length ==> FatReadable(i) && Fat(i) == buf[i]
      ensures forall b :: 0 <= b < disk.Length && !(lay.mapstart <= b < lay.mapstart + lay.nmap) ==> disk[b] == old(disk[b])
    {
      for i := 0 to lay.nmap
        invariant Valid()
        invariant Tabled(g, lay.mapstart, disk[..], buf[..], i)
        invariant forall b :: 0 <= b < disk.Length && !(lay.mapstart <= b < lay.mapstart + i) ==> disk[b] == old(disk[b])
      {
        WriteTableBlock(buf, i);
      }
      FatOfTable(g, lay.mapstart, disk[..], buf[..], lay.nmap);
      forall i | 0 <= i < buf.Length
        ensures FatReadable(i) && Fat(i) == buf[i]
      {
        assert FatAt(g, lay.mapstart, disk[..], i) == buf[..][i];
      }
    }

    /** One pass of that loop: block `fatstart + i` gets words `i * W .. (i + 1) * W - 1` of `buf`. */
    method WriteTableBlock(buf: array<nat>, i: nat)
      requires Valid() && fatBuild && buf.Length == lay.nmap * (g.bsize / 4) && i < lay.nmap
      requires forall j :: 0 <= j < buf.Length ==> buf[j] < U32
      requires Tabled(g, lay.mapstart, disk[..], buf[..], i)
      modifies disk
      ensures Valid() && Tabled(g, lay.mapstart, disk[..], buf[..], i + 1)
      ensures forall b :: 0 <= b < disk.Length && b != lay.mapstart + i ==> disk[b] == old(disk[b])
    {
      var w := g.bsize / 4;
      MulLe(i + 1, lay.nmap, w);
      TableGrows(g, lay.mapstart, disk[..], buf[..], i);
      WriteSect(lay.mapstart + i, EncodeWords(buf[i * w .. (i + 1) * w]));
    }

    /** `rsect(sec, buf)`: block `sec` of the image; mkfs dies when it lies past the end. */
    method ReadSect(sec: nat) returns (ok: bool, buf: seq<byte>)
      requires Valid()
      ensures ok == (sec < disk.Length)
      ensures ok ==> buf == disk[sec] && |buf| == g.bsize
    {
      if sec >= disk.Length {
        return false, [];
      }
      return true, disk[sec];
    }

    /** `wsect(sec, buf)`: block `sec` becomes `buf`, no other block changes. */
    method WriteSect(sec: nat, buf: seq<byte>)
      requires Valid() && sec < disk.Length && |buf| == g.bsize
      modifies disk
      ensures Valid()
      ensures disk[..] == old(disk[..])[sec := buf]
    {
      disk[sec] := buf;
    }

    /** `inum2fat(blk)`: read FAT entry `blk`; mkfs dies when its block is past the image. */
    method Inum2Fat(blk: nat) returns (ok: bool, fat: nat)
      requires Valid() && fatBuild
      ensures ok == FatReadable(blk)
      ensures ok ==> fat == Fat(blk) && fat < U32
    {
      var okr, buf := ReadSect(FatBlk(g, lay.mapstart, blk));
      if !okr {
        return false, 0;
      }
      return true, WordAt(buf, FatSlot(g, blk));
    }

    /**
     * `getfreeblk(prevblk)`: pop the head of the free list.  The old head is
     * returned, the new head is its FAT entry, the popped entry becomes 0
     * (end of chain) and, when `prevblk` is not 0, entry `prevblk` links to
     * the popped block (`PopFree`); `sb.freeblks` drops by one as a `uint`.
     */
    method GetFreeBlk(prevblk: nat) returns (ok: bool, blk: nat)
      requires Valid() && fatBuild && prevblk < U32
      modifies disk, this`freehead, this`freeblks
      ensures Valid()
      ensures ok <==> old(FatReadable(freehead)) && (prevblk != 0 ==> FatReadable(prevblk))
      ensures ok ==> blk == old(freehead) && freehead == old(Fat(freehead))
      ensures ok ==> freeblks == (if old(freeblks) == 0 then U32 - 1 else old(freeblks) - 1)
      ensures ok ==> disk[..] == PopFree(g, lay.mapstart, old(disk[..]), blk, prevblk)
    {
      var b := FatBlk(g, lay.mapstart, freehead);
      ghost var d0 := disk[..];
      var okr, buf := ReadSect(b);
      if !okr {
        return false, 0;
      }
      blk := freehead;
      var next := WordAt(buf, FatSlot(g, blk));
      buf := SetWord(buf, FatSlot(g, blk), 0);
      var okw := WriteLinks(b, buf, prevblk, blk);
      if !okw {
        return false, blk;
      }
      PopFreeWrites(g, lay.mapstart, d0, blk, prevblk);
      freehead := next;
      freeblks := if freeblks == 0 then U32 - 1 else freeblks - 1;
      ok := true;
    }

    /**
     * The writes that end `getfreeblk` (mkfs/mkfs.c:338-353): `buf`, the
     * head's FAT block `b` with the head's entry cleared, is written back,
     * and when `prevblk` is not 0 its entry gets `blk`, in `buf` itself when
     * both entries share a block, otherwise in a second block read after
     * the first write.  Fails only when that second block is past the image.
     */
    method WriteLinks(b: nat, buf: seq<byte>, prevblk: nat, blk: nat) returns (ok: bool)
      requires Valid() && b < disk.Length && |buf| == g.bsize && blk < U32
      modifies disk
      ensures Valid()
      ensures ok <==> (prevblk != 0 ==> FatReadable(prevblk))
      ensures ok ==> disk[..] == Relink(g, lay.mapstart, old(disk[..]), b, buf, blk, prevblk)
    {
      if prevblk != 0 {
        var pb := FatBlk(g, lay.mapstart, prevblk);
        if b == pb {
          WriteSect(b, SetWord(buf, FatSlot(g, prevblk), blk));
        } else {
          WriteSect(b, buf);
          var okp, pbuf := ReadSect(pb);
          if !okp {
            return false;
          }
          WriteSect(pb, SetWord(pbuf, FatSlot(g, prevblk), blk));
        }
      } else {
        WriteSect(b, buf);
      }
      ok := true;
    }

    /**
     * The block-mapping step of the classic `iappend` for file block `fbn`
     * (mkfs/mkfs.c:409-424): the direct slot, or the indirect block and its
     * entry, get the next free block when they are 0, and `x` is the block
     * of `fbn`.  Fails only when a block past the image would be read.
     */
    method MapBlock(din: DInode, fbn: nat) returns (ok: bool, din': DInode, x: nat)
      requires Valid() && Shaped(g, din) && fbn < g.MaxFile() && Sane(g, din, disk[..], freeblock)
      modifies disk, this`freeblock
      ensures Valid()
      ensures ok ==> Extends(g, din, old(disk[..]), din', disk[..], freeblock) && old(freeblock) <= freeblock
      ensures ok ==> x == BlockOf(g, din', disk[..], fbn) && 0 < x < disk.Length
      ensures ok ==> Confined(g, din, old(disk[..]), old(freeblock), din', disk[..])
      ensures !ok ==> freeblock > disk.Length
    {
      if fbn < g.ndirect {
        ok, din', x := MapDirect(din, fbn);
      } else {
        ok, din', x := MapIndirect(din, fbn);
      }
    }

    /** `fbn < NDIRECT`: the direct slot, allocated from `freeblock` when it is 0. */
    method MapDirect(din: DInode, fbn: nat) returns (ok: bool, din': DInode, x: nat)
      requires Valid() && Shaped(g, din) && fbn < g.ndirect && Sane(g, din, disk[..], freeblock)
      modifies this`freeblock
      ensures ok ==> Extends(g, din, disk[..], din', disk[..], freeblock) && old(freeblock) <= freeblock
      ensures ok ==> x == BlockOf(g, din', disk[..], fbn) && 0 < x < disk.Length
      ensures ok ==> Confined(g, din, disk[..], old(freeblock), din', disk[..])
      ensures !ok ==> freeblock > disk.Length
    {
      din' := din;
      if din.addrs[fbn] == 0 {
        if freeblock >= disk.Length {
          freeblock := freeblock + 1;
          return false, din', 0;
        }
        AllocDirect(g, din, disk[..], freeblock, fbn);
        din' := din.(addrs := din.addrs[fbn := freeblock]);
        freeblock := freeblock + 1;
      }
      return true, din', din'.addrs[fbn];
    }

    /**
     * `fbn >= NDIRECT`: the indirect block, then its entry `fbn - NDIRECT`
     * (mkfs/mkfs.c:415-424).
     */
    method MapIndirect(din: DInode, fbn: nat) returns (ok: bool, din': DInode, x: nat)
      requires Valid() && Shaped(g, din) && g.ndirect <= fbn < g.MaxFile() && Sane(g, din, disk[..], freeblock)
      modifies disk, this`freeblock
      ensures Valid()
      ensures ok ==> Extends(g, din, old(disk[..]), din', disk[..], freeblock) && old(freeblock) <= freeblock
      ensures ok ==> x == BlockOf(g, din', disk[..], fbn) && 0 < x < disk.Length
      ensures ok ==> Confined(g, din, old(disk[..]), old(freeblock), din', disk[..])
      ensures !ok ==> freeblock > disk.Length
    {
      ghost var fb0 := freeblock;
      ok, din' := IndirectBlock(din);
      if !ok {
        return false, din', 0;
      }
      ghost var fb1 := freeblock;
      ghost var d0 := disk[..];
      ok, x := MapEntry(din', fbn);
      if ok {
        ExtendsTrans(g, din, d0, din', d0, fb1, din', disk[..], freeblock);
        ConfinedTrans(g, din, d0, fb0, din', d0, fb1, din', disk[..]);
      }
    }

    /** `if(addrs[NDIRECT] == 0) addrs[NDIRECT] = freeblock++`. */
    method IndirectBlock(din: DInode) returns (ok: bool, din': DInode)
      requires Valid() && Shaped(g, din) && Sane(g, din, disk[..], freeblock)
      modifies this`freeblock
      ensures ok ==> Extends(g, din, disk[..], din', disk[..], freeblock) && old(freeblock) <= freeblock
      ensures ok ==> Ind(g, din') != 0
      ensures ok ==> Confined(g, din, disk[..], old(freeblock), din', disk[..])
      ensures !ok ==> freeblock > disk.Length
    {
      din' := din;
      if Ind(g, din) == 0 {
        if freeblock >= disk.Length {
          freeblock := freeblock + 1;
          return false, din';
        }
        AllocIndirect(g, din, disk[..], freeblock);
        din' := din.(addrs := din.addrs[g.ndirect := freeblock]);
        freeblock := freeblock + 1;
      }
      ok := true;
    }

    /**
     * Entry `fbn - NDIRECT` of the indirect block: when it is 0 it gets
     * `freeblock++` and the indirect block is written back.
     */
    method MapEntry(din: DInode, fbn: nat) returns (ok: bool, x: nat)
      requires Valid() && Shaped(g, din) && g.ndirect <= fbn < g.MaxFile() && Sane(g, din, disk[..], freeblock)
      requires Ind(g, din) != 0
      modifies disk, this`freeblock
      ensures Valid()
      ensures ok ==> Extends(g, din, old(disk[..]), din, disk[..], freeblock) && old(freeblock) <= freeblock
      ensures ok ==> x == BlockOf(g, din, disk[..], fbn) && 0 < x < disk.Length
      ensures ok ==> Confined(g, din, old(disk[..]), old(freeblock), din, disk[..])
      ensures !ok ==> freeblock > disk.Length
    {
      var ind := Ind(g, din);
      var _, indirect := ReadSect(ind);
      if WordAt(indirect, fbn - g.ndirect) == 0 {
        if freeblock >= disk.Length {
          freeblock := freeblock + 1;
          return false, 0;
        }
        AllocIndirectEntry(g, din, disk[..], freeblock, fbn);
        indirect := SetWord(indirect, fbn - g.ndirect, freeblock);
        WriteSect(ind, indirect);
        freeblock := freeblock + 1;
      }
      x := WordAt(indirect, fbn - g.ndirect);
      ok := true;
    }

    /**
     * One pass of the classic `iappend` loop at file offset `off` with the
     * bytes `src` still to copy: map block `off / BSIZE`, then copy
     * `n1 = min(n, (fbn + 1) * BSIZE - off)` bytes into it.  The copied
     * bytes read back at `off ..`, and every byte of the file before `off`
     * is kept.
     */
    method AppendChunk(din: DInode, off: nat, src: seq<byte>) returns (ok: bool, din': DInode, n1: nat)
      requires Valid() && Shaped(g, din) && Sane(g, din, disk[..], freeblock)
      requires |src| > 0 && Fbn(off, g.bsize) < g.MaxFile()
      modifies disk, this`freeblock
      ensures Valid()
      ensures ok ==> 0 < n1 <= |src| && old(freeblock) <= freeblock
      ensures ok ==> Appended(g, din, old(disk[..]), din', disk[..], freeblock, off, src, n1)
      ensures ok ==> Confined(g, din, old(disk[..]), old(freeblock), din', disk[..])
      ensures !ok ==> freeblock > disk.Length
    {
      var fbn := off / g.bsize;
      ghost var dA := disk[..];
      var okm, x;
      okm, din', x := MapBlock(din, fbn);
      if !okm {
        return false, din', 0;
      }
      DivPlusOne(off, g.bsize);
      n1 := Min(|src|, (fbn + 1) * g.bsize - off);
      var a := off - fbn * g.bsize;
      ChunkPosition(off, g.bsize, n1);
      ghost var dB := disk[..];
      CopyIntoBlock(din', fbn, x, a, src[..n1]);
      ChunkLands(g, din, dA, din', dB, disk[..], freeblock, off, fbn, a, src, n1);
      ConfinedTrans(g, din, dA, old(freeblock), din', dB, freeblock, din', disk[..]);
      ok := true;
    }

    /**
     * The copy of one chunk (mkfs/mkfs.c:425-431): read block `x` of file
     * block `fbn`, put `bytes` at offset `a` in it and write it back.  The
     * bytes read back at file offsets `fbn * BSIZE + a ..`, the block map is
     * kept, and so is every file byte outside the copied range before it.
     */
    method CopyIntoBlock(din: DInode, fbn: nat, x: nat, a: nat, bytes: seq<byte>)
      requires Valid() && Shaped(g, din) && Sane(g, din, disk[..], freeblock)
      requires fbn < g.MaxFile() && x == BlockOf(g, din, disk[..], fbn) && 0 < x < disk.Length
      requires a + |bytes| <= g.bsize
      modifies disk
      ensures Valid() && Sane(g, din, disk[..], freeblock)
      ensures CopiedInto(g, din, old(disk[..]), disk[..], fbn, a, bytes)
      ensures Confined(g, din, old(disk[..]), freeblock, din, disk[..])
    {
      var _, buf := ReadSect(x);
      var blk := buf[..a] + bytes + buf[a + |bytes|..];
      WriteChunk(g, din, disk[..], freeblock, fbn, a, bytes);
      WriteSect(x, blk);
    }

    /**
     * `iappend(inum, data, n)` of the classic build, for a file that meets
     * the invariant `Sane`: the data is copied block by block into the
     * file, its size grows by `n`, every appended byte reads back at file
     * offsets `size .. size + n - 1`, the existing bytes and block
     * assignments are kept, and `freeblock` only grows.  mkfs dies only when
     * the file would pass MAXFILE blocks or the image runs out of blocks.
     */
    method Iappend(inum: nat, data: seq<byte>) returns (ok: bool)
      requires Valid() && !fatBuild
      requires Sane(g, Inode(inum), disk[..], freeblock)
      modifies disk, this`freeblock, this`inodes
      ensures Valid()
      ensures ok ==> inodes == old(inodes)[inum := Inode(inum)] && old(freeblock) <= freeblock
      ensures ok ==> Grown(g, old(Inode(inum)), old(disk[..]), Inode(inum), disk[..], freeblock, data)
      ensures ok ==> Confined(g, old(Inode(inum)), old(disk[..]), old(freeblock), Inode(inum), disk[..])
      ensures !ok ==> old(Inode(inum)).size + |data| > g.MaxFile() * g.bsize || freeblock > disk.Length
    {
      var din := Inode(inum);
      var din';
      ok, din' := AppendData(din, data);
      if ok {
        AppendedSized(g, din, old(disk[..]), din', disk[..], freeblock, data);
        inodes := inodes[inum := din'.(size := din.size + |data|)];
      }
    }

    /**
     * One round of `main`'s loop over the input files in the classic build
     * (mkfs/mkfs.c:184-190): the directory entry `entry` is appended to the
     * root directory `root`, then the buffer `data` to the new file `inum`.
     * Two files that share no block both grow, each by its own bytes, and
     * still share no block, so the next round may follow.
     */
    method AppendEntryAndData(root: nat, entry: seq<byte>, inum: nat, data: seq<byte>) returns (ok: bool)
      requires Valid() && !fatBuild && root != inum
      requires Sane(g, Inode(root), disk[..], freeblock) && Sane(g, Inode(inum), disk[..], freeblock)
      requires Apart(g, Inode(root), Inode(inum), disk[..])
      modifies disk, this`freeblock, this`inodes
      ensures Valid()
      ensures ok ==> inodes == old(inodes)[root := Inode(root)][inum := Inode(inum)]
      ensures ok ==> Grown(g, old(Inode(root)), old(disk[..]), Inode(root), disk[..], freeblock, entry)
      ensures ok ==> Grown(g, old(Inode(inum)), old(disk[..]), Inode(inum), disk[..], freeblock, data)
      ensures ok ==> Apart(g, Inode(root), Inode(inum), disk[..])
    {
      ghost var r0, i0, d0, fb0 := Inode(root), Inode(inum), disk[..], freeblock;
      ok := Iappend(root, entry);
      if !ok {
        return;
      }
      FirstAppendDone(g, r0, d0, fb0, Inode(root), disk[..], freeblock, i0, entry);
      ok := AppendAfterEntry(r0, i0, d0, entry, root, inum, data);
    }

    /**
     * The second half of that round (mkfs/mkfs.c:189-190): the file's data
     * is appended once the root directory `r0` over `d0` has grown by
     * `entry`, and the root directory stays grown.
     */
    method AppendAfterEntry(ghost r0: DInode, ghost i0: DInode, ghost d0: seq<seq<byte>>, ghost entry: seq<byte>,
                            root: nat, inum: nat, data: seq<byte>) returns (ok: bool)
      requires Valid() && !fatBuild && root != inum && Formatted(g, d0) && Inode(inum) == i0
      requires Grown(g, r0, d0, Inode(root), disk[..], freeblock, entry)
      requires Sane(g, i0, disk[..], freeblock) && Apart(g, i0, Inode(root), disk[..])
      requires forall f :: 0 <= f < g.MaxFile() ==> BlockOf(g, i0, disk[..], f) == BlockOf(g, i0, d0, f)
      requires KeepsBytes(g, i0, d0, i0, disk[..])
      modifies disk, this`freeblock, this`inodes
      ensures Valid()
      ensures ok ==> inodes == old(inodes)[inum := Inode(inum)]
      ensures ok ==> Grown(g, r0, d0, Inode(root), disk[..], freeblock, entry)
      ensures ok ==> Grown(g, i0, d0, Inode(inum), disk[..], freeblock, data)
      ensures ok ==> Apart(g, Inode(root), Inode(inum), disk[..])
    {
      ghost var r1, d1, fb1 := Inode(root), disk[..], freeblock;
      ok := Iappend(inum, data);
      if ok {
        SecondAppendDone(g, r0, d0, r1, d1, fb1, i0, Inode(inum), disk[..], freeblock, entry, data);
      }
    }

    /**
     * The loop of the classic `iappend` (mkfs/mkfs.c:403-432): chunk by
     * chunk, every byte of `data` lands at offsets `size ..` of the file
     * `din` describes; the inode table itself is not written yet.
     */
    method AppendData(din0: DInode, data: seq<byte>) returns (ok: bool, din: DInode)
      requires Valid() && Shaped(g, din0) && Sane(g, din0, disk[..], freeblock)
      modifies disk, this`freeblock
      ensures Valid()
      ensures ok ==> old(freeblock) <= freeblock
      ensures ok ==> Appended(g, din0, old(disk[..]), din, disk[..], freeblock, din0.size, data, |data|)
      ensures ok ==> Confined(g, din0, old(disk[..]), old(freeblock), din, disk[..])
      ensures !ok ==> din0.size + |data| > g.MaxFile() * g.bsize || freeblock > disk.Length
    {
      ghost var d0 := disk[..];
      din := din0;
      var off := din.size;
      var p := 0;
      while p < |data|
        invariant Valid() && p <= |data| && off == din0.size + p
        invariant Progress(g, din0, d0, old(freeblock), din, disk[..], freeblock, data, p)
        decreases |data| - p
      {
        var okc, din', n1 := AppendStep(din0, d0, old(freeblock), din, off, data, p);
        if !okc {
          return false, din;
        }
        din := din';
        p := p + n1;
        off := off + n1;
      }
      ok := true;
    }

    /**
     * One pass of the classic loop inside `AppendData`: `die` past MAXFILE
     * blocks (mkfs/mkfs.c:408), then `AppendChunk`, which keeps `Progress`.
     */
    method AppendStep(ghost din0: DInode, ghost d0: seq<seq<byte>>, ghost fb0: nat, din: DInode, off: nat, data: seq<byte>, p: nat)
      returns (ok: bool, din': DInode, n1: nat)
      requires Valid() && Formatted(g, d0) && p < |data| && off == din0.size + p
      requires Progress(g, din0, d0, fb0, din, disk[..], freeblock, data, p)
      modifies disk, this`freeblock
      ensures Valid()
      ensures ok ==> 0 < n1 <= |data| - p && Progress(g, din0, d0, fb0, din', disk[..], freeblock, data, p + n1)
      ensures !ok ==> din0.size + |data| > g.MaxFile() * g.bsize || freeblock > disk.Length
    {
      din' := din;
      n1 := 0;
      if off / g.bsize >= g.MaxFile() {
        PastMaxFile(off, g.bsize, g.MaxFile());
        return false, din', n1;
      }
      ghost var dA, fbA := disk[..], freeblock;
      ok, din', n1 := AppendChunk(din, off, data[p..]);
      if ok {
        ProgressStep(g, din0, d0, fb0, din, dA, fbA, din', disk[..], freeblock, data, p, n1);
      }
    }

    /**
     * The inner loop of the FAT `iappend` (mkfs/mkfs.c:382-389): follow the
     * chain `fbn` steps from `start`, taking a block from the free list and
     * linking it in wherever the chain ends.
     */
    method WalkChain(start: nat, fbn: nat) returns (ok: bool, x: nat)
      requires Valid() && fatBuild && start < U32
      modifies disk, this`freehead, this`freeblks
      ensures Valid() && inodes == old(inodes)
      ensures ok ==> x < U32
    {
      x := start;
      var i := 0;
      while i < fbn
        invariant Valid() && x < U32 && inodes == old(inodes)
      {
        var okr, fat := Inum2Fat(x);
        if !okr {
          return false, x;
        }
        if fat == 0 {
          var okf, nb := GetFreeBlk(x);
          if !okf {
            return false, x;
          }
          x := nb;
        } else {
          x := fat;
        }
        i := i + 1;
      }
      ok := true;
    }

    /**
     * One pass of the FAT `iappend` loop (mkfs/mkfs.c:377-397): a file
     * without blocks first gets one from the free list, then `FatChunk`.
     */
    method FatStep(din: DInode, off: nat, data: seq<byte>, p: nat, n: nat)
      returns (ok: bool, din': DInode, c: Chunk, ghost w: ChunkWrite)
      requires Valid() && fatBuild && din.startblk < U32 && n > 0 && p + n == |data|
      modifies disk, this`freehead, this`freeblks
      ensures Valid() && din' == din.(startblk := din'.startblk) && din'.startblk < U32
      ensures din.startblk != 0 ==> din' == din
      ensures ok && din.startblk == 0 ==> din'.startblk == old(freehead)
      ensures ok ==> c == NextChunk(off, n, p, g.bsize) && 0 < c.len <= n
      ensures ok ==> w.chunk == c && Copied(w, data) && w.after == disk[..]
    {
      din' := din;
      w := ChunkWrite(0, Chunk(0, 0, 0, 0), [], []);
      c := Chunk(0, 0, 0, 0);
      if din.startblk == 0 {
        var okf, b := GetFreeBlk(0);
        if !okf {
          return false, din', c, w;
        }
        din' := din.(startblk := b);
      }
      ok, c, w := FatChunk(din'.startblk, off, data, p, n);
    }

    /**
     * One pass of the FAT `iappend` loop (mkfs/mkfs.c:381-396) for a file
     * whose chain starts at `start`, at file offset `off`, with the `n` bytes
     * `data[p..]` still to copy: walk the chain to block `off / BSIZE` and
     * copy `min(n, BSIZE - off % BSIZE)` bytes to `off % BSIZE` in it.  The
     * chunk is the classic loop's, and `w` records the write: after the walk,
     * block `w.blk` took `data[p .. p + len]` at the chunk's offset and no
     * other block changed.
     */
    method FatChunk(start: nat, off: nat, data: seq<byte>, p: nat, n: nat) returns (ok: bool, c: Chunk, ghost w: ChunkWrite)
      requires Valid() && fatBuild && start < U32 && n > 0 && p + n == |data|
      modifies disk, this`freehead, this`freeblks
      ensures Valid() && inodes == old(inodes)
      ensures ok ==> c == NextChunk(off, n, p, g.bsize) && 0 < c.len <= n
      ensures ok ==> w.chunk == c && Copied(w, data) && w.after == disk[..]
    {
      var fbn := Fbn(off, g.bsize);
      w := ChunkWrite(0, Chunk(0, 0, 0, 0), [], []);
      var okw, x := WalkChain(start, fbn);
      if !okw {
        return false, Chunk(0, 0, 0, 0), w;
      }
      var a := Boff(off, g.bsize);
      var n1 := Min(n, g.bsize - a);
      var okr, buf := ReadSect(x);
      if !okr {
        return false, Chunk(0, 0, 0, 0), w;
      }
      ghost var mid := disk[..];
      WriteSect(x, buf[..a] + data[p .. p + n1] + buf[a + n1..]);
      FatChunkIsNext(off, n, p, g.bsize);
      c := Chunk(fbn, a, p, n1);
      w := ChunkWrite(x, c, mid, disk[..]);
      ok := true;
    }

    /**
     * `iappend(inum, data, n)` of the FAT build, with the source pointer
     * advanced after each chunk (see `MkfsCopy.FatPlanAsWritten` for the
     * loop as written): a file without blocks gets one from the free list,
     * then chunk after chunk is copied along its chain.  The size grows by
     * `n`, and the writes, in order, copy exactly the classic plan's chunks,
     * the j-th one putting `data[src .. src + len]` at its offset of the
     * block the chain walk reached; the image ends as the last write left it.
     */
    method IappendFat(inum: nat, data: seq<byte>) returns (ok: bool, ghost writes: seq<ChunkWrite>)
      requires Valid() && fatBuild
      modifies disk, this`freehead, this`freeblks, this`inodes
      ensures Valid()
      ensures ok ==> inodes == old(inodes)[inum := Inode(inum)]
      ensures ok ==> Inode(inum) == old(Inode(inum)).(size := old(Inode(inum)).size + |data|, startblk := Inode(inum).startblk)
      ensures ok && (old(Inode(inum)).startblk != 0 || |data| == 0) ==> Inode(inum).startblk == old(Inode(inum)).startblk
      ensures ok && old(Inode(inum)).startblk == 0 && |data| > 0 && old(freehead) != 0 ==> Inode(inum).startblk == old(freehead)
      ensures ok ==> ChunksOf(writes) == CopyPlan(old(Inode(inum)).size, |data|, 0, g.bsize)
      ensures ok ==> Traced(writes, data, old(disk[..]), disk[..])
    {
      var din := Inode(inum);
      ok, din, writes := AppendChunksFat(din, data);
      if ok {
        inodes := inodes[inum := din];
      }
    }

    /**
     * The loop of the FAT `iappend` (mkfs/mkfs.c:376-399, source pointer
     * advanced): chunk by chunk along the chain of `din0`, giving the file a
     * first block from the free list when it has none; the inode table
     * itself is not written yet.
     */
    method AppendChunksFat(din0: DInode, data: seq<byte>) returns (ok: bool, din: DInode, ghost writes: seq<ChunkWrite>)
      requires Valid() && fatBuild && din0.startblk < U32
      modifies disk, this`freehead, this`freeblks
      ensures Valid()
      ensures ok ==> din == din0.(size := din0.size + |data|, startblk := din.startblk) && din.startblk < U32
      ensures ok && (din0.startblk != 0 || |data| == 0) ==> din.startblk == din0.startblk
      ensures ok && din0.startblk == 0 && |data| > 0 && old(freehead) != 0 ==> din.startblk == old(freehead)
      ensures ok ==> ChunksOf(writes) == CopyPlan(din0.size, |data|, 0, g.bsize)
      ensures ok ==> Traced(writes, data, old(disk[..]), disk[..])
    {
      din := din0;
      var off := din.size;
      var n: nat := |data|;
      var p := 0;
      writes := [];
      while n > 0
        invariant Valid() && p + n == |data| && off == din0.size + p
        invariant din == din0.(startblk := din.startblk) && din.startblk < U32
        invariant p == 0 ==> din == din0 && freehead == old(freehead)
        invariant din0.startblk != 0 ==> din.startblk == din0.startblk
        invariant p > 0 && din0.startblk == 0 && old(freehead) != 0 ==> din.startblk == old(freehead)
        invariant Leads(ChunksOf(writes), off, n, p, g.bsize, CopyPlan(din0.size, |data|, 0, g.bsize))
        invariant Traced(writes, data, old(disk[..]), disk[..])
      {
        var okc, din', c, w := FatStep(din, off, data, p, n);
        din := din';
        if !okc {
          return false, din, writes;
        }
        PlanStep(ChunksOf(writes), CopyPlan(din0.size, |data|, 0, g.bsize), c, off, n, p, g.bsize);
        TracedStep(writes, data, old(disk[..]), w);
        writes := writes + [w];
        n := n - c.len;
        off := off + c.len;
        p := p + c.len;
      }
      din := din.(size := off);
      ok := true;
    }
  }

  /**
   * One chunk copy of the FAT `iappend` (mkfs/mkfs.c:391-393): the image
   * `before` it, the block `blk` read, the chunk, and the image `after` the
   * block is written back.
   */
  datatype ChunkWrite = ChunkWrite(blk: nat, chunk: Chunk, before: seq<seq<byte>>, after: seq<seq<byte>>)

  /** The write puts the chunk's bytes of `data` at its offset in block `blk`, and nothing else. */
  ghost predicate Copied(w: ChunkWrite, data: seq<byte>)
  {
    var c := w.chunk;
    && w.blk < |w.before| && c.boff + c.len <= |w.before[w.blk]| && c.src + c.len <= |data|
    && w.after == w.before[w.blk := w.before[w.blk][..c.boff] + data[c.src .. c.src + c.len] + w.before[w.blk][c.boff + c.len..]]
  }

  /** The chunks of a sequence of writes, in order. */
  function ChunksOf(writes: seq<ChunkWrite>): seq<Chunk>
  {
    if writes == [] then [] else ChunksOf(writes[..|writes| - 1]) + [writes[|writes| - 1].chunk]
  }

  /**
   * Every write of `writes` copies its chunk as `Copied` says, and together
   * they take the image from `d0` (before any write) to `d` (the last
   * write's).
   */
  ghost predicate Traced(writes: seq<ChunkWrite>, data: seq<byte>, d0: seq<seq<byte>>, d: seq<seq<byte>>)
  {
    && (forall j :: 0 <= j < |writes| ==> Copied(writes[j], data))
    && d == Final(writes, d0)
  }

  /** The image after the last of `writes`, or `d0` when there is none. */
  function Final(writes: seq<ChunkWrite>, d0: seq<seq<byte>>): seq<seq<byte>>
  {
    if writes == [] then d0 else writes[|writes| - 1].after
  }

  /** One more chunk write extends the trace and its chunks. */
  lemma TracedStep(writes: seq<ChunkWrite>, data: seq<byte>, d0: seq<seq<byte>>, w: ChunkWrite)
    requires Traced(writes, data, d0, Final(writes, d0))
    requires Copied(w, data)
    ensures Traced(writes + [w], data, d0, w.after)
    ensures ChunksOf(writes + [w]) == ChunksOf(writes) + [w.chunk]
  {
    assert (writes + [w])[..|writes|] == writes;
  }

  /**
   * What a chunk write leaves: byte `boff + k` of its block is source byte
   * `src + k` for `k < len`, the block's other bytes and every other block
   * are kept.
   */
  lemma CopiedLands(w: ChunkWrite, data: seq<byte>)
    requires Copied(w, data)
    ensures |w.after| == |w.before| && |w.after[w.blk]| == |w.before[w.blk]|
    ensures forall k :: w.chunk.boff <= k < w.chunk.boff + w.chunk.len ==> w.after[w.blk][k] == data[w.chunk.src + (k - w.chunk.boff)]
    ensures forall k :: 0 <= k < |w.before[w.blk]| && !(w.chunk.boff <= k < w.chunk.boff + w.chunk.len) ==>
              w.after[w.blk][k] == w.before[w.blk][k]
    ensures forall b :: 0 <= b < |w.before| && b != w.blk ==> w.after[b] == w.before[b]
  {
  }

  /**
   * What every operation of an image keeps: whole blocks of BSIZE bytes,
   * FSSIZE of them, the table or bitmap inside the metadata, a table with
   * an entry for every block in the FAT build, inodes with NDIRECT + 1
   * addresses, and `uint` values in the fields the source stores as `uint`.
   */
  ghost predicate ImageOk(g: Geometry, lay: Layout, fatBuild: bool, d: seq<seq<byte>>,
                          inodes: map<nat, DInode>, freehead: nat, freeblks: nat)
  {
    && g.Sizes() && g.ipb > 0 && g.fssize < U32
    && |d| == g.fssize
    && Formatted(g, d)
    && lay.mapstart + lay.nmap <= lay.nmeta < g.fssize
    && (fatBuild ==> lay.nmap * (g.bsize / 4) > g.fssize)
    && (forall i :: i in inodes ==> Shaped(g, inodes[i]) && inodes[i].startblk < U32)
    && freehead < U32 && freeblks < U32
  }

  /** A block number at or past MAXFILE means an offset at or past MAXFILE * BSIZE. */
  lemma PastMaxFile(off: nat, bsize: nat, maxfile: nat)
    requires bsize > 0 && off / bsize >= maxfile
    ensures off >= maxfile * bsize
  {
    MulLe(maxfile, off / bsize, bsize);
  }

  /** The chunk at `off` starts at `off % BSIZE` of block `off / BSIZE` and fits in it. */
  lemma ChunkPosition(off: nat, bsize: nat, n1: nat)
    requires bsize > 0 && n1 <= (off / bsize + 1) * bsize - off
    ensures off - (off / bsize) * bsize == Boff(off, bsize)
    ensures (off / bsize) * bsize + Boff(off, bsize) == off
    ensures Boff(off, bsize) + n1 <= bsize
  {
  }

  /** The FAT loop's `off % BSIZE` and `min(n, BSIZE - off % BSIZE)` make the classic chunk. */
  lemma FatChunkIsNext(off: nat, n: nat, src: nat, bsize: nat)
    requires bsize > 0 && n > 0
    ensures NextChunk(off, n, src, bsize) == Chunk(Fbn(off, bsize), Boff(off, bsize), src, Min(n, bsize - Boff(off, bsize)))
  {
  }
}
