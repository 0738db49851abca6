/**
 * The arithmetic of `iappend`'s `while (n > 0)` loop (mkfs/mkfs.c:376-434):
 * appending `n` bytes at file offset `off` is a sequence of copies, each
 * into one block of the file.  A chunk records the file block number, the
 * offset inside that block, the offset in the source buffer the bytes come
 * from, and how many bytes are copied.
 */
module MkfsCopy {
  import opened MkfsLayout

  datatype Chunk = Chunk(fbn: nat, boff: nat, src: nat, len: nat)

  function Min(a: nat, b: nat): nat
  {
    if a < b then a else b
  }

  /** The first file offset a chunk writes. */
  function Dest(c: Chunk, bsize: nat): nat
  {
    c.fbn * bsize + c.boff
  }

  /** The chunk of the classic loop at offset `off` with `n` bytes left and `src` copied. */
  function NextChunk(off: nat, n: nat, src: nat, bsize: nat): (c: Chunk)
    requires bsize > 0 && n > 0
    ensures 0 < c.len <= n && c.boff + c.len <= bsize
    ensures Dest(c, bsize) == off && c.src == src
  {
    var fbn := off / bsize;
    DivPlusOne(off, bsize);
    Chunk(fbn, off - fbn * bsize, src, Min(n, (fbn + 1) * bsize - off))
  }

  /**
   * The copies the classic loop makes (mkfs/mkfs.c:406-432): `fbn = off /
   * BSIZE`, `n1 = min(n, (fbn + 1) * BSIZE - off)`, copy from `p` to
   * `off - fbn * BSIZE` in the block, then advance `n`, `off` and `p`.
   * Every pass copies at least one byte, so there are at most `n` of them.
   */
  function CopyPlan(off: nat, n: nat, src: nat, bsize: nat): (cs: seq<Chunk>)
    requires bsize > 0
    ensures n > 0 <==> |cs| > 0
    decreases n
  {
    if n == 0 then []
    else
      var c := NextChunk(off, n, src, bsize);
      [c] + CopyPlan(off + c.len, n - c.len, src + c.len, bsize)
  }

  /**
   * The copies the FAT loop makes as written (mkfs/mkfs.c:377-399): the
   * same offsets and lengths (`off % BSIZE`, `min(n, BSIZE - off % BSIZE)`),
   * but the source pointer `p` is never advanced, so every chunk copies from
   * the start of the buffer.  There are at most `n` chunks.
   */
  function FatPlanAsWritten(off: nat, n: nat, bsize: nat): (cs: seq<Chunk>)
    requires bsize > 0
    ensures n > 0 <==> |cs| > 0
    ensures forall i :: 0 <= i < |cs| ==> cs[i].src == 0
    decreases n
  {
    if n == 0 then []
    else
      var n1 := Min(n, bsize - off % bsize);
      [Chunk(off / bsize, off % bsize, 0, n1)] + FatPlanAsWritten(off + n1, n - n1, bsize)
  }

  /** Chunk `i` of a plan copies source bytes to the same relative file offsets. */
  ghost predicate Aligned(cs: seq<Chunk>, off: nat, src: nat, bsize: nat)
  {
    forall i :: 0 <= i < |cs| ==> Dest(cs[i], bsize) - off == cs[i].src - src
  }

  /** Every chunk is non-empty and stays inside one block. */
  ghost predicate InBlocks(cs: seq<Chunk>, bsize: nat)
  {
    forall i :: 0 <= i < |cs| ==> 0 < cs[i].len && cs[i].boff + cs[i].len <= bsize
  }

  /** Every chunk copies source bytes `src + k` (`k >= 0`) to file offset `off + k`. */
  ghost predicate FromSource(cs: seq<Chunk>, off: nat, src: nat, bsize: nat)
  {
    forall i :: 0 <= i < |cs| ==> Dest(cs[i], bsize) == off + (cs[i].src - src) && cs[i].src >= src
  }

  /** The chunks take source bytes `src .. src + n - 1` back to back, and none exist when `n` is 0. */
  ghost predicate BackToBack(cs: seq<Chunk>, src: nat, n: nat)
  {
    && (forall i :: 0 < i < |cs| ==> cs[i].src == cs[i - 1].src + cs[i - 1].len)
    && (cs == [] <==> n == 0)
    && (cs != [] ==> cs[0].src == src && cs[|cs| - 1].src + cs[|cs| - 1].len == src + n)
  }

  /**
   * The classic plan is sound: every chunk is non-empty and stays inside one
   * block, the chunks are back to back in the source and their lengths add
   * up to `n`, and each copies source bytes `src + k` to file offset `off + k`.
   */
  lemma CopyPlanSound(off: nat, n: nat, src: nat, bsize: nat)
    requires bsize > 0
    ensures InBlocks(CopyPlan(off, n, src, bsize), bsize)
    ensures FromSource(CopyPlan(off, n, src, bsize), off, src, bsize)
    ensures BackToBack(CopyPlan(off, n, src, bsize), src, n)
  {
    CopyPlanInBlocks(off, n, src, bsize);
    CopyPlanFromSource(off, n, src, bsize);
    CopyPlanBackToBack(off, n, src, bsize);
  }

  lemma {:induction false} CopyPlanInBlocks(off: nat, n: nat, src: nat, bsize: nat)
    requires bsize > 0
    ensures InBlocks(CopyPlan(off, n, src, bsize), bsize)
    decreases n
  {
    if n > 0 {
      var c := NextChunk(off, n, src, bsize);
      CopyPlanInBlocks(off + c.len, n - c.len, src + c.len, bsize);
      InBlocksCons(c, CopyPlan(off + c.len, n - c.len, src + c.len, bsize), bsize);
      CopyPlanCons(off, n, src, bsize);
    }
  }

  /** A plan of `n > 0` bytes is its first chunk followed by the plan for the rest. */
  lemma CopyPlanCons(off: nat, n: nat, src: nat, bsize: nat)
    requires bsize > 0 && n > 0
    ensures var c := NextChunk(off, n, src, bsize);
      CopyPlan(off, n, src, bsize) == [c] + CopyPlan(off + c.len, n - c.len, src + c.len, bsize)
  {
  }

  /** Chunks `made` followed by the plan for `n` bytes from `off` make `whole`. */
  ghost predicate Leads(made: seq<Chunk>, off: nat, n: nat, src: nat, bsize: nat, whole: seq<Chunk>)
    requires bsize > 0
  {
    made + CopyPlan(off, n, src, bsize) == whole
  }

  /** Moving the first chunk `c` of the remaining plan to the end of `made`. */
  lemma PlanStep(made: seq<Chunk>, whole: seq<Chunk>, c: Chunk, off: nat, n: nat, src: nat, bsize: nat)
    requires bsize > 0 && n > 0 && c == NextChunk(off, n, src, bsize)
    requires Leads(made, off, n, src, bsize, whole)
    ensures Leads(made + [c], off + c.len, n - c.len, src + c.len, bsize, whole)
  {
    CopyPlanCons(off, n, src, bsize);
    var rest := CopyPlan(off + c.len, n - c.len, src + c.len, bsize);
    assert made + ([c] + rest) == (made + [c]) + rest;
  }

  /** A non-empty chunk inside one block in front of such chunks. */
  lemma InBlocksCons(c: Chunk, rest: seq<Chunk>, bsize: nat)
    requires 0 < c.len && c.boff + c.len <= bsize && InBlocks(rest, bsize)
    ensures InBlocks([c] + rest, bsize)
  {
    forall i | 0 < i < |rest| + 1
      ensures 0 < ([c] + rest)[i].len && ([c] + rest)[i].boff + ([c] + rest)[i].len <= bsize
    {
      assert ([c] + rest)[i] == rest[i - 1];
    }
  }

  /** A chunk taking `src .. src + len - 1` in front of chunks taking the next `n - len` bytes. */
  lemma BackToBackCons(c: Chunk, rest: seq<Chunk>, src: nat, n: nat)
    requires c.src == src && 0 < c.len <= n && BackToBack(rest, src + c.len, n - c.len)
    ensures BackToBack([c] + rest, src, n)
  {
    var cs := [c] + rest;
    forall i | 0 < i < |cs|
      ensures cs[i].src == cs[i - 1].src + cs[i - 1].len
    {
      assert cs[i] == rest[i - 1];
      if i > 1 {
        assert cs[i - 1] == rest[i - 2];
      }
    }
    if rest != [] {
      assert cs[|cs| - 1] == rest[|rest| - 1];
    }
  }

  lemma {:induction false} CopyPlanFromSource(off: nat, n: nat, src: nat, bsize: nat)
    requires bsize > 0
    ensures FromSource(CopyPlan(off, n, src, bsize), off, src, bsize)
    decreases n
  {
    if n > 0 {
      var c := NextChunk(off, n, src, bsize);
      CopyPlanFromSource(off + c.len, n - c.len, src + c.len, bsize);
      FromSourceCons(c, CopyPlan(off + c.len, n - c.len, src + c.len, bsize), off, src, bsize);
      CopyPlanCons(off, n, src, bsize);
    }
  }

  /** A chunk at `off` from `src` in front of a plan from `off + len`, `src + len` copies from the source. */
  lemma FromSourceCons(c: Chunk, rest: seq<Chunk>, off: nat, src: nat, bsize: nat)
    requires Dest(c, bsize) == off && c.src == src
    requires FromSource(rest, off + c.len, src + c.len, bsize)
    ensures FromSource([c] + rest, off, src, bsize)
  {
    forall i | 0 < i < |rest| + 1
      ensures Dest(([c] + rest)[i], bsize) == off + (([c] + rest)[i].src - src) && ([c] + rest)[i].src >= src
    {
      assert ([c] + rest)[i] == rest[i - 1];
    }
  }

  lemma {:induction false} CopyPlanBackToBack(off: nat, n: nat, src: nat, bsize: nat)
    requires bsize > 0
    ensures BackToBack(CopyPlan(off, n, src, bsize), src, n)
    decreases n
  {
    if n > 0 {
      var c := NextChunk(off, n, src, bsize);
      CopyPlanBackToBack(off + c.len, n - c.len, src + c.len, bsize);
      BackToBackCons(c, CopyPlan(off + c.len, n - c.len, src + c.len, bsize), src, n);
      CopyPlanCons(off, n, src, bsize);
    }
  }

  /** Every source byte `k < n` is copied by chunk `i` to file offset `off + k`. */
  lemma {:induction false} CopyPlanCovers(off: nat, n: nat, src: nat, bsize: nat, k: nat) returns (i: nat)
    requires bsize > 0 && k < n
    ensures var cs := CopyPlan(off, n, src, bsize);
      && i < |cs| && cs[i].src <= src + k < cs[i].src + cs[i].len
      && Dest(cs[i], bsize) + (src + k - cs[i].src) == off + k
    decreases n
  {
    var c := NextChunk(off, n, src, bsize);
    var cs := CopyPlan(off, n, src, bsize);
    var rest := CopyPlan(off + c.len, n - c.len, src + c.len, bsize);
    CopyPlanCons(off, n, src, bsize);
    if k < c.len {
      i := 0;
    } else {
      var j := CopyPlanCovers(off + c.len, n - c.len, src + c.len, bsize, k - c.len);
      assert cs[j + 1] == rest[j];
      i := j + 1;
    }
  }

  /**
   * The FAT loop as written places the right lengths at the right offsets
   * (its chunks are the classic plan's but for the source offset), yet the
   * source offset of every chunk is 0.
   */
  lemma {:induction false} FatPlanAsWrittenShape(off: nat, n: nat, src: nat, bsize: nat)
    requires bsize > 0
    ensures var cs, ps := FatPlanAsWritten(off, n, bsize), CopyPlan(off, n, src, bsize);
      && |cs| == |ps|
      && forall i :: 0 <= i < |cs| ==> cs[i] == ps[i].(src := 0)
    decreases n
  {
    if n > 0 {
      var c := NextChunk(off, n, src, bsize);
      FatPlanHead(off, n, src, bsize);
      CopyPlanCons(off, n, src, bsize);
      FatPlanAsWrittenShape(off + c.len, n - c.len, src + c.len, bsize);
      SourcelessCons(c, FatPlanAsWritten(off + c.len, n - c.len, bsize), CopyPlan(off + c.len, n - c.len, src + c.len, bsize));
    }
  }

  /** The FAT loop's first chunk is the classic loop's, copied from the buffer start. */
  lemma FatPlanHead(off: nat, n: nat, src: nat, bsize: nat)
    requires bsize > 0 && n > 0
    ensures var c := NextChunk(off, n, src, bsize);
      FatPlanAsWritten(off, n, bsize) == [c.(src := 0)] + FatPlanAsWritten(off + c.len, n - c.len, bsize)
  {
    assert off % bsize == off - (off / bsize) * bsize;
    assert bsize - off % bsize == (off / bsize + 1) * bsize - off;
  }

  /** Putting a chunk and its copy from the buffer start in front of two plans that differ only in sources. */
  lemma SourcelessCons(c: Chunk, cs: seq<Chunk>, ps: seq<Chunk>)
    requires |cs| == |ps| && forall i :: 0 <= i < |cs| ==> cs[i] == ps[i].(src := 0)
    ensures forall i :: 0 <= i < 1 + |cs| ==> ([c.(src := 0)] + cs)[i] == ([c] + ps)[i].(src := 0)
  {
    forall i | 0 < i < 1 + |cs|
      ensures ([c.(src := 0)] + cs)[i] == ([c] + ps)[i].(src := 0)
    {
      assert ([c.(src := 0)] + cs)[i] == cs[i - 1];
      assert ([c] + ps)[i] == ps[i - 1];
    }
  }

  /**
   * The FAT loop as written misplaces data: appending BSIZE + 1 bytes to an
   * empty file copies source byte 0, not byte BSIZE, to file offset BSIZE.
   */
  lemma FatAppendAsWrittenMisplaces(bsize: nat)
    requires bsize > 0
    ensures var cs := FatPlanAsWritten(0, bsize + 1, bsize);
      && |cs| == 2 && Dest(cs[1], bsize) == bsize && cs[1].src == 0 && cs[1].len == 1
    ensures !Aligned(FatPlanAsWritten(0, bsize + 1, bsize), 0, 0, bsize)
  {
    var cs := FatPlanAsWritten(0, bsize + 1, bsize);
    assert cs[0] == Chunk(0, 0, 0, bsize);
    assert FatPlanAsWritten(bsize, 1, bsize) == [Chunk(1, 0, 0, 1)] + FatPlanAsWritten(bsize + 1, 0, bsize);
    assert cs[1] == Chunk(1, 0, 0, 1);
  }

  /** The corrected plan, the classic one, places every byte at its own offset. */
  lemma CopyPlanAligned(off: nat, n: nat, bsize: nat)
    requires bsize > 0
    ensures Aligned(CopyPlan(off, n, 0, bsize), off, 0, bsize)
  {
    CopyPlanSound(off, n, 0, bsize);
  }
}
