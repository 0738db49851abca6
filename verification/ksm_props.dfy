/**
 * What the samepage-merging registry and sweep of kernel/ksm.c guarantee,
 * proved about the functions of KsmSpec: the table invariant every
 * operation keeps, what one sweep counts, and which entries it may touch.
 */
module KsmProps {
  import opened PageTable
  import opened KsmSpec

  /**
   * The merge table's invariant: no slot counts more than 16 mappings, a
   * slot marked merged counts at least two, and no two live slots, and no
   * live slot and the zero page, share a backing page.
   */
  ghost predicate RegistryInv(s: State)
  {
    && (forall i :: 0 <= i < |s.mlist| ==> s.mlist[i].refcnt <= MaxRefcnt)
    && (forall i :: 0 <= i < |s.mlist| && s.mlist[i].merged ==> s.mlist[i].refcnt >= 2)
    && (forall i, j ::
          0 <= i < |s.mlist| && 0 <= j < |s.mlist| && i != j && Live(s.mlist[i]) && Live(s.mlist[j])
          ==> s.mlist[i].pa != s.mlist[j].pa)
  }

  ghost predicate ZeroApart(s: State)
  {
    forall i :: 0 <= i < |s.mlist| && Live(s.mlist[i]) ==> s.mlist[i].pa != s.zeropage.pa
  }

  ghost predicate Inv(s: State)
  {
    PointersOk(s) && RegistryInv(s) && ZeroApart(s)
  }

  /**
   * `push_mlist` keeps the slot bound and the distinct backing pages: it
   * seeds only a page no live slot uses, joins only a slot below 16, and
   * marks a slot merged only as its count reaches two.
   */
  lemma PushKeepsRegistryInv(s: State, p: PtePtr, hash: u64)
    requires 0 < p < |s.ptes| && PointersOk(s) && RegistryInv(s)
    ensures RegistryInv(Push(s, p, hash).0)
  {
    var t := Push(s, p, hash).0;
    var pa := s.ptes[p].pa;
    var first := FirstJoinable(s.mlist, hash, pa, 0);
    if !Represented(s.mlist, pa) && first < |s.mlist| {
      assert JoinedAt(s, t, p, first);
    } else if !Represented(s.mlist, pa) {
      var k := FirstFree(s.mlist, 0);
      if k < |s.mlist| {
        forall i, j | 0 <= i < |t.mlist| && 0 <= j < |t.mlist| && i != j && Live(t.mlist[i]) && Live(t.mlist[j])
          ensures t.mlist[i].pa != t.mlist[j].pa
        {
          if i == k {
            assert !(Live(s.mlist[j]) && s.mlist[j].pa == pa);
          } else if j == k {
            assert !(Live(s.mlist[i]) && s.mlist[i].pa == pa);
          }
        }
      }
    }
  }

  /** `merge_page` keeps the whole invariant, including that no live slot uses the zero page. */
  lemma MergePageKeepsInv(s: State, p: PtePtr, hash: u64)
    requires 0 < p < |s.ptes| && Inv(s)
    ensures Inv(MergePage(s, p, hash).0)
  {
    var (z, m) := MergeZero(s, p, hash);
    if m == 0 {
      PushKeepsRegistryInv(s, p, hash);
      var t := Push(s, p, hash).0;
      forall i | 0 <= i < |t.mlist| && Live(t.mlist[i])
        ensures t.mlist[i].pa != t.zeropage.pa
      {
        if t.mlist[i] != s.mlist[i] && t.mlist[i].pa != s.mlist[i].pa {
          assert t.mlist[i].pa == s.ptes[p].pa;
        }
      }
    }
  }

  /** `update_mlist` is idempotent. */
  lemma PruneIdempotent(mlist: seq<Group>)
    ensures Prune(Prune(mlist)) == Prune(mlist)
  {
    var once := Prune(mlist);
    assert forall i :: 0 <= i < |once| ==> Prune(once)[i] == once[i];
  }

  /** `update_mlist` keeps the invariant: it only frees slots. */
  lemma PruneKeepsInv(s: State)
    requires Inv(s)
    ensures Inv(s.(mlist := Prune(s.mlist)))
  {
  }

  /** One pass of the inner loop's body keeps the invariant. */
  lemma ScanStepKeepsInv(s: State, pr: Proc, va: nat, c: Counters,
                         content: PhysAddr -> Page, xxh64: Page -> u64)
    requires Inv(s) && PointsInto(pr, |s.ptes|)
    ensures Inv(ScanStep(s, pr, va, c, content, xxh64).0)
  {
    var p := Walk(pr, va);
    if p != Null && s.ptes[p].valid {
      MergePageKeepsInv(s, p, xxh64(content(s.ptes[p].pa)));
    }
  }

  lemma {:induction false} ScanFromKeepsInv(s: State, pr: Proc, va: nat, c: Counters,
                                            content: PhysAddr -> Page, xxh64: Page -> u64)
    requires Inv(s) && PointsInto(pr, |s.ptes|)
    ensures Inv(ScanFrom(s, pr, va, c, content, xxh64).0)
    decreases pr.sz - va
  {
    if va < pr.sz {
      ScanFromNext(s, pr, va, c, content, xxh64);
      var step := ScanStep(s, pr, va, c, content, xxh64);
      ScanStepKeepsInv(s, pr, va, c, content, xxh64);
      ScanFromKeepsInv(step.0, pr, va + PGSIZE, step.1, content, xxh64);
    }
  }

  lemma {:induction false} ScanProcsKeepsInv(s: State, procs: seq<Proc>, k: nat, caller: int, c: Counters,
                                             content: PhysAddr -> Page, xxh64: Page -> u64)
    requires k <= |procs| && Inv(s) && AllPointInto(procs, |s.ptes|)
    ensures Inv(ScanProcs(s, procs, k, caller, c, content, xxh64).0)
    decreases |procs| - k
  {
    if k < |procs| {
      if Skipped(procs[k], caller) {
        ScanProcsKeepsInv(s, procs, k + 1, caller, c, content, xxh64);
      } else {
        var (t, c') := ScanFrom(s, procs[k], 0, c, content, xxh64);
        ScanFromKeepsInv(s, procs[k], 0, c, content, xxh64);
        ScanProcsKeepsInv(t, procs, k + 1, caller, c', content, xxh64);
      }
    }
  }

  /**
   * A sweep keeps the invariant: afterwards no slot counts more than 16
   * mappings and live slots have pairwise distinct backing pages, none of
   * them the zero page.
   */
  lemma SysKsmKeepsInv(s: State, procs: seq<Proc>, caller: int,
                       content: PhysAddr -> Page, xxh64: Page -> u64)
    requires Inv(s) && AllPointInto(procs, |s.ptes|)
    ensures Inv(SysKsm(s, procs, caller, content, xxh64).0)
  {
    ScanProcsKeepsInv(s, procs, 0, caller, Counters(0, 0), content, xxh64);
    var (t, c) := ScanProcs(s, procs, 0, caller, Counters(0, 0), content, xxh64);
    PruneKeepsInv(t);
  }

  /** The number of present, valid entries at `va`, `va + PGSIZE`, ... below `pr.sz`. */
  function ValidFrom(pr: Proc, va: nat, ptes: seq<Pte>): nat
    requires PointsInto(pr, |ptes|)
    decreases pr.sz - va
  {
    if va >= pr.sz then 0
    else
      var p := Walk(pr, va);
      (if p != Null && ptes[p].valid then 1 else 0) + ValidFrom(pr, va + PGSIZE, ptes)
  }

  /** The present, valid entries of every process the sweep does not skip, from slot `k` on. */
  function ValidInProcs(procs: seq<Proc>, k: nat, caller: int, ptes: seq<Pte>): nat
    requires k <= |procs| && AllPointInto(procs, |ptes|)
    decreases |procs| - k
  {
    if k == |procs| then 0
    else (if Skipped(procs[k], caller) then 0 else ValidFrom(procs[k], 0, ptes))
         + ValidInProcs(procs, k + 1, caller, ptes)
  }

  predicate SameValidBits(a: seq<Pte>, b: seq<Pte>)
  {
    |a| == |b| && forall q :: 0 <= q < |a| ==> a[q].valid == b[q].valid
  }

  lemma {:induction false} ValidFromSameBits(pr: Proc, va: nat, a: seq<Pte>, b: seq<Pte>)
    requires PointsInto(pr, |a|) && SameValidBits(a, b)
    ensures ValidFrom(pr, va, a) == ValidFrom(pr, va, b)
    decreases pr.sz - va
  {
    if va < pr.sz {
      ValidFromSameBits(pr, va + PGSIZE, a, b);
    }
  }

  lemma {:induction false} ValidInProcsSameBits(procs: seq<Proc>, k: nat, caller: int, a: seq<Pte>, b: seq<Pte>)
    requires k <= |procs| && AllPointInto(procs, |a|) && SameValidBits(a, b)
    ensures ValidInProcs(procs, k, caller, a) == ValidInProcs(procs, k, caller, b)
    decreases |procs| - k
  {
    if k < |procs| {
      ValidFromSameBits(procs[k], 0, a, b);
      ValidInProcsSameBits(procs, k + 1, caller, a, b);
    }
  }

  /**
   * From `(s, c)` to `(t, d)`, what the inner loop counts from `va` on: one
   * scanned page per present valid entry, at most one merge per scanned
   * page, and one freed page per merge after the ones freed before; the
   * valid bits of all entries are kept.
   */
  ghost predicate CountsFrom(s: State, c: Counters, t: State, d: Counters, pr: Proc, va: nat)
    requires PointsInto(pr, |s.ptes|)
  {
    && d.scanned == c.scanned + ValidFrom(pr, va, s.ptes)
    && c.merged <= d.merged <= c.merged + (d.scanned - c.scanned)
    && |t.freed| == |s.freed| + (d.merged - c.merged)
    && t.freed[..|s.freed|] == s.freed
    && SameValidBits(s.ptes, t.ptes)
  }

  /**
   * One pass of the body counts a present valid entry as scanned, and as
   * merged exactly when `merge_page` frees its page.
   */
  lemma CountsFromStep(s: State, c: Counters, u: State, d: Counters, pr: Proc, va: nat,
                       content: PhysAddr -> Page, xxh64: Page -> u64)
    requires PointersOk(s) && PointsInto(pr, |s.ptes|) && va < pr.sz
    requires CountsFrom(ScanStep(s, pr, va, c, content, xxh64).0, ScanStep(s, pr, va, c, content, xxh64).1,
                        u, d, pr, va + PGSIZE)
    ensures CountsFrom(s, c, u, d, pr, va)
  {
    var p := Walk(pr, va);
    if p != Null && s.ptes[p].valid {
      var hash := xxh64(content(s.ptes[p].pa));
      var t := MergePage(s, p, hash).0;
      MergePageFrame(s, p, hash);
      ValidFromSameBits(pr, va + PGSIZE, s.ptes, t.ptes);
      assert u.freed[..|s.freed|] == u.freed[..|t.freed|][..|s.freed|];
    }
  }

  /** The inner loop counts what `CountsFrom` says. */
  lemma {:induction false} ScanFromCounts(s: State, pr: Proc, va: nat, c: Counters,
                                          content: PhysAddr -> Page, xxh64: Page -> u64)
    requires PointersOk(s) && PointsInto(pr, |s.ptes|)
    ensures CountsFrom(s, c, ScanFrom(s, pr, va, c, content, xxh64).0, ScanFrom(s, pr, va, c, content, xxh64).1, pr, va)
    decreases pr.sz - va
  {
    if va < pr.sz {
      ScanFromNext(s, pr, va, c, content, xxh64);
      var step := ScanStep(s, pr, va, c, content, xxh64);
      ScanFromCounts(step.0, pr, va + PGSIZE, step.1, content, xxh64);
      var r := ScanFrom(step.0, pr, va + PGSIZE, step.1, content, xxh64);
      CountsFromStep(s, c, r.0, r.1, pr, va, content, xxh64);
    } else {
      assert s.freed[..|s.freed|] == s.freed;
    }
  }

  lemma {:induction false} ScanProcsCounts(s: State, procs: seq<Proc>, k: nat, caller: int, c: Counters,
                                           content: PhysAddr -> Page, xxh64: Page -> u64)
    requires k <= |procs| && PointersOk(s) && AllPointInto(procs, |s.ptes|)
    ensures var (t, d) := ScanProcs(s, procs, k, caller, c, content, xxh64);
      && d.scanned == c.scanned + ValidInProcs(procs, k, caller, s.ptes)
      && c.merged <= d.merged <= c.merged + (d.scanned - c.scanned)
      && |t.freed| == |s.freed| + (d.merged - c.merged)
      && t.freed[..|s.freed|] == s.freed
      && SameValidBits(s.ptes, t.ptes)
    decreases |procs| - k
  {
    if k < |procs| {
      if Skipped(procs[k], caller) {
        ScanProcsCounts(s, procs, k + 1, caller, c, content, xxh64);
      } else {
        var (t, c') := ScanFrom(s, procs[k], 0, c, content, xxh64);
        ScanFromCounts(s, procs[k], 0, c, content, xxh64);
        ScanProcsCounts(t, procs, k + 1, caller, c', content, xxh64);
        ValidInProcsSameBits(procs, k + 1, caller, s.ptes, t.ptes);
        var u := ScanProcs(t, procs, k + 1, caller, c', content, xxh64).0;
        assert u.freed[..|s.freed|] == u.freed[..|t.freed|][..|s.freed|];
      }
    } else {
      assert s.freed[..|s.freed|] == s.freed;
    }
  }

  /**
   * The counters of one sweep: `scanned` is the number of present, valid
   * entries of the processes not skipped, `merged` never exceeds it, and
   * exactly `merged` pages were handed to `kfree`, after the ones freed
   * before.
   */
  lemma SysKsmCounts(s: State, procs: seq<Proc>, caller: int,
                     content: PhysAddr -> Page, xxh64: Page -> u64)
    requires PointersOk(s) && AllPointInto(procs, |s.ptes|)
    ensures var (t, d) := SysKsm(s, procs, caller, content, xxh64);
      && d.scanned == ValidInProcs(procs, 0, caller, s.ptes)
      && d.merged <= d.scanned
      && |t.freed| == |s.freed| + d.merged
      && t.freed[..|s.freed|] == s.freed
  {
    ScanProcsCounts(s, procs, 0, caller, Counters(0, 0), content, xxh64);
  }

  /** Entry pointer `q` is walked by `pr` at a page-aligned address in `[va, sz)`. */
  ghost predicate VisitsFrom(pr: Proc, va: nat, q: PtePtr)
  {
    exists v :: v in pr.pagetable && va <= v < pr.sz && v % PGSIZE == 0 && pr.pagetable[v] == q
  }

  /** The page after a page-aligned address is page-aligned. */
  lemma NextPageAligned(va: nat)
    requires va % PGSIZE == 0
    ensures (va + PGSIZE) % PGSIZE == 0
  {
  }

  /** Entry pointer `q` is walked by some process the sweep does not skip. */
  ghost predicate SweepVisits(procs: seq<Proc>, k: nat, caller: int, q: PtePtr)
  {
    exists j :: k <= j < |procs| && !Skipped(procs[j], caller) && VisitsFrom(procs[j], 0, q)
  }

  /**
   * From `s` to `t`, the inner loop's footprint from `va` on: only entries
   * walked at page-aligned addresses in `[va, sz)` or representatives of
   * single-mapping slots are rewritten, only walked entries become new
   * such representatives, no write permission is granted and every
   * rewritten entry is read-only, and the zero page keeps its address and
   * hash while its count only grows.
   */
  ghost predicate FrameFrom(s: State, t: State, pr: Proc, va: nat)
  {
    && |t.ptes| == |s.ptes|
    && NoNewWrites(s.ptes, t.ptes)
    && (forall q :: 0 <= q < |s.ptes| && q !in Singles(s.mlist) && !VisitsFrom(pr, va, q) ==> t.ptes[q] == s.ptes[q])
    && (forall q :: q in Singles(t.mlist) ==> q in Singles(s.mlist) || VisitsFrom(pr, va, q))
    && t.zeropage.pa == s.zeropage.pa && t.zeropage.hash == s.zeropage.hash
    && t.zeropage.refcnt >= s.zeropage.refcnt
  }

  /** Two steps that grant no write permission make one. */
  lemma NoNewWritesTrans(a: seq<Pte>, b: seq<Pte>, c: seq<Pte>)
    requires NoNewWrites(a, b) && NoNewWrites(b, c)
    ensures NoNewWrites(a, c)
  {
    forall q | 0 <= q < |a|
      ensures (c[q].writable ==> a[q].writable) && (c[q] != a[q] ==> !c[q].writable)
    {
      assert c[q] != b[q] || b[q] != a[q] || c[q] == a[q];
    }
  }

  /** One pass of the body, then a footprint from the next page, is a footprint from this page. */
  lemma FrameFromStep(s: State, c: Counters, u: State, pr: Proc, va: nat,
                      content: PhysAddr -> Page, xxh64: Page -> u64)
    requires PointersOk(s) && PointsInto(pr, |s.ptes|) && va < pr.sz && va % PGSIZE == 0
    requires FrameFrom(ScanStep(s, pr, va, c, content, xxh64).0, u, pr, va + PGSIZE)
    ensures FrameFrom(s, u, pr, va)
  {
    assert forall q :: VisitsFrom(pr, va + PGSIZE, q) ==> VisitsFrom(pr, va, q);
    var p := Walk(pr, va);
    if p != Null && s.ptes[p].valid {
      MergePageFrame(s, p, xxh64(content(s.ptes[p].pa)));
      NoNewWritesTrans(s.ptes, ScanStep(s, pr, va, c, content, xxh64).0.ptes, u.ptes);
      assert VisitsFrom(pr, va, p);
    }
  }

  /** The inner loop stays inside its footprint. */
  lemma {:induction false} ScanFromFrame(s: State, pr: Proc, va: nat, c: Counters,
                                         content: PhysAddr -> Page, xxh64: Page -> u64)
    requires PointersOk(s) && PointsInto(pr, |s.ptes|) && va % PGSIZE == 0
    ensures FrameFrom(s, ScanFrom(s, pr, va, c, content, xxh64).0, pr, va)
    decreases pr.sz - va
  {
    if va < pr.sz {
      NextPageAligned(va);
      ScanFromNext(s, pr, va, c, content, xxh64);
      var step := ScanStep(s, pr, va, c, content, xxh64);
      ScanFromFrame(step.0, pr, va + PGSIZE, step.1, content, xxh64);
      FrameFromStep(s, c, ScanFrom(step.0, pr, va + PGSIZE, step.1, content, xxh64).0, pr, va, content, xxh64);
    }
  }

  lemma {:induction false} ScanProcsFrame(s: State, procs: seq<Proc>, k: nat, caller: int, c: Counters,
                                          content: PhysAddr -> Page, xxh64: Page -> u64)
    requires k <= |procs| && PointersOk(s) && AllPointInto(procs, |s.ptes|)
    ensures var t := ScanProcs(s, procs, k, caller, c, content, xxh64).0;
      && NoNewWrites(s.ptes, t.ptes)
      && (forall q :: 0 <= q < |s.ptes| && q !in Singles(s.mlist) && !SweepVisits(procs, k, caller, q) ==> t.ptes[q] == s.ptes[q])
      && (forall q :: q in Singles(t.mlist) ==> q in Singles(s.mlist) || SweepVisits(procs, k, caller, q))
      && t.zeropage.pa == s.zeropage.pa && t.zeropage.hash == s.zeropage.hash
      && t.zeropage.refcnt >= s.zeropage.refcnt
    decreases |procs| - k
  {
    if k < |procs| {
      assert forall q :: SweepVisits(procs, k + 1, caller, q) ==> SweepVisits(procs, k, caller, q);
      if Skipped(procs[k], caller) {
        ScanProcsFrame(s, procs, k + 1, caller, c, content, xxh64);
      } else {
        var (t, c') := ScanFrom(s, procs[k], 0, c, content, xxh64);
        ScanFromFrame(s, procs[k], 0, c, content, xxh64);
        ScanProcsFrame(t, procs, k + 1, caller, c', content, xxh64);
        NoNewWritesTrans(s.ptes, t.ptes, ScanProcs(t, procs, k + 1, caller, c', content, xxh64).0.ptes);
        assert forall q :: VisitsFrom(procs[k], 0, q) ==> SweepVisits(procs, k, caller, q);
      }
    }
  }

  /**
   * Non-interference of a sweep: an entry that no scanned process walks at
   * a page-aligned address below its size, and that is not the
   * representative of a slot holding a single mapping when the sweep
   * starts, is left exactly as it was.  Such a representative is rewritten
   * when its slot is promoted, whichever process owns it, the caller and
   * pids 1 and 2 included.  No entry gains write permission and every
   * rewritten entry is read-only.  The zero page keeps its address and hash,
   * and its count only grows.
   */
  lemma SysKsmFrame(s: State, procs: seq<Proc>, caller: int,
                    content: PhysAddr -> Page, xxh64: Page -> u64)
    requires PointersOk(s) && AllPointInto(procs, |s.ptes|)
    ensures var t := SysKsm(s, procs, caller, content, xxh64).0;
      && NoNewWrites(s.ptes, t.ptes)
      && (forall q :: 0 <= q < |s.ptes| && q !in Singles(s.mlist) && !SweepVisits(procs, 0, caller, q) ==> t.ptes[q] == s.ptes[q])
      && t.zeropage.pa == s.zeropage.pa && t.zeropage.hash == s.zeropage.hash
      && t.zeropage.refcnt >= s.zeropage.refcnt
  {
    ScanProcsFrame(s, procs, 0, caller, Counters(0, 0), content, xxh64);
  }

  /**
   * After a sweep no slot holds a single mapping: `update_mlist` clears the
   * unmerged ones, and a merged slot counts at least two.
   */
  lemma SysKsmLeavesNoSingles(s: State, procs: seq<Proc>, caller: int,
                              content: PhysAddr -> Page, xxh64: Page -> u64)
    requires Inv(s) && AllPointInto(procs, |s.ptes|)
    ensures Singles(SysKsm(s, procs, caller, content, xxh64).0.mlist) == {}
  {
    SysKsmKeepsInv(s, procs, caller, content, xxh64);
    var t := SysKsm(s, procs, caller, content, xxh64).0;
    forall i | 0 <= i < |t.mlist|
      ensures t.mlist[i].refcnt != 1
    {
      assert !Stale(t.mlist[i]);
    }
  }

  /**
   * A sweep that follows an earlier one, whatever processes either scans,
   * rewrites only entries it walks itself: the entries of the caller, of
   * pids 1 and 2, and of every process it does not walk are left exactly as
   * they were.  The second sweep starts from the state the first left: code
   * that changes the slot table or the entries between the two sweeps (the
   * copy-on-write fault handler) is not part of this model.
   */
  lemma SweepAfterSweepFrame(s: State, procs1: seq<Proc>, caller1: int, procs2: seq<Proc>, caller2: int,
                             content: PhysAddr -> Page, xxh64: Page -> u64)
    requires Inv(s) && AllPointInto(procs1, |s.ptes|) && AllPointInto(procs2, |s.ptes|)
    ensures var t := SysKsm(s, procs1, caller1, content, xxh64).0;
      var u := SysKsm(t, procs2, caller2, content, xxh64).0;
      forall q :: 0 <= q < |t.ptes| && !SweepVisits(procs2, 0, caller2, q) ==> u.ptes[q] == t.ptes[q]
  {
    SysKsmLeavesNoSingles(s, procs1, caller1, content, xxh64);
    SysKsmKeepsInv(s, procs1, caller1, content, xxh64);
    var t := SysKsm(s, procs1, caller1, content, xxh64).0;
    SysKsmFrame(t, procs2, caller2, content, xxh64);
  }

  /** The scenario's process table: pids 3, 4 and 5, each with one page at address 0. */
  function ScenarioProcs(): seq<Proc>
  {
    [Proc(3, PGSIZE, map[0 := 1]), Proc(4, PGSIZE, map[0 := 2]), Proc(5, PGSIZE, map[0 := 3])]
  }

  function ScenarioState(e0: Pte, e1: Pte, e2: Pte, e3: Pte, zero: Group, nmlist: nat): State
  {
    State(seq(nmlist, _ => EmptyGroup), zero, [e0, e1, e2, e3], [])
  }

  /** Pid 4's page finds nothing to join and seeds slot 0. */
  lemma ScenarioSeeds(s: State, e2: Pte, h: u64, content: PhysAddr -> Page, xxh64: Page -> u64)
    requires |s.mlist| > 0 && forall i :: 0 <= i < |s.mlist| ==> s.mlist[i] == EmptyGroup
    requires |s.ptes| == 4 && s.ptes[2] == e2 && e2.valid && e2.pa != s.zeropage.pa
    requires h == xxh64(content(e2.pa)) && h != s.zeropage.hash
    ensures ScanFrom(s, ScenarioProcs()[1], 0, Counters(0, 0), content, xxh64)
         == (s.(mlist := s.mlist[0 := Seed(2, e2.pa, h)]), Counters(1, 0))
  {
    assert !Represented(s.mlist, e2.pa);
    assert FirstJoinable(s.mlist, h, e2.pa, 0) == |s.mlist| by {
      assert forall i :: 0 <= i < |s.mlist| ==> !Joinable(s.mlist[i], h, e2.pa);
    }
    assert FirstFree(s.mlist, 0) == 0;
    var s2 := s.(mlist := s.mlist[0 := Seed(2, e2.pa, h)]);
    assert MergePage(s, 2, h) == (s2, 0);
  }

  /** Pid 5's page joins slot 0, promoting pid 4's entry. */
  lemma ScenarioJoins(s2: State, e3: Pte, h: u64, content: PhysAddr -> Page, xxh64: Page -> u64)
    requires |s2.mlist| > 0 && s2.mlist[0].refcnt == 1 && s2.mlist[0].hash == h && s2.mlist[0].pa != e3.pa
    requires forall i :: 0 < i < |s2.mlist| ==> !Live(s2.mlist[i])
    requires |s2.ptes| == 4 && PointersOk(s2) && s2.ptes[3] == e3 && e3.valid && e3.pa != s2.zeropage.pa
    requires h == xxh64(content(e3.pa)) && h != s2.zeropage.hash
    ensures ScanFrom(s2, ScenarioProcs()[2], 0, Counters(1, 0), content, xxh64) == (Join(s2, 0, 3), Counters(2, 1))
  {
    assert !Represented(s2.mlist, e3.pa);
    assert FirstJoinable(s2.mlist, h, e3.pa, 0) == 0;
    assert MergePage(s2, 3, h) == (Join(s2, 0, 3), 1);
  }

  /** The sweep over the scenario's table: pid 3 is the caller, pid 4 seeds, pid 5 joins. */
  lemma ScenarioSweep(e0: Pte, e1: Pte, e2: Pte, e3: Pte, zero: Group, nmlist: nat,
                      content: PhysAddr -> Page, xxh64: Page -> u64)
    requires e2.valid && e3.valid && e2.pa != e3.pa && e2.pa != zero.pa && e3.pa != zero.pa
    requires xxh64(content(e2.pa)) == xxh64(content(e3.pa)) != zero.hash
    requires nmlist > 0
    ensures var s := ScenarioState(e0, e1, e2, e3, zero, nmlist);
      var s2 := s.(mlist := s.mlist[0 := Seed(2, e2.pa, xxh64(content(e2.pa)))]);
      ScanProcs(s, ScenarioProcs(), 0, 3, Counters(0, 0), content, xxh64) == (Join(s2, 0, 3), Counters(2, 1))
  {
    var procs := ScenarioProcs();
    var s := ScenarioState(e0, e1, e2, e3, zero, nmlist);
    var h := xxh64(content(e2.pa));
    var s2 := s.(mlist := s.mlist[0 := Seed(2, e2.pa, h)]);
    ScenarioSeeds(s, e2, h, content, xxh64);
    ScenarioJoins(s2, e3, h, content, xxh64);
    var s3 := Join(s2, 0, 3);
    assert ScanProcs(s3, procs, 3, 3, Counters(2, 1), content, xxh64) == (s3, Counters(2, 1));
    assert ScanProcs(s2, procs, 2, 3, Counters(1, 0), content, xxh64) == (s3, Counters(2, 1));
    assert ScanProcs(s, procs, 1, 3, Counters(0, 0), content, xxh64) == (s3, Counters(2, 1));
  }

  /**
   * Three processes each map one valid page at address 0; the first is the
   * caller.  When the other two pages hash alike (and not like the zero
   * page) and the table starts empty, one sweep scans two pages, merges one,
   * leaves both entries on the second process's page and write-protected,
   * frees the third process's page, and leaves the caller's entry alone.
   */
  lemma PairMergeScenario(e0: Pte, e1: Pte, e2: Pte, e3: Pte, zero: Group, nmlist: nat,
                          content: PhysAddr -> Page, xxh64: Page -> u64)
    requires e2.valid && e3.valid && e2.pa != e3.pa && e2.pa != zero.pa && e3.pa != zero.pa
    requires xxh64(content(e2.pa)) == xxh64(content(e3.pa)) != zero.hash
    requires nmlist > 0
    ensures
      var (t, d) := SysKsm(ScenarioState(e0, e1, e2, e3, zero, nmlist), ScenarioProcs(), 3, content, xxh64);
      && d == Counters(2, 1)
      && t.ptes[2].pa == e2.pa && t.ptes[3].pa == e2.pa
      && !t.ptes[2].writable && !t.ptes[3].writable
      && t.ptes[1] == e1
      && t.freed == [e3.pa]
      && t.mlist[0] == Group(2, e2.pa, 2, xxh64(content(e2.pa)), true)
  {
    var s := ScenarioState(e0, e1, e2, e3, zero, nmlist);
    var h := xxh64(content(e2.pa));
    ScenarioSweep(e0, e1, e2, e3, zero, nmlist, content, xxh64);
    var s3 := Join(s.(mlist := s.mlist[0 := Seed(2, e2.pa, h)]), 0, 3);
    assert Prune(s3.mlist)[0] == s3.mlist[0];
  }
}
