/**
 * The global state of kernel/ksm.c and its operations, written the way the
 * C code updates it: the merge table is an array of slots changed in place,
 * the zero-page record and the two counters are fields, and page-table
 * entries are rewritten through pointers into `pt`, the words of the page
 * tables (indexed by their kernel address).  Each method is proved to
 * compute what the matching function of KsmSpec says.
 */
module Ksm {
  import opened PageTable
  import opened KsmSpec

  class KsmState {
    /** `struct merged_page_list mlist[NMLIST]`. */
    var mlist: array<Group>
    /** `struct merged_page_list zeropage`. */
    var zeropage: Group
    /** The physical pages handed to `kfree`, oldest first. */
    ghost var freed: seq<PhysAddr>
    /** `static int scanned`, `static int merged`. */
    var scanned: nat
    var merged: nat

    /** The state as KsmSpec sees it, with the entry words in `pt`. */
    ghost function Abs(pt: array<Pte>): State
      reads this`mlist, this`zeropage, this`freed, mlist, pt
    {
      State(mlist[..], zeropage, pt[..], freed)
    }

    /** Every representative pointer in the table addresses a word of `pt`. */
    ghost predicate Valid(pt: array<Pte>)
      reads this`mlist, this`zeropage, this`freed, mlist, pt
    {
      PointersOk(Abs(pt))
    }

    /**
     * The kernel's globals at boot: a zero-filled table of `nmlist` slots and
     * zeroed counters.  The zero-page record is taken as given, because its
     * initialisation is not live in ksm.c.
     */
    constructor (nmlist: nat, zero: Group)
      ensures fresh(mlist) && mlist[..] == seq(nmlist, _ => EmptyGroup)
      ensures zeropage == zero && freed == [] && scanned == 0 && merged == 0
    {
      mlist := new Group[nmlist](_ => EmptyGroup);
      zeropage := zero;
      freed := [];
      scanned, merged := 0, 0;
    }

    /** `merge_zeropage(pte, hash)`. */
    method MergeZeropage(pt: array<Pte>, pte: PtePtr, hash: u64) returns (r: int)
      requires 0 < pte < pt.Length
      modifies this`zeropage, this`freed, pt
      ensures (Abs(pt), r) == MergeZero(old(Abs(pt)), pte, hash)
    {
      if pt[pte].pa == zeropage.pa {
        return -1;
      }
      if hash == zeropage.hash {
        freed := freed + [pt[pte].pa];
        var e := pt[pte];
        if e.writable {
          pt[pte] := Pte(zeropage.pa, e.valid, false, true, e.rest);
        } else {
          pt[pte] := e.(pa := zeropage.pa, writable := false);
        }
        zeropage := zeropage.(refcnt := zeropage.refcnt + 1);
        return 1;
      }
      return 0;
    }

    /** `update_mlist()`: clear every slot with `refcnt == 1 && !merged`. */
    method UpdateMlist()
      modifies mlist
      ensures mlist[..] == Prune(old(mlist[..]))
    {
      for i := 0 to mlist.Length
        invariant forall j :: 0 <= j < i ==> mlist[j] == (if Stale(old(mlist[j])) then EmptyGroup else old(mlist[j]))
        invariant forall j :: i <= j < mlist.Length ==> mlist[j] == old(mlist[j])
      {
        if mlist[i].refcnt == 1 && !mlist[i].merged {
          mlist[i] := EmptyGroup;
        }
      }
    }

    /** The first loop of `push_mlist`: does a live slot already use page `pa`? */
    method FindRepresented(pa: PhysAddr) returns (found: bool)
      ensures found == Represented(mlist[..], pa)
    {
      for i := 0 to mlist.Length
        invariant forall j :: 0 <= j < i ==> !(Live(mlist[j]) && mlist[j].pa == pa)
      {
        if mlist[i].refcnt > 0 && mlist[i].pa == pa {
          return true;
        }
      }
      return false;
    }

    /** The second loop of `push_mlist`: the first slot the page can join, or `NMLIST`. */
    method FindJoinable(hash: u64, pa: PhysAddr) returns (i: nat)
      ensures i == FirstJoinable(mlist[..], hash, pa, 0)
    {
      i := 0;
      while i < mlist.Length
        invariant i <= mlist.Length
        invariant forall j :: 0 <= j < i ==> !Joinable(mlist[j], hash, pa)
      {
        if mlist[i].refcnt > 0 && mlist[i].refcnt < MaxRefcnt && mlist[i].hash == hash && mlist[i].pa != pa {
          return;
        }
        i := i + 1;
      }
    }

    /** The third loop of `push_mlist`: the first free slot, or `NMLIST`. */
    method FindFree() returns (i: nat)
      ensures i == FirstFree(mlist[..], 0)
    {
      i := 0;
      while i < mlist.Length
        invariant i <= mlist.Length
        invariant forall j :: 0 <= j < i ==> mlist[j].refcnt != 0
      {
        if mlist[i].refcnt == 0 {
          return;
        }
        i := i + 1;
      }
    }

    /** The body of `push_mlist`'s merge branch for slot `i`. */
    method JoinSlot(pt: array<Pte>, pte: PtePtr, i: nat)
      requires 0 < pte < pt.Length && i < mlist.Length && Valid(pt)
      modifies this`freed, mlist, pt
      ensures Abs(pt) == Join(old(Abs(pt)), i, pte)
    {
      var g := mlist[i];
      if g.refcnt == 1 && g.pte != Null {
        var rep := pt[g.pte];
        if rep.writable || rep.cow {
          pt[g.pte] := rep.(writable := false, cow := true);
        } else {
          pt[g.pte] := rep.(writable := false);
        }
        mlist[i] := mlist[i].(merged := true);
      }
      freed := freed + [pt[pte].pa];
      var e := pt[pte];
      if e.writable {
        pt[pte] := Pte(g.pa, e.valid, false, true, e.rest);
      } else {
        pt[pte] := e.(pa := g.pa, writable := false);
      }
      mlist[i] := mlist[i].(refcnt := mlist[i].refcnt + 1);
    }

    /** `push_mlist(pte, hash)`. */
    method PushMlist(pt: array<Pte>, pte: PtePtr, hash: u64) returns (r: int)
      requires 0 < pte < pt.Length && Valid(pt)
      modifies this`freed, mlist, pt
      ensures (Abs(pt), r) == Push(old(Abs(pt)), pte, hash)
    {
      var pa := pt[pte].pa;
      var found := FindRepresented(pa);
      if found {
        return 0;
      }
      var i := FindJoinable(hash, pa);
      if i < mlist.Length {
        JoinSlot(pt, pte, i);
        return 1;
      }
      var k := FindFree();
      if k < mlist.Length {
        mlist[k] := Group(pte, pa, mlist[k].refcnt + 1, hash, false);
      }
      return 0;
    }

    /** `merge_page(pte, hash)`. */
    method MergePage(pt: array<Pte>, pte: PtePtr, hash: u64) returns (r: int)
      requires 0 < pte < pt.Length && Valid(pt)
      modifies this`zeropage, this`freed, mlist, pt
      ensures (Abs(pt), r) == KsmSpec.MergePage(old(Abs(pt)), pte, hash)
    {
      var isMerged := MergeZeropage(pt, pte, hash);
      if isMerged == 1 {
        r := 1;
      } else if isMerged == 0 {
        r := PushMlist(pt, pte, hash);
      } else {
        r := 0;
      }
    }

    /**
     * One iteration of `sys_ksm`'s inner loop, at virtual address `va0` of
     * process `pr`: skip a null or invalid entry; otherwise hash the page,
     * count it as scanned and add `merge_page`'s result.
     */
    method ScanPage(pr: Proc, va0: nat, pt: array<Pte>, content: PhysAddr -> Page, xxh64: Page -> u64)
      requires Valid(pt) && PointsInto(pr, pt.Length)
      modifies this`zeropage, this`freed, this`scanned, this`merged, mlist, pt
      ensures (Abs(pt), Counters(scanned, merged)) ==
              ScanStep(old(Abs(pt)), pr, va0, old(Counters(scanned, merged)), content, xxh64)
    {
      var pte := Walk(pr, va0);
      if pte == Null || !pt[pte].valid {
        return;
      }
      var hash := xxh64(content(pt[pte].pa));
      ScanHashed(pt, pte, hash);
    }

    /** `++scanned; merged += merge_page(pte, hash);` */
    method ScanHashed(pt: array<Pte>, pte: PtePtr, hash: u64)
      requires 0 < pte < pt.Length && Valid(pt)
      modifies this`zeropage, this`freed, this`scanned, this`merged, mlist, pt
      ensures var (t, m) := KsmSpec.MergePage(old(Abs(pt)), pte, hash);
        Abs(pt) == t && scanned == old(scanned) + 1 && merged == old(merged) + m
    {
      scanned := scanned + 1;
      var m := MergePage(pt, pte, hash);
      merged := merged + m;
    }

    /** The inner `while (va0 < p->sz)` loop of `sys_ksm` for one process. */
    method ScanProcess(pr: Proc, pt: array<Pte>, content: PhysAddr -> Page, xxh64: Page -> u64)
      requires Valid(pt) && PointsInto(pr, pt.Length)
      modifies this`zeropage, this`freed, this`scanned, this`merged, mlist, pt
      ensures Valid(pt)
      ensures (Abs(pt), Counters(scanned, merged)) ==
              ScanFrom(old(Abs(pt)), pr, 0, old(Counters(scanned, merged)), content, xxh64)
    {
      ghost var goal := ScanFrom(Abs(pt), pr, 0, Counters(scanned, merged), content, xxh64);
      var va0 := 0;
      while va0 < pr.sz
        invariant Valid(pt)
        invariant ScanFrom(Abs(pt), pr, va0, Counters(scanned, merged), content, xxh64) == goal
        decreases pr.sz - va0
      {
        ScanFromNext(Abs(pt), pr, va0, Counters(scanned, merged), content, xxh64);
        ScanPage(pr, va0, pt, content, xxh64);
        va0 := va0 + PGSIZE;
      }
    }

    /**
     * `sys_ksm`: reset the counters, sweep every process but pids 1 and 2,
     * unused slots and the caller, then run `update_mlist` once.  Returns
     * the two counters that are copied out to the caller.
     */
    method SysKsm(procs: seq<Proc>, caller: int, pt: array<Pte>,
                  content: PhysAddr -> Page, xxh64: Page -> u64)
      returns (nscanned: nat, nmerged: nat)
      requires Valid(pt) && AllPointInto(procs, pt.Length)
      modifies this`zeropage, this`freed, this`scanned, this`merged, mlist, pt
      ensures (Abs(pt), Counters(nscanned, nmerged)) == KsmSpec.SysKsm(old(Abs(pt)), procs, caller, content, xxh64)
    {
      scanned := 0;
      merged := 0;
      ghost var goal := ScanProcs(Abs(pt), procs, 0, caller, Counters(0, 0), content, xxh64);

      for k := 0 to |procs|
        invariant Valid(pt)
        invariant ScanProcs(Abs(pt), procs, k, caller, Counters(scanned, merged), content, xxh64) == goal
      {
        var pr := procs[k];
        if pr.pid <= 2 || pr.pid == caller {
          continue;
        }
        ScanProcess(pr, pt, content, xxh64);
      }
      UpdateMlist();
      nscanned, nmerged := scanned, merged;
    }
  }
}
