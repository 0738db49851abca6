/**
 * The samepage-merging registry of kernel/ksm.c as pure functions over one
 * state value: the merge table `mlist`, the zero-page record, the words of
 * every page-table entry (indexed by their kernel address) and the pages
 * handed to `kfree` so far.  The imperative model in module Ksm is proved
 * against these functions.
 */
module KsmSpec {
  import opened PageTable

  /**
   * One slot of the merge table (`struct merged_page_list` as ksm.c uses it,
   * including the `merged` field that ksm.c reads and writes): the
   * representative entry pointer, the backing physical page, the number of
   * mappings sharing it, the content hash, and whether it was ever promoted.
   */
  datatype Group = Group(pte: PtePtr, pa: PhysAddr, refcnt: nat, hash: u64, merged: bool)

  /** A slot after `memset(&mlist[i], 0, ...)`, and every slot at boot. */
  const EmptyGroup := Group(Null, 0, 0, 0, false)

  /** A group accepts new members only while `refcnt < 16`. */
  const MaxRefcnt: nat := 16

  datatype State = State(mlist: seq<Group>, zeropage: Group, ptes: seq<Pte>, freed: seq<PhysAddr>)

  predicate Live(g: Group) { g.refcnt > 0 }

  /** Every representative pointer stored in the table addresses an entry word. */
  predicate PointersOk(s: State)
  {
    forall i :: 0 <= i < |s.mlist| ==> s.mlist[i].pte < |s.ptes|
  }

  /** Some live slot already has `pa` as its backing page. */
  predicate Represented(mlist: seq<Group>, pa: PhysAddr)
  {
    exists i :: 0 <= i < |mlist| && Live(mlist[i]) && mlist[i].pa == pa
  }

  /** Slot `g` can take a page with content hash `hash` currently at `pa`. */
  predicate Joinable(g: Group, hash: u64, pa: PhysAddr)
  {
    0 < g.refcnt < MaxRefcnt && g.hash == hash && g.pa != pa
  }

  /** The lowest slot at or after `from` that can take the page, or `|mlist|`. */
  function FirstJoinable(mlist: seq<Group>, hash: u64, pa: PhysAddr, from: nat): (i: nat)
    requires from <= |mlist|
    ensures from <= i <= |mlist|
    ensures i < |mlist| ==> Joinable(mlist[i], hash, pa)
    ensures forall j :: from <= j < i ==> !Joinable(mlist[j], hash, pa)
    decreases |mlist| - from
  {
    if from == |mlist| then |mlist|
    else if Joinable(mlist[from], hash, pa) then from
    else FirstJoinable(mlist, hash, pa, from + 1)
  }

  /** The lowest free slot (refcnt 0) at or after `from`, or `|mlist|`. */
  function FirstFree(mlist: seq<Group>, from: nat): (i: nat)
    requires from <= |mlist|
    ensures from <= i <= |mlist|
    ensures i < |mlist| ==> mlist[i].refcnt == 0
    ensures forall j :: from <= j < i ==> mlist[j].refcnt != 0
    decreases |mlist| - from
  {
    if from == |mlist| then |mlist|
    else if mlist[from].refcnt == 0 then from
    else FirstFree(mlist, from + 1)
  }

  /**
   * `merge_zeropage`: -1 when the entry already maps the zero page, 1 after
   * merging it into the zero page, 0 when its hash is not the zero page's.
   */
  function MergeZero(s: State, p: PtePtr, hash: u64): (r: (State, int))
    requires 0 < p < |s.ptes|
    ensures r.1 == -1 <==> s.ptes[p].pa == s.zeropage.pa
    ensures r.1 == 1 <==> s.ptes[p].pa != s.zeropage.pa && hash == s.zeropage.hash
    ensures r.1 == -1 || r.1 == 0 || r.1 == 1
    ensures r.1 != 1 ==> r.0 == s
    ensures r.1 == 1 ==>
      && r.0.freed == s.freed + [s.ptes[p].pa]
      && |r.0.ptes| == |s.ptes|
      && WriteProtectedTo(s.ptes[p], r.0.ptes[p], s.zeropage.pa)
      && (forall q :: 0 <= q < |s.ptes| && q != p ==> r.0.ptes[q] == s.ptes[q])
      && r.0.zeropage == s.zeropage.(refcnt := s.zeropage.refcnt + 1)
      && r.0.mlist == s.mlist
  {
    var e := s.ptes[p];
    if e.pa == s.zeropage.pa then (s, -1)
    else if hash == s.zeropage.hash then
      (s.(freed := s.freed + [e.pa],
          ptes := s.ptes[p := Remap(e, s.zeropage.pa)],
          zeropage := s.zeropage.(refcnt := s.zeropage.refcnt + 1)), 1)
    else (s, 0)
  }

  /**
   * What joining the page behind entry `p` to slot `i` does to the state:
   * on the slot's first promotion its representative entry is write-protected
   * in place and the slot is marked merged; the incoming page is freed; the
   * incoming entry is redirected to the slot's page and write-protected; the
   * slot's count grows by one; nothing else changes.
   */
  ghost predicate JoinedAt(s: State, t: State, p: PtePtr, i: nat)
    requires i < |s.mlist| && 0 < p < |s.ptes| && PointersOk(s)
  {
    var g := s.mlist[i];
    var promote := g.refcnt == 1 && g.pte != Null;
    && t.mlist == s.mlist[i := g.(refcnt := g.refcnt + 1, merged := g.merged || promote)]
    && t.freed == s.freed + [s.ptes[p].pa]
    && t.zeropage == s.zeropage
    && |t.ptes| == |s.ptes|
    && WriteProtectedTo(s.ptes[p], t.ptes[p], g.pa)
    && (promote && g.pte != p ==> WriteProtectedTo(s.ptes[g.pte], t.ptes[g.pte], s.ptes[g.pte].pa))
    && (forall q :: 0 <= q < |s.ptes| && q != p && !(promote && q == g.pte) ==> t.ptes[q] == s.ptes[q])
  }

  /** The merge step of `push_mlist` for slot `i`, in the order ksm.c performs it. */
  function Join(s: State, i: nat, p: PtePtr): (t: State)
    requires i < |s.mlist| && 0 < p < |s.ptes| && PointersOk(s)
    ensures JoinedAt(s, t, p, i)
  {
    var g := s.mlist[i];
    var s1 :=
      if g.refcnt == 1 && g.pte != Null
      then s.(ptes := s.ptes[g.pte := Protect(s.ptes[g.pte])], mlist := s.mlist[i := g.(merged := true)])
      else s;
    var e := s1.ptes[p];
    s1.(freed := s1.freed + [e.pa],
        ptes := s1.ptes[p := Remap(e, g.pa)],
        mlist := s1.mlist[i := s1.mlist[i].(refcnt := g.refcnt + 1)])
  }

  /** The candidate group `push_mlist` seeds for entry `p`. */
  function Seed(p: PtePtr, pa: PhysAddr, hash: u64): Group
  {
    Group(p, pa, 1, hash, false)
  }

  /**
   * `push_mlist`: 0 and no change when the page already backs a live slot;
   * otherwise 1 after joining the lowest joinable slot; otherwise 0 after
   * seeding the lowest free slot, or 0 and no change when the table is full.
   */
  function Push(s: State, p: PtePtr, hash: u64): (r: (State, int))
    requires 0 < p < |s.ptes| && PointersOk(s)
    ensures r.1 == 0 || r.1 == 1
    ensures |r.0.ptes| == |s.ptes| && |r.0.mlist| == |s.mlist| && PointersOk(r.0)
    ensures Represented(s.mlist, s.ptes[p].pa) ==> r == (s, 0)
    ensures r.1 == 1 <==>
      !Represented(s.mlist, s.ptes[p].pa) &&
      exists i :: 0 <= i < |s.mlist| && Joinable(s.mlist[i], hash, s.ptes[p].pa)
    ensures r.1 == 1 ==>
      exists i :: 0 <= i < |s.mlist| && Joinable(s.mlist[i], hash, s.ptes[p].pa) &&
        (forall j :: 0 <= j < i ==> !Joinable(s.mlist[j], hash, s.ptes[p].pa)) &&
        JoinedAt(s, r.0, p, i)
    ensures r.1 == 0 && !Represented(s.mlist, s.ptes[p].pa) ==>
      || (exists k :: 0 <= k < |s.mlist| && s.mlist[k].refcnt == 0 &&
            (forall j :: 0 <= j < k ==> s.mlist[j].refcnt != 0) &&
            r.0 == s.(mlist := s.mlist[k := Seed(p, s.ptes[p].pa, hash)]))
      || ((forall k :: 0 <= k < |s.mlist| ==> s.mlist[k].refcnt != 0) && r.0 == s)
  {
    var pa := s.ptes[p].pa;
    if Represented(s.mlist, pa) then (s, 0)
    else
      var i := FirstJoinable(s.mlist, hash, pa, 0);
      if i < |s.mlist| then (Join(s, i, p), 1)
      else
        var k := FirstFree(s.mlist, 0);
        if k < |s.mlist| then (s.(mlist := s.mlist[k := Seed(p, pa, hash)]), 0)
        else (s, 0)
  }

  /**
   * The representative pointers of slots holding a single mapping (null
   * excluded): the only entries `push_mlist` rewrites besides the incoming
   * one, when it promotes their slot.
   */
  ghost function Singles(mlist: seq<Group>): set<PtePtr>
  {
    set i | 0 <= i < |mlist| && mlist[i].refcnt == 1 && mlist[i].pte != Null :: mlist[i].pte
  }

  /**
   * From entries `a` to entries `b` no write permission is gained, and every
   * entry that changed is read-only.
   */
  ghost predicate NoNewWrites(a: seq<Pte>, b: seq<Pte>)
  {
    && |b| == |a|
    && forall q :: 0 <= q < |a| ==> (b[q].writable ==> a[q].writable) && (b[q] != a[q] ==> !b[q].writable)
  }

  /**
   * `merge_page`: an entry already on the zero page is left alone; a page
   * with the zero page's hash is merged into the zero page; any other page
   * gets `push_mlist`'s result.  It returns 1 exactly when a page was merged
   * (and so freed), and then the entry maps, write-protected, the zero page
   * or the page of a slot with the same hash.
   */
  function MergePage(s: State, p: PtePtr, hash: u64): (r: (State, int))
    requires 0 < p < |s.ptes| && PointersOk(s)
    ensures r.1 == 0 || r.1 == 1
    ensures |r.0.ptes| == |s.ptes| && |r.0.mlist| == |s.mlist| && PointersOk(r.0)
    ensures s.ptes[p].pa == s.zeropage.pa ==> r == (s, 0)
    ensures s.ptes[p].pa != s.zeropage.pa && hash == s.zeropage.hash ==>
      && r.1 == 1
      && r.0.freed == s.freed + [s.ptes[p].pa]
      && WriteProtectedTo(s.ptes[p], r.0.ptes[p], s.zeropage.pa)
      && (forall q :: 0 <= q < |s.ptes| && q != p ==> r.0.ptes[q] == s.ptes[q])
      && r.0.zeropage == s.zeropage.(refcnt := s.zeropage.refcnt + 1)
      && r.0.mlist == s.mlist
    ensures s.ptes[p].pa != s.zeropage.pa && hash != s.zeropage.hash ==> r == Push(s, p, hash)
    ensures r.1 == 1 ==>
      || WriteProtectedTo(s.ptes[p], r.0.ptes[p], s.zeropage.pa)
      || exists i :: 0 <= i < |s.mlist| && Joinable(s.mlist[i], hash, s.ptes[p].pa) &&
           WriteProtectedTo(s.ptes[p], r.0.ptes[p], s.mlist[i].pa)
    ensures r.1 == 0 ==> r.0.ptes == s.ptes && r.0.zeropage == s.zeropage
    ensures r.0.zeropage.pa == s.zeropage.pa && r.0.zeropage.hash == s.zeropage.hash
    ensures r.0.zeropage.refcnt >= s.zeropage.refcnt
  {
    var (z, m) := MergeZero(s, p, hash);
    if m == 1 then (z, 1)
    else if m == 0 then Push(s, p, hash)
    else (s, 0)
  }

  /**
   * What `merge_page` touches: it frees exactly one page when it merges and
   * none otherwise, keeps every valid bit, rewrites no entry but the
   * incoming one and representatives of single-mapping slots, leaves no
   * single-mapping slot but the incoming entry's new one, grants no write
   * permission, and leaves every entry it rewrites read-only.
   */
  lemma MergePageFrame(s: State, p: PtePtr, hash: u64)
    requires 0 < p < |s.ptes| && PointersOk(s)
    ensures var (t, m) := MergePage(s, p, hash);
      && |t.freed| == |s.freed| + m && t.freed[..|s.freed|] == s.freed
      && (forall q :: 0 <= q < |s.ptes| ==> t.ptes[q].valid == s.ptes[q].valid)
      && (forall q :: 0 <= q < |s.ptes| && q != p && q !in Singles(s.mlist) ==> t.ptes[q] == s.ptes[q])
      && Singles(t.mlist) <= Singles(s.mlist) + {p}
      && NoNewWrites(s.ptes, t.ptes)
  {
  }

  /** A slot that was seeded but never shared: `refcnt == 1 && !merged`. */
  predicate Stale(g: Group) { g.refcnt == 1 && !g.merged }

  /** `update_mlist`: clear every never-shared singleton; keep every other slot. */
  function Prune(mlist: seq<Group>): (r: seq<Group>)
    ensures |r| == |mlist|
    ensures forall i :: 0 <= i < |r| ==> !Stale(r[i])
    ensures forall i :: 0 <= i < |r| && Stale(mlist[i]) ==> r[i] == EmptyGroup
    ensures forall i :: 0 <= i < |r| && !Stale(mlist[i]) ==> r[i] == mlist[i]
  {
    seq(|mlist|, i requires 0 <= i < |mlist| => if Stale(mlist[i]) then EmptyGroup else mlist[i])
  }

  /** The two counters `sys_ksm` reports. */
  datatype Counters = Counters(scanned: nat, merged: nat)

  /** The sweep leaves out pids 1 and 2, unused slots (pid 0) and the caller. */
  predicate Skipped(pr: Proc, caller: int)
  {
    pr.pid <= 2 || pr.pid == caller
  }

  /** Every process's walks stay inside entry memory of `n` words. */
  predicate AllPointInto(procs: seq<Proc>, n: nat)
  {
    forall k :: 0 <= k < |procs| ==> PointsInto(procs[k], n)
  }

  /**
   * The body of `sys_ksm`'s inner loop at virtual address `va`: skip a null
   * or invalid entry; otherwise hash the page, count it as scanned and add
   * `merge_page`'s result to the merged count.
   */
  function ScanStep(s: State, pr: Proc, va: nat, c: Counters,
                    content: PhysAddr -> Page, xxh64: Page -> u64): (r: (State, Counters))
    requires PointersOk(s) && PointsInto(pr, |s.ptes|)
    ensures |r.0.ptes| == |s.ptes| && |r.0.mlist| == |s.mlist| && PointersOk(r.0)
  {
    var p := Walk(pr, va);
    if p == Null || !s.ptes[p].valid then (s, c)
    else
      var (t, m) := MergePage(s, p, xxh64(content(s.ptes[p].pa)));
      (t, Counters(c.scanned + 1, c.merged + m))
  }

  /** The inner `while (va0 < p->sz)` loop of `sys_ksm`, from `va` on. */
  function ScanFrom(s: State, pr: Proc, va: nat, c: Counters,
                    content: PhysAddr -> Page, xxh64: Page -> u64): (r: (State, Counters))
    requires PointersOk(s) && PointsInto(pr, |s.ptes|)
    ensures |r.0.ptes| == |s.ptes| && |r.0.mlist| == |s.mlist| && PointersOk(r.0)
    decreases pr.sz - va, 1
  {
    if va >= pr.sz then (s, c) else ScanAt(s, pr, va, c, content, xxh64)
  }

  /** A pass of the loop at `va < sz`: its body, then the loop from the next page. */
  function ScanAt(s: State, pr: Proc, va: nat, c: Counters,
                  content: PhysAddr -> Page, xxh64: Page -> u64): (r: (State, Counters))
    requires PointersOk(s) && PointsInto(pr, |s.ptes|) && va < pr.sz
    ensures |r.0.ptes| == |s.ptes| && |r.0.mlist| == |s.mlist| && PointersOk(r.0)
    decreases pr.sz - va, 0
  {
    var (t, d) := ScanStep(s, pr, va, c, content, xxh64);
    ScanFrom(t, pr, va + PGSIZE, d, content, xxh64)
  }

  /** Below `sz`, the loop is its body followed by the loop from the next page. */
  lemma ScanFromNext(s: State, pr: Proc, va: nat, c: Counters,
                     content: PhysAddr -> Page, xxh64: Page -> u64)
    requires PointersOk(s) && PointsInto(pr, |s.ptes|) && va < pr.sz
    ensures ScanFrom(s, pr, va, c, content, xxh64) ==
            ScanFrom(ScanStep(s, pr, va, c, content, xxh64).0, pr, va + PGSIZE,
                     ScanStep(s, pr, va, c, content, xxh64).1, content, xxh64)
  {
  }

  /** The outer loop over the process table, from slot `k` on. */
  function ScanProcs(s: State, procs: seq<Proc>, k: nat, caller: int, c: Counters,
                     content: PhysAddr -> Page, xxh64: Page -> u64): (r: (State, Counters))
    requires k <= |procs| && PointersOk(s) && AllPointInto(procs, |s.ptes|)
    ensures |r.0.ptes| == |s.ptes| && |r.0.mlist| == |s.mlist| && PointersOk(r.0)
    decreases |procs| - k
  {
    if k == |procs| then (s, c)
    else if Skipped(procs[k], caller) then ScanProcs(s, procs, k + 1, caller, c, content, xxh64)
    else
      var (t, c') := ScanFrom(s, procs[k], 0, c, content, xxh64);
      ScanProcs(t, procs, k + 1, caller, c', content, xxh64)
  }

  /** `sys_ksm`: reset the counters, sweep every process, then run `update_mlist` once. */
  function SysKsm(s: State, procs: seq<Proc>, caller: int,
                  content: PhysAddr -> Page, xxh64: Page -> u64): (r: (State, Counters))
    requires PointersOk(s) && AllPointInto(procs, |s.ptes|)
    ensures |r.0.ptes| == |s.ptes| && |r.0.mlist| == |s.mlist|
    ensures forall i :: 0 <= i < |r.0.mlist| ==> !Stale(r.0.mlist[i])
  {
    var (t, c) := ScanProcs(s, procs, 0, caller, Counters(0, 0), content, xxh64);
    (t.(mlist := Prune(t.mlist)), c)
  }
}
