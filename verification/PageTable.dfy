/** Two-level page tables over physical frames (vm.c; 32-bit paging, section 4.3 of the Intel SDM,
    volume 3A) and the flat map from virtual pages that they represent. */
module PageTable {
  const NPDE: nat := 1024            // entries per page directory, and per page table
  const PGSIZE: nat := 4096
  const KPAGE: nat := 0x80000        // first kernel page: KERNBASE / PGSIZE
  const NPAGES: nat := 0x10_0000     // virtual pages
  const PTE_P: nat := 1
  const PTE_W: nat := 2

  type Page = p: seq<nat> | |p| == NPDE witness seq(NPDE, _ => 0)
  type Mem = seq<Page>

  function ZeroPage(): (p: Page)
    ensures forall i :: 0 <= i < NPDE ==> p[i] == 0
  {
    seq(NPDE, _ => 0)
  }

  // ------------------------------------------------------------------ entries

  predicate Present(w: nat) {
    w % 2 == 1
  }

  function FrameOf(w: nat): nat {
    w / PGSIZE
  }

  function Flags(w: nat): nat {
    w % PGSIZE
  }

  lemma PteParts(f: nat, q: nat)
    requires q < PGSIZE
    ensures (f * PGSIZE + q) / PGSIZE == f && (f * PGSIZE + q) % PGSIZE == q && (f * PGSIZE + q) % 2 == q % 2
  {
  }

  // pa | perm | PTE_P for the page-aligned address of frame f.
  function MakePte(f: nat, perm: nat): (w: nat)
    requires perm < PGSIZE
    ensures Present(w) && FrameOf(w) == f && Flags(w) == if perm % 2 == 1 then perm else perm + 1
  {
    var q := if perm % 2 == 1 then perm else perm + 1;
    PteParts(f, q);
    f * PGSIZE + q
  }

  // The page-table entry for virtual page vp under directory d; 0 when there is no table.
  function Pte(mem: Mem, d: nat, vp: nat): nat
    requires d < |mem| && vp < NPAGES
  {
    var e := mem[d][vp / NPDE];
    if Present(e) && FrameOf(e) < |mem| then mem[FrameOf(e)][vp % NPDE] else 0
  }

  // ---------------------------------------------------------------- ownership

  /** What an address space uses a frame for: its directory, the table of one directory entry, or the
      data of one user page. */
  datatype Use = Root | Tab(i: nat) | Data(vp: nat)

  ghost predicate UsesInRange(lo: nat, mem: Mem, own: map<nat, Use>) {
    forall f :: f in own ==> 0 < lo <= f < |mem|
  }

  ghost predicate TablesOwned(mem: Mem, d: nat, own: map<nat, Use>)
    requires d < |mem|
  {
    && (forall i :: 0 <= i < NPDE && Present(mem[d][i]) ==>
          FrameOf(mem[d][i]) in own && own[FrameOf(mem[d][i])] == Tab(i))
    && (forall f :: f in own && own[f].Tab? ==>
          own[f].i < NPDE && Present(mem[d][own[f].i]) && FrameOf(mem[d][own[f].i]) == f)
  }

  ghost predicate DataOwned(mem: Mem, d: nat, own: map<nat, Use>)
    requires d < |mem|
  {
    && (forall vp :: 0 <= vp < KPAGE && Present(Pte(mem, d, vp)) ==>
          FrameOf(Pte(mem, d, vp)) in own && own[FrameOf(Pte(mem, d, vp))] == Data(vp))
    && (forall f :: f in own && own[f].Data? ==>
          own[f].vp < KPAGE && Present(Pte(mem, d, own[f].vp)) && FrameOf(Pte(mem, d, own[f].vp)) == f)
  }

  /** `own` is what the address space with directory d owns: each of its frames has exactly one use, so
      directory, page tables and user frames are pairwise distinct. */
  ghost predicate Space(lo: nat, mem: Mem, d: nat, own: map<nat, Use>) {
    && UsesInRange(lo, mem, own)
    && d in own && own[d] == Root
    && (forall f :: f in own && own[f] == Root ==> f == d)
    && TablesOwned(mem, d, own)
    && DataOwned(mem, d, own)
  }

  // The frames of directory and tables hold the mapping; nothing else matters to it.
  ghost predicate SameTables(mem: Mem, mem': Mem, own: map<nat, Use>) {
    && |mem'| == |mem|
    && forall f :: f in own && !own[f].Data? && f < |mem| ==> mem'[f] == mem[f]
  }

  lemma PteKept(lo: nat, mem: Mem, mem': Mem, d: nat, own: map<nat, Use>, vp: nat)
    requires Space(lo, mem, d, own) && SameTables(mem, mem', own) && vp < NPAGES
    ensures Pte(mem', d, vp) == Pte(mem, d, vp)
  {
    hide DataOwned;
  }

  lemma SpaceKept(lo: nat, mem: Mem, mem': Mem, d: nat, own: map<nat, Use>)
    requires Space(lo, mem, d, own) && SameTables(mem, mem', own)
    ensures Space(lo, mem', d, own)
    ensures forall vp :: 0 <= vp < NPAGES ==> Pte(mem', d, vp) == Pte(mem, d, vp)
  {
    hide FrameOf;
    hide Pte;
    forall vp | 0 <= vp < NPAGES ensures Pte(mem', d, vp) == Pte(mem, d, vp) {
      PteKept(lo, mem, mem', d, own, vp);
    }
  }

  // -------------------------------------------------------------- a new table

  function AddTable(mem: Mem, d: nat, i: nat, pt: nat): Mem
    requires d < |mem| && pt < |mem| && i < NPDE
  {
    mem[pt := ZeroPage()][d := mem[d][i := MakePte(pt, 7)]]
  }

  lemma AddTablePte(lo: nat, mem: Mem, d: nat, own: map<nat, Use>, i: nat, pt: nat, vp: nat)
    requires Space(lo, mem, d, own) && i < NPDE && !Present(mem[d][i])
    requires 0 < lo <= pt < |mem| && pt !in own && vp < NPAGES
    ensures Pte(AddTable(mem, d, i, pt), d, vp) == Pte(mem, d, vp)
  {
    hide DataOwned;
    var j := vp / NPDE;
    if j != i && Present(mem[d][j]) {
      assert FrameOf(mem[d][j]) in own;
    }
  }

  /** An empty page table under an absent directory entry maps nothing new. */
  lemma AddTableSpace(lo: nat, mem: Mem, d: nat, own: map<nat, Use>, i: nat, pt: nat)
    requires Space(lo, mem, d, own) && i < NPDE && !Present(mem[d][i])
    requires 0 < lo <= pt < |mem| && pt !in own
    ensures Space(lo, AddTable(mem, d, i, pt), d, own[pt := Tab(i)])
    ensures forall vp :: 0 <= vp < NPAGES ==> Pte(AddTable(mem, d, i, pt), d, vp) == Pte(mem, d, vp)
  {
    hide Pte;
    var mem', own' := AddTable(mem, d, i, pt), own[pt := Tab(i)];
    forall vp | 0 <= vp < NPAGES ensures Pte(mem', d, vp) == Pte(mem, d, vp) {
      AddTablePte(lo, mem, d, own, i, pt, vp);
    }
    assert TablesOwned(mem', d, own');
    assert DataOwned(mem', d, own');
  }

  // ---------------------------------------------------------- writing an entry

  function SetPte(mem: Mem, d: nat, vp: nat, w: nat): Mem
    requires d < |mem| && vp < NPAGES && FrameOf(mem[d][vp / NPDE]) < |mem|
  {
    var pt := FrameOf(mem[d][vp / NPDE]);
    mem[pt := mem[pt][vp % NPDE := w]]
  }

  lemma SetPteAt(lo: nat, mem: Mem, d: nat, own: map<nat, Use>, vp: nat, w: nat, vq: nat)
    requires Space(lo, mem, d, own) && vp < NPAGES && Present(mem[d][vp / NPDE]) && vq < NPAGES
    ensures FrameOf(mem[d][vp / NPDE]) < |mem| && FrameOf(mem[d][vp / NPDE]) != d
    ensures Pte(SetPte(mem, d, vp, w), d, vq) == if vp == vq then w else Pte(mem, d, vq)
  {
    hide DataOwned;
    var e, g := mem[d][vp / NPDE], mem[d][vq / NPDE];
    assert own[FrameOf(e)] == Tab(vp / NPDE);
    if Present(g) {
      assert own[FrameOf(g)] == Tab(vq / NPDE);
    }
    assert vp == vp / NPDE * NPDE + vp % NPDE && vq == vq / NPDE * NPDE + vq % NPDE;
  }

  lemma SetPteTables(lo: nat, mem: Mem, d: nat, own: map<nat, Use>, vp: nat, w: nat)
    requires Space(lo, mem, d, own) && vp < NPAGES && Present(mem[d][vp / NPDE])
    ensures FrameOf(mem[d][vp / NPDE]) < |mem|
    ensures SetPte(mem, d, vp, w)[d] == mem[d]
    ensures forall vq :: 0 <= vq < NPAGES ==>
              Pte(SetPte(mem, d, vp, w), d, vq) == if vp == vq then w else Pte(mem, d, vq)
  {
    hide FrameOf;
    hide DataOwned;
    hide Pte;
    assert own[FrameOf(mem[d][vp / NPDE])] == Tab(vp / NPDE);
    forall vq | 0 <= vq < NPAGES
      ensures Pte(SetPte(mem, d, vp, w), d, vq) == if vp == vq then w else Pte(mem, d, vq)
    {
      SetPteAt(lo, mem, d, own, vp, w, vq);
    }
  }

  /** Mapping an absent user page to frame f gives f that one use. */
  lemma MapUser(lo: nat, mem: Mem, d: nat, own: map<nat, Use>, vp: nat, f: nat, perm: nat)
    requires Space(lo, mem, d, own) && vp < KPAGE && Present(mem[d][vp / NPDE]) && !Present(Pte(mem, d, vp))
    requires 0 < lo <= f < |mem| && f !in own && perm < PGSIZE
    ensures FrameOf(mem[d][vp / NPDE]) < |mem|
    ensures Space(lo, SetPte(mem, d, vp, MakePte(f, perm)), d, own[f := Data(vp)])
  {
    hide FrameOf;
    hide Pte;
    SetPteTables(lo, mem, d, own, vp, MakePte(f, perm));
    var mem', own' := SetPte(mem, d, vp, MakePte(f, perm)), own[f := Data(vp)];
    assert TablesOwned(mem', d, own');
    assert DataOwned(mem', d, own');
  }

  /** Kernel pages are mapped without owning what they map to. */
  lemma MapKernel(lo: nat, mem: Mem, d: nat, own: map<nat, Use>, vp: nat, w: nat)
    requires Space(lo, mem, d, own) && KPAGE <= vp < NPAGES && Present(mem[d][vp / NPDE])
    ensures FrameOf(mem[d][vp / NPDE]) < |mem|
    ensures Space(lo, SetPte(mem, d, vp, w), d, own)
  {
    hide FrameOf;
    hide Pte;
    SetPteTables(lo, mem, d, own, vp, w);
    var mem' := SetPte(mem, d, vp, w);
    assert TablesOwned(mem', d, own);
    assert DataOwned(mem', d, own);
  }

  /** Unmapping a user page takes its frame out of the space. */
  lemma UnmapUser(lo: nat, mem: Mem, d: nat, own: map<nat, Use>, vp: nat)
    requires Space(lo, mem, d, own) && vp < KPAGE && Present(Pte(mem, d, vp))
    ensures Present(mem[d][vp / NPDE]) && FrameOf(mem[d][vp / NPDE]) < |mem|
    ensures FrameOf(Pte(mem, d, vp)) in own && own[FrameOf(Pte(mem, d, vp))] == Data(vp)
    ensures Space(lo, SetPte(mem, d, vp, 0), d, own - {FrameOf(Pte(mem, d, vp))})
  {
    hide FrameOf;
    PresentTable(mem, d, vp);
    hide Pte;
    SetPteTables(lo, mem, d, own, vp, 0);
    var mem', own' := SetPte(mem, d, vp, 0), own - {FrameOf(Pte(mem, d, vp))};
    assert TablesOwned(mem', d, own');
    assert DataOwned(mem', d, own');
  }

  lemma PresentTable(mem: Mem, d: nat, vp: nat)
    requires d < |mem| && vp < NPAGES && Present(Pte(mem, d, vp))
    ensures Present(mem[d][vp / NPDE])
  {
  }
}
