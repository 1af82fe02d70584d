/** vm.c and kalloc.c as they run: frames on a free list linked through their first word, page
    directories and tables written in place.  A frame is on the free list, owned by the address space at
    hand, held by the running code (just taken from the free list), or none of this code's business. */
module Vm {
  import opened PageTable

  function NextFree(free: seq<nat>, i: nat): nat
    requires i < |free|
  {
    if i + 1 < |free| then free[i + 1] else 0
  }

  // The free list: distinct frames in range, each holding the number of the next, 0 at the end.
  ghost predicate FreeChain(lo: nat, mem: Mem, head: nat, free: seq<nat>) {
    && head == (if free == [] then 0 else free[0])
    && (forall i :: 0 <= i < |free| ==> 0 < lo <= free[i] < |mem|)
    && (forall i :: 0 <= i < |free| ==> mem[free[i]][0] == NextFree(free, i))
    && (forall i, j :: 0 <= i < j < |free| ==> free[i] != free[j])
  }

  lemma PopChain(lo: nat, mem: Mem, head: nat, free: seq<nat>)
    requires FreeChain(lo, mem, head, free) && free != []
    ensures head == free[0] && head !in free[1..] && FreeChain(lo, mem, mem[head][0], free[1..])
  {
    assert mem[free[0]][0] == NextFree(free, 0);
    forall i | 0 <= i < |free[1..]|
      ensures mem[free[1..][i]][0] == NextFree(free[1..], i)
    {
      assert mem[free[i + 1]][0] == NextFree(free, i + 1);
    }
  }

  lemma PushChain(lo: nat, mem: Mem, head: nat, free: seq<nat>, f: nat)
    requires FreeChain(lo, mem, head, free) && 0 < lo <= f < |mem| && f !in free
    ensures FreeChain(lo, mem[f := JunkPage(head)], f, [f] + free)
  {
    var mem', free' := mem[f := JunkPage(head)], [f] + free;
    forall i | 0 <= i < |free'|
      ensures mem'[free'[i]][0] == NextFree(free', i)
    {
      if i > 0 {
        assert mem[free[i - 1]][0] == NextFree(free, i - 1);
      }
    }
  }

  // The page that kfree leaves: junk, with the link in the first word.
  function JunkPage(next: nat): Page {
    seq(NPDE, i => if i == 0 then next else 0x0101_0101)
  }

  /** The frames as seen from one address space: memory, the free list, what the space owns, and the
      frames that the running code holds. */
  datatype St = St(mem: Mem, head: nat, free: seq<nat>, own: map<nat, Use>, held: set<nat>)

  ghost predicate Disjoint(s: St) {
    && (forall i :: 0 <= i < |s.free| ==> s.free[i] !in s.own && s.free[i] !in s.held)
    && (forall f :: f in s.held ==> f !in s.own)
  }

  ghost predicate Ok(lo: nat, d: nat, s: St) {
    && FreeChain(lo, s.mem, s.head, s.free)
    && Space(lo, s.mem, d, s.own)
    && Disjoint(s)
    && (forall f :: f in s.held ==> 0 < lo <= f < |s.mem|)
  }

  /** Frames are conserved: those free, owned or held stay the same as a set, and no other frame is
      touched. */
  ghost predicate Conserves(s: St, s': St) {
    && |s'.mem| == |s.mem|
    && (forall f :: (f in s'.free || f in s'.own || f in s'.held) <==> (f in s.free || f in s.own || f in s.held))
    && (forall f :: 0 <= f < |s.mem| && f !in s.free && f !in s.own && f !in s.held ==> s'.mem[f] == s.mem[f])
  }

  // What the space owned it still owns, and its user pages keep their contents.
  ghost predicate Grows(s: St, s': St) {
    && |s'.mem| == |s.mem|
    && (forall f :: f in s.own ==> f in s'.own && s'.own[f] == s.own[f])
    && (forall f :: f in s.own && s.own[f].Data? && f < |s.mem| ==> s'.mem[f] == s.mem[f])
  }

  ghost predicate SamePtes(d: nat, s: St, s': St) {
    && d < |s.mem| == |s'.mem|
    && forall vp :: 0 <= vp < NPAGES ==> Pte(s'.mem, d, vp) == Pte(s.mem, d, vp)
  }

  lemma ChainKept(lo: nat, mem: Mem, mem': Mem, head: nat, free: seq<nat>)
    requires FreeChain(lo, mem, head, free) && |mem'| == |mem|
    requires forall i :: 0 <= i < |free| ==> mem'[free[i]] == mem[free[i]]
    ensures FreeChain(lo, mem', head, free)
  {
  }

  lemma InChain(lo: nat, mem: Mem, head: nat, free: seq<nat>)
    requires FreeChain(lo, mem, head, free)
    ensures forall i :: 0 <= i < |free| ==> free[i] < |mem|
  {
  }

  // kalloc: the first free frame is held.
  lemma TakeFrame(lo: nat, d: nat, s: St)
    requires Ok(lo, d, s) && s.free != []
    ensures var f, s' := s.head, s.(head := s.mem[s.head][0], free := s.free[1..], held := s.held + {s.head});
            && f == s.free[0] && f !in s.own && f !in s.held && 0 < lo <= f < |s.mem|
            && Ok(lo, d, s') && Conserves(s, s')
  {
    hide Space;
    PopChain(lo, s.mem, s.head, s.free);
    assert forall f :: f in s.free <==> f == s.free[0] || f in s.free[1..];
  }

  // kfree of a held frame.
  lemma DropFrame(lo: nat, d: nat, s: St, f: nat)
    requires Ok(lo, d, s) && f in s.held
    ensures var s' := s.(mem := s.mem[f := JunkPage(s.head)], head := f, free := [f] + s.free, held := s.held - {f});
            Ok(lo, d, s') && Conserves(s, s') && Grows(s, s') && SamePtes(d, s, s')
  {
    hide FreeChain;
    hide TablesOwned;
    hide DataOwned;
    hide Pte;
    hide JunkPage;
    assert f !in s.free;
    PushChain(lo, s.mem, s.head, s.free, f);
    var mem' := s.mem[f := JunkPage(s.head)];
    SpaceKept(lo, s.mem, mem', d, s.own);
  }

  // memset or memmove into a held frame.
  lemma FillFrame(lo: nat, d: nat, s: St, f: nat, page: Page)
    requires Ok(lo, d, s) && f in s.held
    ensures var s' := s.(mem := s.mem[f := page]);
            Ok(lo, d, s') && Conserves(s, s') && Grows(s, s') && SamePtes(d, s, s')
  {
    hide TablesOwned;
    hide DataOwned;
    hide Pte;
    SpaceKept(lo, s.mem, s.mem[f := page], d, s.own);
    ChainKept(lo, s.mem, s.mem[f := page], s.head, s.free);
  }

  // A held frame becomes an empty page table.
  lemma HangTable(lo: nat, d: nat, s: St, i: nat, pt: nat)
    requires Ok(lo, d, s) && pt in s.held && i < NPDE && !Present(s.mem[d][i])
    ensures var s' := s.(mem := AddTable(s.mem, d, i, pt), own := s.own[pt := Tab(i)], held := s.held - {pt});
            Ok(lo, d, s') && Conserves(s, s') && Grows(s, s') && SamePtes(d, s, s')
  {
    hide FrameOf;
    hide Present;
    hide Pte;
    hide TablesOwned;
    hide DataOwned;
    AddTableSpace(lo, s.mem, d, s.own, i, pt);
    ChainKept(lo, s.mem, AddTable(s.mem, d, i, pt), s.head, s.free);
  }

  // A held frame becomes the data of an unmapped user page.
  lemma HangPage(lo: nat, d: nat, s: St, vp: nat, f: nat, perm: nat)
    requires Ok(lo, d, s) && f in s.held && vp < KPAGE && perm < PGSIZE
    requires Present(s.mem[d][vp / NPDE]) && !Present(Pte(s.mem, d, vp))
    ensures FrameOf(s.mem[d][vp / NPDE]) < |s.mem|
    ensures var s' := s.(mem := SetPte(s.mem, d, vp, MakePte(f, perm)), own := s.own[f := Data(vp)],
                         held := s.held - {f});
            && Ok(lo, d, s') && Conserves(s, s') && Grows(s, s')
            && (forall vq :: 0 <= vq < NPAGES ==>
                  Pte(s'.mem, d, vq) == if vp == vq then MakePte(f, perm) else Pte(s.mem, d, vq))
            && s'.mem[f] == s.mem[f]
  {
    hide FrameOf;
    hide Present;
    hide TablesOwned;
    hide DataOwned;
    hide Pte;
    hide MakePte;
    var w := MakePte(f, perm);
    MapUser(lo, s.mem, d, s.own, vp, f, perm);
    SetPteTables(lo, s.mem, d, s.own, vp, w);
    TableOwner(lo, s.mem, d, s.own, vp);
    ChainKept(lo, s.mem, SetPte(s.mem, d, vp, w), s.head, s.free);
  }

  lemma TableOwner(lo: nat, mem: Mem, d: nat, own: map<nat, Use>, vp: nat)
    requires Space(lo, mem, d, own) && vp < NPAGES && Present(mem[d][vp / NPDE])
    ensures FrameOf(mem[d][vp / NPDE]) in own && own[FrameOf(mem[d][vp / NPDE])] == Tab(vp / NPDE)
  {
  }

  // A kernel page is mapped.
  lemma HangKernel(lo: nat, d: nat, s: St, vp: nat, w: nat)
    requires Ok(lo, d, s) && KPAGE <= vp < NPAGES && Present(s.mem[d][vp / NPDE])
    ensures FrameOf(s.mem[d][vp / NPDE]) < |s.mem|
    ensures var s' := s.(mem := SetPte(s.mem, d, vp, w));
            && Ok(lo, d, s') && Conserves(s, s') && Grows(s, s')
            && (forall vq :: 0 <= vq < NPAGES ==> Pte(s'.mem, d, vq) == if vp == vq then w else Pte(s.mem, d, vq))
  {
    hide FrameOf;
    hide Present;
    hide TablesOwned;
    hide DataOwned;
    hide Pte;
    MapKernel(lo, s.mem, d, s.own, vp, w);
    SetPteTables(lo, s.mem, d, s.own, vp, w);
    TableOwner(lo, s.mem, d, s.own, vp);
    ChainKept(lo, s.mem, SetPte(s.mem, d, vp, w), s.head, s.free);
  }

  // The frames that unmapping a user page involves: the page's frame and the table's.
  lemma UnhangFrames(lo: nat, d: nat, s: St, vp: nat)
    requires Ok(lo, d, s) && vp < KPAGE && Present(Pte(s.mem, d, vp))
    ensures Present(s.mem[d][vp / NPDE])
    ensures var f, pt := FrameOf(Pte(s.mem, d, vp)), FrameOf(s.mem[d][vp / NPDE]);
            && f in s.own && s.own[f] == Data(vp) && f !in s.free && f !in s.held && 0 < lo <= f < |s.mem|
            && pt in s.own && s.own[pt] == Tab(vp / NPDE) && pt !in s.free && pt !in s.held && pt < |s.mem|
            && f != pt && f != d
  {
    hide Pte;
    hide TablesOwned;
    hide DataOwned;
    hide FrameOf;
    hide Present;
    UnmapUser(lo, s.mem, d, s.own, vp);
    TableOwner(lo, s.mem, d, s.own, vp);
  }

  // Clearing the entry of a mapped user page leaves its frame in our hands.
  lemma UnhangPage(lo: nat, d: nat, s: St, vp: nat)
    requires Ok(lo, d, s) && vp < KPAGE && Present(Pte(s.mem, d, vp))
    ensures Present(s.mem[d][vp / NPDE]) && FrameOf(s.mem[d][vp / NPDE]) < |s.mem|
    ensures var f := FrameOf(Pte(s.mem, d, vp));
            var s' := s.(mem := SetPte(s.mem, d, vp, 0), own := s.own - {f}, held := s.held + {f});
            && f in s.own && Ok(lo, d, s') && Conserves(s, s')
            && (forall vq :: 0 <= vq < NPAGES ==> Pte(s'.mem, d, vq) == if vp == vq then 0 else Pte(s.mem, d, vq))
            && (forall g :: g in s.own && s.own[g].Data? ==> s'.mem[g] == s.mem[g])
  {
    hide FreeChain;
    hide Pte;
    hide TablesOwned;
    hide DataOwned;
    hide FrameOf;
    hide Present;
    UnhangFrames(lo, d, s, vp);
    UnmapUser(lo, s.mem, d, s.own, vp);
    SetPteTables(lo, s.mem, d, s.own, vp, 0);
    assert forall f :: f in s.own && s.own[f].Data? ==> f != FrameOf(s.mem[d][vp / NPDE]);
    assert forall i :: 0 <= i < |s.free| ==> s.free[i] != FrameOf(s.mem[d][vp / NPDE]);
    InChain(lo, s.mem, s.head, s.free);
    ChainKept(lo, s.mem, SetPte(s.mem, d, vp, 0), s.head, s.free);
  }

  // deallocuvm on one mapped page: kfree of its frame, then the entry is cleared.
  lemma DropPage(lo: nat, d: nat, s: St, vp: nat)
    requires Ok(lo, d, s) && vp < KPAGE && Present(Pte(s.mem, d, vp))
    ensures var f := FrameOf(Pte(s.mem, d, vp));
            && f in s.own && s.own[f] == Data(vp) && f !in s.free && 0 < lo <= f < |s.mem|
            && Present(s.mem[d][vp / NPDE]) && FrameOf(s.mem[d][vp / NPDE]) < |s.mem|
            && s.mem[f := JunkPage(s.head)][d] == s.mem[d]
            && var s' := s.(mem := SetPte(s.mem[f := JunkPage(s.head)], d, vp, 0), head := f, free := [f] + s.free,
                            own := s.own - {f});
               && Ok(lo, d, s') && Conserves(s, s')
               && (forall vq :: 0 <= vq < NPAGES ==> Pte(s'.mem, d, vq) == if vp == vq then 0 else Pte(s.mem, d, vq))
               && (forall g :: g in s.own && s.own[g].Data? && g != f ==> s'.mem[g] == s.mem[g])
  {
    hide TablesOwned;
    hide DataOwned;
    hide FrameOf;
    hide Present;
    hide JunkPage;
    hide Pte;
    hide FreeChain;
    UnhangFrames(lo, d, s, vp);
    UnhangPage(lo, d, s, vp);
    var f := FrameOf(Pte(s.mem, d, vp));
    var s1 := s.(mem := SetPte(s.mem, d, vp, 0), own := s.own - {f}, held := s.held + {f});
    DropFrame(lo, d, s1, f);
    assert SetPte(s.mem[f := JunkPage(s.head)], d, vp, 0) == s1.mem[f := JunkPage(s.head)];
    assert s1.held - {f} == s.held;
  }

  lemma DataOwner(lo: nat, mem: Mem, d: nat, own: map<nat, Use>, vp: nat)
    requires Space(lo, mem, d, own) && vp < KPAGE && Present(Pte(mem, d, vp))
    ensures FrameOf(Pte(mem, d, vp)) in own && own[FrameOf(Pte(mem, d, vp))] == Data(vp)
  {
  }

  class Machine {
    const lo: nat              // first frame after the kernel image
    var mem: Mem
    var head: nat
    ghost var free: seq<nat>

    ghost predicate Valid()
      reads this
    {
      FreeChain(lo, mem, head, free)
    }

    ghost function Cur(own: map<nat, Use>, held: set<nat>): St
      reads this
    {
      St(mem, head, free, own, held)
    }

    method KAlloc() returns (f: nat)
      requires Valid()
      modifies this`head, this`free
      ensures Valid()
      ensures f == 0 <==> old(free) == []
      ensures f == 0 ==> free == old(free) && head == old(head)
      ensures f != 0 ==> f == old(free)[0] && free == old(free)[1..] && lo <= f < |mem| && f !in free
    {
      f := head;
      if f != 0 {
        PopChain(lo, mem, head, free);
        head := mem[f][0];
        free := free[1..];
      }
    }

    /** Give frame f back; panics if it is not one of the allocator's frames. */
    method KFree(f: nat) returns (panicked: bool)
      requires Valid() && lo > 0 && f !in free
      modifies this`mem, this`head, this`free
      ensures panicked <==> f < lo || f >= |old(mem)|
      ensures panicked ==> mem == old(mem) && free == old(free) && head == old(head)
      ensures !panicked ==> head == f && free == [f] + old(free) && mem == old(mem)[f := JunkPage(old(head))]
      ensures Valid()
    {
      panicked := f < lo || f >= |mem|;
      if !panicked {
        PushChain(lo, mem, head, free, f);
        mem := mem[f := JunkPage(head)];
        head := f;
        free := [f] + free;
      }
    }

    // freerange: hand the frames first..last to the allocator.
    method FreeRange(first: nat, last: nat)
      requires Valid() && 0 < lo <= first <= last <= |mem|
      requires forall i :: 0 <= i < |free| ==> !(first <= free[i] < last)
      modifies this`mem, this`head, this`free
      ensures Valid() && |mem| == |old(mem)|
      ensures forall f :: f in free <==> f in old(free) || first <= f < last
    {
      hide FreeChain;
      hide JunkPage;
      var p := first;
      while p < last
        invariant first <= p <= last && Valid() && |mem| == |old(mem)|
        invariant forall f :: f in free <==> f in old(free) || first <= f < p
      {
        var panicked := KFree(p);
        p := p + 1;
      }
    }

    /** The page table for virtual page vp: its frame, or 0 if there is none and none can be made. */
    method WalkPgdir(d: nat, vp: nat, alloc: bool, ghost own: map<nat, Use>, ghost held: set<nat>)
      returns (pt: nat, ghost own': map<nat, Use>)
      requires Ok(lo, d, Cur(own, held)) && vp < NPAGES
      modifies this`mem, this`head, this`free
      ensures Ok(lo, d, Cur(own', held))
      ensures var s, s' := old(Cur(own, held)), Cur(own', held); Conserves(s, s') && Grows(s, s') && SamePtes(d, s, s')
      ensures pt != 0 ==> pt < |mem| && Present(mem[d][vp / NPDE]) && FrameOf(mem[d][vp / NPDE]) == pt
      ensures pt == 0 ==> !Present(old(mem)[d][vp / NPDE]) && (alloc ==> old(free) == [])
      ensures pt == 0 || !alloc ==> Cur(own', held) == old(Cur(own, held))
      ensures forall f :: f in own' && own'[f].Data? ==> f in own && own[f] == own'[f]
      ensures forall f :: f in held && f < |mem| ==> mem[f] == old(mem)[f]
    {
      hide TablesOwned;
      hide DataOwned;
      hide Pte;
      hide FreeChain;
      own' := own;
      var pde := mem[d][vp / NPDE];
      if Present(pde) {
        pt := FrameOf(pde);
        TableOwner(lo, mem, d, own, vp);
        return;
      }
      if !alloc {
        return 0, own;
      }
      ghost var s := Cur(own, held);
      if free != [] {
        TakeFrame(lo, d, s);
      }
      EmptyChain(lo, mem, head, free);
      pt := KAlloc();
      if pt == 0 {
        return;
      }
      ghost var s1 := Cur(own, held + {pt});
      HangTable(lo, d, s1, vp / NPDE, pt);
      mem := mem[pt := ZeroPage()];
      mem := mem[d := mem[d][vp / NPDE := MakePte(pt, 7)]];
      own' := own[pt := Tab(vp / NPDE)];
      assert held + {pt} - {pt} == held;
    }

    /** Map the pages first..last to consecutive frames from `frame` on, either one user page to a held
        frame or a stretch of kernel pages.  Fails when a page table is needed and memory is exhausted; a
        failed user mapping leaves every entry as it was. */
    method MapPages(d: nat, first: nat, last: nat, frame: nat, perm: nat, ghost own: map<nat, Use>,
            ghost held: set<nat>)
      returns (ok: bool, ghost own': map<nat, Use>, ghost held': set<nat>)
      requires Ok(lo, d, Cur(own, held)) && first <= last < NPAGES && perm < PGSIZE
      requires if first < KPAGE then first == last && frame in held else true
      requires forall vq :: first <= vq <= last ==> !Present(Pte(mem, d, vq))
      modifies this`mem, this`head, this`free
      ensures Ok(lo, d, Cur(own', held'))
      ensures var s, s' := old(Cur(own, held)), Cur(own', held'); Conserves(s, s') && Grows(s, s')
      ensures d < |mem| == |old(mem)|
      ensures ok ==> Mapped(d, old(mem), mem, first, last + 1, frame, perm)
      ensures ok && first < KPAGE ==> frame in own' && own'[frame] == Data(first) && held' == held - {frame}
      ensures ok && first < KPAGE ==> mem[frame] == old(mem)[frame]
      ensures first >= KPAGE || !ok ==> held' == held
      ensures forall f :: f in own' && f !in own && own'[f].Data? ==> ok && f == frame && first < KPAGE
      ensures !ok && first < KPAGE ==> SamePtes(d, old(Cur(own, held)), Cur(own', held'))
      ensures !ok && first >= KPAGE ==>
                exists a :: first <= a <= last && Mapped(d, old(mem), mem, first, a, frame, perm)
    {
      hide Ok;
      hide Conserves;
      hide Grows;
      hide Pte;
      var a := first;
      ghost var s0 := Cur(own, held);
      own', held' := own, held;
      Reflexive(lo, d, s0);
      while true
        invariant first <= a <= last && held' == held && d < |mem| == |s0.mem|
        invariant Ok(lo, d, Cur(own', held)) && Conserves(s0, Cur(own', held)) && Grows(s0, Cur(own', held))
        invariant Mapped(d, s0.mem, mem, first, a, frame, perm)
        invariant forall f :: f in own' && own'[f].Data? ==> f in own && own[f] == own'[f]
        invariant first < KPAGE ==> frame < |mem| && mem[frame] == s0.mem[frame]
        decreases last - a
      {
        ghost var s1 := Cur(own', held);
        var pt;
        pt, own' := WalkPgdir(d, a, true, own', held);
        ghost var s2 := Cur(own', held);
        Chain(s0, s1, s2);
        if pt == 0 {
          return false, own', held';
        }
        if a < KPAGE {
          HangPage(lo, d, s2, a, frame, perm);
          own', held' := own'[frame := Data(a)], held - {frame};
        } else {
          HangKernel(lo, d, s2, a, MakePte(frame + a - first, perm));
        }
        ghost var m := SetPte(mem, d, a, MakePte(frame + a - first, perm));
        mem := mem[pt := mem[pt][a % NPDE := MakePte(frame + a - first, perm)]];
        assert mem == m;
        Chain(s0, s2, Cur(own', held'));
        if a == last {
          break;
        }
        a := a + 1;
      }
      ok := true;
    }

    // The mapped page a: kfree its frame and clear its entry.
    method FreePage(d: nat, a: nat, pt: nat, ghost s0: St, ghost first: nat, ghost own: map<nat, Use>,
            ghost held: set<nat>)
      returns (ghost own': map<nat, Use>)
      requires Ok(lo, d, Cur(own, held)) && first <= a < KPAGE && pt < |mem|
      requires Present(mem[d][a / NPDE]) && FrameOf(mem[d][a / NPDE]) == pt && Present(mem[pt][a % NPDE])
      requires Unmapped(d, s0, Cur(own, held), first, a) && Conserves(s0, Cur(own, held))
      modifies this`mem, this`head, this`free
      ensures Ok(lo, d, Cur(own', held))
      ensures Unmapped(d, s0, Cur(own', held), first, a + 1) && Conserves(s0, Cur(own', held))
    {
      hide Conserves;
      hide FreeChain;
      hide Space;
      hide Disjoint;
      hide Pte;
      hide Unmapped;
      hide JunkPage;
      ghost var s1 := Cur(own, held);
      PteOf(lo, d, s1, a, pt);
      DropPage(lo, d, s1, a);
      var f := FrameOf(mem[pt][a % NPDE]);
      var panicked := KFree(f);
      mem := mem[pt := mem[pt][a % NPDE := 0]];
      own' := own - {f};
      UnmapOne(lo, d, s0, s1, Cur(own', held), first, a, f);
      ChainConserves(s0, s1, Cur(own', held));
    }

    /** Shrink from oldsz to newsz bytes: the user pages from PGROUNDUP(newsz) up to oldsz are unmapped and
        their frames freed, exactly as a page-by-page loop would; the jump over absent page tables skips
        only unmapped pages. */
    method DeallocUvm(d: nat, oldsz: nat, newsz: nat, ghost own: map<nat, Use>, ghost held: set<nat>)
      returns (sz: nat, ghost own': map<nat, Use>)
      requires Ok(lo, d, Cur(own, held)) && oldsz <= KPAGE * PGSIZE
      modifies this`mem, this`head, this`free
      ensures Ok(lo, d, Cur(own', held)) && Conserves(old(Cur(own, held)), Cur(own', held))
      ensures Unmapped(d, old(Cur(own, held)), Cur(own', held), RoundUp(newsz), RoundUp(oldsz))
      ensures sz == if newsz >= oldsz then oldsz else newsz
    {
      hide Ok;
      hide Conserves;
      hide Grows;
      hide Pte;
      hide Unmapped;
      own' := own;
      ghost var s0 := Cur(own, held);
      Reflexive(lo, d, s0);
      var first, end := RoundUp(newsz), RoundUp(oldsz);
      if newsz >= oldsz {
        UnmapNone(lo, d, s0, first, end);
        return oldsz, own;
      }
      var a := first;
      UnmapNone(lo, d, s0, first, first);
      while a < end
        invariant first <= a
        invariant Ok(lo, d, Cur(own', held)) && Conserves(s0, Cur(own', held))
        invariant Unmapped(d, s0, Cur(own', held), first, if a < end then a else end)
      {
        ghost var s1 := Cur(own', held);
        var pt;
        ghost var own1;
        pt, own1 := WalkPgdir(d, a, false, own', held);
        if pt == 0 {
          var next := (a / NPDE + 1) * NPDE;
          NoTable(mem, d, a, next);
          UnmapSkip(lo, d, s0, s1, first, a, if next < end then next else end);
          a := next;
        } else if Present(mem[pt][a % NPDE]) {
          own' := FreePage(d, a, pt, s0, first, own', held);
          a := a + 1;
        } else {
          PteOf(lo, d, s1, a, pt);
          UnmapSkip(lo, d, s0, s1, first, a, a + 1);
          a := a + 1;
        }
      }
      sz := newsz;
    }

    // Take a frame from the free list and fill it, as kalloc followed by memset or memmove does.
    method NewFrame(d: nat, page: Page, ghost own: map<nat, Use>) returns (f: nat)
      requires Ok(lo, d, Cur(own, {}))
      modifies this`mem, this`head, this`free
      ensures f == 0 ==> old(free) == [] && Cur(own, {}) == old(Cur(own, {}))
      ensures f != 0 ==> f !in own && f < |mem| && mem[f] == page && Ok(lo, d, Cur(own, {f}))
      ensures f != 0 ==> var s, s' := old(Cur(own, {})), Cur(own, {f});
                Conserves(s, s') && Grows(s, s') && SamePtes(d, s, s')
    {
      hide FreeChain;
      hide Space;
      hide Pte;
      ghost var s := Cur(own, {});
      EmptyChain(lo, mem, head, free);
      if free != [] {
        TakeFrame(lo, d, s);
      }
      Reflexive(lo, d, s);
      f := KAlloc();
      if f != 0 {
        assert {} + {f} == {f};
        FillFrame(lo, d, Cur(own, {f}), f, page);
        mem := mem[f := page];
      }
    }

    // kfree of the one held frame.
    method Release(d: nat, f: nat, ghost own: map<nat, Use>)
      requires Ok(lo, d, Cur(own, {f}))
      modifies this`mem, this`head, this`free
      ensures Ok(lo, d, Cur(own, {}))
      ensures var s, s' := old(Cur(own, {f})), Cur(own, {}); Conserves(s, s') && Grows(s, s') && SamePtes(d, s, s')
    {
      hide FreeChain;
      hide Space;
      hide Pte;
      hide JunkPage;
      DropFrame(lo, d, Cur(own, {f}), f);
      assert {f} - {f} == {};
      var panicked := KFree(f);
    }

    // allocuvm's rollback: give back the pages added since s0.
    method Undo(d: nat, newsz: nat, oldsz: nat, ghost s0: St, ghost a: nat, ghost own: map<nat, Use>,
            ghost held: set<nat>)
      returns (ghost own': map<nat, Use>)
      requires Ok(lo, d, s0) && Ok(lo, d, Cur(own, held)) && Conserves(s0, Cur(own, held))
      requires oldsz <= newsz < KPAGE * PGSIZE && RoundUp(oldsz) <= a <= RoundUp(newsz)
      requires Grown(d, s0, Cur(own, held), RoundUp(oldsz), a)
      requires forall vq :: RoundUp(oldsz) <= vq < RoundUp(newsz) ==> !Present(Pte(s0.mem, d, vq))
      modifies this`mem, this`head, this`free
      ensures Ok(lo, d, Cur(own', held)) && Conserves(s0, Cur(own', held))
      ensures SameMap(d, s0, Cur(own', held)) && SameData(s0, Cur(own', held))
    {
      hide Ok;
      hide Conserves;
      hide Pte;
      hide Grown;
      hide SameMap;
      hide SameData;
      hide Unmapped;
      ghost var s1 := Cur(own, held);
      var sz;
      sz, own' := DeallocUvm(d, newsz, oldsz, own, held);
      ChainConserves(s0, s1, Cur(own', held));
      UndoRestores(lo, d, s0, s1, Cur(own', held), RoundUp(oldsz), a, RoundUp(newsz));
    }

    /** Grow from oldsz to newsz bytes.  On success exactly the pages from PGROUNDUP(oldsz) up to newsz are
        added, each present, writable and user-accessible on a zeroed frame of its own; on failure the
        user mapping is as before, every user frame is returned and no user page has changed. */
    method AllocUvm(d: nat, oldsz: nat, newsz: nat, ghost own: map<nat, Use>)
      returns (ok: bool, sz: nat, ghost own': map<nat, Use>)
      requires Ok(lo, d, Cur(own, {}))
      requires forall vq :: RoundUp(oldsz) <= vq < RoundUp(newsz) && vq < KPAGE ==> !Present(Pte(mem, d, vq))
      modifies this`mem, this`head, this`free
      ensures Ok(lo, d, Cur(own', {})) && Conserves(old(Cur(own, {})), Cur(own', {}))
      ensures newsz >= KPAGE * PGSIZE ==> !ok && Cur(own', {}) == old(Cur(own, {}))
      ensures newsz < oldsz && newsz < KPAGE * PGSIZE ==> ok && sz == oldsz && Cur(own', {}) == old(Cur(own, {}))
      ensures oldsz <= newsz && ok ==>
                sz == newsz && Grown(d, old(Cur(own, {})), Cur(own', {}), RoundUp(oldsz), RoundUp(newsz))
      ensures !ok ==>
                sz == 0 && SameMap(d, old(Cur(own, {})), Cur(own', {})) && SameData(old(Cur(own, {})), Cur(own', {}))
    {
      hide Ok;
      hide Conserves;
      hide Pte;
      hide Grown;
      hide SameMap;
      hide SameData;
      hide Unmapped;
      ghost var s0 := Cur(own, {});
      own' := own;
      GrowNone(lo, d, s0, RoundUp(oldsz));
      if newsz >= KPAGE * PGSIZE {
        return false, 0, own;
      }
      if newsz < oldsz {
        return true, oldsz, own;
      }
      var first, end := RoundUp(oldsz), RoundUp(newsz);
      var a := first;
      while a < end
        invariant first <= a <= end
        invariant Ok(lo, d, Cur(own', {})) && Conserves(s0, Cur(own', {})) && Grown(d, s0, Cur(own', {}), first, a)
      {
        ghost var s1 := Cur(own', {});
        var f := NewFrame(d, ZeroPage(), own');
        if f == 0 {
          own' := Undo(d, newsz, oldsz, s0, a, own', {});
          return false, 0, own';
        }
        ghost var s2 := Cur(own', {f});
        NotYet(d, s0, s1, s2, first, a);
        var mapped;
        ghost var held;
        mapped, own', held := MapPages(d, a, a, f, 6, own', {f});
        if !mapped {
          GrownThen(lo, d, s0, s1, s2, first, a);
          GrownThen(lo, d, s0, s2, Cur(own', {f}), first, a);
          own' := Undo(d, newsz, oldsz, s0, a, own', {f});
          ghost var s4 := Cur(own', {f});
          Release(d, f, own');
          ReleaseKeeps(d, s0, s4, Cur(own', {}));
          return false, 0, own';
        }
        assert {f} - {f} == {};
        GrowOne(lo, d, s0, s1, s2, Cur(own', {}), first, a, f);
        a := a + 1;
      }
      return true, newsz, own';
    }

    /** Free an address space: its user frames, its page tables and its directory, exactly the frames it
        owns, go back to the free list. */
    method FreeVm(d: nat, ghost own: map<nat, Use>)
      requires Ok(lo, d, Cur(own, {}))
      modifies this`mem, this`head, this`free
      ensures Valid() && |mem| == |old(mem)|
      ensures forall f :: f in free <==> f in old(free) || f in own
      ensures forall f :: 0 <= f < |mem| && f !in old(free) && f !in own ==> mem[f] == old(mem)[f]
    {
      hide Space;
      hide FreeChain;
      hide FreedTables;
      hide Unmapped;
      hide Conserves;
      hide JunkPage;
      ghost var s0 := Cur(own, {});
      var sz;
      ghost var own1;
      sz, own1 := DeallocUvm(d, KPAGE * PGSIZE, 0, own, {});
      ghost var s1 := Cur(own1, {});
      TablesLeft(lo, d, s0, s1);
      var i := 0;
      while i < NPDE
        invariant 0 <= i <= NPDE && Valid() && |mem| == |s1.mem| && mem[d] == s1.mem[d] && d !in free
        invariant FreedTables(s1, mem, free, i)
      {
        if Present(mem[d][i]) {
          var f := FrameOf(mem[d][i]);
          FreeTable(lo, d, s1, mem, free, i, JunkPage(head));
          var panicked := KFree(f);
        } else {
          FreeNoTable(lo, d, s1, mem, free, i);
        }
        i := i + 1;
      }
      FreeRoot(lo, d, s0, s1, mem, free);
      var panicked := KFree(d);
    }

    /** A new address space with the kernel's mappings and no user page, or 0 with the set of free frames
        as it was. */
    method SetupKvm(kmap: seq<KMap>) returns (d: nat, ghost own: map<nat, Use>)
      requires Valid() && lo > 0 && KmapOk(kmap)
      modifies this`mem, this`head, this`free
      ensures Valid() && |mem| == |old(mem)|
      ensures d == 0 ==> forall f :: f in free <==> f in old(free)
      ensures d == 0 ==> forall f :: 0 <= f < |mem| && f !in old(free) ==> mem[f] == old(mem)[f]
      ensures d != 0 ==> Ok(lo, d, Cur(own, {})) && Conserves(old(Cur(map[], {})), Cur(own, {}))
      ensures d != 0 ==> KernelMapped(d, mem, kmap)
    {
      hide FreeChain;
      hide Space;
      hide Disjoint;
      hide Pte;
      hide KernelMapped;
      own := map[];
      ghost var s := Cur(map[], {});
      d := KAlloc();
      if d == 0 {
        return;
      }
      ghost var s1 := Cur(map[], {});
      own := map[d := Root];
      NewSpace(lo, d, s, s1);
      mem := mem[d := ZeroPage()];
      var k := 0;
      KernelNone(d, mem, kmap);
      while k < |kmap|
        invariant 0 <= k <= |kmap|
        invariant Ok(lo, d, Cur(own, {})) && Conserves(s, Cur(own, {}))
        invariant KernelMapped(d, mem, kmap[..k])
      {
        var e := kmap[k];
        ghost var m1, s2 := mem, Cur(own, {});
        KernelFree(d, mem, kmap, k);
        var ok;
        ghost var held;
        ok, own, held := MapPages(d, e.first, e.last, e.frame, e.perm, own, {});
        ChainConserves(s, s2, Cur(own, {}));
        if !ok {
          FreeVm(d, own);
          d := 0;
          return;
        }
        KernelStep(d, m1, mem, kmap, k);
        k := k + 1;
      }
      assert kmap[..k] == kmap;
    }

    // One page of the copy: a frame with the parent's bytes, mapped with the parent's flags.
    method CopyPage(d0: nat, d: nat, vp: nat, ghost kmap: seq<KMap>, ghost own0: map<nat, Use>,
                    ghost own: map<nat, Use>, ghost s0: St)
      returns (ok: bool, ghost own': map<nat, Use>)
      requires Ok(lo, d0, s0.(own := own0)) && s0.own == map[] && s0.held == {} && KmapOk(kmap) && vp < KPAGE
      requires Ok(lo, d, Cur(own, {})) && Conserves(s0, Cur(own, {})) && Copied(d0, s0.mem, d, Cur(own, {}), kmap, vp)
      requires d0 < |s0.mem| && Present(Pte(s0.mem, d0, vp))
      modifies this`mem, this`head, this`free
      ensures Ok(lo, d, Cur(own', {})) && Conserves(s0, Cur(own', {}))
      ensures ok ==> Copied(d0, s0.mem, d, Cur(own', {}), kmap, vp + 1)
    {
      hide FreeChain;
      hide Space;
      hide Disjoint;
      hide Pte;
      hide Copied;
      hide Conserves;
      hide Grows;
      own' := own;
      ghost var s1 := Cur(own, {});
      ParentKept(lo, d0, own0, s0, s1);
      var pt;
      ghost var o;
      pt, o := WalkPgdir(d0, vp, false, own0, {});
      PresentTable(mem, d0, vp);
      PteOf(lo, d0, Cur(own0, {}), vp, pt);
      var pte := mem[pt][vp % NPDE];
      DataOwner(lo, mem, d0, own0, vp);
      InRange(lo, d0, Cur(own0, {}), FrameOf(pte));
      var f := NewFrame(d, mem[FrameOf(pte)], own);
      if f == 0 {
        return false, own;
      }
      SameSize(s0, s1);
      SameSize(s1, Cur(own, {f}));
      ok, own' := MapCopy(d0, d, vp, f, pte, kmap, own, s0, s1);
    }

    // The frame f holding the copy is mapped, or given back.
    method MapCopy(ghost d0: nat, d: nat, vp: nat, f: nat, pte: nat, ghost kmap: seq<KMap>, ghost own: map<nat, Use>,
            ghost s0: St, ghost s1: St)
      returns (ok: bool, ghost own': map<nat, Use>)
      requires Ok(lo, d, s1) && Conserves(s0, s1) && Copied(d0, s0.mem, d, s1, kmap, vp) && KmapOk(kmap) && vp < KPAGE
      requires d0 < |s0.mem| && pte == Pte(s0.mem, d0, vp) && Present(pte) && FrameOf(pte) < |s0.mem|
      requires Ok(lo, d, Cur(own, {f})) && own == s1.own && f < |mem| == |s0.mem| && mem[f] == s0.mem[FrameOf(pte)]
      requires Conserves(s1, Cur(own, {f})) && Grows(s1, Cur(own, {f})) && SamePtes(d, s1, Cur(own, {f}))
      modifies this`mem, this`head, this`free
      ensures Ok(lo, d, Cur(own', {})) && Conserves(s0, Cur(own', {}))
      ensures ok ==> Copied(d0, s0.mem, d, Cur(own', {}), kmap, vp + 1)
    {
      hide FreeChain;
      hide Space;
      hide Disjoint;
      hide Pte;
      hide Copied;
      hide Conserves;
      hide Grows;
      ghost var s2 := Cur(own, {f});
      CopyNotYet(d0, s0.mem, d, s1, s2, kmap, vp);
      ghost var held;
      ok, own', held := MapPages(d, vp, vp, f, Flags(pte), own, {f});
      ChainConserves(s0, s1, s2);
      ChainConserves(s0, s2, Cur(own', held));
      if ok {
        assert {f} - {f} == {};
        CopyOne(lo, d0, s0.mem, d, s1, s2, Cur(own', {}), kmap, vp, f);
      } else {
        ghost var s3 := Cur(own', {f});
        Release(d, f, own');
        ChainConserves(s0, s3, Cur(own', {}));
      }
    }

    /** A copy of the parent's address space d0 up to sz bytes: every page below sz has the same flags and
        bytes on a frame of its own, taken from the free list; above there is no user page.  The parent
        is untouched.  On failure (0) the set of free frames is as it was. */
    method CopyUvm(d0: nat, sz: nat, kmap: seq<KMap>, ghost own0: map<nat, Use>)
      returns (d: nat, ghost own: map<nat, Use>)
      requires Ok(lo, d0, Cur(own0, {})) && KmapOk(kmap) && sz <= KPAGE * PGSIZE
      requires forall vp :: 0 <= vp < RoundUp(sz) ==> Present(Pte(mem, d0, vp))
      modifies this`mem, this`head, this`free
      ensures Valid() && |mem| == |old(mem)| && d0 < |mem|
      ensures forall f :: f in own0 && f < |mem| ==> mem[f] == old(mem)[f]
      ensures d == 0 ==> forall f :: f in free <==> f in old(free)
      ensures d != 0 ==> Ok(lo, d, Cur(own, {})) && Conserves(old(Cur(map[], {})), Cur(own, {}))
      ensures d != 0 ==> Copied(d0, old(mem), d, Cur(own, {}), kmap, RoundUp(sz))
    {
      hide FreeChain;
      hide Space;
      hide Disjoint;
      hide Pte;
      hide KernelMapped;
      hide Copied;
      hide Conserves;
      ghost var s0 := Cur(map[], {});
      ParentStart(lo, d0, Cur(own0, {}), s0);
      d, own := SetupKvm(kmap);
      if d == 0 {
        return;
      }
      RootInRange(lo, d, Cur(own, {}));
      CopyNone(d0, s0.mem, d, Cur(own, {}), kmap);
      var vp, ok := 0, true;
      while ok && vp < RoundUp(sz)
        invariant 0 <= vp <= RoundUp(sz) && |mem| == |s0.mem|
        invariant Ok(lo, d, Cur(own, {})) && Conserves(s0, Cur(own, {}))
        invariant ok ==> Copied(d0, s0.mem, d, Cur(own, {}), kmap, vp)
        decreases RoundUp(sz) - vp, ok
      {
        ok, own := CopyPage(d0, d, vp, kmap, own0, own, s0);
        SameSize(s0, Cur(own, {}));
        if ok {
          vp := vp + 1;
        }
      }
      ParentKept(lo, d0, own0, s0, Cur(own, {}));
      if !ok {
        ghost var s1 := Cur(own, {});
        FreeVm(d, own);
        CopyFreed(s0, s1, free);
        NotOurs(s0, s1, own0);
        d := 0;
      }
    }
  }

  /** A stretch of kernel pages first..last, mapped to consecutive frames. */
  datatype KMap = KMap(first: nat, last: nat, frame: nat, perm: nat)

  ghost predicate KmapOk(kmap: seq<KMap>) {
    && (forall k :: 0 <= k < |kmap| ==> KPAGE <= kmap[k].first <= kmap[k].last < NPAGES && kmap[k].perm < PGSIZE)
    && (forall j, k :: 0 <= j < k < |kmap| ==> kmap[j].last < kmap[k].first || kmap[k].last < kmap[j].first)
  }

  // The flat map of a kernel-only address space: the stretches of kmap and nothing else.
  ghost predicate KernelMapped(d: nat, mem: Mem, kmap: seq<KMap>)
    requires d < |mem| && forall k :: 0 <= k < |kmap| ==> kmap[k].perm < PGSIZE
  {
    forall vq :: 0 <= vq < NPAGES ==> Pte(mem, d, vq) == KernelPte(kmap, vq)
  }

  // The entry that the table kmap prescribes for page vq.
  function KernelPte(kmap: seq<KMap>, vq: nat): nat
    requires forall k :: 0 <= k < |kmap| ==> kmap[k].perm < PGSIZE
  {
    if kmap == [] then 0
    else
      var e := kmap[|kmap| - 1];
      if e.first <= vq <= e.last then MakePte(e.frame + vq - e.first, e.perm) else KernelPte(kmap[..|kmap| - 1], vq)
  }

  lemma KernelPteSnoc(kmap: seq<KMap>, e: KMap, vq: nat)
    requires e.perm < PGSIZE && forall k :: 0 <= k < |kmap| ==> kmap[k].perm < PGSIZE
    ensures KernelPte(kmap + [e], vq)
            == if e.first <= vq <= e.last then MakePte(e.frame + vq - e.first, e.perm) else KernelPte(kmap, vq)
  {
    assert (kmap + [e])[..|kmap|] == kmap;
  }

  lemma NoKernelPte(vq: nat)
    ensures KernelPte([], vq) == 0
  {
  }

  // The kernel's own table: I/O space, text, data and memory up to PHYSTOP, devices.  `data` is the first page of
  // the data segment.
  function KernelTable(data: nat): seq<KMap>
    requires KPAGE + 0x100 < data < KPAGE + 0xE000
  {
    [KMap(KPAGE, KPAGE + 0xFF, 0, PTE_W), KMap(KPAGE + 0x100, data - 1, 0x100, 0),
     KMap(data, KPAGE + 0xDFFF, data - KPAGE, PTE_W), KMap(0xFE000, NPAGES - 1, 0xFE000, PTE_W)]
  }

  lemma KernelTableOk(data: nat)
    requires KPAGE + 0x100 < data < KPAGE + 0xE000
    ensures KmapOk(KernelTable(data))
  {
  }

  /** The kernel's own table is one that setupkvm can map, and it is a direct map: page KERNBASE + p is frame p for
      all memory, read-only exactly over the text, device pages are themselves, and nothing else is mapped. */
  lemma DirectMap(data: nat, vq: nat)
    requires KPAGE + 0x100 < data < KPAGE + 0xE000 && vq < NPAGES
    ensures KmapOk(KernelTable(data))
    ensures var pte := KernelPte(KernelTable(data), vq);
            if KPAGE <= vq < KPAGE + 0xE000
            then FrameOf(pte) == vq - KPAGE && Flags(pte) == if KPAGE + 0x100 <= vq < data then PTE_P else PTE_P + PTE_W
            else if 0xFE000 <= vq then FrameOf(pte) == vq && Flags(pte) == PTE_P + PTE_W
            else !Present(pte)
  {
    hide MakePte;
    hide FrameOf;
    hide Flags;
    hide KmapOk;
    hide KernelPte;
    KernelTableOk(data);
    var io, text := KMap(KPAGE, KPAGE + 0xFF, 0, PTE_W), KMap(KPAGE + 0x100, data - 1, 0x100, 0);
    var memory, devices := KMap(data, KPAGE + 0xDFFF, data - KPAGE, PTE_W), KMap(0xFE000, NPAGES - 1, 0xFE000, PTE_W);
    assert KernelTable(data) == [io, text, memory] + [devices];
    KernelPteSnoc([io, text, memory], devices, vq);
    KernelPteSnoc([io, text], memory, vq);
    KernelPteSnoc([io], text, vq);
    KernelPteSnoc([], io, vq);
    assert [io, text, memory] == [io, text] + [memory] && [io, text] == [io] + [text] && [io] == [] + [io];
    NoKernelPte(vq);
  }

  // The user pages first..end have been added, each on a zeroed frame; nothing else has changed.
  ghost predicate Grown(d: nat, s: St, s': St, first: nat, end: nat) {
    && d < |s.mem| == |s'.mem|
    && Grows(s, s')
    && (forall vq :: 0 <= vq < NPAGES && !(first <= vq < end) ==> Pte(s'.mem, d, vq) == Pte(s.mem, d, vq))
    && (forall vq :: first <= vq < end && vq < NPAGES ==> ZeroMapped(d, s', vq))
    && (forall f :: f in s'.own && s'.own[f].Data? && f !in s.own ==> first <= s'.own[f].vp < end)
  }

  // Page vq is present, writable and user-accessible, and its frame is zeroed.
  ghost predicate ZeroMapped(d: nat, s: St, vq: nat)
    requires d < |s.mem| && vq < NPAGES
  {
    var w := Pte(s.mem, d, vq);
    Present(w) && Flags(w) == 7 && FrameOf(w) < |s.mem| && s.mem[FrameOf(w)] == ZeroPage()
  }

  // The same pages are present, with the same entries.
  ghost predicate SameMap(d: nat, s: St, s': St) {
    && d < |s.mem| == |s'.mem|
    && forall vq :: 0 <= vq < NPAGES ==>
         (Present(Pte(s'.mem, d, vq)) <==> Present(Pte(s.mem, d, vq)))
         && (Present(Pte(s.mem, d, vq)) ==> Pte(s'.mem, d, vq) == Pte(s.mem, d, vq))
  }

  // The same user frames, with the same contents.
  ghost predicate SameData(s: St, s': St) {
    && |s'.mem| == |s.mem|
    && (forall f :: f in s'.own && s'.own[f].Data? ==> f in s.own && s.own[f] == s'.own[f])
    && (forall f :: f in s.own && s.own[f].Data? && f < |s.mem| ==>
          f in s'.own && s'.own[f] == s.own[f] && s'.mem[f] == s.mem[f])
  }

  // The tables of the first i directory entries are back on the free list.
  ghost predicate FreedTables(s: St, mem: Mem, free: seq<nat>, i: nat) {
    && |mem| == |s.mem|
    && (forall f :: f in free <==> f in s.free || (f in s.own && s.own[f].Tab? && s.own[f].i < i))
    && (forall f :: 0 <= f < |mem| && f !in s.free && f !in s.own ==> mem[f] == s.mem[f])
  }

  // The page index of PGROUNDUP(sz).
  function RoundUp(sz: nat): nat {
    (sz + PGSIZE - 1) / PGSIZE
  }

  // The user pages first..end have been unmapped and their frames given up; all else is as before.
  ghost predicate Unmapped(d: nat, s: St, s': St, first: nat, end: nat) {
    && d < |s.mem| == |s'.mem|
    && (forall vq :: 0 <= vq < NPAGES ==>
          Pte(s'.mem, d, vq) == if first <= vq < end && Present(Pte(s.mem, d, vq)) then 0 else Pte(s.mem, d, vq))
    && (forall f :: f in s'.own ==> f in s.own && s'.own[f] == s.own[f])
    && (forall f :: f in s.own ==> (f in s'.own <==> !(s.own[f].Data? && first <= s.own[f].vp < end)))
    && (forall f :: f in s'.own && s'.own[f].Data? && f < |s.mem| ==> s'.mem[f] == s.mem[f])
  }

  // From mem to mem' exactly the pages first..end have been mapped, to consecutive frames.
  ghost predicate Mapped(d: nat, mem: Mem, mem': Mem, first: nat, end: nat, frame: nat, perm: nat)
    requires d < |mem| == |mem'| && perm < PGSIZE
  {
    forall vq :: 0 <= vq < NPAGES ==>
      Pte(mem', d, vq) == if first <= vq < end then MakePte(frame + vq - first, perm) else Pte(mem, d, vq)
  }

  lemma Reflexive(lo: nat, d: nat, s: St)
    requires Ok(lo, d, s)
    ensures Conserves(s, s) && Grows(s, s) && SamePtes(d, s, s) && d < |s.mem|
    ensures forall f :: f in s.held ==> f < |s.mem|
  {
  }

  lemma Chain(s0: St, s1: St, s2: St)
    requires Conserves(s0, s1) && Conserves(s1, s2) && Grows(s0, s1) && Grows(s1, s2)
    ensures Conserves(s0, s2) && Grows(s0, s2)
  {
  }

  lemma EmptyChain(lo: nat, mem: Mem, head: nat, free: seq<nat>)
    requires FreeChain(lo, mem, head, free)
    ensures head == 0 <==> free == []
  {
  }

  lemma UnmapNone(lo: nat, d: nat, s: St, first: nat, end: nat)
    requires Ok(lo, d, s) && end <= first
    ensures Unmapped(d, s, s, first, end)
  {
  }

  lemma ChainConserves(s0: St, s1: St, s2: St)
    requires Conserves(s0, s1) && Conserves(s1, s2)
    ensures Conserves(s0, s2)
  {
  }

  // A directory entry that is absent leaves all its pages unmapped.
  lemma NoTable(mem: Mem, d: nat, a: nat, next: nat)
    requires d < |mem| && a < NPAGES && !Present(mem[d][a / NPDE]) && next == (a / NPDE + 1) * NPDE
    ensures a < next <= NPAGES && forall vq :: a <= vq < next ==> !Present(Pte(mem, d, vq))
  {
    forall vq | a <= vq < next ensures !Present(Pte(mem, d, vq)) {
      assert vq / NPDE == a / NPDE;
    }
  }

  lemma PteOf(lo: nat, d: nat, s: St, a: nat, pt: nat)
    requires Ok(lo, d, s) && a < NPAGES && Present(s.mem[d][a / NPDE]) && FrameOf(s.mem[d][a / NPDE]) == pt
    ensures pt < |s.mem| && Pte(s.mem, d, a) == s.mem[pt][a % NPDE]
  {
    TableOwner(lo, s.mem, d, s.own, a);
  }

  lemma UnmapSkip(lo: nat, d: nat, s0: St, s: St, first: nat, a: nat, b: nat)
    requires Ok(lo, d, s) && Unmapped(d, s0, s, first, a) && first <= a <= b <= KPAGE
    requires forall vq :: a <= vq < b ==> !Present(Pte(s.mem, d, vq))
    ensures Unmapped(d, s0, s, first, b)
  {
    hide Pte;
    hide FreeChain;
    hide TablesOwned;
  }

  lemma UnmapOne(lo: nat, d: nat, s0: St, s1: St, s2: St, first: nat, a: nat, f: nat)
    requires Ok(lo, d, s1) && Unmapped(d, s0, s1, first, a) && first <= a < KPAGE
    requires f in s1.own && s1.own[f] == Data(a) && s2.own == s1.own - {f} && |s2.mem| == |s1.mem|
    requires Present(Pte(s1.mem, d, a))
    requires forall vq :: 0 <= vq < NPAGES ==> Pte(s2.mem, d, vq) == if vq == a then 0 else Pte(s1.mem, d, vq)
    requires forall g :: g in s1.own && s1.own[g].Data? && g != f && g < |s1.mem| ==> s2.mem[g] == s1.mem[g]
    ensures Unmapped(d, s0, s2, first, a + 1)
  {
    hide Pte;
    hide FreeChain;
    hide TablesOwned;
    hide Disjoint;
    assert forall g :: g in s1.own && s1.own[g] == Data(a) ==> g == f;
  }

  lemma GrowNone(lo: nat, d: nat, s: St, first: nat)
    requires Ok(lo, d, s)
    ensures Conserves(s, s) && Grown(d, s, s, first, first) && SameMap(d, s, s) && SameData(s, s)
  {
  }

  // Page a is still unmapped.
  lemma NotYet(d: nat, s0: St, s1: St, s2: St, first: nat, a: nat)
    requires Grown(d, s0, s1, first, a) && SamePtes(d, s1, s2) && a < NPAGES
    ensures Pte(s2.mem, d, a) == Pte(s0.mem, d, a)
  {
  }

  // Steps that add no user page keep what has been added.
  lemma GrownThen(lo: nat, d: nat, s0: St, s1: St, s2: St, first: nat, a: nat)
    requires Ok(lo, d, s1) && Conserves(s0, s1) && Conserves(s1, s2)
    requires Grown(d, s0, s1, first, a) && first <= a <= KPAGE && Grows(s1, s2) && SamePtes(d, s1, s2)
    requires forall f :: f in s2.own && s2.own[f].Data? ==> f in s1.own
    ensures Grown(d, s0, s2, first, a) && Conserves(s0, s2)
  {
    hide Pte;
    hide FreeChain;
    hide TablesOwned;
    hide Disjoint;
    forall vq | first <= vq < a ensures ZeroMapped(d, s2, vq) {
      assert ZeroMapped(d, s1, vq);
      DataOwner(lo, s1.mem, d, s1.own, vq);
    }
  }

  lemma ReleaseKeeps(d: nat, s0: St, s1: St, s2: St)
    requires SameMap(d, s0, s1) && SameData(s0, s1) && Conserves(s0, s1) && Conserves(s1, s2)
    requires Grows(s1, s2) && SamePtes(d, s1, s2) && s2.own == s1.own
    ensures SameMap(d, s0, s2) && SameData(s0, s2) && Conserves(s0, s2)
  {
    hide Pte;
  }

  lemma GrowOne(lo: nat, d: nat, s0: St, s1: St, s2: St, s3: St, first: nat, a: nat, f: nat)
    requires Ok(lo, d, s1) && Conserves(s0, s1) && Conserves(s1, s2) && Conserves(s2, s3)
    requires Grown(d, s0, s1, first, a) && first <= a < KPAGE
    requires Grows(s1, s2) && SamePtes(d, s1, s2) && s2.own == s1.own && f < |s2.mem| && s2.mem[f] == ZeroPage()
    requires Grows(s2, s3) && Mapped(d, s2.mem, s3.mem, a, a + 1, f, 6) && s3.mem[f] == s2.mem[f]
    requires f in s3.own && s3.own[f] == Data(a)
    requires forall g :: g in s3.own && g !in s2.own && s3.own[g].Data? ==> g == f
    ensures Grown(d, s0, s3, first, a + 1) && Conserves(s0, s3)
  {
    hide Pte;
    hide FreeChain;
    hide TablesOwned;
    hide Disjoint;
    hide ZeroPage;
    forall vq | first <= vq < a + 1 ensures ZeroMapped(d, s3, vq) {
      if vq == a {
        assert Pte(s3.mem, d, a) == MakePte(f, 6);
      } else {
        assert ZeroMapped(d, s1, vq);
        DataOwner(lo, s1.mem, d, s1.own, vq);
      }
    }
  }

  lemma UndoRestores(lo: nat, d: nat, s0: St, s1: St, s2: St, first: nat, a: nat, end: nat)
    requires Ok(lo, d, s0) && Grown(d, s0, s1, first, a) && Unmapped(d, s1, s2, first, end)
    requires first <= a <= end <= KPAGE
    requires forall vq :: first <= vq < end ==> !Present(Pte(s0.mem, d, vq))
    ensures SameMap(d, s0, s2) && SameData(s0, s2)
  {
    hide Pte;
    hide FreeChain;
    hide TablesOwned;
    hide Disjoint;
    assert forall f :: f in s0.own && s0.own[f].Data? ==> !(first <= s0.own[f].vp < end);
  }

  /** User frames are pairwise distinct. */
  lemma DistinctFrames(lo: nat, d: nat, s: St, vp: nat, vq: nat)
    requires Ok(lo, d, s) && vp < KPAGE && vq < KPAGE && vp != vq
    requires Present(Pte(s.mem, d, vp)) && Present(Pte(s.mem, d, vq))
    ensures FrameOf(Pte(s.mem, d, vp)) != FrameOf(Pte(s.mem, d, vq))
  {
    DataOwner(lo, s.mem, d, s.own, vp);
    DataOwner(lo, s.mem, d, s.own, vq);
  }

  // After all user pages are unmapped the space owns its directory and tables only.
  lemma TablesLeft(lo: nat, d: nat, s0: St, s1: St)
    requires Ok(lo, d, s0) && Ok(lo, d, s1) && Unmapped(d, s0, s1, 0, KPAGE)
    ensures forall f :: f in s1.own ==> !s1.own[f].Data?
    ensures FreedTables(s1, s1.mem, s1.free, 0) && d < |s1.mem| && d !in s1.free
  {
    hide Pte;
    hide FreeChain;
  }

  // Once all tables are freed, only the directory is missing from the free list.
  lemma FreeRoot(lo: nat, d: nat, s0: St, s1: St, mem: Mem, free: seq<nat>)
    requires Ok(lo, d, s0) && Ok(lo, d, s1) && s0.held == {} && s1.held == {} && Conserves(s0, s1)
    requires FreedTables(s1, mem, free, NPDE) && forall f :: f in s1.own ==> !s1.own[f].Data?
    ensures 0 < lo <= d < |mem| == |s0.mem| && d !in s0.free && d !in free
    ensures forall f :: f in [d] + free <==> f in s0.free || f in s0.own
    ensures forall f :: 0 <= f < |mem| && f !in s0.free && f !in s0.own ==> mem[f] == s0.mem[f]
  {
    hide Pte;
    hide DataOwned;
    hide FreeChain;
  }

  lemma FreeTable(lo: nat, d: nat, s: St, mem: Mem, free: seq<nat>, i: nat, page: Page)
    requires Ok(lo, d, s) && FreedTables(s, mem, free, i) && mem[d] == s.mem[d] && i < NPDE && Present(mem[d][i])
    ensures var f := FrameOf(mem[d][i]);
            && f !in free && 0 < lo <= f < |mem| && f != d
            && FreedTables(s, mem[f := page], [f] + free, i + 1)
  {
    hide DataOwned;
    hide FreeChain;
    var f := FrameOf(mem[d][i]);
    assert f in s.own && s.own[f] == Tab(i);
    assert forall g :: g in s.own && s.own[g] == Tab(i) ==> g == f;
  }

  lemma FreeNoTable(lo: nat, d: nat, s: St, mem: Mem, free: seq<nat>, i: nat)
    requires Ok(lo, d, s) && FreedTables(s, mem, free, i) && mem[d] == s.mem[d] && i < NPDE && !Present(mem[d][i])
    ensures FreedTables(s, mem, free, i + 1)
  {
    hide DataOwned;
    hide FreeChain;
    assert forall g :: g in s.own && s.own[g].Tab? ==> s.own[g].i != i;
  }

  lemma KernelNone(d: nat, mem: Mem, kmap: seq<KMap>)
    requires d < |mem| && forall vq :: 0 <= vq < NPAGES ==> Pte(mem, d, vq) == 0
    ensures KernelMapped(d, mem, kmap[..0])
  {
  }

  lemma KernelStep(d: nat, mem: Mem, mem': Mem, kmap: seq<KMap>, k: nat)
    requires KmapOk(kmap) && k < |kmap| && d < |mem| == |mem'| && KernelMapped(d, mem, kmap[..k])
    requires Mapped(d, mem, mem', kmap[k].first, kmap[k].last + 1, kmap[k].frame, kmap[k].perm)
    ensures KernelMapped(d, mem', kmap[..k + 1])
  {
    hide Pte;
    hide MakePte;
    assert kmap[..k + 1][..k] == kmap[..k];
    forall vq | 0 <= vq < NPAGES ensures Pte(mem', d, vq) == KernelPte(kmap[..k + 1], vq) {
      assert Pte(mem, d, vq) == KernelPte(kmap[..k], vq);
    }
  }

  lemma {:induction false} KernelOutside(kmap: seq<KMap>, n: nat, vq: nat)
    requires n <= |kmap| && forall k :: 0 <= k < |kmap| ==> kmap[k].perm < PGSIZE
    requires forall j :: 0 <= j < n ==> !(kmap[j].first <= vq <= kmap[j].last)
    ensures KernelPte(kmap[..n], vq) == 0
  {
    if n > 0 {
      assert kmap[..n][..n - 1] == kmap[..n - 1];
      KernelOutside(kmap, n - 1, vq);
    }
  }

  // The stretches do not overlap, so mappages never finds a page present.
  lemma KernelFree(d: nat, mem: Mem, kmap: seq<KMap>, k: nat)
    requires KmapOk(kmap) && k < |kmap| && d < |mem| && KernelMapped(d, mem, kmap[..k])
    ensures forall vq :: kmap[k].first <= vq <= kmap[k].last ==> !Present(Pte(mem, d, vq))
  {
    hide Pte;
    forall vq | kmap[k].first <= vq <= kmap[k].last ensures !Present(Pte(mem, d, vq)) {
      KernelOutside(kmap, k, vq);
    }
  }

  // A zeroed frame is the directory of an empty address space.
  lemma NewSpace(lo: nat, d: nat, s: St, s1: St)
    requires FreeChain(lo, s.mem, s.head, s.free) && s.free != [] && d == s.free[0] && s.own == map[] && s.held == {}
    requires s1.mem == s.mem && s1.free == s.free[1..] && FreeChain(lo, s1.mem, s1.head, s1.free) && lo > 0
    ensures var s2 := St(s.mem[d := ZeroPage()], s1.head, s1.free, map[d := Root], {});
            && d < |s.mem|
            && Ok(lo, d, s2) && Conserves(s, s2)
            && forall vq :: 0 <= vq < NPAGES ==> Pte(s2.mem, d, vq) == 0
  {
    hide ZeroPage;
    hide Space;
    hide Pte;
    var mem := s.mem[d := ZeroPage()];
    PopChain(lo, s.mem, s.head, s.free);
    ChainKept(lo, s.mem, mem, s1.head, s1.free);
    assert forall f :: f in s.free <==> f == d || f in s1.free;
    EmptySpace(lo, mem, d);
  }

  lemma EmptySpace(lo: nat, mem: Mem, d: nat)
    requires 0 < lo <= d < |mem| && mem[d] == ZeroPage()
    ensures Space(lo, mem, d, map[d := Root])
    ensures forall vq :: 0 <= vq < NPAGES ==> Pte(mem, d, vq) == 0
  {
    var own := map[d := Root];
    assert TablesOwned(mem, d, own);
    assert DataOwned(mem, d, own);
  }

  // Pages below n of d0 in mem0 have been copied into d; above, d has the kernel's mappings only.
  ghost predicate Copied(d0: nat, mem0: Mem, d: nat, s: St, kmap: seq<KMap>, n: nat) {
    && d0 < |mem0| == |s.mem| && d < |s.mem| && (forall k :: 0 <= k < |kmap| ==> kmap[k].perm < PGSIZE)
    && (forall vq :: 0 <= vq < n && vq < NPAGES ==> SamePage(d0, mem0, d, s, vq))
    && (forall vq :: n <= vq < NPAGES ==> Pte(s.mem, d, vq) == KernelPte(kmap, vq))
  }

  // Page vq is present in both, with the same flags and the same bytes.
  ghost predicate SamePage(d0: nat, mem0: Mem, d: nat, s: St, vq: nat)
    requires d0 < |mem0| == |s.mem| && d < |s.mem| && vq < NPAGES
  {
    var w, w' := Pte(mem0, d0, vq), Pte(s.mem, d, vq);
    Present(w') && Flags(w') == Flags(w) && FrameOf(w) < |mem0| && FrameOf(w') < |mem0|
    && s.mem[FrameOf(w')] == mem0[FrameOf(w)]
  }

  lemma CopyNone(d0: nat, mem0: Mem, d: nat, s: St, kmap: seq<KMap>)
    requires d0 < |mem0| == |s.mem| && d < |s.mem| && KmapOk(kmap) && KernelMapped(d, s.mem, kmap)
    ensures Copied(d0, mem0, d, s, kmap, 0)
  {
  }

  // User page vp has not been mapped in the copy yet.
  lemma CopyNotYet(d0: nat, mem0: Mem, d: nat, s1: St, s2: St, kmap: seq<KMap>, vp: nat)
    requires Copied(d0, mem0, d, s1, kmap, vp) && KmapOk(kmap) && SamePtes(d, s1, s2) && vp < KPAGE
    ensures !Present(Pte(s2.mem, d, vp))
  {
    hide Pte;
    KernelOutside(kmap, |kmap|, vp);
    assert kmap[..|kmap|] == kmap;
  }

  lemma CopyOne(lo: nat, d0: nat, mem0: Mem, d: nat, s1: St, s2: St, s3: St, kmap: seq<KMap>, vp: nat, f: nat)
    requires Ok(lo, d, s1) && Copied(d0, mem0, d, s1, kmap, vp) && vp < KPAGE
    requires Present(Pte(mem0, d0, vp)) && FrameOf(Pte(mem0, d0, vp)) < |mem0|
    requires Grows(s1, s2) && SamePtes(d, s1, s2) && f < |s2.mem| && s2.mem[f] == mem0[FrameOf(Pte(mem0, d0, vp))]
    requires Grows(s2, s3) && Mapped(d, s2.mem, s3.mem, vp, vp + 1, f, Flags(Pte(mem0, d0, vp)))
    requires s2.own == s1.own && s3.mem[f] == s2.mem[f]
    ensures Copied(d0, mem0, d, s3, kmap, vp + 1)
  {
    hide Pte;
    hide FreeChain;
    hide TablesOwned;
    hide Disjoint;
    hide KernelPte;
    forall vq | 0 <= vq < vp + 1 ensures SamePage(d0, mem0, d, s3, vq) {
      if vq == vp {
        assert Pte(s3.mem, d, vp) == MakePte(f, Flags(Pte(mem0, d0, vp)));
        OddFlags(Pte(mem0, d0, vp));
      } else {
        assert SamePage(d0, mem0, d, s1, vq);
        DataOwner(lo, s1.mem, d, s1.own, vq);
      }
    }
  }

  // The flags of a present entry include the present bit.
  lemma OddFlags(w: nat)
    requires Present(w)
    ensures Flags(w) % 2 == 1
  {
  }

  // The parent's frames, seen from a copy under construction, are frames that nobody touches.
  lemma ParentStart(lo: nat, d0: nat, p: St, s0: St)
    requires Ok(lo, d0, p) && p.held == {} && s0 == p.(own := map[])
    ensures lo > 0 && d0 < |p.mem| && forall f :: f in p.own ==> 0 < lo <= f < |p.mem| && f !in s0.free
  {
  }

  lemma ParentKept(lo: nat, d0: nat, own0: map<nat, Use>, s0: St, s: St)
    requires Ok(lo, d0, s0.(own := own0)) && s0.own == map[] && s0.held == {}
    requires Conserves(s0, s) && FreeChain(lo, s.mem, s.head, s.free)
    ensures Ok(lo, d0, s.(own := own0, held := {}))
    ensures forall vp :: 0 <= vp < NPAGES ==> Pte(s.mem, d0, vp) == Pte(s0.mem, d0, vp)
    ensures forall f :: f in own0 ==> f < |s0.mem| && s.mem[f] == s0.mem[f]
  {
    hide Pte;
    hide FreeChain;
    hide TablesOwned;
    hide DataOwned;
    assert forall f :: f in own0 ==> 0 < lo <= f < |s0.mem| && f !in s0.free;
    SpaceKept(lo, s0.mem, s.mem, d0, own0);
  }

  lemma SameSize(s: St, s': St)
    requires Conserves(s, s')
    ensures |s'.mem| == |s.mem|
  {
  }

  lemma RootInRange(lo: nat, d: nat, s: St)
    requires Ok(lo, d, s)
    ensures 0 < lo <= d < |s.mem|
  {
  }

  lemma InRange(lo: nat, d: nat, s: St, f: nat)
    requires Ok(lo, d, s) && f in s.own
    ensures f < |s.mem|
  {
  }

  /** Freeing what was built from the free list gives back exactly the frames that were free before. */
  lemma CopyFreed(s0: St, s: St, free: seq<nat>)
    requires Conserves(s0, s) && s0.own == map[] && s0.held == {} && s.held == {}
    requires forall f :: f in free <==> f in s.free || f in s.own
    ensures forall f :: f in free <==> f in s0.free
  {
  }

  // A frame that is not free at the start belongs to nothing built from the free list.
  lemma NotOurs(s0: St, s: St, own0: map<nat, Use>)
    requires Conserves(s0, s) && s0.own == map[] && s0.held == {}
    requires forall f :: f in own0 ==> f !in s0.free
    ensures forall f :: f in own0 ==> f !in s.free && f !in s.own
  {
  }

  /** A copy that is freed again, or that failed, leaves exactly the frames free that were free before. */
  method CopyThenFree(m: Machine, d0: nat, sz: nat, kmap: seq<KMap>, ghost own0: map<nat, Use>)
    requires Ok(m.lo, d0, m.Cur(own0, {})) && KmapOk(kmap) && sz <= KPAGE * PGSIZE
    requires forall vp :: 0 <= vp < RoundUp(sz) ==> Present(Pte(m.mem, d0, vp))
    modifies m`mem, m`head, m`free
    ensures m.Valid() && forall f :: f in m.free <==> f in old(m.free)
  {
    hide Ok;
    hide Conserves;
    hide Copied;
    hide Pte;
    hide FreeChain;
    ghost var s0 := m.Cur(map[], {});
    var d;
    ghost var own;
    d, own := m.CopyUvm(d0, sz, kmap, own0);
    if d != 0 {
      ghost var s := m.Cur(own, {});
      m.FreeVm(d, own);
      CopyFreed(s0, s, m.free);
    }
  }
}
