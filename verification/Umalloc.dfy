/** malloc, free and morecore of umalloc.c: headers in memory linked into a ring, updated in place. */
module Umalloc {
  import opened FreeList

  datatype Header = Header(ptr: nat, size: nat)

  const UNIT: nat := 8                 // sizeof(Header)
  const UINT: nat := 0x1_0000_0000
  const MIN_UNITS: nat := 4096

  // nunits of malloc, in 32-bit unsigned arithmetic.
  function NUnits(nbytes: nat): (n: nat)
    requires nbytes < UINT
    ensures 1 <= n <= 0x2000_0000
  {
    (nbytes + UNIT - 1) % UINT / UNIT + 1
  }

  // The argument of sbrk, nu * sizeof(Header) converted to a signed int.
  function SbrkArg(nu: nat): int {
    var x := nu * UNIT % UINT;
    if x < 0x8000_0000 then x else x - UINT
  }

  /** The units after the header hold nbytes bytes, except when rounding up wraps around. */
  lemma NUnitsEnough(nbytes: nat)
    requires nbytes < UINT
    ensures (NUnits(nbytes) - 1) * UNIT >= nbytes <==> nbytes + UNIT - 1 < UINT
  {
  }

  /** The argument is the memory that morecore then uses if and only if the request is below 2 GB; otherwise
      it is zero or negative. */
  lemma SbrkArgMeansGrow(nu: nat)
    requires 1 <= nu <= 0x2000_0000
    ensures SbrkArg(nu) == nu * UNIT <==> nu < 0x1000_0000
    ensures nu >= 0x1000_0000 ==> SbrkArg(nu) <= 0 && SbrkArg(nu) % UNIT == 0
  {
  }

  // The units that belong to the heap after sbrk(n) has answered with the old end brk of the process: n
  // bytes more from there on, or, if n is negative, none from -n bytes before it on.  To shrink the process
  // by more than it has does nothing, since the new size wraps around and deallocuvm takes it for growth.
  ghost function AfterSbrk(granted: set<nat>, brk: nat, n: int): set<nat> {
    if n >= 0 then granted + Units(brk, n / UNIT)
    else if brk * UNIT + n < 0 then granted
    else set u | u in granted && u * UNIT < brk * UNIT + n
  }

  // No unit from brk on has been used or granted so far.
  ghost predicate NewEnd(base: nat, owner: map<nat, nat>, granted: set<nat>, brk: nat, nu: nat) {
    Unused(base, owner, brk, nu) && forall u :: u in granted ==> u < brk
  }

  /** sbrk grants the units that morecore puts on the free list if and only if the request is below 2 GB. */
  lemma GrantIff(granted: set<nat>, brk: nat, nu: nat)
    requires 1 <= nu <= 0x2000_0000 && forall u :: u in granted ==> u < brk
    ensures Units(brk, nu) <= AfterSbrk(granted, brk, SbrkArg(nu)) <==> nu < 0x1000_0000
    ensures nu < 0x1000_0000 ==> granted <= AfterSbrk(granted, brk, SbrkArg(nu))
  {
    hide Units;
    SbrkArgMeansGrow(nu);
    assert brk in Units(brk, nu);
    if nu < 0x1000_0000 {
      assert nu * UNIT / UNIT == nu;
    } else if SbrkArg(nu) == 0 {
      assert Units(brk, 0) == {};
    }
  }

  function MoreUnits(nunits: nat): nat {
    if nunits < MIN_UNITS then MIN_UNITS else nunits
  }

  // --------------------------------------------------------------------- ring

  function After(free: seq<Blk>, i: nat): nat
    requires i < |free|
  {
    if i + 1 < |free| then free[i + 1].addr else free[0].addr
  }

  // The headers of the blocks of `free` form one ring in list order.
  ghost predicate Linked(hdr: map<nat, Header>, free: seq<Blk>) {
    forall i :: 0 <= i < |free| ==> free[i].addr in hdr && hdr[free[i].addr] == Header(After(free, i), free[i].size)
  }

  ghost predicate LiveHeaders(hdr: map<nat, Header>, live: map<nat, nat>) {
    forall a :: a in live ==> a in hdr && hdr[a].size == live[a]
  }

  // The header updates of free() once p, the block before bp, is found.
  function Relink(hdr: map<nat, Header>, p: nat, bp: nat): map<nat, Header>
    requires p in hdr && bp in hdr && hdr[p].ptr in hdr && p != bp
  {
    var next := hdr[p].ptr;
    var b := if bp + hdr[bp].size == next then Header(hdr[next].ptr, hdr[bp].size + hdr[next].size)
             else Header(next, hdr[bp].size);
    var q := if p + hdr[p].size == bp then Header(b.ptr, hdr[p].size + b.size) else Header(bp, hdr[p].size);
    hdr[bp := b][p := q]
  }

  // What a caller of free() guarantees: bp's header is intact and the block overlaps no free block.
  ghost predicate CanRelink(base: nat, hdr: map<nat, Header>, free: seq<Blk>, t: nat, b: Blk) {
    && Ordered(base, free) && Linked(hdr, free) && Place(free, t, b.addr)
    && b.addr in hdr && hdr[b.addr].size == b.size && b.size >= 1
    && free[t].End() <= b.addr && (t + 1 < |free| ==> b.End() <= free[t + 1].addr)
  }

  // The two headers that free() writes.
  lemma RelinkHeaders(base: nat, hdr: map<nat, Header>, free: seq<Blk>, t: nat, b: Blk)
    requires CanRelink(base, hdr, free, t, b)
    ensures free[t].addr in hdr && hdr[free[t].addr].ptr in hdr
    ensures var m, hdr' := Merged(free, t, b), Relink(hdr, free[t].addr, b.addr);
            var hi := if JoinsUpper(free, t, b) then t + 2 else t + 1;
            && m.addr == (if JoinsLower(free, t, b) then free[t].addr else b.addr)
            && m.addr in hdr' && free[t].addr in hdr'
            && hdr'[m.addr] == Header(if hi < |free| then free[hi].addr else free[0].addr, m.size)
            && (!JoinsLower(free, t, b) ==> hdr'[free[t].addr] == Header(b.addr, free[t].size))
            && (JoinsLower(free, t, b) ==> t >= 1)
            && (forall a :: a in hdr && a != free[t].addr && a != b.addr ==> a in hdr' && hdr'[a] == hdr[a])
  {
    assert hdr[free[t].addr] == Header(After(free, t), free[t].size);
    if t + 1 < |free| {
      assert hdr[free[t + 1].addr] == Header(After(free, t + 1), free[t + 1].size);
    }
    assert t + 1 == |free| ==> b.End() != free[0].addr;
  }

  // A block of the old list, other than the one bp joins, keeps its header.
  lemma RelinkOther(base: nat, hdr: map<nat, Header>, free: seq<Blk>, t: nat, b: Blk, j: nat)
    requires CanRelink(base, hdr, free, t, b) && j < |free| && j != t
    ensures free[t].addr in hdr && hdr[free[t].addr].ptr in hdr
    ensures var hdr' := Relink(hdr, free[t].addr, b.addr);
            free[j].addr in hdr' && hdr'[free[j].addr] == Header(After(free, j), free[j].size)
  {
    hide Relink;
    hide Ordered;
    RelinkHeaders(base, hdr, free, t, b);
    if j < t {
      Apart(base, free, j, t);
    } else {
      Apart(base, free, t, j);
      if t + 1 < j {
        Apart(base, free, t + 1, j);
      }
    }
  }

  // Position i of the new list carries the right header.
  lemma RelinkAt(base: nat, hdr: map<nat, Header>, free: seq<Blk>, t: nat, b: Blk, i: nat)
    requires CanRelink(base, hdr, free, t, b) && i < |Insert(free, t, b)|
    ensures free[t].addr in hdr && hdr[free[t].addr].ptr in hdr
    ensures var f, hdr' := Insert(free, t, b), Relink(hdr, free[t].addr, b.addr);
            f[i].addr in hdr' && hdr'[f[i].addr] == Header(After(f, i), f[i].size)
  {
    hide Insert;
    hide Relink;
    hide Merged;
    hide Ordered;
    hide Linked;
    RelinkHeaders(base, hdr, free, t, b);
    InsertShape(free, t, b);
    var lo := if JoinsLower(free, t, b) then t else t + 1;
    var hi := if JoinsUpper(free, t, b) then t + 2 else t + 1;
    if i < lo && i != t {
      RelinkOther(base, hdr, free, t, b, i);
    } else if i > lo {
      RelinkOther(base, hdr, free, t, b, i - lo - 1 + hi);
    }
  }

  lemma RelinkIsInsert(base: nat, hdr: map<nat, Header>, free: seq<Blk>, t: nat, b: Blk)
    requires CanRelink(base, hdr, free, t, b)
    ensures free[t].addr in hdr && hdr[free[t].addr].ptr in hdr
    ensures Linked(Relink(hdr, free[t].addr, b.addr), Insert(free, t, b))
  {
    hide Insert;
    hide Relink;
    hide Ordered;
    var f := Insert(free, t, b);
    RelinkHeaders(base, hdr, free, t, b);
    var hdr' := Relink(hdr, free[t].addr, b.addr);
    forall i | 0 <= i < |f|
      ensures f[i].addr in hdr' && hdr'[f[i].addr] == Header(After(f, i), f[i].size)
    {
      RelinkAt(base, hdr, free, t, b, i);
    }
  }

  // The header updates of malloc() when it takes n units from p, the block after prev.
  function Unlink(hdr: map<nat, Header>, prev: nat, p: nat, n: nat): map<nat, Header>
    requires prev in hdr && p in hdr && n <= hdr[p].size
  {
    if hdr[p].size == n then hdr[prev := Header(hdr[p].ptr, hdr[prev].size)]
    else
      var h := hdr[p := Header(hdr[p].ptr, hdr[p].size - n)];
      var c := p + hdr[p].size - n;
      h[c := Header(if c in h then h[c].ptr else 0, n)]
  }

  // prev is the block before free[k] in the ring, and n units fit.
  lemma UnlinkIsTake(base: nat, hdr: map<nat, Header>, free: seq<Blk>, k: nat, n: nat)
    requires Ordered(base, free) && Linked(hdr, free) && 1 <= k < |free| && 1 <= n <= free[k].size
    ensures free[k].addr in hdr && free[k - 1].addr in hdr
    ensures var hdr' := Unlink(hdr, free[k - 1].addr, free[k].addr, n);
            && Linked(hdr', Take(free, k, n))
            && Cut(free, k, n) in hdr' && hdr'[Cut(free, k, n)].size == n
            && (forall a :: a in hdr && a != free[k - 1].addr && a != free[k].addr && a != Cut(free, k, n) ==>
                  a in hdr' && hdr'[a] == hdr[a])
  {
    hide Ordered;
    hide Take;
    hide Unlink;
    UnlinkFrame(base, hdr, free, k, n);
    var f, hdr' := Take(free, k, n), Unlink(hdr, free[k - 1].addr, free[k].addr, n);
    forall i | 0 <= i < |f|
      ensures f[i].addr in hdr' && hdr'[f[i].addr] == Header(After(f, i), f[i].size)
    {
      var j := if free[k].size == n && i >= k then i + 1 else i;
      TakeAt(free, k, n, i);
      UnlinkAt(base, hdr, free, k, n, j);
    }
  }

  lemma UnlinkFrame(base: nat, hdr: map<nat, Header>, free: seq<Blk>, k: nat, n: nat)
    requires Ordered(base, free) && Linked(hdr, free) && 1 <= k < |free| && 1 <= n <= free[k].size
    ensures free[k].addr in hdr && free[k - 1].addr in hdr && n <= hdr[free[k].addr].size
    ensures var hdr' := Unlink(hdr, free[k - 1].addr, free[k].addr, n);
            && Cut(free, k, n) in hdr' && hdr'[Cut(free, k, n)].size == n
            && (forall a :: a in hdr && a != free[k - 1].addr && a != free[k].addr && a != Cut(free, k, n) ==>
                  a in hdr' && hdr'[a] == hdr[a])
  {
    hide Ordered;
    hide Linked;
    LinkAt(base, hdr, free, k);
    LinkAt(base, hdr, free, k - 1);
    Apart(base, free, k - 1, k);
  }

  lemma TakeAt(free: seq<Blk>, k: nat, n: nat, i: nat)
    requires 1 <= k < |free| && 1 <= n <= free[k].size && i < |Take(free, k, n)|
    ensures var f, j := Take(free, k, n), if free[k].size == n && i >= k then i + 1 else i;
            && j < |free| && f[i].addr == free[j].addr
            && f[i].size == (if j == k then free[k].size - n else free[j].size)
            && After(f, i) == if free[k].size == n && i == k - 1 then After(free, k) else After(free, j)
  {
  }

  // The header of block j of the old list after malloc() has taken n units from block k.
  lemma UnlinkAt(base: nat, hdr: map<nat, Header>, free: seq<Blk>, k: nat, n: nat, j: nat)
    requires Ordered(base, free) && Linked(hdr, free) && 1 <= k < |free| && 1 <= n <= free[k].size
    requires j < |free| && (j == k ==> n < free[k].size)
    ensures free[k].addr in hdr && free[k - 1].addr in hdr
    ensures var hdr' := Unlink(hdr, free[k - 1].addr, free[k].addr, n);
            && free[j].addr in hdr'
            && hdr'[free[j].addr].size == (if j == k then free[k].size - n else free[j].size)
            && hdr'[free[j].addr].ptr == if free[k].size == n && j == k - 1 then After(free, k) else After(free, j)
  {
    hide Ordered;
    assert hdr[free[j].addr] == Header(After(free, j), free[j].size);
    assert hdr[free[k].addr] == Header(After(free, k), free[k].size);
    assert hdr[free[k - 1].addr] == Header(After(free, k - 1), free[k - 1].size);
    Apart(base, free, k - 1, k);
    if j < k - 1 {
      Apart(base, free, j, k - 1);
      Apart(base, free, j, k);
    } else if j > k {
      Apart(base, free, k, j);
    }
  }

  // ------------------------------------------------------------------ searching

  function Wrap(i: nat, n: nat): nat {
    if i >= n then i - n else i
  }

  // The block d + 1 steps after free[f] along the ring.
  ghost function RingAt(free: seq<Blk>, f: nat, d: nat): Blk
    requires f < |free| && d < |free|
  {
    free[Wrap(f + 1 + d, |free|)]
  }

  // The c blocks after free[f] in ring order are too small.
  ghost predicate TooSmall(free: seq<Blk>, f: nat, c: nat, n: nat)
    requires f < |free| && c <= |free|
  {
    forall d :: 0 <= d < c ==> RingAt(free, f, d).size < n
  }

  // A whole turn of the ring has looked at every block.
  lemma WholeTurn(free: seq<Blk>, f: nat, n: nat, i: nat)
    requires f < |free| && TooSmall(free, f, |free|, n) && i < |free|
    ensures free[i].size < n
  {
    var d := if i > f then i - f - 1 else i + |free| - f - 1;
    assert RingAt(free, f, d) == free[i];
  }

  ghost predicate Fits(free: seq<Blk>, n: nat) {
    exists i :: 0 <= i < |free| && free[i].size >= n
  }

  // The scan of malloc: starting after freep = free[f], c blocks have been rejected; p is next.
  ghost predicate Scan(free: seq<Blk>, freep: nat, n: nat, f: nat, c: nat, prev: nat, p: nat) {
    && f < |free| && free[f].addr == freep
    && c < |free| && TooSmall(free, f, c, n)
    && p == free[Wrap(f + 1 + c, |free|)].addr
    && prev == free[Wrap(f + c, |free|)].addr
  }

  lemma ScanStart(base: nat, hdr: map<nat, Header>, freep: nat, free: seq<Blk>, n: nat) returns (f: nat)
    requires Ordered(base, free) && Linked(hdr, free) && InList(free, freep)
    ensures freep in hdr && Scan(free, freep, n, f, 0, freep, hdr[freep].ptr)
  {
    f :| 0 <= f < |free| && free[f].addr == freep;
    LinkAt(base, hdr, free, f);
  }

  // p is large enough: it is block k, not base, and prev is the block before it in the list.
  lemma ScanHit(base: nat, hdr: map<nat, Header>, freep: nat, free: seq<Blk>, n: nat, f: nat, c: nat, prev: nat, p: nat)
    returns (k: nat)
    requires Ordered(base, free) && Linked(hdr, free) && Scan(free, freep, n, f, c, prev, p) && n >= 1
    ensures p in hdr && k < |free| && hdr[p].size == free[k].size && free[k].addr == p
    ensures hdr[p].size >= n ==> 1 <= k && free[k - 1].addr == prev && Fits(free, n)
  {
    hide TooSmall;
    hide Linked;
    k := Wrap(f + 1 + c, |free|);
    LinkAt(base, hdr, free, k);
  }

  // p is too small: either the scan has come round to freep and nothing fits, or it goes on.
  lemma ScanMiss(base: nat, hdr: map<nat, Header>, freep: nat, free: seq<Blk>, n: nat, f: nat, c: nat, prev: nat,
          p: nat)
    requires Ordered(base, free) && Linked(hdr, free) && Scan(free, freep, n, f, c, prev, p)
    requires p in hdr && hdr[p].size < n
    ensures p == freep ==> !Fits(free, n)
    ensures p != freep ==> c + 1 < |free| && Scan(free, freep, n, f, c + 1, p, hdr[p].ptr)
  {
    hide Ordered;
    hide Linked;
    var k := Wrap(f + 1 + c, |free|);
    LinkAt(base, hdr, free, k);
    assert RingAt(free, f, c) == free[k];
    if p == freep {
      SameBlock(base, free, k, f);
      forall i | 0 <= i < |free| ensures free[i].size < n {
        WholeTurn(free, f, n, i);
      }
    }
  }

  /** The headers hdr and freep represent the free list, the live blocks have their headers, and the
      blocks partition the units in owner. */
  ghost predicate State(base: nat, hdr: map<nat, Header>, freep: nat, free: seq<Blk>, live: map<nat, nat>,
          owner: map<nat, nat>) {
    && Ordered(base, free)
    && Linked(hdr, free)
    && Partition(base, free, live, owner)
    && LiveHeaders(hdr, live)
    && InList(free, freep)
  }

  ghost predicate InList(free: seq<Blk>, p: nat) {
    exists f :: 0 <= f < |free| && free[f].addr == p
  }

  /** The heap of one process: header memory, freep, and as ghosts the free list, the live blocks and
      the block of every unit obtained from sbrk. */
  class Heap {
    const base: nat
    var hdr: map<nat, Header>
    var freep: nat
    ghost var free: seq<Blk>
    ghost var live: map<nat, nat>
    ghost var owner: map<nat, nat>
    ghost var granted: set<nat>  // the units that sbrk has really given

    /** Between calls: the free list is one address-ordered ring through base without adjacent blocks,
        and free and live blocks partition the units obtained from sbrk.  freep is 0 until the first
        call of malloc. */
    ghost predicate Valid()
      reads this
    {
      && base > 0
      && if freep == 0 then free == [] && live == map[] && owner == map[] else Ready()
    }

    ghost predicate Ready()
      reads this
    {
      base > 0 && State(base, hdr, freep, free, live, owner)
    }

    /** Every unit of every block, free or live, was granted by sbrk. */
    ghost predicate Sound()
      reads this
    {
      owner.Keys <= granted
    }

    constructor (base: nat)
      requires base > 0
      ensures Valid() && Sound() && this.base == base && owner == map[] && live == map[]
    {
      this.base, freep := base, 0;
      hdr, free, live, owner, granted := map[], [], map[], map[], {};
    }

    // The search loop of free: find the block after which bp belongs.  It terminates because each step
    // comes nearer to that block along the ring.
    method FindPlace(bp: nat) returns (p: nat, ghost t: nat)
      requires Ready() && bp > base && forall i :: 0 <= i < |free| ==> free[i].addr != bp
      ensures t < |free| && free[t].addr == p && Place(free, t, bp)
    {
      hide Ordered;
      hide Linked;
      hide Partition;
      hide Place;
      ghost var n := |free|;
      t := TargetOf(base, free, bp);
      p := freep;
      ghost var k :| 0 <= k < n && free[k].addr == p;
      PlaceIndex(free, t, bp);
      while true
        invariant 0 <= k < n && free[k].addr == p
        decreases if k <= t then t - k else t - k + n
      {
        LinkAt(base, hdr, free, k);
        StopsAtPlace(base, free, t, k, bp);
        if bp > p && bp < hdr[p].ptr {
          break;
        }
        if p >= hdr[p].ptr && (bp > p || bp < hdr[p].ptr) {
          break;
        }
        p := hdr[p].ptr;
        k := if k + 1 < n then k + 1 else 0;
      }
    }

    /** Return block bp to the free list, joining it with the neighbours it touches. */
    method Free(bp: nat) returns (ghost t: nat)
      requires Ready() && bp in live
      modifies this`hdr, this`freep, this`free, this`live, this`owner
      ensures Ready() && freep != 0
      ensures Place(old(free), t, bp) && free == Insert(old(free), t, Blk(bp, old(live)[bp]))
      ensures JoinsLower(old(free), t, Blk(bp, old(live)[bp])) ==> t >= 1
      ensures live == old(live) - {bp} && owner.Keys == old(owner).Keys
    {
      hide Ordered;
      hide Linked;
      hide Partition;
      hide LiveHeaders;
      hide Insert;
      ghost var f0, l0, o0, h0 := free, live, owner, hdr;
      NotInList(base, free, live, owner, bp);
      var p;
      p, t := FindPlace(bp);
      FreeKeeps(base, hdr, freep, free, live, owner, t, bp);
      var next := hdr[p].ptr;
      if bp + hdr[bp].size == next {
        hdr := hdr[bp := Header(hdr[next].ptr, hdr[bp].size + hdr[next].size)];
      } else {
        hdr := hdr[bp := Header(next, hdr[bp].size)];
      }
      if p + hdr[p].size == bp {
        hdr := hdr[p := Header(hdr[bp].ptr, hdr[p].size + hdr[bp].size)];
      } else {
        hdr := hdr[p := Header(bp, hdr[p].size)];
      }
      assert hdr == Relink(h0, p, bp);
      freep := p;
      free := Insert(f0, t, Blk(bp, l0[bp]));
      live := l0 - {bp};
      owner := Reown(o0, bp, Merged(f0, t, Blk(bp, l0[bp])));
    }

    /** Ask sbrk for at least nunits units and free that many.  `brk` is sbrk's answer, the end of the process
        so far, or 0 for failure; what it grants is what its signed argument says. */
    method MoreCore(nunits: nat, brk: nat) returns (p: nat)
      requires Ready() && freep != 0 && 1 <= nunits <= 0x2000_0000
      requires brk != 0 ==> NewEnd(base, owner, granted, brk, MoreUnits(nunits))
      modifies this`hdr, this`freep, this`free, this`live, this`owner, this`granted
      ensures Ready() && freep != 0 && live == old(live)
      ensures brk == 0 ==> p == 0 && free == old(free) && owner == old(owner) && freep == old(freep) && hdr == old(hdr)
      ensures brk == 0 ==> granted == old(granted)
      ensures brk != 0 ==> granted == AfterSbrk(old(granted), brk, SbrkArg(MoreUnits(nunits)))
      ensures brk != 0 ==> p == freep && owner.Keys == old(owner).Keys + Units(brk, MoreUnits(nunits))
      ensures brk != 0 ==> Fits(free, nunits)
    {
      hide State;
      hide Insert;
      hide Unused;
      hide Grow;
      hide Units;
      if brk == 0 {
        return 0;
      }
      var nu := if nunits < MIN_UNITS then MIN_UNITS else nunits;
      var h := Header(if brk in hdr then hdr[brk].ptr else 0, nu);
      GrowKeeps(base, hdr, freep, free, live, owner, brk, h);
      granted := AfterSbrk(granted, brk, SbrkArg(nu));
      hdr := hdr[brk := h];
      live := live[brk := nu];
      owner := Grow(owner, brk, nu);
      ghost var f0 := free;
      ghost var t := Free(brk);
      assert live == old(live);
      InsertFits(f0, t, Blk(brk, nu));
      p := freep;
    }

    // Take n units from block k of the list, the first block large enough after freep.
    method Carve(prev: nat, p: nat, n: nat, ghost k: nat) returns (a: nat)
      requires Ready() && n >= 1 && 1 <= k < |free|
      requires free[k].addr == p && free[k - 1].addr == prev && free[k].size >= n
      modifies this`hdr, this`freep, this`free, this`live, this`owner
      ensures Ready() && freep != 0
      ensures a == Cut(old(free), k, n) && a !in old(live) && a > base
      ensures free == Take(old(free), k, n) && live == old(live)[a := n] && owner.Keys == old(owner).Keys
    {
      hide Ordered;
      hide Linked;
      hide Partition;
      hide LiveHeaders;
      hide Take;
      ghost var h0 := hdr;
      TakeKeeps(base, hdr, freep, free, live, owner, k, n);
      a := p + hdr[p].size - n;
      if hdr[p].size == n {
        hdr := hdr[prev := Header(hdr[p].ptr, hdr[prev].size)];
      } else {
        hdr := hdr[p := Header(hdr[p].ptr, hdr[p].size - n)];
        hdr := hdr[a := Header(if a in hdr then hdr[a].ptr else 0, n)];
      }
      assert hdr == Unlink(h0, prev, p, n);
      freep := prev;
      free, live, owner := Take(free, k, n), live[a := n], Own(owner, a, n);
    }

    // The first call of malloc: an empty ring.
    method Initialise()
      requires Valid()
      modifies this`hdr, this`freep, this`free
      ensures Ready() && freep != 0
      ensures old(freep) != 0 ==> hdr == old(hdr) && freep == old(freep) && free == old(free)
      ensures old(freep) == 0 ==> free == [Blk(base, 0)]
      ensures forall n :: n >= 1 ==> (Fits(free, n) <==> Fits(old(free), n))
    {
      if freep == 0 {
        hdr := hdr[base := Header(base, 0)];
        freep := base;
        free := [Blk(base, 0)];
        assert free[0].addr == freep;
      }
    }

    /** Allocate nbytes bytes.  `brk` is what sbrk answers if it is called, 0 for failure.  sbrk is called
        at most once, exactly when no free block is large enough, and malloc fails only if that call
        does.  On success the result is one past the header of a new live block of nunits units.  Every block
        stays within what sbrk has granted, if and only if no request of 2 GB or more gets through to it. */
    method Malloc(nbytes: nat, brk: nat) returns (r: nat, calls: nat)
      requires Valid() && nbytes < UINT
      requires brk != 0 ==> NewEnd(base, owner, granted, brk, MoreUnits(NUnits(nbytes)))
      modifies this
      ensures Valid() && calls <= 1
      ensures calls == 0 <==> Fits(old(free), NUnits(nbytes))
      ensures r == 0 <==> calls == 1 && brk == 0
      ensures r == 0 ==> live == old(live)
      ensures r != 0 ==> r > 1 && r - 1 !in old(live) && live == old(live)[r - 1 := NUnits(nbytes)]
      ensures owner.Keys == old(owner).Keys + if r != 0 && calls == 1 then Units(brk, MoreUnits(NUnits(nbytes))) else {}
      ensures old(Sound()) ==> (Sound() <==> !(calls == 1 && brk != 0 && NUnits(nbytes) >= 0x1000_0000))
    {
      hide Ordered;
      hide Linked;
      hide Partition;
      hide LiveHeaders;
      hide Units;
      hide Unused;
      hide NUnits;
      hide Take;
      hide Scan;
      hide Fits;
      hide InList;
      var n := NUnits(nbytes);
      Initialise();
      calls := 0;
      ghost var f := ScanStart(base, hdr, freep, free, n);
      ghost var c, fits := 0, Fits(free, n);
      var prevp, p := freep, hdr[freep].ptr;
      while true
        invariant Ready() && freep != 0 && Scan(free, freep, n, f, c, prevp, p)
        invariant live == old(live) && calls <= 1 && 0 <= c < |free|
        invariant calls == 0 ==> fits == Fits(free, n) && owner == old(owner) && granted == old(granted)
        invariant calls == 1 ==> !fits && Fits(free, n) && brk != 0
        invariant calls == 1 ==> owner.Keys == old(owner).Keys + Units(brk, MoreUnits(n))
        invariant calls == 1 ==> granted == AfterSbrk(old(granted), brk, SbrkArg(MoreUnits(n)))
        decreases 1 - calls, |free| - c
      {
        ghost var k := ScanHit(base, hdr, freep, free, n, f, c, prevp, p);
        if hdr[p].size >= n {
          r := Carve(prevp, p, n, k);
          r := r + 1;
          if calls == 1 {
            StaysSound(old(owner).Keys, old(granted), brk, n);
          }
          return;
        }
        ScanMiss(base, hdr, freep, free, n, f, c, prevp, p);
        if p == freep {
          p := MoreCore(n, brk);
          calls := calls + 1;
          if p == 0 {
            return 0, calls;
          }
          f := ScanStart(base, hdr, freep, free, n);
          c := 0;
        } else {
          c := c + 1;
        }
        prevp := p;
        p := hdr[p].ptr;
      }
    }
  }

  lemma PlaceIndex(free: seq<Blk>, t: nat, bp: nat)
    requires Place(free, t, bp)
    ensures t < |free|
  {
  }

  // The loop of free stops at block k exactly when bp belongs after it.
  lemma StopsAtPlace(base: nat, free: seq<Blk>, t: nat, k: nat, bp: nat)
    requires Ordered(base, free) && Place(free, t, bp) && k < |free| && bp > base
    ensures var p, next := free[k].addr, free[Wrap(k + 1, |free|)].addr;
            ((bp > p && bp < next) || (p >= next && (bp > p || bp < next))) <==> k == t
  {
    if k < t {
      Apart(base, free, k, t);
      Apart(base, free, k, k + 1);
      if k + 1 < t {
        Apart(base, free, k + 1, t);
      }
    } else if k > t {
      if t + 1 < k {
        Apart(base, free, t + 1, k);
      }
      if k + 1 < |free| {
        Apart(base, free, k, k + 1);
      }
    } else if k + 1 < |free| {
      Apart(base, free, k, k + 1);
    } else if k > 0 {
      Apart(base, free, 0, k);
    }
  }

  // Reading one header of the ring.
  lemma LinkAt(base: nat, hdr: map<nat, Header>, free: seq<Blk>, k: nat)
    requires Ordered(base, free) && Linked(hdr, free) && k < |free|
    ensures free[k].addr in hdr && hdr[free[k].addr] == Header(free[Wrap(k + 1, |free|)].addr, free[k].size)
    ensures k == 0 ==> free[k].size == 0
  {
  }

  lemma SameBlock(base: nat, free: seq<Blk>, i: nat, j: nat)
    requires Ordered(base, free) && i < |free| && j < |free| && free[i].addr == free[j].addr
    ensures i == j
  {
  }

  /** Taking n units in terms of the represented state. */
  lemma TakeKeeps(base: nat, hdr: map<nat, Header>, freep: nat, free: seq<Blk>, live: map<nat, nat>,
                  owner: map<nat, nat>, k: nat, n: nat)
    requires State(base, hdr, freep, free, live, owner) && base > 0 && 1 <= k < |free| && 1 <= n <= free[k].size
    ensures var c := Cut(free, k, n);
            && free[k].addr in hdr && free[k - 1].addr in hdr && hdr[free[k].addr].size == free[k].size
            && c !in live && c > base && free[k - 1].addr != 0
            && State(base, Unlink(hdr, free[k - 1].addr, free[k].addr, n), free[k - 1].addr, Take(free, k, n),
                     live[c := n], Own(owner, c, n))
  {
    hide Ordered;
    hide Partition;
    hide Holds;
    hide Take;
    hide Unlink;
    var c := Cut(free, k, n);
    LinkAt(base, hdr, free, k);
    TakeOrdered(base, free, k, n);
    TakePartition(base, free, live, owner, k, n);
    CutHolds(base, free, live, owner, k, n);
    UnlinkIsTake(base, hdr, free, k, n);
    TakeLive(base, hdr, free, live, owner, k, n);
    TakeInList(base, free, k, n);
  }

  lemma TakeInList(base: nat, free: seq<Blk>, k: nat, n: nat)
    requires Ordered(base, free) && base > 0 && 1 <= k < |free| && 1 <= n <= free[k].size
    ensures InList(Take(free, k, n), free[k - 1].addr) && free[k - 1].addr != 0
  {
    assert Take(free, k, n)[k - 1].addr == free[k - 1].addr;
  }

  // The headers malloc() writes belong to no other live block.
  lemma TakeLive(base: nat, hdr: map<nat, Header>, free: seq<Blk>, live: map<nat, nat>, owner: map<nat, nat>, k: nat,
          n: nat)
    requires Ordered(base, free) && Linked(hdr, free) && Partition(base, free, live, owner) && LiveHeaders(hdr, live)
    requires 1 <= k < |free| && 1 <= n <= free[k].size
    ensures free[k].addr in hdr && free[k - 1].addr in hdr
    ensures LiveHeaders(Unlink(hdr, free[k - 1].addr, free[k].addr, n), live[Cut(free, k, n) := n])
  {
    hide Unlink;
    hide Take;
    UnlinkIsTake(base, hdr, free, k, n);
    assert free[k].addr !in live && free[k - 1].addr !in live;
  }

  /** free() in terms of the represented state. */
  lemma FreeKeeps(base: nat, hdr: map<nat, Header>, freep: nat, free: seq<Blk>, live: map<nat, nat>,
                  owner: map<nat, nat>, t: nat, bp: nat)
    requires State(base, hdr, freep, free, live, owner) && bp in live && Place(free, t, bp)
    ensures free[t].addr in hdr && bp in hdr && hdr[free[t].addr].ptr in hdr && free[t].addr != bp
    ensures hdr[bp].size == live[bp]
    ensures JoinsLower(free, t, Blk(bp, live[bp])) ==> t >= 1
    ensures var b := Blk(bp, live[bp]);
            State(base, Relink(hdr, free[t].addr, bp), free[t].addr, Insert(free, t, b), live - {bp},
                  Reown(owner, bp, Merged(free, t, b)))
  {
    hide Ordered;
    hide Linked;
    hide Partition;
    hide Insert;
    hide Merged;
    hide Relink;
    var b := Blk(bp, live[bp]);
    NotInList(base, free, live, owner, bp);
    InsertBounds(base, free, live, owner, t, bp);
    InsertOrdered(base, free, live, owner, t, bp);
    InsertPartition(base, free, live, owner, t, bp);
    RelinkIsInsert(base, hdr, free, t, b);
    RelinkKeepsLive(base, hdr, free, live, owner, t, bp);
    InsertShape(free, t, b);
  }

  /** Memory from sbrk with its size written in its header, in terms of the represented state. */
  lemma GrowKeeps(base: nat, hdr: map<nat, Header>, freep: nat, free: seq<Blk>, live: map<nat, nat>,
                  owner: map<nat, nat>, r: nat, h: Header)
    requires State(base, hdr, freep, free, live, owner) && Unused(base, owner, r, h.size) && h.size >= 1
    ensures r !in live
    ensures State(base, hdr[r := h], freep, free, live[r := h.size], Grow(owner, r, h.size))
    ensures Grow(owner, r, h.size).Keys == owner.Keys + Units(r, h.size)
  {
    hide Partition;
    hide Holds;
    hide Grow;
    hide Units;
    GrowPartition(base, free, live, owner, r, h.size);
    NewAddress(base, free, live, owner, r, h.size);
    FreshLink(base, hdr, free, r, h);
  }

  lemma StaysSound(keys: set<nat>, granted: set<nat>, brk: nat, nunits: nat)
    requires 1 <= nunits <= 0x2000_0000 && forall u :: u in granted ==> u < brk
    ensures keys <= granted ==>
              (keys + Units(brk, MoreUnits(nunits)) <= AfterSbrk(granted, brk, SbrkArg(MoreUnits(nunits)))
               <==> nunits < 0x1000_0000)
  {
    hide Units;
    hide AfterSbrk;
    hide SbrkArg;
    if keys <= granted {
      GrantIff(granted, brk, MoreUnits(nunits));
    }
  }

  // After free() some block is at least as large as the one freed.
  lemma InsertFits(free: seq<Blk>, t: nat, b: Blk)
    requires Place(free, t, b.addr) && (JoinsLower(free, t, b) ==> t >= 1)
    ensures exists i :: 1 <= i < |Insert(free, t, b)| && Insert(free, t, b)[i].size >= b.size
  {
    InsertShape(free, t, b);
    var lo := if JoinsLower(free, t, b) then t else t + 1;
    assert Insert(free, t, b)[lo].size >= b.size;
  }

  // A header written in fresh memory disturbs no header of the list.
  lemma FreshLink(base: nat, hdr: map<nat, Header>, free: seq<Blk>, r: nat, h: Header)
    requires Ordered(base, free) && Linked(hdr, free) && r > base && !IsFree(free, r)
    ensures Linked(hdr[r := h], free)
  {
    forall i | 0 <= i < |free| ensures free[i].addr != r {
    }
  }

  // A live block is above base and not on the free list.
  lemma NotInList(base: nat, free: seq<Blk>, live: map<nat, nat>, owner: map<nat, nat>, bp: nat)
    requires Ordered(base, free) && Partition(base, free, live, owner) && bp in live
    ensures bp > base && live[bp] >= 1 && forall i :: 0 <= i < |free| ==> free[i].addr != bp && free[i].addr >= base
  {
  }

  lemma RelinkKeepsLive(base: nat, hdr: map<nat, Header>, free: seq<Blk>, live: map<nat, nat>, owner: map<nat, nat>,
          t: nat, bp: nat)
    requires bp in live && CanRelink(base, hdr, free, t, Blk(bp, live[bp]))
    requires Partition(base, free, live, owner) && LiveHeaders(hdr, live)
    ensures free[t].addr in hdr && hdr[free[t].addr].ptr in hdr
    ensures LiveHeaders(Relink(hdr, free[t].addr, bp), live - {bp})
  {
    hide Relink;
    RelinkHeaders(base, hdr, free, t, Blk(bp, live[bp]));
    assert free[t].addr !in live;
  }

  // The place of bp in an address-ordered list.
  lemma TargetOf(base: nat, free: seq<Blk>, bp: nat) returns (t: nat)
    requires Ordered(base, free) && bp > base && forall i :: 0 <= i < |free| ==> free[i].addr != bp
    ensures Place(free, t, bp)
  {
    t := 0;
    while t + 1 < |free| && free[t + 1].addr < bp
      invariant t < |free| && free[t].addr < bp
    {
      t := t + 1;
    }
  }
}
