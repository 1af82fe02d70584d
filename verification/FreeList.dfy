/** The free list of umalloc.c (Kernighan and Ritchie, section 8.7) as a list of blocks in address
    order.  Addresses and sizes are in units of one header.  The list starts with the static header
    `base`, of size 0; all memory from sbrk lies above it. */
module FreeList {
  datatype Blk = Blk(addr: nat, size: nat) {
    function End(): nat {
      addr + size
    }
  }

  // Address-ordered, disjoint, and no two blocks adjacent: each ends strictly before the next begins.
  ghost predicate Ordered(base: nat, free: seq<Blk>) {
    && |free| >= 1
    && free[0] == Blk(base, 0)
    && (forall i :: 1 <= i < |free| ==> free[i].size >= 1)
    && (forall i, j :: 0 <= i < j < |free| ==> free[i].End() < free[j].addr)
  }

  lemma Apart(base: nat, free: seq<Blk>, i: nat, j: nat)
    requires Ordered(base, free) && i < j < |free|
    ensures free[i].addr <= free[i].End() < free[j].addr
  {
  }

  lemma SizePositive(base: nat, free: seq<Blk>, i: nat)
    requires Ordered(base, free) && 1 <= i < |free|
    ensures free[i].size >= 1
  {
  }

  // Block a of size n holds its units in `owner`, and only it.
  ghost predicate Holds(owner: map<nat, nat>, a: nat, n: nat) {
    && (forall u :: a <= u < a + n ==> u in owner && owner[u] == a)
    && (forall u :: u in owner && owner[u] == a ==> a <= u < a + n)
  }

  ghost predicate IsFree(free: seq<Blk>, a: nat) {
    exists i :: 1 <= i < |free| && free[i].addr == a
  }

  /** `owner` maps every unit obtained from sbrk to the start of its block.  Free and live blocks
      partition those units: each unit is in exactly one block, and a block is free or live. */
  ghost predicate Partition(base: nat, free: seq<Blk>, live: map<nat, nat>, owner: map<nat, nat>) {
    && (forall i :: 1 <= i < |free| ==> Holds(owner, free[i].addr, free[i].size) && free[i].addr !in live)
    && (forall a :: a in live ==> a > base && live[a] >= 1 && Holds(owner, a, live[a]))
    && (forall u :: u in owner ==> u > base && (IsFree(free, owner[u]) || owner[u] in live))
  }

  // ------------------------------------------------------------------- freeing

  // bp belongs after free[t] in address order.
  predicate Place(free: seq<Blk>, t: nat, bp: nat) {
    && t < |free|
    && free[t].addr < bp
    && (t + 1 < |free| ==> bp < free[t + 1].addr)
  }

  predicate JoinsUpper(free: seq<Blk>, t: nat, b: Blk)
    requires Place(free, t, b.addr)
  {
    t + 1 < |free| && b.End() == free[t + 1].addr
  }

  predicate JoinsLower(free: seq<Blk>, t: nat, b: Blk)
    requires Place(free, t, b.addr)
  {
    free[t].End() == b.addr
  }

  // The block that b becomes, with the neighbours it touches.
  function Merged(free: seq<Blk>, t: nat, b: Blk): Blk
    requires Place(free, t, b.addr)
  {
    var size := if JoinsUpper(free, t, b) then b.size + free[t + 1].size else b.size;
    if JoinsLower(free, t, b) then Blk(free[t].addr, free[t].size + size) else Blk(b.addr, size)
  }

  // The list after free() of block b.
  function Insert(free: seq<Blk>, t: nat, b: Blk): seq<Blk>
    requires Place(free, t, b.addr)
  {
    (if JoinsLower(free, t, b) then free[..t] else free[..t + 1])
    + [Merged(free, t, b)]
    + (if JoinsUpper(free, t, b) then free[t + 2..] else free[t + 1..])
  }

  // The list after free(), position by position.
  lemma InsertShape(free: seq<Blk>, t: nat, b: Blk)
    requires Place(free, t, b.addr)
    ensures var lo := if JoinsLower(free, t, b) then t else t + 1;
            var hi := if JoinsUpper(free, t, b) then t + 2 else t + 1;
            var f := Insert(free, t, b);
            && |f| == lo + 1 + |free| - hi
            && (forall i :: 0 <= i < lo ==> f[i] == free[i])
            && f[lo] == Merged(free, t, b)
            && f[t].addr == free[t].addr
            && (forall i :: lo < i < |f| ==> f[i] == free[i - lo - 1 + hi])
  {
  }

  // A live block and a free block do not overlap.
  lemma LiveApart(base: nat, free: seq<Blk>, live: map<nat, nat>, owner: map<nat, nat>, bp: nat, i: nat)
    requires Partition(base, free, live, owner) && bp in live && 1 <= i < |free| && free[i].size >= 1
    ensures bp + live[bp] <= free[i].addr || free[i].End() <= bp
  {
    var u := if free[i].addr < bp then bp else free[i].addr;
    assert Holds(owner, free[i].addr, free[i].size);
    assert Holds(owner, bp, live[bp]);
    assert bp <= u < bp + live[bp] ==> u in owner;
  }

  lemma InsertBounds(base: nat, free: seq<Blk>, live: map<nat, nat>, owner: map<nat, nat>, t: nat, bp: nat)
    requires Ordered(base, free) && Partition(base, free, live, owner) && bp in live && Place(free, t, bp)
    ensures free[t].End() <= bp && (t + 1 < |free| ==> bp + live[bp] <= free[t + 1].addr)
    ensures JoinsLower(free, t, Blk(bp, live[bp])) ==> t >= 1
  {
    if t >= 1 {
      LiveApart(base, free, live, owner, bp, t);
    }
    if t + 1 < |free| {
      LiveApart(base, free, live, owner, bp, t + 1);
    }
  }

  lemma Splice(base: nat, free: seq<Blk>, lo: nat, m: Blk, hi: nat)
    requires Ordered(base, free) && 1 <= lo <= hi <= |free| && m.size >= 1
    requires free[lo - 1].End() < m.addr
    requires hi < |free| ==> m.End() < free[hi].addr
    ensures Ordered(base, free[..lo] + [m] + free[hi..])
  {
    assert forall i :: 0 <= i < lo ==> free[i].End() < m.addr by {
      assert forall i :: 0 <= i < lo - 1 ==> free[i].End() < free[lo - 1].addr;
    }
  }

  /** Freeing keeps the list address-ordered, disjoint and without adjacent blocks. */
  lemma InsertOrdered(base: nat, free: seq<Blk>, live: map<nat, nat>, owner: map<nat, nat>, t: nat, bp: nat)
    requires Ordered(base, free) && Partition(base, free, live, owner) && bp in live && Place(free, t, bp)
    ensures Ordered(base, Insert(free, t, Blk(bp, live[bp])))
  {
    InsertBounds(base, free, live, owner, t, bp);
    var b := Blk(bp, live[bp]);
    var lo := if JoinsLower(free, t, b) then t else t + 1;
    var hi := if JoinsUpper(free, t, b) then t + 2 else t + 1;
    Splice(base, free, lo, Merged(free, t, b), hi);
  }

  // Every unit from bp to the end of the merged block now belongs to the merged block.
  ghost function Reown(owner: map<nat, nat>, bp: nat, m: Blk): map<nat, nat> {
    map u | u in owner :: if bp <= u < m.End() then m.addr else owner[u]
  }

  lemma MergedHolds(base: nat, free: seq<Blk>, live: map<nat, nat>, owner: map<nat, nat>, t: nat, bp: nat)
    requires Ordered(base, free) && Partition(base, free, live, owner) && bp in live && Place(free, t, bp)
    ensures var m := Merged(free, t, Blk(bp, live[bp]));
            Holds(Reown(owner, bp, m), m.addr, m.size) && m.addr <= bp < m.End()
  {
    InsertBounds(base, free, live, owner, t, bp);
    assert Holds(owner, bp, live[bp]);
    if t >= 1 {
      assert Holds(owner, free[t].addr, free[t].size);
    }
    if t + 1 < |free| {
      assert Holds(owner, free[t + 1].addr, free[t + 1].size);
    }
  }

  // A block apart from the merged one keeps its units.
  lemma OtherHolds(owner: map<nat, nat>, bp: nat, m: Blk, a: nat, n: nat)
    requires Holds(owner, a, n) && a != m.addr && m.addr <= bp
    requires a + n <= bp || m.End() <= a
    ensures Holds(Reown(owner, bp, m), a, n)
  {
  }

  lemma InsertHolds(base: nat, free: seq<Blk>, live: map<nat, nat>, owner: map<nat, nat>, t: nat, bp: nat, k: nat)
    requires Ordered(base, free) && Partition(base, free, live, owner) && bp in live && Place(free, t, bp)
    requires 1 <= k < |Insert(free, t, Blk(bp, live[bp]))|
    ensures var b := Insert(free, t, Blk(bp, live[bp]))[k];
            && Holds(Reown(owner, bp, Merged(free, t, Blk(bp, live[bp]))), b.addr, b.size)
            && (b.addr == bp || b.addr !in live)
  {
    hide Ordered;
    hide Holds;
    hide Reown;
    var b := Blk(bp, live[bp]);
    var m := Merged(free, t, b);
    var lo := if JoinsLower(free, t, b) then t else t + 1;
    var hi := if JoinsUpper(free, t, b) then t + 2 else t + 1;
    InsertBounds(base, free, live, owner, t, bp);
    MergedHolds(base, free, live, owner, t, bp);
    if k != lo {
      var i := if k < lo then k else k - lo - 1 + hi;
      InsertShape(free, t, b);
      if i < t {
        Apart(base, free, i, t);
      } else if i > t + 1 {
        Apart(base, free, t + 1, i);
      }
      SizePositive(base, free, i);
      OtherHolds(owner, bp, m, free[i].addr, free[i].size);
    }
  }

  // Live blocks other than bp lie outside the merged block.
  lemma LiveHolds(base: nat, free: seq<Blk>, live: map<nat, nat>, owner: map<nat, nat>, t: nat, bp: nat, a: nat)
    requires Ordered(base, free) && Partition(base, free, live, owner) && bp in live && Place(free, t, bp)
    requires a in live && a != bp
    ensures Holds(Reown(owner, bp, Merged(free, t, Blk(bp, live[bp]))), a, live[a])
  {
    var b := Blk(bp, live[bp]);
    var m := Merged(free, t, b);
    InsertBounds(base, free, live, owner, t, bp);
    MergedHolds(base, free, live, owner, t, bp);
    assert Holds(owner, a, live[a]) && Holds(owner, bp, live[bp]);
    forall u | bp <= u < m.End()
      ensures u in owner && owner[u] != a
    {
      if t + 1 < |free| && u >= bp + live[bp] {
        assert Holds(owner, free[t + 1].addr, free[t + 1].size);
      }
    }
    if JoinsLower(free, t, b) {
      assert free[t].addr !in live;
    }
  }

  lemma InsertFree(free: seq<Blk>, t: nat, b: Blk, a: nat)
    requires Place(free, t, b.addr) && IsFree(free, a) && (JoinsLower(free, t, b) ==> t >= 1)
    ensures IsFree(Insert(free, t, b), a) || (JoinsUpper(free, t, b) && a == free[t + 1].addr)
  {
    var f := Insert(free, t, b);
    var i :| 1 <= i < |free| && free[i].addr == a;
    var lo := if JoinsLower(free, t, b) then t else t + 1;
    var hi := if JoinsUpper(free, t, b) then t + 2 else t + 1;
    if i < lo {
      assert f[i] == free[i];
    } else if i >= hi {
      assert f[i - hi + lo + 1] == free[i];
    } else if i == t {
      assert f[t].addr == a;
    }
  }

  /** Freeing block bp keeps the partition: its units join the free list, and no unit is lost. */
  lemma InsertPartition(base: nat, free: seq<Blk>, live: map<nat, nat>, owner: map<nat, nat>, t: nat, bp: nat)
    requires Ordered(base, free) && Partition(base, free, live, owner) && bp in live && Place(free, t, bp)
    ensures var b := Blk(bp, live[bp]);
            Partition(base, Insert(free, t, b), live - {bp}, Reown(owner, bp, Merged(free, t, b)))
  {
    var b := Blk(bp, live[bp]);
    var m, f := Merged(free, t, b), Insert(free, t, b);
    var owner' := Reown(owner, bp, m);
    InsertBounds(base, free, live, owner, t, bp);
    MergedHolds(base, free, live, owner, t, bp);
    forall k | 1 <= k < |f|
      ensures Holds(owner', f[k].addr, f[k].size) && f[k].addr !in live - {bp}
    {
      InsertHolds(base, free, live, owner, t, bp, k);
    }
    forall a | a in live - {bp}
      ensures a > base && live[a] >= 1 && Holds(owner', a, live[a])
    {
      LiveHolds(base, free, live, owner, t, bp, a);
    }
    forall u | u in owner'
      ensures u > base && (IsFree(f, owner'[u]) || owner'[u] in live - {bp})
    {
      if bp <= u < m.End() {
        MergedIsFree(free, t, b);
      } else {
        assert Holds(owner, bp, live[bp]);
        if IsFree(free, owner[u]) {
          InsertFree(free, t, b, owner[u]);
          if JoinsUpper(free, t, b) {
            assert Holds(owner, free[t + 1].addr, free[t + 1].size);
          }
        }
      }
    }
  }

  lemma MergedIsFree(free: seq<Blk>, t: nat, b: Blk)
    requires Place(free, t, b.addr) && (JoinsLower(free, t, b) ==> t >= 1)
    ensures IsFree(Insert(free, t, b), Merged(free, t, b).addr)
  {
    var lo := if JoinsLower(free, t, b) then t else t + 1;
    assert Insert(free, t, b)[lo] == Merged(free, t, b);
  }

  // ---------------------------------------------------------------- allocating

  // The block cut from free[k]: its tail, or all of it.
  function Cut(free: seq<Blk>, k: nat, n: nat): nat
    requires k < |free| && n <= free[k].size
  {
    free[k].addr + free[k].size - n
  }

  // The list after malloc() took n units from free[k].
  function Take(free: seq<Blk>, k: nat, n: nat): seq<Blk>
    requires k < |free| && n <= free[k].size
  {
    if free[k].size == n then free[..k] + free[k + 1..] else free[k := Blk(free[k].addr, free[k].size - n)]
  }

  ghost function Own(owner: map<nat, nat>, a: nat, n: nat): map<nat, nat> {
    map u | u in owner :: if a <= u < a + n then a else owner[u]
  }

  lemma TakeOrdered(base: nat, free: seq<Blk>, k: nat, n: nat)
    requires Ordered(base, free) && 1 <= k < |free| && 1 <= n <= free[k].size
    ensures Ordered(base, Take(free, k, n))
  {
  }

  lemma TakeHolds(base: nat, free: seq<Blk>, live: map<nat, nat>, owner: map<nat, nat>, k: nat, n: nat, a: nat, s: nat)
    requires Ordered(base, free) && Partition(base, free, live, owner) && 1 <= k < |free| && 1 <= n <= free[k].size
    requires a != free[k].addr && Holds(owner, a, s)
    requires IsFree(free, a) || a in live
    ensures a != Cut(free, k, n) && Holds(Own(owner, Cut(free, k, n), n), a, s)
  {
    assert Holds(owner, free[k].addr, free[k].size);
    var c := Cut(free, k, n);
    if IsFree(free, a) {
      var i :| 1 <= i < |free| && free[i].addr == a;
      assert Holds(owner, a, free[i].size);
      assert a in owner && owner[a] == a;
    } else {
      assert Holds(owner, a, live[a]);
      assert a in owner && owner[a] == a;
    }
    assert c in owner && owner[c] == free[k].addr;
  }

  lemma TakeFree(free: seq<Blk>, k: nat, n: nat, i: nat)
    requires 1 <= k < |free| && 1 <= n <= free[k].size && 1 <= i < |Take(free, k, n)|
    ensures (Take(free, k, n)[i] == Blk(free[k].addr, free[k].size - n) && n < free[k].size && i == k)
            || exists h :: 1 <= h < |free| && h != k && Take(free, k, n)[i] == free[h]
  {
    if free[k].size == n {
      assert Take(free, k, n)[i] == free[if i < k then i else i + 1];
    } else if i != k {
      assert Take(free, k, n)[i] == free[i];
    }
  }

  lemma TakeKeepsFree(free: seq<Blk>, k: nat, n: nat, a: nat)
    requires 1 <= k < |free| && 1 <= n <= free[k].size && IsFree(free, a)
    requires a != free[k].addr || n < free[k].size
    ensures IsFree(Take(free, k, n), a)
  {
    var i :| 1 <= i < |free| && free[i].addr == a;
    if free[k].size == n {
      assert Take(free, k, n)[if i < k then i else i - 1] == free[i];
    } else {
      assert Take(free, k, n)[i].addr == a;
    }
  }

  lemma CutHolds(base: nat, free: seq<Blk>, live: map<nat, nat>, owner: map<nat, nat>, k: nat, n: nat)
    requires Ordered(base, free) && Partition(base, free, live, owner) && 1 <= k < |free| && 1 <= n <= free[k].size
    ensures var c := Cut(free, k, n);
            && c !in live && c > base
            && Holds(Own(owner, c, n), c, n)
            && (n < free[k].size ==> Holds(Own(owner, c, n), free[k].addr, free[k].size - n))
            && (n == free[k].size ==> forall u :: u in owner && owner[u] == free[k].addr ==> c <= u < c + n)
  {
    assert Holds(owner, free[k].addr, free[k].size);
    var c := Cut(free, k, n);
    assert c in owner && owner[c] == free[k].addr;
    assert c !in live;
    forall u | u in owner && owner[u] == c ensures c <= u < c + n {
      if IsFree(free, c) {
        var i :| 1 <= i < |free| && free[i].addr == c;
        assert Holds(owner, free[i].addr, free[i].size);
      }
    }
  }

  /** Allocating keeps the partition: the units cut from free[k] are now the live block. */
  lemma TakePartition(base: nat, free: seq<Blk>, live: map<nat, nat>, owner: map<nat, nat>, k: nat, n: nat)
    requires Ordered(base, free) && Partition(base, free, live, owner) && 1 <= k < |free| && 1 <= n <= free[k].size
    ensures var c := Cut(free, k, n);
            && c !in live
            && Partition(base, Take(free, k, n), live[c := n], Own(owner, c, n))
  {
    hide Holds;
    hide Take;
    var c, f := Cut(free, k, n), Take(free, k, n);
    var live', owner' := live[c := n], Own(owner, c, n);
    CutHolds(base, free, live, owner, k, n);
    forall i | 1 <= i < |f|
      ensures Holds(owner', f[i].addr, f[i].size) && f[i].addr !in live'
    {
      TakeFree(free, k, n, i);
      if f[i].addr != free[k].addr {
        var h :| 1 <= h < |free| && h != k && f[i] == free[h];
        assert IsFree(free, f[i].addr) && Holds(owner, f[i].addr, f[i].size);
        TakeHolds(base, free, live, owner, k, n, f[i].addr, f[i].size);
      }
    }
    forall a | a in live'
      ensures a > base && live'[a] >= 1 && Holds(owner', a, live'[a])
    {
      if a != c {
        TakeHolds(base, free, live, owner, k, n, a, live[a]);
      }
    }
    forall u | u in owner'
      ensures u > base && (IsFree(f, owner'[u]) || owner'[u] in live')
    {
      if !(c <= u < c + n) && IsFree(free, owner[u]) {
        TakeKeepsFree(free, k, n, owner[u]);
      }
    }
  }

  // ------------------------------------------------------------- growing by sbrk

  // The n units from r on are new.
  ghost predicate Unused(base: nat, owner: map<nat, nat>, r: nat, n: nat) {
    r > base && forall u :: r <= u < r + n ==> u !in owner
  }

  ghost function Grow(owner: map<nat, nat>, r: nat, n: nat): map<nat, nat> {
    map u | u in owner.Keys + Units(r, n) :: if u in owner then owner[u] else r
  }

  ghost function Units(r: nat, n: nat): (s: set<nat>)
    ensures forall u :: u in s <==> r <= u < r + n
  {
    if n == 0 then {} else Units(r, n - 1) + {r + n - 1}
  }

  /** Memory from sbrk enters the partition as a live block, which morecore then frees. */
  lemma GrowPartition(base: nat, free: seq<Blk>, live: map<nat, nat>, owner: map<nat, nat>, r: nat, n: nat)
    requires Ordered(base, free) && Partition(base, free, live, owner) && Unused(base, owner, r, n) && n >= 1
    ensures r !in live && Partition(base, free, live[r := n], Grow(owner, r, n))
    ensures Grow(owner, r, n).Keys == owner.Keys + Units(r, n)
  {
    hide Holds;
    var live', owner' := live[r := n], Grow(owner, r, n);
    NewAddress(base, free, live, owner, r, n);
    forall i | 1 <= i < |free|
      ensures Holds(owner', free[i].addr, free[i].size) && free[i].addr !in live'
    {
      GrowHolds(base, owner, r, n, free[i].addr, free[i].size);
    }
    forall a | a in live'
      ensures a > base && live'[a] >= 1 && Holds(owner', a, live'[a])
    {
      if a != r {
        GrowHolds(base, owner, r, n, a, live[a]);
      }
    }
  }

  lemma GrowHolds(base: nat, owner: map<nat, nat>, r: nat, n: nat, a: nat, s: nat)
    requires Unused(base, owner, r, n) && Holds(owner, a, s) && a != r
    ensures Holds(Grow(owner, r, n), a, s)
  {
  }

  // The new block's address names no old block.
  lemma NewAddress(base: nat, free: seq<Blk>, live: map<nat, nat>, owner: map<nat, nat>, r: nat, n: nat)
    requires Ordered(base, free) && Partition(base, free, live, owner) && Unused(base, owner, r, n) && n >= 1
    ensures r !in live && !IsFree(free, r)
    ensures Holds(Grow(owner, r, n), r, n)
  {
    assert r !in owner;
    forall i | 1 <= i < |free| ensures free[i].addr != r {
      assert Holds(owner, free[i].addr, free[i].size);
    }
  }

  // -------------------------------------------------------------- conservation

  ghost function FreeUnits(free: seq<Blk>): nat {
    if free == [] then 0 else FreeUnits(free[..|free| - 1]) + free[|free| - 1].size
  }

  ghost function Pick(live: map<nat, nat>): (a: nat)
    requires live != map[]
    ensures a in live
  {
    PickExists(live);
    var a :| a in live;
    a
  }

  lemma PickExists(live: map<nat, nat>)
    requires live != map[]
    ensures exists a :: a in live
  {
    assert live.Keys != {};
  }

  ghost function LiveUnits(live: map<nat, nat>): nat
    decreases |live|
  {
    if live == map[] then 0 else live[Pick(live)] + LiveUnits(live - {Pick(live)})
  }

  lemma {:induction false} UnitsCard(r: nat, n: nat)
    ensures |Units(r, n)| == n
  {
    if n > 0 {
      UnitsCard(r, n - 1);
    }
  }

  // Forget the units of block a.
  ghost function Without(owner: map<nat, nat>, a: nat): map<nat, nat> {
    map u | u in owner && owner[u] != a :: owner[u]
  }

  lemma WithoutCard(owner: map<nat, nat>, a: nat, n: nat)
    requires Holds(owner, a, n)
    ensures |owner| == |Without(owner, a)| + n
  {
    UnitsCard(a, n);
    assert owner.Keys == Without(owner, a).Keys + Units(a, n);
  }

  lemma WithoutHolds(owner: map<nat, nat>, a: nat, b: nat, n: nat)
    requires Holds(owner, b, n) && a != b
    ensures Holds(Without(owner, a), b, n)
  {
  }

  /** Conservation: the units of the free blocks and of the live blocks add up to the units obtained from
      sbrk. */
  lemma {:induction false} Conservation(base: nat, free: seq<Blk>, live: map<nat, nat>, owner: map<nat, nat>)
    requires Ordered(base, free) && Partition(base, free, live, owner)
    ensures |owner| == FreeUnits(free) + LiveUnits(live)
    decreases |live|, |free|
  {
    hide Holds;
    if live != map[] {
      var a := Pick(live);
      ForgetLive(base, free, live, owner, a);
      WithoutCard(owner, a, live[a]);
      Conservation(base, free, live - {a}, Without(owner, a));
    } else if |free| > 1 {
      var b := free[|free| - 1];
      ForgetFree(base, free, live, owner);
      WithoutCard(owner, b.addr, b.size);
      Conservation(base, free[..|free| - 1], live, Without(owner, b.addr));
    } else {
      assert forall u :: u !in owner;
      assert owner == map[];
      assert FreeUnits(free[..0]) == 0;
    }
  }

  lemma ForgetLive(base: nat, free: seq<Blk>, live: map<nat, nat>, owner: map<nat, nat>, a: nat)
    requires Ordered(base, free) && Partition(base, free, live, owner) && a in live
    ensures Partition(base, free, live - {a}, Without(owner, a))
  {
    hide Holds;
    forall i | 1 <= i < |free| ensures Holds(Without(owner, a), free[i].addr, free[i].size) {
      WithoutHolds(owner, a, free[i].addr, free[i].size);
    }
    forall b | b in live - {a} ensures Holds(Without(owner, a), b, live[b]) {
      WithoutHolds(owner, a, b, live[b]);
    }
  }

  lemma ForgetFree(base: nat, free: seq<Blk>, live: map<nat, nat>, owner: map<nat, nat>)
    requires Ordered(base, free) && Partition(base, free, live, owner) && |free| > 1
    ensures var f, a := free[..|free| - 1], free[|free| - 1].addr;
            Ordered(base, f) && Partition(base, f, live, Without(owner, a))
  {
    hide Holds;
    var f, a := free[..|free| - 1], free[|free| - 1].addr;
    forall i | 1 <= i < |f| ensures Holds(Without(owner, a), f[i].addr, f[i].size) {
      Apart(base, free, i, |free| - 1);
      WithoutHolds(owner, a, f[i].addr, f[i].size);
    }
    forall b | b in live ensures Holds(Without(owner, a), b, live[b]) {
      WithoutHolds(owner, a, b, live[b]);
    }
    forall u | u in Without(owner, a) && IsFree(free, owner[u]) ensures IsFree(f, owner[u]) {
      var i :| 1 <= i < |free| && free[i].addr == owner[u];
      assert f[i].addr == owner[u];
    }
  }
}
