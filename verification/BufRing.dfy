/** The doubly linked ring of bio.c as two index arrays: nodes 0..n-1 are the buffers, node n is the head.
    The ring runs from the most recently used buffer (head.next) to the least recently used (head.prev). */
module BufRing {
  // Node i on the way round: the head, the buffers in order, the head again.
  function Nth(ring: seq<nat>, n: nat, i: nat): nat
    requires i <= |ring| + 1
  {
    if 1 <= i <= |ring| then ring[i - 1] else n
  }

  // The buffers on the ring are distinct.
  ghost predicate Apart(ring: seq<nat>, n: nat) {
    && (forall i :: 0 <= i < |ring| ==> ring[i] < n)
    && (forall i, j :: 0 <= i < j < |ring| ==> ring[i] != ring[j])
  }

  /** next and prev are inverse to each other along one ring through the head and the given buffers. */
  ghost predicate Ring(next: seq<nat>, prev: seq<nat>, ring: seq<nat>, n: nat) {
    && |next| == n + 1 && |prev| == n + 1
    && Apart(ring, n)
    && (forall i {:trigger Nth(ring, n, i)} :: 0 <= i <= |ring| ==>
          Linked(next, prev, Nth(ring, n, i), Nth(ring, n, i + 1)))
  }

  predicate Linked(next: seq<nat>, prev: seq<nat>, a: nat, b: nat) {
    a < |next| && b < |prev| && next[a] == b && prev[b] == a
  }

  // One step along the ring, either way.
  lemma Along(next: seq<nat>, prev: seq<nat>, ring: seq<nat>, n: nat, k: nat)
    requires Ring(next, prev, ring, n) && k <= |ring|
    ensures Apart(ring, n) && |next| == |prev| == n + 1 && Nth(ring, n, k) <= n && Nth(ring, n, k + 1) <= n
    ensures next[Nth(ring, n, k)] == Nth(ring, n, k + 1) && prev[Nth(ring, n, k + 1)] == Nth(ring, n, k)
    ensures (Nth(ring, n, k) == n <==> k == 0) && (Nth(ring, n, k + 1) == n <==> k == |ring|)
  {
    assert Linked(next, prev, Nth(ring, n, k), Nth(ring, n, k + 1));
  }

  // Following next and then prev comes back, from every node of the ring.
  lemma Inverse(next: seq<nat>, prev: seq<nat>, ring: seq<nat>, n: nat, x: nat)
    requires Ring(next, prev, ring, n) && (x == n || x in ring)
    ensures next[x] <= n && prev[x] <= n && prev[next[x]] == x && next[prev[x]] == x
  {
    if x == n {
      assert Linked(next, prev, Nth(ring, n, 0), Nth(ring, n, 1));
      assert Linked(next, prev, Nth(ring, n, |ring|), Nth(ring, n, |ring| + 1));
    } else {
      var i :| 0 <= i < |ring| && ring[i] == x;
      assert Linked(next, prev, Nth(ring, n, i + 1), Nth(ring, n, i + 2));
      assert Linked(next, prev, Nth(ring, n, i), Nth(ring, n, i + 1));
    }
  }

  function Without(ring: seq<nat>, j: nat): (r: seq<nat>)
    requires j < |ring|
    ensures |r| == |ring| - 1
    ensures forall i :: 0 <= i < |r| ==> r[i] == if i < j then ring[i] else ring[i + 1]
  {
    ring[..j] + ring[j + 1..]
  }

  // Taking a buffer out: its two neighbours are linked to each other.
  lemma Unlinked(next: seq<nat>, prev: seq<nat>, ring: seq<nat>, n: nat, j: nat)
    requires Ring(next, prev, ring, n) && j < |ring|
    ensures var b := ring[j];
            && b < n && next[b] <= n && prev[b] <= n
            && Ring(next[prev[b] := next[b]], prev[next[b] := prev[b]], Without(ring, j), n)
  {
    var b := ring[j];
    assert Linked(next, prev, Nth(ring, n, j), Nth(ring, n, j + 1));
    assert Linked(next, prev, Nth(ring, n, j + 1), Nth(ring, n, j + 2));
    var next', prev', ring' := next[prev[b] := next[b]], prev[next[b] := prev[b]], Without(ring, j);
    forall i {:trigger Nth(ring', n, i)} | 0 <= i <= |ring'|
      ensures Linked(next', prev', Nth(ring', n, i), Nth(ring', n, i + 1))
    {
      var i0 := if i <= j then i else i + 1;
      assert Linked(next, prev, Nth(ring, n, i0), Nth(ring, n, i0 + 1));
      UnlinkStep(next, prev, ring, n, j, i);
    }
    assert forall a, c :: 0 <= a < c < |ring'| ==> ring'[a] != ring'[c];
  }

  // The nodes on the way round are distinct but for the head at both ends.
  lemma NthApart(ring: seq<nat>, n: nat, a: nat, c: nat)
    requires Apart(ring, n) && a < c <= |ring| + 1 && (a > 0 || c <= |ring|)
    ensures Nth(ring, n, a) != Nth(ring, n, c)
  {
  }

  lemma UnlinkStep(next: seq<nat>, prev: seq<nat>, ring: seq<nat>, n: nat, j: nat, i: nat)
    requires Apart(ring, n) && |next| == |prev| == n + 1 && j < |ring| && i < |ring|
    requires Linked(next, prev, Nth(ring, n, j), Nth(ring, n, j + 1))
    requires Linked(next, prev, Nth(ring, n, j + 1), Nth(ring, n, j + 2))
    requires var i0 := if i <= j then i else i + 1; Linked(next, prev, Nth(ring, n, i0), Nth(ring, n, i0 + 1))
    ensures var b := ring[j];
            Linked(next[prev[b] := next[b]], prev[next[b] := prev[b]],
                   Nth(Without(ring, j), n, i), Nth(Without(ring, j), n, i + 1))
  {
    hide Apart;
    if i < j {
      NthApart(ring, n, i, j);
      NthApart(ring, n, i + 1, j + 2);
    } else if i > j {
      NthApart(ring, n, j, i + 1);
      NthApart(ring, n, j + 2, i + 2);
    }
  }

  // Putting a buffer between the head and the first buffer.
  lemma Pushed(next: seq<nat>, prev: seq<nat>, ring: seq<nat>, n: nat, b: nat)
    requires Ring(next, prev, ring, n) && b < n && b !in ring
    ensures next[n] <= n && Ring(next[b := next[n]][n := b], prev[b := n][next[n] := b], [b] + ring, n)
  {
    assert Linked(next, prev, Nth(ring, n, 0), Nth(ring, n, 1));
    var next', prev', ring' := next[b := next[n]][n := b], prev[b := n][next[n] := b], [b] + ring;
    forall i {:trigger Nth(ring', n, i)} | 0 <= i <= |ring'|
      ensures Linked(next', prev', Nth(ring', n, i), Nth(ring', n, i + 1))
    {
      if i > 0 {
        assert Linked(next, prev, Nth(ring, n, i - 1), Nth(ring, n, i));
      }
    }
  }
}
