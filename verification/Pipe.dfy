/** pipe.c as it runs: a ring of PIPESIZE bytes and two 32-bit counters that wrap. */
module Pipe {
  import opened PipeRuns

  const WORD := 0x1_0000_0000

  function Slot(base: nat, j: nat): nat {
    (base + j) % PIPESIZE
  }

  // The wrapped counters tell a full pipe, an empty one, and the right slot of the ring.
  lemma WrappedFull(got: nat, n: nat)
    requires n <= PIPESIZE
    ensures (got + n) % WORD == (got % WORD + PIPESIZE) % WORD <==> n == PIPESIZE
  {
  }

  lemma WrappedEmpty(got: nat, n: nat)
    requires n <= PIPESIZE
    ensures (got + n) % WORD == got % WORD <==> n == 0
  {
  }

  lemma WrappedSlot(got: nat, n: nat)
    ensures Slot((got + n) % WORD, 0) == Slot(got, n)
  {
  }

  lemma WrappedNext(n: nat)
    ensures (n % WORD + 1) % WORD == (n + 1) % WORD
  {
  }

  lemma SlotsApart(base: nat, a: nat, b: nat)
    requires a < b < a + PIPESIZE
    ensures Slot(base, a) != Slot(base, b)
  {
  }

  class Buffer {
    const data: array<Byte>
    var nread: nat
    var nwrite: nat
    var readopen: bool
    var writeopen: bool
    var readers: set<nat>          // asleep on &nread
    var writers: set<nat>          // asleep on &nwrite
    ghost var delivered: seq<Byte> // everything ever read
    ghost var queue: seq<Byte>     // appended and not read yet

    ghost predicate Valid()
      reads this`nread, this`nwrite, this`delivered, this`queue, data
    {
      && data.Length == PIPESIZE && |queue| <= PIPESIZE
      && nread == |delivered| % WORD && nwrite == (|delivered| + |queue|) % WORD
      && forall j :: 0 <= j < |queue| ==> data[Slot(|delivered|, j)] == queue[j]
    }

    ghost function Abs(): S
      reads this
    {
      S(queue, readopen, writeopen, readers, writers)
    }

    constructor ()
      ensures Valid() && Abs() == S([], true, true, {}, {}) && delivered == []
    {
      data := new Byte[PIPESIZE];
      nread, nwrite, readopen, writeopen, readers, writers := 0, 0, true, true, {}, {};
      delivered, queue := [], [];
    }

    // What the two comparisons of the counters mean.
    lemma Tests()
      requires Valid()
      ensures |queue| <= PIPESIZE && (nwrite == (nread + PIPESIZE) % WORD <==> |queue| == PIPESIZE)
      ensures nread == nwrite <==> queue == []
    {
      WrappedFull(|delivered|, |queue|);
      WrappedEmpty(|delivered|, |queue|);
    }

    // One byte more in the ring.
    method Append(c: Byte)
      requires Valid() && |queue| < PIPESIZE
      modifies this`nwrite, this`queue, data
      ensures Valid() && queue == old(queue) + [c]
    {
      WrappedSlot(|delivered|, |queue|);
      WrappedNext(|delivered| + |queue|);
      forall j | 0 <= j < |queue|
        ensures Slot(|delivered|, j) != Slot(|delivered|, |queue|)
      {
        SlotsApart(|delivered|, j, |queue|);
      }
      data[Slot(nwrite, 0)] := c;
      nwrite := (nwrite + 1) % WORD;
      queue := queue + [c];
    }

    /** pipewrite from `at` on, from getting the lock to giving it up. */
    method Write(pid: nat, src: seq<Byte>, at: nat, killed: bool) returns (out: Written)
      requires Valid() && at <= |src|
      modifies this`nwrite, this`queue, this`readers, this`writers, data
      ensures Valid() && |old(queue)| <= PIPESIZE && (Abs(), out) == WriteStep(old(Abs()), pid, src, at, killed)
    {
      hide Valid;
      ghost var s := Abs();
      Tests();
      var i := at;
      while i < |src|
        invariant at <= i <= |src| && Valid() && i - at <= Room(s, src, at)
        invariant Abs() == s.(queue := s.queue + src[at..i])
      {
        Tests();
        if nwrite == (nread + PIPESIZE) % WORD {
          if !readopen || killed {
            return WriteFailed;
          }
          readers := {};
          writers := writers + {pid};
          return AsleepAt(i);
        }
        Append(src[i]);
        assert src[at..i + 1] == src[at..i] + [src[i]];
        i := i + 1;
      }
      readers := {};
      out := Wrote;
    }

    // One byte out of the ring.
    method Take() returns (c: Byte)
      requires Valid() && queue != []
      modifies this`nread, this`queue, this`delivered
      ensures Valid() && c == old(queue)[0] && queue == old(queue)[1..] && delivered == old(delivered) + [c]
    {
      WrappedSlot(|delivered|, 0);
      WrappedNext(|delivered|);
      c := data[Slot(nread, 0)];
      assert c == queue[0];
      nread := (nread + 1) % WORD;
      ghost var rest, from := queue[1..], |delivered| + 1;
      forall j | 0 <= j < |rest|
        ensures data[Slot(from, j)] == rest[j]
      {
        assert data[Slot(|delivered|, j + 1)] == queue[j + 1];
      }
      delivered, queue := delivered + [queue[0]], rest;
    }

    /** piperead, from getting the lock to giving it up: what it returns is what was appended next. */
    method Read(pid: nat, n: nat, killed: bool) returns (out: Taken)
      requires Valid()
      modifies this`nread, this`queue, this`delivered, this`readers, this`writers
      ensures Valid() && (Abs(), out) == ReadStep(old(Abs()), pid, n, killed)
      ensures delivered == old(delivered) + (if out.Took? then out.bytes else [])
      ensures delivered + queue == old(delivered) + old(queue)
    {
      hide Valid;
      ghost var q, d := queue, delivered;
      Tests();
      if nread == nwrite && writeopen {
        if killed {
          return ReadFailed;
        }
        readers := readers + {pid};
        return Asleep;
      }
      var addr: seq<Byte>, i := [], 0;
      while i < n
        invariant 0 <= i <= n && i <= |q| && Valid() && readers == old(readers)
        invariant addr == q[..i] && queue == q[i..] && delivered == d + addr
      {
        Tests();
        if nread == nwrite {
          break;
        }
        var c := Take();
        addr := addr + [c];
        i := i + 1;
      }
      writers := {};
      assert i == if n <= |q| then n else |q|;
      assert q[..i] + q[i..] == q;
      out := Took(addr);
    }

    /** pipeclose of one end; both closed, the pipe is freed. */
    method Close(writable: bool) returns (freed: bool)
      requires Valid()
      modifies this`readopen, this`writeopen, this`readers, this`writers
      ensures Valid() && Abs() == CloseStep(old(Abs()), writable) && (freed <==> !readopen && !writeopen)
    {
      if writable {
        writeopen := false;
        readers := {};
      } else {
        readopen := false;
        writers := {};
      }
      freed := !readopen && !writeopen;
    }
  }
}
