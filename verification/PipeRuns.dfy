/** A pipe as a queue, its two open ends and the processes asleep on it.  A step is what one process does
    between getting the pipe's lock and giving it up, by returning or by going to sleep; wakeup empties the
    set of sleepers on a channel, sleep adds the caller to it (proc.c). */
module PipeRuns {
  const PIPESIZE := 512

  type Byte = nat

  // readers sleep on &nread, writers on &nwrite.
  datatype S = S(queue: seq<Byte>, readopen: bool, writeopen: bool, readers: set<nat>, writers: set<nat>)

  datatype Written = Wrote | AsleepAt(at: nat) | WriteFailed

  datatype Taken = Took(bytes: seq<Byte>) | Asleep | ReadFailed

  // How many of the bytes from `at` on go in.
  function Room(s: S, src: seq<Byte>, at: nat): nat
    requires |s.queue| <= PIPESIZE && at <= |src|
  {
    if |src| - at <= PIPESIZE - |s.queue| then |src| - at else PIPESIZE - |s.queue|
  }

  function WriteStep(s: S, pid: nat, src: seq<Byte>, at: nat, killed: bool): (S, Written)
    requires |s.queue| <= PIPESIZE && at <= |src|
  {
    var k := Room(s, src, at);
    var s' := s.(queue := s.queue + src[at..at + k]);
    if at + k == |src| then (s'.(readers := {}), Wrote)
    else if !s.readopen || killed then (s', WriteFailed)
    else (s'.(readers := {}, writers := s.writers + {pid}), AsleepAt(at + k))
  }

  function ReadStep(s: S, pid: nat, n: nat, killed: bool): (S, Taken) {
    if s.queue == [] && s.writeopen then
      if killed then (s, ReadFailed) else (s.(readers := s.readers + {pid}), Asleep)
    else
      var k := if n <= |s.queue| then n else |s.queue|;
      (s.(queue := s.queue[k..], writers := {}), Took(s.queue[..k]))
  }

  function CloseStep(s: S, writable: bool): S {
    if writable then s.(writeopen := false, readers := {}) else s.(readopen := false, writers := {})
  }

  datatype Event =
    | Write(pid: nat, src: seq<Byte>, at: nat, killed: bool)
    | Read(pid: nat, n: nat, killed: bool)
    | Close(writable: bool)
    | Kill(pid: nat)

  predicate Enabled(s: S, e: Event) {
    |s.queue| <= PIPESIZE && (e.Write? ==> e.at <= |e.src|)
  }

  function Apply(s: S, e: Event): S
    requires Enabled(s, e)
  {
    match e
    case Write(pid, src, at, killed) => WriteStep(s, pid, src, at, killed).0
    case Read(pid, n, killed) => ReadStep(s, pid, n, killed).0
    case Close(writable) => CloseStep(s, writable)
    case Kill(pid) => s.(readers := s.readers - {pid}, writers := s.writers - {pid})
  }

  /** No sleeper has anything to do: a reader sleeps only on an empty pipe that can still be written, a
      writer only on a full one that can still be read. */
  ghost predicate Quiet(s: S) {
    && |s.queue| <= PIPESIZE
    && (s.readers != {} ==> s.queue == [] && s.writeopen)
    && (s.writers != {} ==> |s.queue| == PIPESIZE && s.readopen)
  }

  // A write of more than the pipe can take, by a killed process or with nobody left to read.
  predicate CannotFinish(s: S, e: Event)
    requires Enabled(s, e)
  {
    e.Write? && (!s.readopen || e.killed) && |e.src| - e.at > PIPESIZE - |s.queue|
  }

  /** The early return of pipewrite, by what can be seen before the write starts. */
  lemma FailsIff(s: S, e: Event)
    requires Enabled(s, e) && e.Write?
    ensures WriteStep(s, e.pid, e.src, e.at, e.killed).1 == WriteFailed <==> CannotFinish(s, e)
  {
  }

  /** One step keeps the sleepers right exactly if it is not such a write under a sleeping reader. */
  lemma QuietIff(s: S, e: Event)
    requires Quiet(s) && Enabled(s, e)
    ensures Quiet(Apply(s, e)) <==> !(s.readers != {} && CannotFinish(s, e))
    ensures |Apply(s, e).queue| <= PIPESIZE
  {
    if e.Write? {
      var k := Room(s, e.src, e.at);
      assert |s.queue + e.src[e.at..e.at + k]| == |s.queue| + k;
    }
  }

  function Run(s: S, es: seq<Event>): S
    requires Possible(s, es)
    decreases |es|
  {
    if es == [] then s else Run(Apply(s, es[0]), es[1..])
  }

  predicate Possible(s: S, es: seq<Event>)
    decreases |es|
  {
    es != [] ==> Enabled(s, es[0]) && Possible(Apply(s, es[0]), es[1..])
  }

  // No write of the run that cannot finish starts under a sleeping reader.
  predicate Patient(s: S, es: seq<Event>)
    requires Possible(s, es)
    decreases |es|
  {
    es != [] ==> !(s.readers != {} && CannotFinish(s, es[0])) && Patient(Apply(s, es[0]), es[1..])
  }

  // No write of the run gives up at all.
  predicate NoEarlyReturn(s: S, es: seq<Event>)
    requires Possible(s, es)
    decreases |es|
  {
    es != [] ==>
      && (es[0].Write? ==> WriteStep(s, es[0].pid, es[0].src, es[0].at, es[0].killed).1 != WriteFailed)
      && NoEarlyReturn(Apply(s, es[0]), es[1..])
  }

  /** After every run in which no such write starts under a sleeping reader, no sleeper has been forgotten. */
  lemma {:induction false} RunQuiet(s: S, es: seq<Event>)
    requires Quiet(s) && Possible(s, es) && Patient(s, es)
    ensures Quiet(Run(s, es))
    decreases |es|
  {
    if es != [] {
      QuietIff(s, es[0]);
      RunQuiet(Apply(s, es[0]), es[1..]);
    }
  }

  lemma {:induction false} NoEarlyReturnIsPatient(s: S, es: seq<Event>)
    requires Possible(s, es) && NoEarlyReturn(s, es)
    ensures Patient(s, es)
    decreases |es|
  {
    if es != [] {
      if es[0].Write? {
        FailsIff(s, es[0]);
      }
      NoEarlyReturnIsPatient(Apply(s, es[0]), es[1..]);
    }
  }

  /** A reader asleep on an empty pipe, and a killed writer with more than the pipe holds: the pipe ends up
      full and the reader still asleep. */
  lemma LostWakeup(src: seq<Byte>)
    requires |src| == PIPESIZE + 1
    ensures var s := S([], true, true, {}, {});
            var es := [Read(1, 1, false), Write(2, src, 0, true)];
            && Possible(s, es) && Run(s, es) == S(src[..PIPESIZE], true, true, {1}, {}) && !Quiet(Run(s, es))
  {
    var s0 := S([], true, true, {}, {});
    var es := [Read(1, 1, false), Write(2, src, 0, true)];
    var s1 := Apply(s0, es[0]);
    assert s1 == S([], true, true, {1}, {});
    var s2 := Apply(s1, es[1]);
    assert [] + src[0..PIPESIZE] == src[..PIPESIZE];
    assert s2 == S(src[..PIPESIZE], true, true, {1}, {});
    assert es[1..] == [es[1]] && es[1..][1..] == [];
    assert Run(s2, []) == s2;
    assert Run(s1, [es[1]]) == s2;
  }

  // ---------------------------------------------------------------- order of the bytes

  // What a step puts into the pipe, and what it hands to its caller.
  function In(s: S, e: Event): seq<Byte>
    requires Enabled(s, e)
  {
    if e.Write? then e.src[e.at..e.at + Room(s, e.src, e.at)] else []
  }

  function Out(s: S, e: Event): seq<Byte> {
    if e.Read? && ReadStep(s, e.pid, e.n, e.killed).1.Took? then ReadStep(s, e.pid, e.n, e.killed).1.bytes else []
  }

  function Sent(s: S, es: seq<Event>): seq<Byte>
    requires Possible(s, es)
    decreases |es|
  {
    if es == [] then [] else In(s, es[0]) + Sent(Apply(s, es[0]), es[1..])
  }

  function Received(s: S, es: seq<Event>): seq<Byte>
    requires Possible(s, es)
    decreases |es|
  {
    if es == [] then [] else Out(s, es[0]) + Received(Apply(s, es[0]), es[1..])
  }

  lemma FifoStep(s: S, e: Event)
    requires Enabled(s, e)
    ensures s.queue + In(s, e) == Out(s, e) + Apply(s, e).queue && |Apply(s, e).queue| <= PIPESIZE
  {
    var s' := Apply(s, e);
    match e {
      case Write(pid, src, at, killed) =>
        assert s'.queue == s.queue + In(s, e) && Out(s, e) == [];
      case Read(pid, n, killed) =>
        assert Out(s, e) + s'.queue == s.queue;
      case _ =>
    }
  }

  /** Bytes come out in the order in which they went in: what has been received is a prefix of what has been
      sent, and the rest, never more than PIPESIZE bytes, is in the pipe. */
  lemma {:induction false} Fifo(s: S, es: seq<Event>)
    requires Possible(s, es) && |s.queue| <= PIPESIZE
    ensures s.queue + Sent(s, es) == Received(s, es) + Run(s, es).queue && |Run(s, es).queue| <= PIPESIZE
    decreases |es|
  {
    hide Apply;
    hide Enabled;
    hide In;
    hide Out;
    if es != [] {
      var e, s' := es[0], Apply(s, es[0]);
      FifoStep(s, e);
      Fifo(s', es[1..]);
      Regroup(s.queue, In(s, e), Sent(s', es[1..]), Out(s, e), s'.queue, Received(s', es[1..]), Run(s', es[1..]).queue);
    }
  }

  lemma Regroup(q: seq<Byte>, x: seq<Byte>, xs: seq<Byte>, y: seq<Byte>, q': seq<Byte>, ys: seq<Byte>, q'': seq<Byte>)
    requires q + x == y + q' && q' + xs == ys + q''
    ensures q + (x + xs) == (y + ys) + q''
  {
    assert q + (x + xs) == (q + x) + xs;
    assert (y + q') + xs == y + (q' + xs);
    assert y + (ys + q'') == (y + ys) + q'';
  }
}
