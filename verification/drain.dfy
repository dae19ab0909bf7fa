/** The multi-threaded form of fsck's data verification: extents that need
    decoding are handed to worker threads as work items linked in
    submission order, and the main thread drains the list from its head,
    writing each finished item's output in order and recycling the item
    onto a global idle free-list.

    Work items are named by the work object ("slot") carrying them and by
    the index of their extent among the extents submitted. A worker marks an
    item finished by clearing its work function; which items finish when is
    left entirely open (any order, any interleaving with the main thread). */
module Drain {
  import Errno
  import ExtentWalk

  /** One linked work item. */
  datatype Job = Job(slot: nat, idx: nat, done: bool, eio: bool)

  /** The main thread's state: the list headed by `head`, the idle free-list,
      the number of work objects ever allocated, how many items have been
      drained from the head, the indices written to the output in order,
      and the accumulated return value. */
  datatype Pipe = Pipe(queue: seq<Job>, idle: seq<nat>, objects: nat, flushed: nat,
                       written: seq<nat>, ret: int)

  /** What happens to the item with each index: whether decoding it fails
      (the worker sets `eio`), whether writing its output fails, and whether
      there is an output file at all. */
  datatype Outcome = Outcome(failed: nat -> bool, writeFails: nat -> bool, hasOutput: bool)

  /** An item whose draining sets the return value to -EIO. */
  predicate Bad(i: nat, o: Outcome)
  {
    o.failed(i) || (o.hasOutput && o.writeFails(i))
  }

  /** An item whose output reaches the output file. */
  predicate Good(i: nat, o: Outcome)
  {
    !o.failed(i) && o.hasOutput && !o.writeFails(i)
  }

  function Slots(q: seq<Job>): seq<nat>
  {
    if |q| == 0 then [] else [q[0].slot] + Slots(q[1..])
  }

  /** Each of the work objects 0 .. n-1 exactly once. */
  function Range(n: nat): multiset<nat>
  {
    if n == 0 then multiset{} else Range(n - 1) + multiset{n - 1}
  }

  /** The output after the first n items have been drained: the good ones,
      in index order. */
  function Expected(n: nat, o: Outcome): seq<nat>
  {
    if n == 0 then []
    else Expected(n - 1, o) + (if Good(n - 1, o) then [n - 1] else [])
  }

  predicate AnyBad(n: nat, o: Outcome)
  {
    exists i :: 0 <= i < n && Bad(i, o)
  }

  function Submitted(p: Pipe): nat
  {
    p.flushed + |p.queue|
  }

  /** The pipeline invariant: the work objects on the list and on the idle
      list are exactly the allocated ones, each once (nothing leaks, nothing
      is shared); the list holds consecutive indices after the drained ones;
      a finished item's `eio` is its decode outcome; the output is exactly
      the good drained items in order; and the return value is -EIO exactly
      when some drained item was bad. */
  predicate Inv(p: Pipe, o: Outcome)
  {
    && SlotsOk(p)
    && (forall k :: 0 <= k < |p.queue| ==> p.queue[k].idx == p.flushed + k)
    && (forall k :: 0 <= k < |p.queue| && p.queue[k].done ==> p.queue[k].eio == o.failed(p.queue[k].idx))
    && p.written == Expected(p.flushed, o)
    && (p.ret == 0 || p.ret == -Errno.EIO)
    && (p.ret == 0 <==> !AnyBad(p.flushed, o))
  }

  /** The work objects on the list and on the idle list are exactly the
      allocated ones, each once, and there are never more of them than
      items submitted plus those idle from the start. */
  predicate SlotsOk(p: Pipe)
  {
    && multiset(Slots(p.queue)) + multiset(p.idle) == Range(p.objects)
    && p.objects <= Submitted(p) + |p.idle|
  }

  /** The state when a file's verification starts: an empty list, and the
      idle list left over from earlier files. */
  function Start(idle: seq<nat>, objects: nat): Pipe
  {
    Pipe([], idle, objects, 0, [], 0)
  }

  lemma StartInv(idle: seq<nat>, objects: nat, o: Outcome)
    requires multiset(idle) == Range(objects)
    requires objects <= |idle|
    ensures Inv(Start(idle, objects), o)
  {
  }

  /** Linking a new item at the tail: it takes the first idle work object,
      or a freshly allocated one when the idle list is empty. */
  function Submit(p: Pipe): (r: Pipe)
    ensures Submitted(r) == Submitted(p) + 1 && |r.queue| == |p.queue| + 1
    ensures r.queue[..|p.queue|] == p.queue
    ensures !r.queue[|p.queue|].done
  {
    var slot := if |p.idle| > 0 then p.idle[0] else p.objects;
    Pipe(p.queue + [Job(slot, Submitted(p), false, false)],
         if |p.idle| > 0 then p.idle[1..] else [],
         if |p.idle| > 0 then p.objects else p.objects + 1,
         p.flushed, p.written, p.ret)
  }

  lemma SlotsAppend(q: seq<Job>, j: Job)
    ensures Slots(q + [j]) == Slots(q) + [j.slot]
    decreases |q|
  {
    if |q| > 0 {
      assert (q + [j])[1..] == q[1..] + [j];
      SlotsAppend(q[1..], j);
    }
  }

  lemma SlotsUpdate(q: seq<Job>, k: nat, j: Job)
    requires k < |q| && j.slot == q[k].slot
    ensures Slots(q[k := j]) == Slots(q)
    decreases |q|
  {
    if k > 0 {
      assert q[k := j][1..] == q[1..][k - 1 := j];
      SlotsUpdate(q[1..], k - 1, j);
    }
  }

  /** Submitting keeps the invariant, and a work object is only allocated
      when none is idle. */
  lemma SubmitInv(p: Pipe, o: Outcome)
    requires Inv(p, o)
    ensures Inv(Submit(p), o)
    ensures Submit(p).objects == if |p.idle| == 0 then p.objects + 1 else p.objects
  {
    SubmitSlots(p);
    var r := Submit(p);
    assert forall k :: 0 <= k < |p.queue| ==> r.queue[k] == p.queue[k];
  }

  lemma SubmitSlots(p: Pipe)
    requires SlotsOk(p)
    ensures SlotsOk(Submit(p))
  {
    var r := Submit(p);
    var slot := if |p.idle| > 0 then p.idle[0] else p.objects;
    SlotsAppend(p.queue, Job(slot, Submitted(p), false, false));
    assert Slots(r.queue) == Slots(p.queue) + [slot];
    assert multiset(Slots(r.queue)) == multiset(Slots(p.queue)) + multiset{slot};
    if |p.idle| > 0 {
      MultisetSplitHead(p.idle);
      TakeIdle(multiset(Slots(p.queue)), p.idle, p.objects);
    } else {
      assert Range(p.objects + 1) == Range(p.objects) + multiset{p.objects};
    }
  }

  /** Moving the first idle object to the list keeps the union. */
  lemma TakeIdle(onList: multiset<nat>, idle: seq<nat>, objects: nat)
    requires |idle| > 0 && onList + multiset(idle) == Range(objects)
    ensures onList + multiset{idle[0]} + multiset(idle[1..]) == Range(objects)
  {
    MultisetSplitHead(idle);
  }

  lemma MultisetSplitHead(s: seq<nat>)
    requires |s| > 0
    ensures multiset(s) == multiset{s[0]} + multiset(s[1..])
  {
    assert s == [s[0]] + s[1..];
  }

  /** A worker finishing the item at position k of the list. */
  function Complete(p: Pipe, k: nat, o: Outcome): (r: Pipe)
    requires k < |p.queue| && !p.queue[k].done
    ensures |r.queue| == |p.queue|
    ensures r.queue[k].done && r.queue[k].eio == o.failed(p.queue[k].idx)
    ensures forall i :: 0 <= i < |p.queue| && i != k ==> r.queue[i] == p.queue[i]
  {
    var j := p.queue[k];
    p.(queue := p.queue[k := Job(j.slot, j.idx, true, o.failed(j.idx))])
  }

  lemma CompleteInv(p: Pipe, k: nat, o: Outcome)
    requires Inv(p, o)
    requires k < |p.queue| && !p.queue[k].done
    ensures Inv(Complete(p, k, o), o)
  {
    var j := p.queue[k];
    SlotsUpdate(p.queue, k, Job(j.slot, j.idx, true, o.failed(j.idx)));
  }

  /** Draining the finished head item: -EIO if its decoding failed, else its
      output is written (when there is an output file) and a failed write
      gives -EIO; then the item is unlinked and its work object pushed on
      the front of the idle list. */
  function Pop(p: Pipe, o: Outcome): (r: Pipe)
    requires |p.queue| > 0 && p.queue[0].done
    ensures Submitted(r) == Submitted(p) && r.flushed == p.flushed + 1
  {
    var j := p.queue[0];
    var writes := !j.eio && o.hasOutput;
    var ret := if j.eio then -Errno.EIO
               else if writes && o.writeFails(j.idx) then -Errno.EIO
               else p.ret;
    Pipe(p.queue[1..], [j.slot] + p.idle, p.objects, p.flushed + 1,
         if writes && !o.writeFails(j.idx) then p.written + [j.idx] else p.written,
         ret)
  }

  lemma PopInv(p: Pipe, o: Outcome)
    requires Inv(p, o)
    requires |p.queue| > 0 && p.queue[0].done
    ensures Inv(Pop(p, o), o)
    ensures Pop(p, o).ret != 0 <==> (p.ret != 0 || Bad(p.flushed, o))
  {
    assert p.queue[0].idx == p.flushed && p.queue[0].eio == o.failed(p.flushed);
    PopSlots(p, o);
    PopQueue(p, o);
    PopRet(p, o);
  }

  /** Unlinking the head and pushing its work object on the idle list
      moves that object from one list to the other. */
  lemma PopSlots(p: Pipe, o: Outcome)
    requires SlotsOk(p)
    requires |p.queue| > 0 && p.queue[0].done
    ensures SlotsOk(Pop(p, o))
  {
    assert p.queue == [p.queue[0]] + p.queue[1..];
    assert multiset(Slots(p.queue)) == multiset{p.queue[0].slot} + multiset(Slots(p.queue[1..]));
    assert multiset([p.queue[0].slot] + p.idle) == multiset{p.queue[0].slot} + multiset(p.idle);
  }

  /** The rest of the list keeps consecutive indices after the drained
      ones, and its finished items keep their outcomes. */
  lemma PopQueue(p: Pipe, o: Outcome)
    requires |p.queue| > 0 && p.queue[0].done
    requires forall k :: 0 <= k < |p.queue| ==> p.queue[k].idx == p.flushed + k
    requires forall k :: 0 <= k < |p.queue| && p.queue[k].done ==> p.queue[k].eio == o.failed(p.queue[k].idx)
    ensures var r := Pop(p, o);
      && (forall k :: 0 <= k < |r.queue| ==> r.queue[k].idx == r.flushed + k)
      && (forall k :: 0 <= k < |r.queue| && r.queue[k].done ==> r.queue[k].eio == o.failed(r.queue[k].idx))
  {
    var r := Pop(p, o);
    forall k | 0 <= k < |r.queue|
      ensures r.queue[k].idx == r.flushed + k
    {
      assert r.queue[k] == p.queue[k + 1];
    }
  }

  /** The drained item's output and error: the output grows by it exactly
      when it is good, and the return value is -EIO from the first bad
      item on. */
  lemma PopRet(p: Pipe, o: Outcome)
    requires |p.queue| > 0 && p.queue[0].done
    requires p.queue[0].idx == p.flushed && p.queue[0].eio == o.failed(p.flushed)
    requires p.written == Expected(p.flushed, o)
    requires (p.ret == 0 || p.ret == -Errno.EIO) && (p.ret == 0 <==> !AnyBad(p.flushed, o))
    ensures var r := Pop(p, o);
      && r.written == Expected(r.flushed, o)
      && (r.ret == 0 || r.ret == -Errno.EIO)
      && (r.ret == 0 <==> !AnyBad(r.flushed, o))
      && (r.ret != 0 <==> (p.ret != 0 || Bad(p.flushed, o)))
  {
    var r := Pop(p, o);
    if AnyBad(r.flushed, o) && !AnyBad(p.flushed, o) {
      var i :| 0 <= i < r.flushed && Bad(i, o);
      assert i == p.flushed;
    }
    if Bad(p.flushed, o) {
      assert AnyBad(r.flushed, o);
    }
    if AnyBad(p.flushed, o) {
      var i :| 0 <= i < p.flushed && Bad(i, o);
      assert 0 <= i < r.flushed && Bad(i, o);
    }
  }

  /** The drain done right after each submission: drain finished items from
      the head, stopping when the list is empty, when the head has not
      finished, or as soon as an item set an error. */
  function DrainReady(p: Pipe, o: Outcome): (r: Pipe)
    ensures Submitted(r) == Submitted(p) && r.flushed >= p.flushed
    decreases |p.queue|
  {
    if |p.queue| == 0 || !p.queue[0].done then p
    else
      var q := Pop(p, o);
      if |q.queue| == 0 || q.ret != 0 then q else DrainReady(q, o)
  }

  /** The per-submission drain keeps the invariant; starting from a clean
      state it stops after the first bad item or at the first unfinished
      one, so everything it drained before stopping was good. */
  lemma {:induction false} DrainReadyInv(p: Pipe, o: Outcome)
    requires Inv(p, o)
    ensures var r := DrainReady(p, o);
      && Inv(r, o)
      && (p.ret == 0 ==> forall i :: p.flushed <= i < r.flushed - 1 ==> !Bad(i, o))
      && (r.ret == 0 ==> |r.queue| == 0 || !r.queue[0].done)
    decreases |p.queue|
  {
    if |p.queue| > 0 && p.queue[0].done {
      PopInv(p, o);
      var q := Pop(p, o);
      if |q.queue| > 0 && q.ret == 0 {
        DrainReadyInv(q, o);
      }
    }
  }

  /** The drain on the way out: wait for the head to finish and drain it,
      whatever the return value, until the list is empty. Since it spins
      until every item has finished, it is modelled as running once all
      items are finished. */
  function DrainAll(p: Pipe, o: Outcome): (r: Pipe)
    requires forall k :: 0 <= k < |p.queue| ==> p.queue[k].done
    ensures |r.queue| == 0 && r.flushed == Submitted(p)
    decreases |p.queue|
  {
    if |p.queue| == 0 then p
    else
      var q := Pop(p, o);
      assert forall k :: 0 <= k < |q.queue| ==> q.queue[k] == p.queue[k + 1];
      DrainAll(q, o)
  }

  lemma {:induction false} DrainAllInv(p: Pipe, o: Outcome)
    requires Inv(p, o)
    requires forall k :: 0 <= k < |p.queue| ==> p.queue[k].done
    ensures Inv(DrainAll(p, o), o)
    decreases |p.queue|
  {
    if |p.queue| > 0 {
      PopInv(p, o);
      var q := Pop(p, o);
      assert forall k :: 0 <= k < |q.queue| ==> q.queue[k] == p.queue[k + 1];
      DrainAllInv(q, o);
    }
  }

  /** Every still-running item finishes (in whatever order: the outcome of
      each depends on its index only). */
  function FinishAll(p: Pipe, o: Outcome): (r: Pipe)
    ensures |r.queue| == |p.queue|
    ensures forall k :: 0 <= k < |r.queue| ==> r.queue[k].done
    ensures forall k :: 0 <= k < |r.queue| ==> r.queue[k].slot == p.queue[k].slot && r.queue[k].idx == p.queue[k].idx
    ensures r == p.(queue := r.queue)
  {
    p.(queue := seq(|p.queue|, k requires 0 <= k < |p.queue| =>
         var j := p.queue[k];
         if j.done then j else Job(j.slot, j.idx, true, o.failed(j.idx))))
  }

  lemma SlotsSame(q: seq<Job>, q': seq<Job>)
    requires |q| == |q'|
    requires forall k :: 0 <= k < |q| ==> q[k].slot == q'[k].slot
    ensures Slots(q) == Slots(q')
    decreases |q|
  {
    if |q| > 0 {
      SlotsSame(q[1..], q'[1..]);
    }
  }

  lemma FinishAllInv(p: Pipe, o: Outcome)
    requires Inv(p, o)
    ensures Inv(FinishAll(p, o), o)
  {
    SlotsSame(p.queue, FinishAll(p, o).queue);
  }

  /** What can happen next: the main thread submits the next extent and
      drains, or a worker finishes the item at position k. */
  datatype Event = SubmitNext | Finish(k: nat)

  /** One event of a run in which n extents need decoding. Once an error
      has been seen the main thread stops submitting (it jumps to the final
      drain); a worker event for a position that is not a running item
      changes nothing. */
  function Step(p: Pipe, e: Event, n: nat, o: Outcome): Pipe
  {
    match e
    case SubmitNext =>
      if p.ret != 0 || Submitted(p) >= n then p else DrainReady(Submit(p), o)
    case Finish(k) =>
      if k < |p.queue| && !p.queue[k].done then Complete(p, k, o) else p
  }

  function Run(p: Pipe, events: seq<Event>, n: nat, o: Outcome): Pipe
    decreases |events|
  {
    if |events| == 0 then p else Run(Step(p, events[0], n, o), events[1..], n, o)
  }

  lemma {:induction false} RunInv(p: Pipe, events: seq<Event>, n: nat, o: Outcome)
    requires Inv(p, o) && Submitted(p) <= n
    ensures Inv(Run(p, events, n, o), o) && Submitted(Run(p, events, n, o)) <= n
    ensures p.ret != 0 ==> Run(p, events, n, o).ret != 0
    decreases |events|
  {
    if |events| > 0 {
      var q := Step(p, events[0], n, o);
      match events[0] {
        case SubmitNext =>
          if p.ret == 0 && Submitted(p) < n {
            SubmitInv(p, o);
            DrainReadyInv(Submit(p), o);
          }
        case Finish(k) =>
          if k < |p.queue| && !p.queue[k].done {
            CompleteInv(p, k, o);
          }
      }
      RunInv(q, events[1..], n, o);
    }
  }

  /** The whole multi-threaded run: the events, then the final drain. */
  function Parallel(idle: seq<nat>, objects: nat, events: seq<Event>, n: nat, o: Outcome): Pipe
  {
    var p := Run(Start(idle, objects), events, n, o);
    DrainAll(FinishAll(p, o), o)
  }

  lemma ExpectedMembers(n: nat, o: Outcome)
    ensures forall i: nat :: i in Expected(n, o) <==> i < n && Good(i, o)
    ensures forall a, b :: 0 <= a < b < |Expected(n, o)| ==> Expected(n, o)[a] < Expected(n, o)[b]
  {
    if n > 0 {
      ExpectedMembers(n - 1, o);
      var e := Expected(n - 1, o);
      forall a, b | 0 <= a < b < |Expected(n, o)|
        ensures Expected(n, o)[a] < Expected(n, o)[b]
      {
        if b >= |e| {
          assert Expected(n, o)[a] == e[a] && e[a] in e;
        }
      }
    }
  }

  /** The invariant holds at the end of a run, with every submitted item
      drained. */
  lemma ParallelInv(idle: seq<nat>, objects: nat, events: seq<Event>, n: nat, o: Outcome)
    requires multiset(idle) == Range(objects) && objects <= |idle|
    ensures var f := Parallel(idle, objects, events, n, o);
      && Inv(f, o) && f.queue == []
      && f.flushed == Submitted(Run(Start(idle, objects), events, n, o)) <= n
  {
    StartInv(idle, objects, o);
    RunInv(Start(idle, objects), events, n, o);
    var p := Run(Start(idle, objects), events, n, o);
    FinishAllInv(p, o);
    DrainAllInv(FinishAll(p, o), o);
  }

  /** Whatever order the workers finish in, after the final drain: every
      work object is back on the idle list exactly once; the output holds
      exactly the good items among those submitted, in strictly increasing
      submission order — including good items submitted after a bad one,
      which the final drain still writes; and the result is -EIO exactly
      when some submitted item was bad. */
  lemma ParallelOutput(idle: seq<nat>, objects: nat, events: seq<Event>, n: nat, o: Outcome)
    requires multiset(idle) == Range(objects) && objects <= |idle|
    ensures var f := Parallel(idle, objects, events, n, o);
      && f.queue == []
      && multiset(f.idle) == Range(f.objects)
      && f.flushed <= n
      && (forall i: nat :: i in f.written <==> i < f.flushed && Good(i, o))
      && (forall a, b :: 0 <= a < b < |f.written| ==> f.written[a] < f.written[b])
      && (f.ret == -Errno.EIO <==> AnyBad(f.flushed, o))
      && (f.ret == 0 <==> !AnyBad(f.flushed, o))
  {
    ParallelInv(idle, objects, events, n, o);
    var f := Parallel(idle, objects, events, n, o);
    ExpectedMembers(f.flushed, o);
  }

  /** If the main thread got to submit all n items and none was bad, the
      output is every item in order, 0 .. n-1. */
  lemma ParallelCleanRunWritesAll(idle: seq<nat>, objects: nat, events: seq<Event>, n: nat, o: Outcome)
    requires multiset(idle) == Range(objects) && objects <= |idle|
    requires Submitted(Run(Start(idle, objects), events, n, o)) == n
    requires o.hasOutput && forall i :: 0 <= i < n ==> !Bad(i, o)
    ensures var f := Parallel(idle, objects, events, n, o);
      f.ret == 0 && f.written == seq(n, i => i)
  {
    ParallelInv(idle, objects, events, n, o);
    CleanExpected(n, o);
    var f := Parallel(idle, objects, events, n, o);
    assert !AnyBad(f.flushed, o);
  }

  lemma {:induction false} CleanExpected(n: nat, o: Outcome)
    requires o.hasOutput && forall i :: 0 <= i < n ==> !Bad(i, o)
    ensures Expected(n, o) == seq(n, i => i)
  {
    if n > 0 {
      CleanExpected(n - 1, o);
      assert !Bad(n - 1, o);
      assert seq(n, i => i) == seq(n - 1, i => i) + [n - 1];
    }
  }

  /** The outcome of a run whose item i is the i-th extent handed to the
      decoder, with `workerDecode` giving the status a worker thread's
      decode returns for it. */
  function OutcomeOf(jobs: seq<ExtentWalk.Extent>, workerDecode: ExtentWalk.Extent -> ExtentWalk.DecodeStatus,
                     io: ExtentWalk.DecodeIo): (o: Outcome)
    ensures o.hasOutput
    ensures forall i: nat :: i < |jobs| ==> (o.failed(i) <==> workerDecode(jobs[i]) != 0)
    ensures forall i: nat :: i < |jobs| ==> (o.writeFails(i) <==> io.writeFails(jobs[i]))
  {
    Outcome((i: nat) => i < |jobs| && workerDecode(jobs[i]) != 0,
            (i: nat) => i < |jobs| && io.writeFails(jobs[i]),
            true)
  }

  /** On an output file, a run with all decoding extents submitted writes
      exactly what the single-threaded consumer writes when that one
      succeeds: the decoded extents, in walk order. The worker threads'
      decoder is a parameter of its own; the lemma holds when it succeeds
      wherever the single-threaded one does. */
  lemma ParallelMatchesSequential(steps: seq<ExtentWalk.Extent>, checkDecomp: bool,
                                  io: ExtentWalk.DecodeIo,
                                  workerDecode: ExtentWalk.Extent -> ExtentWalk.DecodeStatus,
                                  idle: seq<nat>, objects: nat, events: seq<Event>)
    requires multiset(idle) == Range(objects) && objects <= |idle|
    requires ExtentWalk.Consume(steps, checkDecomp, true, io).0 == 0
    requires forall x :: io.decode(x) == 0 ==> workerDecode(x) == 0
    requires var jobs := ExtentWalk.DecodedExtents(steps, checkDecomp);
      Submitted(Run(Start(idle, objects), events, |jobs|, OutcomeOf(jobs, workerDecode, io))) == |jobs|
    ensures var jobs := ExtentWalk.DecodedExtents(steps, checkDecomp);
      var f := Parallel(idle, objects, events, |jobs|, OutcomeOf(jobs, workerDecode, io));
      && f.ret == 0
      && f.written == seq(|jobs|, i => i)
      && ExtentWalk.Consume(steps, checkDecomp, true, io).1 == jobs
  {
    var jobs := ExtentWalk.DecodedExtents(steps, checkDecomp);
    var o := OutcomeOf(jobs, workerDecode, io);
    ExtentWalk.ConsumeCleanIff(steps, checkDecomp, io);
    forall i | 0 <= i < |jobs|
      ensures !Bad(i, o)
    {
      assert jobs[i] in jobs;
    }
    ParallelCleanRunWritesAll(idle, objects, events, |jobs|, o);
    ExtentWalk.ConsumeWritesDecodedInOrder(steps, checkDecomp, true, io);
  }
}
