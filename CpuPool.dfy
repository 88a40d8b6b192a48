/**
 * The ordered JPEG encode scheduler (`src/cpu_pool/mod.rs`): frames are
 * handed to a pool of workers under increasing indices and the encoded
 * results are handed back strictly in index order, at most one per call.
 *
 * The worker threads and the encoder are not modelled: the results they
 * have sent back by the time a call drains its channel are an input, a
 * sequence of completions.
 */
module CpuPool {
  import opened Bytes

  /** A worker's answer: the encoded bytes of the job with this index. */
  datatype Completion = Completion(index: nat, jpeg: seq<byte>)

  /** `ready` after the completions, in order, have been inserted into it. */
  function InsertAll(ready: map<nat, seq<byte>>, cs: seq<Completion>): (r: map<nat, seq<byte>>)
    ensures forall i :: i in r <==> i in ready || exists k :: 0 <= k < |cs| && cs[k].index == i
  {
    if cs == [] then ready
    else
      var last := cs[|cs| - 1];
      var front := cs[..|cs| - 1];
      assert forall k :: 0 <= k < |front| ==> front[k] == cs[k];
      InsertAll(ready, front)[last.index := last.jpeg]
  }

  /** Taking one more completion files it on top of the ones before. */
  lemma InsertAllSnoc(ready: map<nat, seq<byte>>, cs: seq<Completion>, i: nat)
    requires i < |cs|
    ensures InsertAll(ready, cs[..i + 1]) == InsertAll(ready, cs[..i])[cs[i].index := cs[i].jpeg]
  {
    assert cs[..i + 1][..i] == cs[..i];
  }

  /** With distinct indices, each completion's bytes are filed under its own index. */
  lemma {:induction false} InsertAllAt(ready: map<nat, seq<byte>>, cs: seq<Completion>, k: nat)
    requires k < |cs|
    requires forall a, b :: 0 <= a < b < |cs| ==> cs[a].index != cs[b].index
    ensures InsertAll(ready, cs)[cs[k].index] == cs[k].jpeg
  {
    if k < |cs| - 1 {
      var front := cs[..|cs| - 1];
      InsertAllAt(ready, front, k);
      assert front[k] == cs[k];
    }
  }

  /** Entries that no completion touches keep their value. */
  lemma {:induction false} InsertAllOther(ready: map<nat, seq<byte>>, cs: seq<Completion>, i: nat)
    requires i in ready
    requires forall k :: 0 <= k < |cs| ==> cs[k].index != i
    ensures InsertAll(ready, cs)[i] == ready[i]
  {
    if cs != [] {
      var front := cs[..|cs| - 1];
      assert forall k :: 0 <= k < |front| ==> front[k] == cs[k];
      InsertAllOther(ready, front, i);
    }
  }

  /** The scheduler's shared state: `NEXT`, `CURRENT`, `BUSY`, `MAX_WORKERS` and `READY`. */
  class Pool {
    var next: nat
    var current: nat
    var busy: nat
    const maxWorkers: nat
    var ready: map<nat, seq<byte>>

    /** The indices handed to a worker whose result has not yet been drained. */
    ghost var inFlight: set<nat>
    /** The data of each submitted job, by index. */
    ghost var jobs: seq<seq<byte>>
    /** The bytes each drained job came back with, by index. */
    ghost var results: map<nat, seq<byte>>
    /** Every result handed back so far, in the order it was handed back. */
    ghost var released: seq<seq<byte>>

    /**
     * The ordering invariant: every index below `next` was submitted; those
     * below `current` have been handed back, in index order; each index in
     * `[current, next)` is either still with a worker or waiting in `ready`.
     */
    ghost predicate Valid()
      reads this
    {
      && busy == |inFlight| && busy <= maxWorkers
      && current <= next && |jobs| == next
      && (forall i: nat :: i in inFlight ==> current <= i < next)
      && (forall i: nat :: i in ready ==> current <= i < next && i !in inFlight)
      && (forall i: nat :: current <= i < next ==> i in inFlight || i in ready)
      && (forall i: nat :: i in results <==> i < next && i !in inFlight)
      && (forall i: nat :: i in ready ==> ready[i] == results[i])
      && |released| == current
      && (forall i: nat :: i < current ==> i in results && released[i] == results[i])
    }

    /** The pool as `init_pool` leaves it, with one worker per CPU. */
    constructor (workers: nat)
      ensures Valid()
      ensures maxWorkers == workers && next == 0 && current == 0 && busy == 0 && ready == map[]
      ensures released == []
    {
      maxWorkers := workers;
      next := 0;
      current := 0;
      busy := 0;
      ready := map[];
      inFlight := {};
      jobs := [];
      results := map[];
      released := [];
    }

    /** Whether a call with `data` hands it to a worker. */
    predicate Submits(data: seq<byte>)
      reads this
    {
      |data| > 0 && busy < maxWorkers
    }

    /**
     * What the workers can have sent back on a call that submits or not:
     * each in-flight job (the one just submitted included) at most once.
     */
    ghost predicate CompletionsFit(cs: seq<Completion>, submits: bool)
      reads this
    {
      && (forall a, b :: 0 <= a < b < |cs| ==> cs[a].index != cs[b].index)
      && (forall k :: 0 <= k < |cs| ==> cs[k].index in inFlight || (submits && cs[k].index == next))
    }

    /**
     * `encode_jpeg_pool`: submit `data` when it is non-empty and a worker is
     * free, file every drained completion under its index, then hand back
     * the result for `CURRENT` if it has arrived, or nothing.
     */
    method EncodeJpegPool(data: seq<byte>, completions: seq<Completion>) returns (out: seq<byte>)
      requires Valid()
      requires CompletionsFit(completions, Submits(data))
      modifies this
      ensures Valid()
      ensures var s := old(Submits(data));
        && next == old(next) + (if s then 1 else 0)
        && jobs == old(jobs) + (if s then [data] else [])
        && busy == old(busy) + (if s then 1 else 0) - |completions|
      ensures var filed := InsertAll(old(ready), completions);
        if old(current) in filed then
          && out == filed[old(current)]
          && current == old(current) + 1
          && ready == filed - {old(current)}
          && released == old(released) + [out]
        else
          && out == []
          && current == old(current)
          && ready == filed
          && released == old(released)
    {
      if |data| > 0 && busy < maxWorkers {
        Submit(data);
      }
      DrainAll(completions);
      out := Release();
    }

    /** The `while let Ok(..) = rx.try_recv()` loop: file every completion the workers have sent. */
    method DrainAll(completions: seq<Completion>)
      requires Valid()
      requires forall a, b :: 0 <= a < b < |completions| ==> completions[a].index != completions[b].index
      requires forall k :: 0 <= k < |completions| ==> completions[k].index in inFlight
      modifies this
      ensures Valid()
      ensures ready == InsertAll(old(ready), completions)
      ensures busy == old(busy) - |completions|
      ensures next == old(next) && jobs == old(jobs)
      ensures current == old(current) && released == old(released)
    {
      var i := 0;
      while i < |completions|
        invariant 0 <= i <= |completions|
        invariant Valid()
        invariant ready == InsertAll(old(ready), completions[..i])
        invariant forall k :: i <= k < |completions| ==> completions[k].index in inFlight
        invariant busy + i == old(busy)
        invariant next == old(next) && jobs == old(jobs)
        invariant current == old(current) && released == old(released)
      {
        var c := completions[i];
        InsertAllSnoc(old(ready), completions, i);
        forall k | i < k < |completions| ensures completions[k].index != c.index {
          assert completions[i].index != completions[k].index;
        }
        DrainOne(c);
        i := i + 1;
      }
      assert completions[..i] == completions;
    }

    /** Hand `data` to a worker under index `NEXT`. */
    method Submit(data: seq<byte>)
      requires Valid() && busy < maxWorkers
      modifies this
      ensures Valid()
      ensures next == old(next) + 1 && busy == old(busy) + 1
      ensures inFlight == old(inFlight) + {old(next)} && jobs == old(jobs) + [data]
      ensures ready == old(ready) && current == old(current) && released == old(released)
    {
      jobs := jobs + [data];
      inFlight := inFlight + {next};
      next := next + 1;
      busy := busy + 1;
    }

    /** File one drained completion: one worker fewer is busy and its bytes wait in `READY`. */
    method DrainOne(c: Completion)
      requires Valid() && c.index in inFlight
      modifies this
      ensures Valid()
      ensures busy == old(busy) - 1 && inFlight == old(inFlight) - {c.index}
      ensures ready == old(ready)[c.index := c.jpeg]
      ensures next == old(next) && jobs == old(jobs)
      ensures current == old(current) && released == old(released)
    {
      busy := busy - 1;
      ready := ready[c.index := c.jpeg];
      inFlight := inFlight - {c.index};
      results := results[c.index := c.jpeg];
    }

    /** Hand back the result for `CURRENT` and advance it, or hand back nothing. */
    method Release() returns (out: seq<byte>)
      requires Valid()
      modifies this
      ensures Valid()
      ensures old(current) in old(ready) ==>
        && out == old(ready)[old(current)]
        && current == old(current) + 1
        && ready == old(ready) - {old(current)}
        && released == old(released) + [out]
      ensures old(current) !in old(ready) ==>
        out == [] && current == old(current) && ready == old(ready) && released == old(released)
      ensures next == old(next) && jobs == old(jobs) && busy == old(busy)
    {
      if current in ready {
        out := ready[current];
        ready := ready - {current};
        released := released + [out];
        current := current + 1;
      } else {
        out := [];
      }
    }

    /** `workers_full`: every worker is busy, so the next call submits nothing. */
    function WorkersFull(): (full: bool)
      reads this
      ensures full ==> forall data: seq<byte> :: !Submits(data)
      ensures !full ==> forall data: seq<byte> :: |data| > 0 ==> Submits(data)
    {
      busy >= maxWorkers
    }

    /** Under the invariant, the pool is full exactly when every worker holds a job. */
    lemma FullMeansAllBusy()
      requires Valid()
      ensures WorkersFull() <==> busy == maxWorkers && |inFlight| == maxWorkers
    {
    }
  }
}
