/** The load-generating sender of pkg/sender/sender.rs. `start_sender`
    cycles over a table of four payloads: at each tick it resets the index to
    0 once it has run past the table, sends the selected payload, and on
    success advances the index and bumps the shared sent counter; on failure
    it retries the same payload at the next tick. `recv_another_thread`
    counts the replies until cancelled or until a receive fails. The cancel
    flag and the outcome of each send and receive are per-iteration inputs
    of the model. */
module Sender {
  import opened Bytes
  import opened Counters
  import opened Arith

  /** The payload table's length, `[&[u8; 100]; 4]`. */
  const BUFFER_COUNT: nat := 4

  /** The period of the send ticker, `1000 / frequency` milliseconds: `None`
      stands for the division by zero that panics when `frequency` is 0. */
  function TickPeriodMs(frequency: U64): (r: Option<nat>)
    ensures r.None? <==> frequency == 0
    ensures r.Some? ==> r.value * frequency <= 1000 < (r.value + 1) * frequency
  {
    if frequency == 0 then None else Some(1000 / frequency)
  }

  /** Above 1000 sends per second the integer division leaves a period of 0. */
  lemma TickPeriodVanishes(frequency: U64)
    requires frequency > 1000
    ensures TickPeriodMs(frequency) == Some(0)
  {
  }

  // ---------------------------------------------------------------------
  // The send loop

  /** What one loop iteration sees: the cancel flag at the loop head, and
      whether the send at that tick succeeds. */
  datatype Tick = Tick(cancelled: bool, sendOk: bool)

  /** One send: the table slot it used and whether it succeeded. */
  datatype Attempt = Attempt(slot: nat, ok: bool)

  /** The sends `start_sender` makes over `script`, starting from `index`
      over a table of `n` payloads. */
  function SendTrace(index: nat, script: seq<Tick>, n: nat): seq<Attempt>
    decreases |script|
  {
    if script == [] || script[0].cancelled then []
    else
      var slot := if index >= n then 0 else index;
      var ok := script[0].sendOk;
      [Attempt(slot, ok)] + SendTrace(if ok then slot + 1 else slot, script[1..], n)
  }

  /** How many of `attempts` succeeded. */
  function Successes(attempts: seq<Attempt>): (k: nat)
    ensures k <= |attempts|
  {
    if attempts == [] then 0 else (if attempts[0].ok then 1 else 0) + Successes(attempts[1..])
  }

  lemma {:induction false} SuccessesAppend(a: seq<Attempt>, b: seq<Attempt>)
    ensures Successes(a + b) == Successes(a) + Successes(b)
    decreases |a|
  {
    if a == [] {
      assert a + b == b;
    } else {
      assert (a + b)[1..] == a[1..] + b;
      SuccessesAppend(a[1..], b);
    }
  }

  /** Every send indexes the table in bounds: the reset comes before the
      indexing. */
  lemma {:induction false} SlotsInRange(index: nat, script: seq<Tick>, n: nat)
    requires n > 0
    ensures forall k :: 0 <= k < |SendTrace(index, script, n)| ==> SendTrace(index, script, n)[k].slot < n
    decreases |script|
  {
    if script != [] && !script[0].cancelled {
      var slot := if index >= n then 0 else index;
      SlotsInRange(if script[0].sendOk then slot + 1 else slot, script[1..], n);
    }
  }

  /** A failed send is retried with the same payload at the next tick. */
  lemma {:induction false} RetryKeepsSlot(index: nat, script: seq<Tick>, n: nat, k: nat)
    requires n > 0 && index <= n
    requires k + 1 < |SendTrace(index, script, n)| && !SendTrace(index, script, n)[k].ok
    ensures SendTrace(index, script, n)[k + 1].slot == SendTrace(index, script, n)[k].slot
    decreases |script|
  {
    var slot := if index >= n then 0 else index;
    var next := if script[0].sendOk then slot + 1 else slot;
    if k > 0 {
      RetryKeepsSlot(next, script[1..], n, k - 1);
    }
  }

  /** Payload rotation: every send uses the slot `index` advanced by the
      number of successes before it, modulo the table size. From index 0
      the k-th successful send therefore uses `buffers[k % 4]`, in the
      order 0, 1, 2, 3, 0, ... */
  lemma {:induction false} SlotCountsSuccesses(index: nat, script: seq<Tick>, n: nat, j: nat)
    requires n > 0 && index <= n
    requires j < |SendTrace(index, script, n)|
    ensures var trace := SendTrace(index, script, n);
      trace[j].slot == (index + Successes(trace[..j])) % n
    decreases |script|
  {
    var trace := SendTrace(index, script, n);
    var slot := if index >= n then 0 else index;
    assert slot == index % n by {
      if index == n {
        ModUnique(index, n, 1, 0);
      } else {
        ModUnique(index, n, 0, index);
      }
    }
    if j > 0 {
      var ok := script[0].sendOk;
      var next := if ok then slot + 1 else slot;
      var rest := SendTrace(next, script[1..], n);
      assert trace == [Attempt(slot, ok)] + rest;
      SlotCountsSuccesses(next, script[1..], n, j - 1);
      var s := Successes(rest[..j - 1]);
      var step := if ok then 1 else 0;
      assert Successes(trace[..j]) == step + s by {
        assert trace[..j] == [Attempt(slot, ok)] + rest[..j - 1];
        SuccessesAppend([Attempt(slot, ok)], rest[..j - 1]);
      }
      assert trace[j] == rest[j - 1];
      assert (next + s) % n == (index + (step + s)) % n by {
        ModShift(index, step + s, n);
      }
    } else {
      assert trace[..0] == [];
      assert index % n == (index + 0) % n;
    }
  }

  /** Once the cancel flag is seen at a loop head, no further send is made:
      ticks after it are never looked at. */
  lemma {:induction false} CancelStopsSending(index: nat, before: seq<Tick>, sendOk: bool, after: seq<Tick>, n: nat)
    requires forall k :: 0 <= k < |before| ==> !before[k].cancelled
    ensures SendTrace(index, before + [Tick(true, sendOk)] + after, n) == SendTrace(index, before, n)
    decreases |before|
  {
    var script := before + [Tick(true, sendOk)] + after;
    if before == [] {
      assert script[0].cancelled;
    } else {
      var slot := if index >= n then 0 else index;
      var next := if before[0].sendOk then slot + 1 else slot;
      assert script[1..] == before[1..] + [Tick(true, sendOk)] + after;
      CancelStopsSending(next, before[1..], sendOk, after, n);
    }
  }

  /** Without cancellation every tick makes exactly one send. */
  lemma {:induction false} OneSendPerTick(index: nat, script: seq<Tick>, n: nat)
    requires forall k :: 0 <= k < |script| ==> !script[k].cancelled
    ensures |SendTrace(index, script, n)| == |script|
    decreases |script|
  {
    if script != [] {
      var slot := if index >= n then 0 else index;
      OneSendPerTick(if script[0].sendOk then slot + 1 else slot, script[1..], n);
    }
  }

  /** One tick of the trace, read in the middle of a run. */
  lemma SendTraceStep(done: seq<Attempt>, index: nat, script: seq<Tick>, i: nat, n: nat)
    requires i < |script| && !script[i].cancelled && index < n
    ensures var ok := script[i].sendOk;
      (done + [Attempt(index, ok)]) + SendTrace(if ok then index + 1 else index, script[i + 1..], n)
        == done + SendTrace(index, script[i..], n)
  {
    assert script[i..][1..] == script[i + 1..];
    var ok := script[i].sendOk;
    AppendAssoc(done, [Attempt(index, ok)], SendTrace(if ok then index + 1 else index, script[i + 1..], n));
  }

  /** The loop of `start_sender` (lines 60-83) over a finite run of ticks;
      `sent` is the shared sent counter. Returns the sends made, in order,
      and the payload each of them handed to the socket. */
  method StartSender(buffers: seq<seq<Byte>>, script: seq<Tick>, sent: Counter)
      returns (attempts: seq<Attempt>, payloads: seq<seq<Byte>>)
    requires |buffers| == BUFFER_COUNT && sent.Valid()
    modifies sent
    ensures attempts == SendTrace(0, script, BUFFER_COUNT)
    ensures sent.Valid() && sent.window == old(sent.window) + Successes(attempts)
    ensures |payloads| == |attempts|
    ensures forall k :: 0 <= k < |attempts| ==> attempts[k].slot < |buffers| && payloads[k] == buffers[attempts[k].slot]
  {
    var index := 0;
    var i := 0;
    attempts := [];
    payloads := [];
    while i < |script|
      invariant 0 <= i <= |script| && index <= BUFFER_COUNT
      invariant attempts + SendTrace(index, script[i..], BUFFER_COUNT) == SendTrace(0, script, BUFFER_COUNT)
      invariant sent.Valid() && sent.window == old(sent.window) + Successes(attempts)
      invariant |payloads| == |attempts|
      invariant forall k :: 0 <= k < |attempts| ==> attempts[k].slot < |buffers| && payloads[k] == buffers[attempts[k].slot]
    {
      if script[i].cancelled {
        break;
      }
      if index >= |buffers| {
        index := 0;
      }
      var buf := buffers[index];
      var ok := script[i].sendOk;
      SendTraceStep(attempts, index, script, i, BUFFER_COUNT);
      SuccessesAppend(attempts, [Attempt(index, ok)]);
      attempts := attempts + [Attempt(index, ok)];
      payloads := payloads + [buf];
      i := i + 1;
      if ok {
        index := index + 1;
        sent.Increment();
      }
    }
  }

  // ---------------------------------------------------------------------
  // The receive loop

  /** What one iteration of `recv_another_thread` sees: the cancel flag at
      the loop head and the receive's outcome (the datagram, or an error). */
  datatype RecvTick = RecvTick(cancelled: bool, datagram: Option<seq<Byte>>)

  /** Why the receive loop stopped; `Exhausted` means the finite run ended
      with the loop still going. */
  datatype RecvStop = Cancelled | RecvError | Exhausted

  datatype RecvRun = RecvRun(received: nat, stop: RecvStop)

  /** The replies counted before the loop stops, and why it stopped. */
  function RecvTrace(script: seq<RecvTick>): (r: RecvRun)
    ensures r.received <= |script|
    decreases |script|
  {
    if script == [] then RecvRun(0, Exhausted)
    else if script[0].cancelled then RecvRun(0, Cancelled)
    else if script[0].datagram.None? then RecvRun(0, RecvError)
    else
      var rest := RecvTrace(script[1..]);
      RecvRun(rest.received + 1, rest.stop)
  }

  predicate Receives(t: RecvTick)
  {
    !t.cancelled && t.datagram.Some?
  }

  /** The first failed receive ends the loop; nothing after it is looked at. */
  lemma {:induction false} FirstErrorEndsReceiving(before: seq<RecvTick>, after: seq<RecvTick>)
    requires forall k :: 0 <= k < |before| ==> Receives(before[k])
    ensures RecvTrace(before + [RecvTick(false, None)] + after) == RecvRun(|before|, RecvError)
    decreases |before|
  {
    if before != [] {
      assert (before + [RecvTick(false, None)] + after)[1..] == before[1..] + [RecvTick(false, None)] + after;
      FirstErrorEndsReceiving(before[1..], after);
    }
  }

  /** A cancel flag seen at the loop head ends the loop before the receive. */
  lemma {:induction false} CancelEndsReceiving(before: seq<RecvTick>, datagram: Option<seq<Byte>>, after: seq<RecvTick>)
    requires forall k :: 0 <= k < |before| ==> Receives(before[k])
    ensures RecvTrace(before + [RecvTick(true, datagram)] + after) == RecvRun(|before|, Cancelled)
    decreases |before|
  {
    if before != [] {
      assert (before + [RecvTick(true, datagram)] + after)[1..] == before[1..] + [RecvTick(true, datagram)] + after;
      CancelEndsReceiving(before[1..], datagram, after);
    }
  }

  /** The loop of `recv_another_thread` (lines 105-124) over a finite run;
      `recvCounter` is the shared received counter. It always ends in
      `Ok(())`, which the model leaves implicit. */
  method RecvAnotherThread(script: seq<RecvTick>, recvCounter: Counter) returns (stop: RecvStop)
    requires recvCounter.Valid()
    modifies recvCounter
    ensures stop == RecvTrace(script).stop
    ensures recvCounter.Valid()
    ensures recvCounter.window == old(recvCounter.window) + RecvTrace(script).received
  {
    var i := 0;
    stop := Exhausted;
    while i < |script|
      invariant 0 <= i <= |script|
      invariant RecvTrace(script[i..]).stop == RecvTrace(script).stop
      invariant recvCounter.Valid()
      invariant recvCounter.window + RecvTrace(script[i..]).received
             == old(recvCounter.window) + RecvTrace(script).received
    {
      assert script[i..][1..] == script[i + 1..];
      if script[i].cancelled {
        stop := Cancelled;
        return;
      }
      if script[i].datagram.None? {
        stop := RecvError;
        return;
      }
      recvCounter.Increment();
      i := i + 1;
    }
  }
}
