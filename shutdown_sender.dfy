/** The cancellable sender of pkg/shutdown/sender.rs. Unlike the sender of
    pkg/sender/sender.rs it takes any number of payloads, advances its index
    after every send (wrapping to 0 at the end of the table) and gives up
    with an error on the first failed send. The cancellation token is read at
    the head of every iteration; the payload table is indexed without a
    check, so an empty table panics at the first send. */
module ShutdownSender {
  import opened Bytes
  import opened Arith
  import Sender

  type Tick = Sender.Tick

  /** How `start_sender` ends: `Finished` is the `Ok(())` after cancellation,
      `Failed` the `Err` of a failed send, `Panicked` a division by zero, a zero timer period or
      an out-of-bounds index, and `StillRunning` a finite run that ended
      with the loop still going. */
  datatype Exit = Finished | Failed | Panicked | StillRunning

  /** The table slots of the successful sends, in order, and how the run
      ended. */
  datatype Run = Run(slots: seq<nat>, exit: Exit)

  /** The `while` loop (lines 21-30) from `index`, over a table of `n`
      payloads. */
  function ShutdownRun(n: nat, index: nat, script: seq<Tick>): (r: Run)
    ensures |r.slots| <= |script|
    ensures r.exit == Panicked ==> index >= n || n == 0
    decreases |script|
  {
    if script == [] then Run([], StillRunning)
    else if script[0].cancelled then Run([], Finished)
    else if index >= n then Run([], Panicked)
    else if !script[0].sendOk then Run([], Failed)
    else
      var next := if index + 1 >= n then 0 else index + 1;
      var rest := ShutdownRun(n, next, script[1..]);
      Run([index] + rest.slots, rest.exit)
  }

  /** `time::interval(Duration::from_millis(1000 / frequency))` panics
      before any send: on the division by zero when `frequency` is 0, and
      because tokio's `interval` refuses a zero period when `frequency` is
      above 1000. */
  predicate IntervalPanics(frequency: U64)
  {
    var period := Sender.TickPeriodMs(frequency);
    period.None? || period.value == 0
  }

  /** The whole of `start_sender` after its socket is connected: the ticker
      is created first, and a frequency it cannot serve panics before any
      send. */
  function ShutdownSend(frequency: U64, n: nat, script: seq<Tick>): (r: Run)
    ensures |r.slots| <= |script|
    ensures r.exit == Panicked ==> frequency == 0 || frequency > 1000 || n == 0
    ensures frequency == 0 || frequency > 1000 ==> r == Run([], Panicked)
  {
    if IntervalPanics(frequency) then Run([], Panicked) else ShutdownRun(n, 0, script)
  }

  /** Payload rotation: starting at `index`, the k-th send uses slot
      `(index + k) % n`; from 0 that is `buffers[k % n]`. */
  lemma {:induction false} RunSlotsRotate(n: nat, index: nat, script: seq<Tick>)
    requires index < n
    ensures forall k :: 0 <= k < |ShutdownRun(n, index, script).slots| ==>
      ShutdownRun(n, index, script).slots[k] == (index + k) % n
    decreases |script|
  {
    var run := ShutdownRun(n, index, script);
    if script != [] && !script[0].cancelled && script[0].sendOk {
      var next := if index + 1 >= n then 0 else index + 1;
      var rest := ShutdownRun(n, next, script[1..]);
      RunSlotsRotate(n, next, script[1..]);
      assert run.slots == [index] + rest.slots;
      forall k | 0 <= k < |run.slots|
        ensures run.slots[k] == (index + k) % n
      {
        if k == 0 {
          ModUnique(index, n, 0, index);
        } else {
          assert run.slots[k] == rest.slots[k - 1];
          ModSucc(index, n);
          ModUnique(index, n, 0, index);
          assert next == (index + 1) % n;
          assert rest.slots[k - 1] == (next + (k - 1)) % n;
          ModShift(index + 1, k - 1, n);
          assert index + 1 + (k - 1) == index + k;
        }
      }
    }
  }

  /** An empty table panics at the first send that is not cancelled. */
  lemma EmptyTablePanics(index: nat, script: seq<Tick>)
    requires script != [] && !script[0].cancelled
    ensures ShutdownRun(0, index, script) == Run([], Panicked)
  {
  }

  /** A non-empty table is always indexed in bounds. */
  lemma {:induction false} NonEmptyNeverPanics(n: nat, index: nat, script: seq<Tick>)
    requires index < n
    ensures ShutdownRun(n, index, script).exit != Panicked
    ensures forall k :: 0 <= k < |ShutdownRun(n, index, script).slots| ==> ShutdownRun(n, index, script).slots[k] < n
    decreases |script|
  {
    if script != [] && !script[0].cancelled && script[0].sendOk {
      NonEmptyNeverPanics(n, if index + 1 >= n then 0 else index + 1, script[1..]);
    }
  }

  predicate Sends(t: Tick)
  {
    !t.cancelled && t.sendOk
  }

  /** The first failed send ends the sender with an error: nothing after it
      is sent. */
  lemma {:induction false} FailureAborts(n: nat, index: nat, before: seq<Tick>, after: seq<Tick>)
    requires index < n
    requires forall k :: 0 <= k < |before| ==> Sends(before[k])
    ensures var run := ShutdownRun(n, index, before + [Sender.Tick(false, false)] + after);
      run.exit == Failed && |run.slots| == |before|
    decreases |before|
  {
    var script := before + [Sender.Tick(false, false)] + after;
    if before != [] {
      assert script[1..] == before[1..] + [Sender.Tick(false, false)] + after;
      FailureAborts(n, if index + 1 >= n then 0 else index + 1, before[1..], after);
    }
  }

  /** Cancellation seen at the loop head ends the sender with `Ok(())`. */
  lemma {:induction false} CancelFinishes(n: nat, index: nat, before: seq<Tick>, sendOk: bool, after: seq<Tick>)
    requires index < n
    requires forall k :: 0 <= k < |before| ==> Sends(before[k])
    ensures var run := ShutdownRun(n, index, before + [Sender.Tick(true, sendOk)] + after);
      run.exit == Finished && |run.slots| == |before|
    decreases |before|
  {
    var script := before + [Sender.Tick(true, sendOk)] + after;
    if before != [] {
      assert script[1..] == before[1..] + [Sender.Tick(true, sendOk)] + after;
      CancelFinishes(n, if index + 1 >= n then 0 else index + 1, before[1..], sendOk, after);
    }
  }

  /** One iteration of the loop, taken at position `i` of the ticks. */
  lemma ShutdownRunStep(n: nat, index: nat, script: seq<Tick>, i: nat)
    requires i < |script|
    ensures ShutdownRun(n, index, script[i..])
         == if script[i].cancelled then Run([], Finished)
            else if index >= n then Run([], Panicked)
            else if !script[i].sendOk then Run([], Failed)
            else
              var rest := ShutdownRun(n, if index + 1 >= n then 0 else index + 1, script[i + 1..]);
              Run([index] + rest.slots, rest.exit)
  {
    assert script[i..][1..] == script[i + 1..];
  }

  /** `start_sender` (lines 17-32) over a finite run of ticks. Returns the
      slots and payloads of the successful sends and how it ended. */
  method StartSender(frequency: U64, buffers: seq<seq<Byte>>, script: seq<Tick>)
      returns (slots: seq<nat>, sent: seq<seq<Byte>>, exit: Exit)
    ensures Run(slots, exit) == ShutdownSend(frequency, |buffers|, script)
    ensures |sent| == |slots|
    ensures forall k :: 0 <= k < |sent| ==> slots[k] < |buffers| && sent[k] == buffers[slots[k]]
  {
    slots := [];
    sent := [];
    var period := Sender.TickPeriodMs(frequency);
    if period.None? || period.value == 0 {
      exit := Panicked;
      return;
    }
    var n := |buffers|;
    var index := 0;
    var i := 0;
    while i < |script|
      invariant 0 <= i <= |script|
      invariant index < n || index == 0
      invariant var rest := ShutdownRun(n, index, script[i..]);
        ShutdownRun(n, 0, script) == Run(slots + rest.slots, rest.exit)
      invariant |sent| == |slots|
      invariant forall k :: 0 <= k < |sent| ==> slots[k] < n && sent[k] == buffers[slots[k]]
    {
      ShutdownRunStep(n, index, script, i);
      if script[i].cancelled {
        exit := Finished;
        return;
      }
      if index >= n {
        exit := Panicked;
        return;
      }
      var buf := buffers[index];
      if !script[i].sendOk {
        exit := Failed;
        return;
      }
      ghost var next := if index + 1 >= n then 0 else index + 1;
      AppendAssoc(slots, [index], ShutdownRun(n, next, script[i + 1..]).slots);
      slots := slots + [index];
      sent := sent + [buf];
      index := index + 1;
      if index >= n {
        index := 0;
      }
      i := i + 1;
    }
    assert script[i..] == [];
    exit := StillRunning;
  }
}
