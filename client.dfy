/** The load-test client (cmd/client/src/main.rs): its fixed payload table,
    the choice of local address, and the once-a-second report that drains
    the sent and received counters and prints the bandwidth. The sender
    tasks it spawns are modelled in `Sender`; while the reporter sleeps they
    bump the counters, which the model takes as inputs. */
module Client {
  import opened Bytes
  import opened Counters
  import opened Net
  import Sender
  import Arith

  // ---------------------------------------------------------------------
  // The payload table (lines 52-80)

  const BUFFER1: seq<Byte> := [
    43, 20, 193, 151, 203, 27, 136, 87, 216, 82, 131, 147, 1, 55, 252, 8, 148, 181, 244, 139,
    13, 221, 95, 240, 225, 196, 121, 104, 250, 37, 96, 199, 202, 189, 37, 21, 38, 191, 143, 70,
    5, 216, 158, 166, 157, 90, 174, 206, 83, 233, 103, 2, 196, 72, 222, 56, 103, 189, 62, 182,
    103, 108, 249, 243, 6, 149, 13, 197, 50, 69, 99, 55, 38, 165, 163, 23, 13, 200, 12, 98,
    26, 128, 194, 47, 144, 149, 15, 212, 13, 64, 147, 2, 211, 20, 151, 117, 35, 99, 55, 190
  ]

  const BUFFER2: seq<Byte> := [
    27, 94, 176, 86, 163, 253, 229, 85, 137, 72, 97, 184, 211, 242, 77, 174, 120, 22, 203, 44,
    85, 92, 116, 82, 41, 6, 103, 67, 176, 239, 54, 251, 228, 123, 150, 32, 178, 8, 41, 229,
    183, 91, 201, 100, 233, 229, 200, 134, 53, 176, 45, 233, 230, 132, 130, 122, 1, 150, 35, 74,
    12, 228, 216, 133, 184, 47, 193, 241, 103, 189, 189, 243, 171, 221, 241, 106, 220, 147, 38, 0,
    136, 192, 146, 7, 156, 214, 2, 0, 66, 23, 176, 150, 191, 216, 23, 166, 243, 58, 206, 166
  ]

  const BUFFER3: seq<Byte> := [
    30, 242, 84, 106, 32, 165, 69, 14, 65, 140, 213, 143, 130, 25, 117, 106, 192, 142, 18, 206,
    125, 104, 184, 51, 217, 22, 197, 160, 19, 77, 188, 134, 121, 53, 192, 203, 192, 246, 166, 166,
    171, 151, 180, 101, 17, 142, 134, 98, 1, 157, 111, 231, 122, 169, 255, 151, 236, 68, 31, 195,
    30, 202, 232, 12, 2, 82, 107, 203, 172, 38, 94, 70, 16, 86, 240, 86, 44, 66, 98, 152,
    23, 11, 147, 162, 101, 241, 221, 221, 85, 205, 96, 52, 106, 87, 219, 36, 185, 158, 24, 227
  ]

  const BUFFER4: seq<Byte> := [
    79, 160, 134, 47, 159, 103, 34, 162, 74, 33, 148, 212, 252, 24, 169, 36, 229, 65, 84, 163,
    156, 104, 178, 185, 9, 150, 147, 139, 31, 137, 19, 169, 3, 20, 175, 97, 173, 97, 55, 215,
    11, 2, 120, 114, 41, 70, 89, 132, 17, 134, 199, 135, 110, 80, 105, 208, 203, 230, 28, 143,
    36, 229, 200, 25, 226, 79, 117, 38, 155, 202, 160, 208, 3, 10, 255, 96, 20, 230, 194, 106,
    173, 6, 235, 39, 109, 21, 180, 55, 150, 20, 130, 152, 55, 63, 247, 115, 91, 67, 74, 165
  ]

  /** `BUFFERS`: the four payloads, in order. */
  const BUFFERS: seq<seq<Byte>> := [BUFFER1, BUFFER2, BUFFER3, BUFFER4]

  /** The table has the shape `start_sender` expects, `[&[u8; 100]; 4]`,
      with BUFFER1 to BUFFER4 in that order. */
  lemma BuffersShape()
    ensures |BUFFERS| == Sender.BUFFER_COUNT
    ensures forall i :: 0 <= i < |BUFFERS| ==> |BUFFERS[i]| == 100
    ensures BUFFERS[0] == BUFFER1 && BUFFERS[1] == BUFFER2 && BUFFERS[2] == BUFFER3 && BUFFERS[3] == BUFFER4
  {
  }

  // ---------------------------------------------------------------------
  // The local address (lines 95-101)

  /** The address the senders bind: `0.0.0.0:0` when the server address is
      IPv4, `[::]:0` otherwise. */
  function LocalAddrFor(server: SocketAddr): (local: SocketAddr)
    ensures local.port == 0 && Unspecified(local.ip)
    ensures local.ip.V4? <==> server.ip.V4?
  {
    if server.ip.V4? then SocketAddr(V4([0, 0, 0, 0]), 0)
    else SocketAddr(V6([0, 0, 0, 0, 0, 0, 0, 0]), 0)
  }

  // ---------------------------------------------------------------------
  // The bandwidth report (lines 146-162)

  /** Bytes per sent payload and per received reply, as the report counts
      them. */
  const SENT_BYTES: nat := 100
  const RECV_BYTES: nat := 64
  const MEBIBYTE: nat := 1024 * 1024

  /** Reduction modulo 2^64: the `u64` arithmetic of a release build, where
      overflow wraps. */
  function Wrap(x: nat): (r: U64)
    ensures x < U64_MODULUS ==> r == x
  {
    x % U64_MODULUS
  }

  /** `(sent_count * 100 + recv_count * 64) / (1024 * 1024)` in `u64`. */
  function BandwidthMb(sent: U64, recv: U64): (mb: U64)
    ensures mb < 0x1000_0000_0000
  {
    Wrap(Wrap(Wrap(sent * SENT_BYTES) + Wrap(recv * RECV_BYTES))) / MEBIBYTE
  }

  /** The bytes a second's traffic amounts to, without wrap-around. */
  function TrafficBytes(sent: nat, recv: nat): nat
  {
    sent * SENT_BYTES + recv * RECV_BYTES
  }

  /** Wrapping each step is wrapping once at the end. */
  lemma WrapSum(a: nat, b: nat)
    ensures Wrap(Wrap(a) + Wrap(b)) == Wrap(a + b)
  {
    var M := U64_MODULUS;
    var qa, qb := a / M, b / M;
    assert a == qa * M + a % M && b == qb * M + b % M;
    var s := a % M + b % M;
    assert a + b == (qa + qb) * M + s;
    if s < M {
      Arith.ModUnique(a + b, M, qa + qb, s);
    } else {
      assert a + b == (qa + qb + 1) * M + (s - M);
      Arith.ModUnique(a + b, M, qa + qb + 1, s - M);
    }
  }

  /** The report is the whole mebibytes of traffic, computed modulo 2^64:
      `total_mb * 2^20 <= traffic mod 2^64 < (total_mb + 1) * 2^20`. When
      the traffic fits in 64 bits this is the exact floor. */
  lemma BandwidthIsFloor(sent: U64, recv: U64)
    ensures var mb := BandwidthMb(sent, recv);
      var t := Wrap(TrafficBytes(sent, recv));
      mb * MEBIBYTE <= t < (mb + 1) * MEBIBYTE
    ensures TrafficBytes(sent, recv) < U64_MODULUS ==>
      BandwidthMb(sent, recv) == TrafficBytes(sent, recv) / MEBIBYTE
  {
    WrapSum(sent * SENT_BYTES, recv * RECV_BYTES);
  }

  /** Less traffic never reports more, as long as nothing wraps. */
  lemma BandwidthMonotone(s1: U64, r1: U64, s2: U64, r2: U64)
    requires s1 <= s2 && r1 <= r2 && TrafficBytes(s2, r2) < U64_MODULUS
    ensures BandwidthMb(s1, r1) <= BandwidthMb(s2, r2)
  {
    var t1, t2 := TrafficBytes(s1, r1), TrafficBytes(s2, r2);
    var mb1, mb2 := BandwidthMb(s1, r1), BandwidthMb(s2, r2);
    assert t1 <= t2;
    assert mb1 * MEBIBYTE <= t1 by {
      BandwidthIsFloor(s1, r1);
    }
    assert t2 < (mb2 + 1) * MEBIBYTE by {
      BandwidthIsFloor(s2, r2);
    }
  }

  /** Less than a mebibyte of traffic reports 0. */
  lemma BandwidthBelowMebibyte(sent: U64, recv: U64)
    requires TrafficBytes(sent, recv) < MEBIBYTE
    ensures BandwidthMb(sent, recv) == 0
  {
    BandwidthIsFloor(sent, recv);
  }

  /** One reporter iteration: what the counters had accumulated, and the
      reported bandwidth. */
  datatype Report = Report(sent: U64, recv: U64, totalMb: U64)

  /** One second of the reporter: how often the senders bumped the sent and
      received counters during the sleep, and whether the cancel flag is set
      when the reporter checks it. */
  datatype ReportTick = ReportTick(sentDuring: nat, recvDuring: nat, cancelled: bool)

  /** The report of one second, from counters holding `sent0` and `recv0`
      increments before it. */
  function ReportOf(sent0: nat, recv0: nat, t: ReportTick): Report
  {
    var s := Wrap(sent0 + t.sentDuring);
    var r := Wrap(recv0 + t.recvDuring);
    Report(s, r, BandwidthMb(s, r))
  }

  /** The report made from the drained counts is the second's report. */
  lemma DrainedReport(sent0: nat, recv0: nat, t: ReportTick, sentCount: U64, recvCount: U64)
    requires sentCount == Wrap(sent0 + t.sentDuring) && recvCount == Wrap(recv0 + t.recvDuring)
    ensures Report(sentCount, recvCount, BandwidthMb(sentCount, recvCount)) == ReportOf(sent0, recv0, t)
  {
  }

  /** The reports the loop prints over `script`, starting from counters that
      hold `sent0` and `recv0` increments. */
  function ReportTrace(sent0: nat, recv0: nat, script: seq<ReportTick>): (r: seq<Report>)
    ensures |r| <= |script|
    ensures forall k :: 0 <= k < |r| ==> r[k].totalMb == BandwidthMb(r[k].sent, r[k].recv)
    decreases |script|
  {
    if script == [] then []
    else
      var report := ReportOf(sent0, recv0, script[0]);
      if script[0].cancelled then [report] else [report] + ReportTrace(0, 0, script[1..])
  }

  /** The loop makes one last drain and report in the iteration that sees
      the cancel flag, then stops: later ticks are never reached. */
  lemma {:induction false} StopsAfterCancelledReport(sent0: nat, recv0: nat, before: seq<ReportTick>,
                                                    last: ReportTick, after: seq<ReportTick>)
    requires forall k :: 0 <= k < |before| ==> !before[k].cancelled
    requires last.cancelled
    ensures var trace := ReportTrace(sent0, recv0, before + [last] + after);
      trace == ReportTrace(sent0, recv0, before + [last]) && |trace| == |before| + 1
    decreases |before|
  {
    if before == [] {
      assert before + [last] + after == [last] + after;
    } else {
      assert (before + [last] + after)[1..] == before[1..] + [last] + after;
      assert (before + [last])[1..] == before[1..] + [last];
      StopsAfterCancelledReport(0, 0, before[1..], last, after);
    }
  }

  function TotalSent(reports: seq<Report>): nat
  {
    if reports == [] then 0 else reports[0].sent + TotalSent(reports[1..])
  }

  function TotalRecv(reports: seq<Report>): nat
  {
    if reports == [] then 0 else reports[0].recv + TotalRecv(reports[1..])
  }

  function SentDuring(script: seq<ReportTick>): nat
  {
    if script == [] then 0 else script[0].sentDuring + SentDuring(script[1..])
  }

  function RecvDuring(script: seq<ReportTick>): nat
  {
    if script == [] then 0 else script[0].recvDuring + RecvDuring(script[1..])
  }

  /** Swap-to-zero neither loses nor double-counts: when no second's count
      reaches 2^64 and the run is not cut short by cancellation, the reports
      add up to every increment made. */
  lemma {:induction false} ReportsAccountForEverything(sent0: nat, recv0: nat, script: seq<ReportTick>)
    requires forall k :: 0 <= k < |script| ==> !script[k].cancelled
    requires script != [] ==> sent0 + script[0].sentDuring < U64_MODULUS && recv0 + script[0].recvDuring < U64_MODULUS
    requires forall k :: 0 <= k < |script| ==> script[k].sentDuring < U64_MODULUS && script[k].recvDuring < U64_MODULUS
    ensures script != [] ==> TotalSent(ReportTrace(sent0, recv0, script)) == sent0 + SentDuring(script)
    ensures script != [] ==> TotalRecv(ReportTrace(sent0, recv0, script)) == recv0 + RecvDuring(script)
    ensures |ReportTrace(sent0, recv0, script)| == |script|
    decreases |script|
  {
    if script != [] {
      ReportsAccountForEverything(0, 0, script[1..]);
      var trace := ReportTrace(sent0, recv0, script);
      assert trace[1..] == ReportTrace(0, 0, script[1..]);
    }
  }

  /** One second of the trace, read in the middle of a run. */
  lemma ReportTraceStep(sent0: nat, recv0: nat, script: seq<ReportTick>, i: nat)
    requires i < |script|
    ensures ReportTrace(sent0, recv0, script[i..])
         == [ReportOf(sent0, recv0, script[i])] + (if script[i].cancelled then [] else ReportTrace(0, 0, script[i + 1..]))
  {
    assert script[i..][1..] == script[i + 1..];
  }

  /** The reporter loop of `main` (lines 146-162) over a finite run of
      seconds. The senders' increments during each sleep come first, then
      both counters are drained and the report is made, and only then is
      the cancel flag checked. */
  method ReportLoop(sent: Counter, recv: Counter, script: seq<ReportTick>) returns (reports: seq<Report>)
    requires sent != recv && sent.Valid() && recv.Valid()
    modifies sent, recv
    ensures reports == ReportTrace(old(sent.window), old(recv.window), script)
    ensures sent.Valid() && recv.Valid()
    ensures script != [] ==> sent.window == 0 && recv.window == 0
    ensures script == [] ==> sent.window == old(sent.window) && recv.window == old(recv.window)
  {
    reports := [];
    var i := 0;
    while i < |script|
      invariant 0 <= i <= |script|
      invariant sent.Valid() && recv.Valid()
      invariant reports + ReportTrace(sent.window, recv.window, script[i..])
             == ReportTrace(old(sent.window), old(recv.window), script)
      invariant i > 0 ==> sent.window == 0 && recv.window == 0
      invariant i == 0 ==> sent.window == old(sent.window) && recv.window == old(recv.window)
    {
      var t := script[i];
      ghost var sent0, recv0 := sent.window, recv.window;
      sent.IncrementTimes(t.sentDuring);
      recv.IncrementTimes(t.recvDuring);
      ghost var sentTotal, recvTotal := sent.window, recv.window;
      assert sentTotal == sent0 + t.sentDuring;
      var sentCount := sent.Drain();
      assert sentCount == Wrap(sentTotal);
      var recvCount := recv.Drain();
      assert recvCount == Wrap(recvTotal);
      DrainedReport(sent0, recv0, t, sentCount, recvCount);
      var report := Report(sentCount, recvCount, BandwidthMb(sentCount, recvCount));
      ghost var later := if t.cancelled then [] else ReportTrace(0, 0, script[i + 1..]);
      assert reports + [report] + later == reports + ReportTrace(sent0, recv0, script[i..]) by {
        ReportTraceStep(sent0, recv0, script, i);
        AppendAssoc(reports, [report], later);
      }
      reports := reports + [report];
      if t.cancelled {
        assert reports + [] == reports;
        return;
      }
      i := i + 1;
    }
  }
}
