/** The UDP hash responder of the video server (cmd/video_server/src/main.rs):
    for every datagram it receives it computes `hash_incoming` (FNV-1a 64)
    over the received bytes, appends the hash's 8 little-endian bytes to a
    reused `out_buf`, sends `out_buf` back to the sender, and clears it only
    when the send succeeded. Two shared counters count receives and sends;
    the main thread drains both every second. Receive and send outcomes are
    inputs of the model. */
module VideoServer {
  import opened Bytes
  import Fnv
  import opened Counters
  import opened Net

  // ---------------------------------------------------------------------
  // Little-endian encoding (`u64::to_le_bytes` / `u64::from_le_bytes`)

  /** The low byte of `h`. */
  function LowByte(h: bv64): Byte
  {
    (h & 0xFF) as Byte
  }

  /** `u64::to_le_bytes`: least significant byte first. */
  function ToLeBytes(h: bv64): (r: seq<Byte>)
    ensures |r| == 8
  {
    [LowByte(h), LowByte(h >> 8), LowByte(h >> 16), LowByte(h >> 24),
     LowByte(h >> 32), LowByte(h >> 40), LowByte(h >> 48), LowByte(h >> 56)]
  }

  /** `u64::from_le_bytes`. */
  function FromLeBytes(s: seq<Byte>): bv64
    requires |s| == 8
  {
    (s[0] as bv64) | ((s[1] as bv64) << 8) | ((s[2] as bv64) << 16) | ((s[3] as bv64) << 24)
    | ((s[4] as bv64) << 32) | ((s[5] as bv64) << 40) | ((s[6] as bv64) << 48) | ((s[7] as bv64) << 56)
  }

  /** Decoding the reply gives back the hash. */
  lemma LeRoundTrip(h: bv64)
    ensures FromLeBytes(ToLeBytes(h)) == h
  {
  }

  /** Every 8-byte string is the encoding of exactly one u64. */
  lemma LeRoundTripBytes(s: seq<Byte>)
    requires |s| == 8
    ensures ToLeBytes(FromLeBytes(s)) == s
  {
  }

  // ---------------------------------------------------------------------
  // One turn of the listener loop

  /** `Vec::with_capacity(100)`: `recv_from` fills at most this many bytes,
      so a longer datagram is cut to its first 100 bytes. */
  const RECV_CAPACITY: nat := 100

  /** What one `recv_from` yields: an error, or a datagram with the address
      it came from; for a received datagram, whether the following
      `send_to` succeeds. */
  datatype DatagramEvent =
    | RecvFailed
    | Received(from: SocketAddr, payload: seq<Byte>, sendOk: bool)

  /** A datagram handed to `send_to`: its destination and its bytes. */
  datatype Outgoing = Outgoing(to: SocketAddr, bytes: seq<Byte>)

  /** The bytes `buf[0..size]` hold after a successful receive. */
  function ReceivedBytes(payload: seq<Byte>): (data: seq<Byte>)
    ensures |data| <= RECV_CAPACITY && |data| <= |payload| && data == payload[..|data|]
    ensures |payload| <= RECV_CAPACITY ==> data == payload
  {
    if |payload| <= RECV_CAPACITY then payload else payload[..RECV_CAPACITY]
  }

  /** The effect of one loop turn: the new `out_buf`, what was handed to
      `send_to` (if anything), and which counters were bumped. */
  datatype Turn = Turn(outBuf: seq<Byte>, reply: Option<Outgoing>, received: bool, sent: bool)

  function ListenerTurn(outBuf: seq<Byte>, event: DatagramEvent): (t: Turn)
    ensures t.reply.Some? <==> event.Received?
    ensures event.Received? ==>
      && t.reply.value.to == event.from
      && |t.reply.value.bytes| == |outBuf| + 8
      && t.reply.value.bytes[..|outBuf|] == outBuf
      && t.outBuf == (if event.sendOk then [] else t.reply.value.bytes)
  {
    match event
    case RecvFailed => Turn(outBuf, None, false, false)
    case Received(from, payload, sendOk) =>
      var buf := outBuf + ToLeBytes(Fnv.Fnv1a(ReceivedBytes(payload)));
      if sendOk then Turn([], Some(Outgoing(from, buf)), true, true)
      else Turn(buf, Some(Outgoing(from, buf)), true, false)
  }

  /** The concatenated encodings of hashes whose replies are still pending. */
  function Replies(pending: seq<bv64>): (r: seq<Byte>)
    ensures |r| == 8 * |pending|
  {
    if pending == [] then [] else Replies(pending[..|pending| - 1]) + ToLeBytes(pending[|pending| - 1])
  }

  /** Block `k` of a reply is the encoding of the `k`-th pending hash. */
  lemma {:induction false} RepliesBlock(pending: seq<bv64>, k: nat)
    requires k < |pending|
    ensures Replies(pending)[8 * k .. 8 * k + 8] == ToLeBytes(pending[k])
  {
    var n := |pending|;
    var front := pending[..n - 1];
    var a := Replies(front);
    var b := ToLeBytes(pending[n - 1]);
    assert Replies(pending) == a + b;
    if k < n - 1 {
      RepliesBlock(front, k);
      assert 8 * k + 8 <= |a|;
      assert (a + b)[8 * k .. 8 * k + 8] == a[8 * k .. 8 * k + 8];
    } else {
      assert 8 * k == |a|;
      assert (a + b)[8 * k .. 8 * k + 8] == b;
    }
  }

  lemma RepliesSnoc(pending: seq<bv64>, h: bv64)
    ensures Replies(pending + [h]) == Replies(pending) + ToLeBytes(h)
  {
    assert (pending + [h])[..|pending|] == pending;
  }

  /** The pending-replies invariant of `out_buf`: it always holds the
      encodings of the hashes computed since the last successful send. A
      successful send empties it, a failed one keeps the stale bytes and
      the next reply carries them in front of the new hash. */
  lemma TurnKeepsPending(pending: seq<bv64>, event: DatagramEvent)
    ensures event.RecvFailed? ==>
      ListenerTurn(Replies(pending), event) == Turn(Replies(pending), None, false, false)
    ensures event.Received? ==>
      var t := ListenerTurn(Replies(pending), event);
      var next := pending + [Fnv.Fnv1a(ReceivedBytes(event.payload))];
      t.reply == Some(Outgoing(event.from, Replies(next)))
      && t.outBuf == (if event.sendOk then [] else Replies(next))
  {
    if event.Received? {
      RepliesSnoc(pending, Fnv.Fnv1a(ReceivedBytes(event.payload)));
    }
  }

  /** On the normal path the reply goes back to the sender and is exactly
      8 bytes, and decoding them gives the FNV-1a hash of the received
      bytes. */
  lemma FreshReply(from: SocketAddr, payload: seq<Byte>, sendOk: bool)
    ensures var t := ListenerTurn([], Received(from, payload, sendOk));
      t.reply.Some? && t.reply.value.to == from && |t.reply.value.bytes| == 8
      && FromLeBytes(t.reply.value.bytes) == Fnv.Fnv1a(ReceivedBytes(payload))
  {
    FreshTurn(from, payload, sendOk);
    LeRoundTrip(Fnv.Fnv1a(ReceivedBytes(payload)));
  }

  /** With nothing pending, the reply is the encoding of the new hash alone. */
  lemma FreshTurn(from: SocketAddr, payload: seq<Byte>, sendOk: bool)
    ensures ListenerTurn([], Received(from, payload, sendOk)).reply
         == Some(Outgoing(from, ToLeBytes(Fnv.Fnv1a(ReceivedBytes(payload)))))
  {
    var h := Fnv.Fnv1a(ReceivedBytes(payload));
    assert [] + ToLeBytes(h) == ToLeBytes(h);
  }

  /** After a failed send to `a`, the next reply goes to whoever sent the
      next datagram, `b`, and carries `a`'s stale hash and then the new one;
      `TwoRepliesDecode` reads both back. */
  lemma StaleReplyAfterFailedSend(a: SocketAddr, p: seq<Byte>, b: SocketAddr, q: seq<Byte>, sendOk: bool)
    ensures var first := ListenerTurn([], Received(a, p, false));
      ListenerTurn(first.outBuf, Received(b, q, sendOk)).reply
        == Some(Outgoing(b, ToLeBytes(Fnv.Fnv1a(ReceivedBytes(p))) + ToLeBytes(Fnv.Fnv1a(ReceivedBytes(q)))))
  {
    var hp := Fnv.Fnv1a(ReceivedBytes(p));
    assert [] + ToLeBytes(hp) == ToLeBytes(hp);
  }

  /** A reply holding two hashes is 16 bytes and decodes to both, in order. */
  lemma TwoRepliesDecode(hp: bv64, hq: bv64)
    ensures var reply := ToLeBytes(hp) + ToLeBytes(hq);
      |reply| == 16 && FromLeBytes(reply[..8]) == hp && FromLeBytes(reply[8..]) == hq
  {
    var reply := ToLeBytes(hp) + ToLeBytes(hq);
    assert reply[..8] == ToLeBytes(hp) && reply[8..] == ToLeBytes(hq);
  }

  /** A send is counted only in a turn whose receive was counted. */
  lemma SentOnlyAfterReceived(outBuf: seq<Byte>, event: DatagramEvent)
    ensures ListenerTurn(outBuf, event).sent ==> ListenerTurn(outBuf, event).received
    ensures ListenerTurn(outBuf, event).received <==> event.Received?
    ensures ListenerTurn(outBuf, event).sent <==> event.Received? && event.sendOk
  {
  }

  /** The datagrams a turn hands to `send_to`: none, or its one reply. */
  function Emitted(reply: Option<Outgoing>): seq<Outgoing>
  {
    if reply.Some? then [reply.value] else []
  }

  /** What the receive loop does over a run of events: the datagrams it
      hands to `send_to`, in order, and `out_buf` afterwards. */
  datatype ServeRun = ServeRun(replies: seq<Outgoing>, outBuf: seq<Byte>)

  /** The loop over a run of events, one turn per event from the first:
      one reply per datagram received. */
  function ServeTrace(outBuf: seq<Byte>, events: seq<DatagramEvent>): (r: ServeRun)
    ensures |r.replies| == ReceivedCount(events)
    decreases |events|
  {
    if events == [] then ServeRun([], outBuf)
    else
      var before := ServeTrace(outBuf, events[..|events| - 1]);
      var t := ListenerTurn(before.outBuf, events[|events| - 1]);
      ServeRun(before.replies + Emitted(t.reply), t.outBuf)
  }

  /** The run over one more event is the run so far and one more turn:
      after a turn from `outBuf` that emits `reply` and leaves `next`, the
      replies so far and `next` are the run one event further on. */
  lemma ServeTraceSnoc(start: seq<Byte>, events: seq<DatagramEvent>, i: nat,
                       replies: seq<Outgoing>, outBuf: seq<Byte>, reply: Option<Outgoing>, next: seq<Byte>)
    requires i < |events|
    requires ServeRun(replies, outBuf) == ServeTrace(start, events[..i])
    requires reply == ListenerTurn(outBuf, events[i]).reply && next == ListenerTurn(outBuf, events[i]).outBuf
    ensures ServeRun(replies + Emitted(reply), next) == ServeTrace(start, events[..i + 1])
  {
    assert events[..i + 1][..i] == events[..i];
  }

  /** The reference behaviour of a run in which every send succeeds: each
      datagram received is answered, to the address it came from, with the
      8-byte encoding of its own hash and nothing else. */
  function AnswerEach(events: seq<DatagramEvent>): (r: seq<Outgoing>)
    ensures |r| == ReceivedCount(events)
    decreases |events|
  {
    if events == [] then []
    else
      var last := events[|events| - 1];
      AnswerEach(events[..|events| - 1])
        + (if last.Received? then [Outgoing(last.from, ToLeBytes(Fnv.Fnv1a(ReceivedBytes(last.payload))))] else [])
  }

  predicate AllSendsSucceed(events: seq<DatagramEvent>)
  {
    forall k :: 0 <= k < |events| && events[k].Received? ==> events[k].sendOk
  }

  /** When no send fails, the loop started with an empty buffer answers
      every datagram with its own hash, and ends with an empty buffer. */
  lemma {:induction false} LosslessServe(events: seq<DatagramEvent>)
    requires AllSendsSucceed(events)
    ensures ServeTrace([], events) == ServeRun(AnswerEach(events), [])
    decreases |events|
  {
    if events != [] {
      var front := events[..|events| - 1];
      var last := events[|events| - 1];
      assert AllSendsSucceed(front) by {
        forall k | 0 <= k < |front| && front[k].Received?
          ensures front[k].sendOk
        {
          assert front[k] == events[k];
        }
      }
      LosslessServe(front);
      if last.Received? {
        FreshTurn(last.from, last.payload, last.sendOk);
      }
    }
  }

  /** The listener task of `start_listener`, after its socket is bound. */
  class Listener {
    var outBuf: seq<Byte>
    const recvCount: Counter
    const sendCount: Counter
    /** Hashes whose replies are still in `outBuf`. */
    ghost var pending: seq<bv64>

    ghost predicate Valid()
      reads this, recvCount, sendCount
    {
      && recvCount != sendCount
      && recvCount.Valid() && sendCount.Valid()
      && outBuf == Replies(pending)
      && sendCount.window <= recvCount.window
    }

    constructor (recvCount: Counter, sendCount: Counter)
      requires recvCount != sendCount && recvCount.Valid() && sendCount.Valid()
      requires sendCount.window <= recvCount.window
      ensures Valid() && outBuf == [] && pending == []
      ensures this.recvCount == recvCount && this.sendCount == sendCount
    {
      this.recvCount := recvCount;
      this.sendCount := sendCount;
      outBuf := [];
      pending := [];
    }

    /** The body of the receive loop (lines 135-158). */
    method HandleDatagram(event: DatagramEvent) returns (reply: Option<Outgoing>)
      requires Valid()
      modifies this, recvCount, sendCount
      ensures Valid()
      ensures var t := ListenerTurn(old(outBuf), event);
        reply == t.reply && outBuf == t.outBuf
      ensures |Emitted(reply)| == (if event.Received? then 1 else 0)
      ensures recvCount.window == old(recvCount.window) + (if event.Received? then 1 else 0)
      ensures sendCount.window == old(sendCount.window) + (if event.Received? && event.sendOk then 1 else 0)
    {
      TurnKeepsPending(pending, event);
      if event.RecvFailed? {
        reply := None;
      } else {
        recvCount.Increment();
        var hashed := Fnv.HashIncoming(ReceivedBytes(event.payload));
        outBuf := outBuf + ToLeBytes(hashed);
        pending := pending + [hashed];
        reply := Some(Outgoing(event.from, outBuf));
        if event.sendOk {
          sendCount.Increment();
          outBuf := [];
          pending := [];
        }
      }
    }

    /** The loop itself, over a finite run of receive events: it hands
        `send_to` exactly the datagrams of `ServeTrace` and leaves `out_buf`
        as `ServeTrace` says. */
    method Serve(events: seq<DatagramEvent>) returns (replies: seq<Outgoing>)
      requires Valid()
      modifies this, recvCount, sendCount
      ensures Valid()
      ensures ServeRun(replies, outBuf) == ServeTrace(old(outBuf), events)
      ensures recvCount.window == old(recvCount.window) + ReceivedCount(events)
      ensures sendCount.window == old(sendCount.window) + SentCount(events)
      ensures |replies| == ReceivedCount(events)
    {
      replies := [];
      var i := 0;
      while i < |events|
        invariant 0 <= i <= |events|
        invariant Valid()
        invariant ServeRun(replies, outBuf) == ServeTrace(old(outBuf), events[..i])
        invariant recvCount.window == old(recvCount.window) + ReceivedCount(events[..i])
        invariant sendCount.window == old(sendCount.window) + SentCount(events[..i])
      {
        CountsSnoc(events[..i], events[i]);
        assert events[..i + 1] == events[..i] + [events[i]];
        ghost var before := outBuf;
        var reply := HandleDatagram(events[i]);
        ServeTraceSnoc(old(outBuf), events, i, replies, before, reply, outBuf);
        replies := replies + Emitted(reply);
        i := i + 1;
      }
      assert events[..i] == events;
    }
  }

  function ReceivedCount(events: seq<DatagramEvent>): nat
  {
    if events == [] then 0
    else
      ReceivedCount(events[..|events| - 1]) + (if events[|events| - 1].Received? then 1 else 0)
  }

  function SentCount(events: seq<DatagramEvent>): nat
  {
    if events == [] then 0
    else
      var last := events[|events| - 1];
      SentCount(events[..|events| - 1]) + (if last.Received? && last.sendOk then 1 else 0)
  }

  lemma CountsSnoc(events: seq<DatagramEvent>, e: DatagramEvent)
    ensures ReceivedCount(events + [e]) == ReceivedCount(events) + (if e.Received? then 1 else 0)
    ensures SentCount(events + [e]) == SentCount(events) + (if e.Received? && e.sendOk then 1 else 0)
  {
    assert (events + [e])[..|events|] == events;
  }

  /** Over any run, sends never outnumber receives. */
  lemma {:induction false} SentAtMostReceived(events: seq<DatagramEvent>)
    ensures SentCount(events) <= ReceivedCount(events)
  {
    if events != [] {
      SentAtMostReceived(events[..|events| - 1]);
    }
  }

  /** The main thread's report (lines 92-93): drain the sent counter, then
      the received counter. */
  method ReportCounts(sent: Counter, recv: Counter) returns (sentCount: U64, recvCount: U64)
    requires sent != recv && sent.Valid() && recv.Valid()
    modifies sent, recv
    ensures sent.Valid() && recv.Valid() && sent.window == 0 && recv.window == 0
    ensures sentCount == old(sent.window) % U64_MODULUS
    ensures recvCount == old(recv.window) % U64_MODULUS
  {
    sentCount := sent.Drain();
    recvCount := recv.Drain();
  }
}
