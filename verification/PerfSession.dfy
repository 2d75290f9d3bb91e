/**
  A bandwidth test (src/bin/rnperf.rs): the data and result phases of the initiator and
  the listener's session, joined by an in-order channel that may lose anything.
 */
module PerfSession {
  import opened Wrappers
  import opened Bytes

  const SEQ_BYTES: nat := 4

  datatype Message = Data(payload: bytes) | ResultRequest

  datatype Reply = Reply(bytesReceived: nat, packetsReceived: nat)

  // ---------------------------------------------------------------- the listener

  datatype Listener = Listener(bytesReceived: nat, packetsReceived: nat, resultsSent: bool, open: bool)

  /** What one message does to the listener, and the replies it sends. */
  function Receive(l: Listener, m: Message): (Listener, seq<Reply>) {
    match m
    case Data(payload) =>
      if |payload| >= SEQ_BYTES
      then
        var bytesReceived := l.bytesReceived + (|payload| - SEQ_BYTES);
        (l.(bytesReceived := bytesReceived, packetsReceived := l.packetsReceived + 1), [])
      else (l, [])
    case ResultRequest => (l.(resultsSent := true), [Reply(l.bytesReceived, l.packetsReceived)])
  }

  /** The session deadline: deliver what there is, unless a result went out already. */
  function Expire(l: Listener): (Listener, seq<Reply>) {
    var volunteers := !l.resultsSent && l.packetsReceived > 0;
    (l.(open := false), if volunteers then [Reply(l.bytesReceived, l.packetsReceived)] else [])
  }

  class ListenerSession {
    var bytesReceived: nat
    var packetsReceived: nat
    var resultsSent: bool
    var open: bool

    ghost function Value(): Listener
      reads this
    {
      Listener(bytesReceived, packetsReceived, resultsSent, open)
    }

    constructor ()
      ensures Value() == Listener(0, 0, false, true)
    {
      bytesReceived, packetsReceived, resultsSent, open := 0, 0, false, true;
    }

    method OnMessage(m: Message) returns (replies: seq<Reply>)
      modifies this
      ensures (Value(), replies) == Receive(old(Value()), m)
    {
      replies := [];
      match m {
        case Data(payload) =>
          if |payload| >= SEQ_BYTES {
            bytesReceived := bytesReceived + (|payload| - SEQ_BYTES);
            packetsReceived := packetsReceived + 1;
          }
        case ResultRequest =>
          replies := [Reply(bytesReceived, packetsReceived)];
          resultsSent := true;
      }
    }

    method OnDeadline() returns (replies: seq<Reply>)
      modifies this
      ensures (Value(), replies) == Expire(old(Value()))
    {
      replies := [];
      if !resultsSent && packetsReceived > 0 {
        replies := [Reply(bytesReceived, packetsReceived)];
      }
      open := false;
    }
  }

  // ---------------------------------------------------------------- the sender

  function Packet(index: nat, dataSize: nat): bytes {
    ToBigEndian(index % U32_MODULUS, SEQ_BYTES) + seq(dataSize, _ => 0)
  }

  lemma PacketBytes(index: nat, dataSize: nat, p: bytes)
    requires |p| == dataSize + SEQ_BYTES
    requires forall k :: 0 <= k < SEQ_BYTES ==> p[k] == ToBigEndian(index % U32_MODULUS, SEQ_BYTES)[k]
    requires forall k :: SEQ_BYTES <= k < |p| ==> p[k] == 0
    ensures p == Packet(index, dataSize)
  {
    hide ToBigEndian;
  }

  /** A packet is its number modulo 2^32, in four bytes and most significant first, and zeros. */
  lemma PacketIs(index: nat, dataSize: nat)
    ensures var p := Packet(index, dataSize);
            && |p| == 4 + dataSize && FromBigEndian(p[..4]) == index % 0x1_0000_0000
            && forall i :: 4 <= i < |p| ==> p[i] == 0
  {
    hide ToBigEndian;
    PowersOf256();
    BigEndianRoundTrip(index % U32_MODULUS, SEQ_BYTES);
    assert Packet(index, dataSize)[..4] == ToBigEndian(index % U32_MODULUS, SEQ_BYTES);
  }

  class Sender {
    const dataSize: nat
    const buffer: array<byte>
    var nextSeq: u32
    var totalPacketsSent: nat
    var totalBytesSent: nat

    ghost predicate Valid()
      reads this, buffer
    {
      && buffer.Length == dataSize + SEQ_BYTES
      && nextSeq == totalPacketsSent % U32_MODULUS
      && totalBytesSent == totalPacketsSent * dataSize
      && forall i :: SEQ_BYTES <= i < buffer.Length ==> buffer[i] == 0
    }

    constructor (dataSize: nat)
      ensures Valid() && totalPacketsSent == 0 && this.dataSize == dataSize && fresh(buffer)
    {
      this.dataSize := dataSize;
      buffer := new byte[dataSize + SEQ_BYTES](_ => 0);
      nextSeq, totalPacketsSent, totalBytesSent := 0, 0, 0;
    }

    /** Writes the sequence number into the front of the buffer. */
    method WriteHeader()
      requires Valid()
      modifies buffer
      ensures Valid()
      ensures buffer[..] == Packet(totalPacketsSent, dataSize)
    {
      hide ToBigEndian;
      var header := ToBigEndian(nextSeq, SEQ_BYTES);
      for i := 0 to SEQ_BYTES
        invariant forall k :: 0 <= k < i ==> buffer[k] == header[k]
        invariant forall k :: SEQ_BYTES <= k < buffer.Length ==> buffer[k] == 0
      {
        buffer[i] := header[i];
      }
      PacketBytes(totalPacketsSent, dataSize, buffer[..]);
    }

    /** Sends the next packet. */
    method SendData() returns (m: Message)
      requires Valid()
      modifies this, buffer
      ensures Valid() && totalPacketsSent == old(totalPacketsSent) + 1
      ensures m == Data(Packet(old(totalPacketsSent), dataSize))
    {
      hide Packet;
      WriteHeader();
      m := Data(buffer[..]);
      OneMore(totalPacketsSent, dataSize);
      totalBytesSent := totalBytesSent + dataSize;
      totalPacketsSent := totalPacketsSent + 1;
      nextSeq := (nextSeq + 1) % U32_MODULUS;
    }
  }

  lemma OneMore(n: nat, size: nat)
    ensures (n + 1) * size == n * size + size
    ensures (n + 1) % U32_MODULUS == (n % U32_MODULUS + 1) % U32_MODULUS
  {
  }

  // ---------------------------------------------------------------- the session

  datatype Phase = Sending | Waiting | Finished(result: Option<Reply>)

  /** `replies` are on their way back; `sentReplies` are all replies ever sent. */
  datatype Session = Session(
    dataSize: nat, phase: Phase, sent: nat, channel: seq<Message>, lost: nat,
    listener: Listener, replies: seq<Reply>, sentReplies: seq<Reply>)

  function Start(dataSize: nat): Session {
    Session(dataSize, Sending, 0, [], 0, Listener(0, 0, false, true), [], [])
  }

  /** A step that is not possible in a state leaves it alone. */
  datatype Step =
    | SendData | RequestResult | Retry
    | LoseMessage(at: nat) | DeliverMessage
    | ListenerDeadline | ListenerLinkClosed
    | LoseReply(at: nat) | DeliverReply | GiveUp

  function Without<T>(s: seq<T>, at: nat): seq<T>
    requires at < |s|
  {
    s[..at] + s[at + 1..]
  }

  function Take(s: Session, step: Step): Session {
    match step
    case SendData =>
      if s.phase != Sending then s
      else s.(sent := s.sent + 1, channel := s.channel + [Data(Packet(s.sent, s.dataSize))])
    case RequestResult =>
      if s.phase != Sending then s else s.(phase := Waiting, channel := s.channel + [ResultRequest])
    case Retry =>
      if s.phase != Waiting then s else s.(channel := s.channel + [ResultRequest])
    case LoseMessage(at) =>
      if at >= |s.channel| then s
      else s.(channel := Without(s.channel, at), lost := s.lost + if s.channel[at].Data? then 1 else 0)
    case DeliverMessage =>
      if s.channel == [] || !s.listener.open then s
      else
        var (l, out) := Receive(s.listener, s.channel[0]);
        s.(channel := s.channel[1..], listener := l, replies := s.replies + out, sentReplies := s.sentReplies + out)
    case ListenerDeadline =>
      if !s.listener.open then s
      else
        var (l, out) := Expire(s.listener);
        s.(listener := l, replies := s.replies + out, sentReplies := s.sentReplies + out)
    case ListenerLinkClosed => s.(listener := s.listener.(open := false))
    case LoseReply(at) => if at >= |s.replies| then s else s.(replies := Without(s.replies, at))
    case DeliverReply =>
      if s.phase != Waiting || s.replies == [] then s
      else s.(phase := Finished(Some(s.replies[0])), replies := s.replies[1..])
    case GiveUp => if s.phase != Waiting then s else s.(phase := Finished(None))
  }

  function Run(s: Session, steps: seq<Step>): Session {
    if steps == [] then s else Take(Run(s, steps[..|steps| - 1]), steps[|steps| - 1])
  }

  function DataInFlight(channel: seq<Message>): nat {
    if channel == [] then 0 else (if channel[0].Data? then 1 else 0) + DataInFlight(channel[1..])
  }

  // ---------------------------------------------------------------- the invariant

  /** Every data packet in the channel was cut from the same buffer. */
  ghost predicate FullPackets(s: Session) {
    forall i :: 0 <= i < |s.channel| && s.channel[i].Data? ==> |s.channel[i].payload| == s.dataSize + SEQ_BYTES
  }

  /** No data travels behind a result request. */
  ghost predicate DataFirst(channel: seq<Message>) {
    forall i, j :: 0 <= i < j < |channel| && channel[j].Data? ==> channel[i].Data?
  }

  ghost predicate Conserved(s: Session) {
    && s.sent == s.listener.packetsReceived + DataInFlight(s.channel) + s.lost
    && s.listener.bytesReceived == s.listener.packetsReceived * s.dataSize
  }

  /** Requests exist only after the data phase; once one was answered no data is left under way. */
  ghost predicate Phased(s: Session) {
    && (s.phase == Sending ==> (forall i :: 0 <= i < |s.channel| ==> s.channel[i].Data?) && !s.listener.resultsSent)
    && (s.listener.resultsSent ==> forall i :: 0 <= i < |s.channel| ==> !s.channel[i].Data?)
  }

  /** Every reply states the final count when it answers a request, and a count that no
      longer moves when the listener volunteers it. */
  ghost predicate RepliesAgree(s: Session) {
    && (forall i :: 0 <= i < |s.sentReplies| ==>
          s.sentReplies[i] == Reply(s.listener.bytesReceived, s.listener.packetsReceived))
    && (s.sentReplies != [] ==> s.listener.resultsSent || !s.listener.open)
    && (forall i :: 0 <= i < |s.replies| ==> s.replies[i] in s.sentReplies)
    && (s.phase.Finished? && s.phase.result.Some? ==> s.phase.result.value in s.sentReplies)
  }

  ghost predicate Inv(s: Session) {
    FullPackets(s) && DataFirst(s.channel) && Conserved(s) && Phased(s) && RepliesAgree(s)
  }

  lemma {:induction false} InFlightAppend(a: seq<Message>, b: seq<Message>)
    ensures DataInFlight(a + b) == DataInFlight(a) + DataInFlight(b)
  {
    if a == [] {
      assert a + b == b;
    } else {
      assert (a + b)[1..] == a[1..] + b;
      InFlightAppend(a[1..], b);
    }
  }

  lemma InFlightWithout(channel: seq<Message>, at: nat)
    requires at < |channel|
    ensures DataInFlight(channel) == DataInFlight(Without(channel, at)) + if channel[at].Data? then 1 else 0
  {
    hide DataInFlight;
    assert channel == channel[..at] + ([channel[at]] + channel[at + 1..]);
    InFlightBetween(channel[..at], channel[at], channel[at + 1..]);
  }

  lemma InFlightBetween(a: seq<Message>, m: Message, b: seq<Message>)
    ensures DataInFlight(a + ([m] + b)) == DataInFlight(a + b) + if m.Data? then 1 else 0
  {
    hide DataInFlight;
    InFlightAppend(a, [m] + b);
    InFlightCons(m, b);
    InFlightAppend(a, b);
  }

  lemma InFlightCons(m: Message, rest: seq<Message>)
    ensures DataInFlight([m] + rest) == (if m.Data? then 1 else 0) + DataInFlight(rest)
  {
    assert ([m] + rest)[1..] == rest;
  }

  lemma {:induction false} NoDataInFlight(channel: seq<Message>)
    requires forall i :: 0 <= i < |channel| ==> !channel[i].Data?
    ensures DataInFlight(channel) == 0
  {
    if channel != [] { NoDataInFlight(channel[1..]); }
  }

  lemma SendKeepsInv(s: Session)
    requires Inv(s) && s.phase == Sending
    ensures Inv(Take(s, SendData))
  {
    hide Packet;
    var m := Data(Packet(s.sent, s.dataSize));
    PacketSize(s.sent, s.dataSize);
    InFlightAppend(s.channel, [m]);
    assert DataInFlight([m]) == 1 + DataInFlight([m][1..]);
  }

  lemma PacketSize(index: nat, dataSize: nat)
    ensures |Packet(index, dataSize)| == dataSize + SEQ_BYTES
  {
  }

  lemma AskKeepsInv(s: Session)
    requires Inv(s)
    ensures Inv(Take(s, RequestResult)) && Inv(Take(s, Retry))
  {
    InFlightAppend(s.channel, [ResultRequest]);
    assert DataInFlight([ResultRequest]) == 0 + DataInFlight([ResultRequest][1..]);
  }

  lemma LossKeepsInv(s: Session, at: nat)
    requires Inv(s)
    ensures Inv(Take(s, LoseMessage(at))) && Inv(Take(s, LoseReply(at)))
  {
    hide DataInFlight;
    if at < |s.channel| {
      InFlightWithout(s.channel, at);
      assert forall i :: 0 <= i < |s.channel| - 1 ==>
        Without(s.channel, at)[i] == if i < at then s.channel[i] else s.channel[i + 1];
    }
  }

  lemma DeliveryKeepsInv(s: Session)
    requires Inv(s) && s.channel != [] && s.listener.open
    ensures Inv(Take(s, DeliverMessage))
  {
    var m, rest := s.channel[0], s.channel[1..];
    var s' := Take(s, DeliverMessage);
    assert forall i :: 0 <= i < |rest| ==> rest[i] == s.channel[i + 1];
    if m.Data? {
      assert (s.listener.packetsReceived + 1) * s.dataSize == s.listener.packetsReceived * s.dataSize + s.dataSize;
      assert s'.replies == s.replies && s'.sentReplies == s.sentReplies;
    } else {
      assert forall i :: 0 < i < |s.channel| ==> !s.channel[i].Data?;
    }
  }

  lemma {:induction false} InvOverRuns(dataSize: nat, steps: seq<Step>)
    ensures Inv(Run(Start(dataSize), steps))
  {
    hide Conserved, DataFirst, FullPackets;
    if steps == [] {
      StartInv(dataSize);
    } else {
      var s, step := Run(Start(dataSize), steps[..|steps| - 1]), steps[|steps| - 1];
      InvOverRuns(dataSize, steps[..|steps| - 1]);
      StepKeepsInv(s, step);
    }
  }

  lemma StartInv(dataSize: nat)
    ensures Inv(Start(dataSize))
  {
  }

  lemma StepKeepsInv(s: Session, step: Step)
    requires Inv(s)
    ensures Inv(Take(s, step))
  {
    match step
    case SendData => if s.phase == Sending { SendKeepsInv(s); }
    case RequestResult => AskKeepsInv(s);
    case Retry => AskKeepsInv(s);
    case LoseMessage(at) => LossKeepsInv(s, at);
    case LoseReply(at) => LossKeepsInv(s, at);
    case DeliverMessage => if s.channel != [] && s.listener.open { DeliveryKeepsInv(s); }
    case _ => hide DataInFlight, DataFirst;
  }

  // ---------------------------------------------------------------- results

  /** In every reachable state each packet sent was received, is under way or was lost,
      and the byte count is the packet count times the packet size. */
  lemma Conservation(dataSize: nat, steps: seq<Step>)
    ensures var s := Run(Start(dataSize), steps);
            && s.sent == s.listener.packetsReceived + DataInFlight(s.channel) + s.lost
            && s.listener.bytesReceived == s.listener.packetsReceived * s.dataSize
  {
    InvOverRuns(dataSize, steps);
  }

  /** All replies of a session are equal, so in particular they never decrease; and one
      that answers a request already counts every packet that was not lost. */
  lemma RepliesAreFinal(dataSize: nat, steps: seq<Step>, i: nat, j: nat)
    requires var s := Run(Start(dataSize), steps); i < |s.sentReplies| && j < |s.sentReplies|
    ensures var s := Run(Start(dataSize), steps);
            && s.sentReplies[i] == s.sentReplies[j]
            && (s.listener.resultsSent ==> s.sentReplies[i].packetsReceived + s.lost == s.sent)
  {
    hide DataInFlight, DataFirst, FullPackets;
    InvOverRuns(dataSize, steps);
    var s := Run(Start(dataSize), steps);
    if s.listener.resultsSent { NoDataInFlight(s.channel); }
  }

  /** The loss the initiator prints. */
  function LossPercent(sent: nat, received: nat): real {
    if sent > 0 then 100.0 * (1.0 - received as real / sent as real) else 0.0
  }

  /** The reported loss is a percentage, whatever was lost and whoever gave up when. */
  lemma LossInRange(dataSize: nat, steps: seq<Step>)
    requires var p := Run(Start(dataSize), steps).phase; p.Finished? && p.result.Some?
    ensures var s := Run(Start(dataSize), steps); var r := s.phase.result.value;
            && r.packetsReceived <= s.sent && r.bytesReceived == r.packetsReceived * s.dataSize
            && 0.0 <= LossPercent(s.sent, r.packetsReceived) <= 100.0
  {
    hide DataInFlight, DataFirst, FullPackets;
    InvOverRuns(dataSize, steps);
    var s := Run(Start(dataSize), steps);
    Fraction(s.phase.result.value.packetsReceived, s.sent);
  }

  lemma Fraction(received: nat, sent: nat)
    requires received <= sent
    ensures 0.0 <= LossPercent(sent, received) <= 100.0
  {
    if sent > 0 { Quotient(received as real, sent as real); }
  }

  lemma Quotient(a: real, b: real)
    requires 0.0 <= a <= b && b > 0.0
    ensures 0.0 <= a / b <= 1.0
  {
  }

  /** The loss is the share of packets sent that were not received. */
  lemma LossIs(sent: nat, received: nat)
    requires sent > 0
    ensures LossPercent(sent, received) * sent as real == 100.0 * (sent as real - received as real)
  {
    var s, r := sent as real, received as real;
    assert r / s * s == r;
    assert (1.0 - r / s) * s == s - r;
  }

  // ---------------------------------------------------------------- what the listener counts

  /** The listener after a row of messages, and all it replied. */
  function ReceiveAll(l: Listener, ms: seq<Message>): (Listener, seq<Reply>) {
    if ms == [] then (l, [])
    else
      var (before, replies) := ReceiveAll(l, ms[..|ms| - 1]);
      var (after, more) := Receive(before, ms[|ms| - 1]);
      (after, replies + more)
  }

  /** The data packets among the messages, and the bytes behind their four-byte numbers;
      anything shorter is no packet. */
  function Packets(ms: seq<Message>): nat {
    if ms == [] then 0
    else Packets(ms[..|ms| - 1]) + if ms[|ms| - 1].Data? && |ms[|ms| - 1].payload| >= 4 then 1 else 0
  }

  function PacketBytesIn(ms: seq<Message>): nat {
    if ms == [] then 0
    else
      var m := ms[|ms| - 1];
      PacketBytesIn(ms[..|ms| - 1]) + if m.Data? && |m.payload| >= 4 then |m.payload| - 4 else 0
  }

  /** A fresh listener counts exactly the packets and their bytes, and answers every request
      among the messages, and nothing else, with what it has counted by then. */
  lemma {:induction false} ListenerCounts(ms: seq<Message>)
    ensures var (l, replies) := ReceiveAll(Listener(0, 0, false, true), ms);
            && l.packetsReceived == Packets(ms) && l.bytesReceived == PacketBytesIn(ms) && l.open
            && (l.resultsSent <==> exists i :: 0 <= i < |ms| && ms[i].ResultRequest?)
            && replies == Answered(ms)
  {
    if ms != [] {
      var front, m := ms[..|ms| - 1], ms[|ms| - 1];
      ListenerCounts(front);
      assert ms == front + [m];
      assert forall i :: 0 <= i < |front| ==> ms[i] == front[i];
    }
  }

  function Answered(ms: seq<Message>): seq<Reply> {
    if ms == [] then []
    else
      Answered(ms[..|ms| - 1]) +
      if ms[|ms| - 1].ResultRequest? then [Reply(PacketBytesIn(ms), Packets(ms))] else []
  }

  /** At the deadline a result is volunteered exactly when packets came and nothing was sent yet. */
  lemma DeadlineAnswers(ms: seq<Message>)
    ensures var l := ReceiveAll(Listener(0, 0, false, true), ms).0; var (closed, replies) := Expire(l);
            && !closed.open
            && replies == if Packets(ms) > 0 && (forall i :: 0 <= i < |ms| ==> ms[i].Data?)
                          then [Reply(PacketBytesIn(ms), Packets(ms))] else []
  {
    ListenerCounts(ms);
  }

  // ---------------------------------------------------------------- a test without losses

  function Repeated(step: Step, n: nat): seq<Step> { seq(n, _ => step) }

  lemma {:induction false} RunRepeated(s: Session, step: Step, n: nat)
    ensures n > 0 ==> Run(s, Repeated(step, n)) == Take(Run(s, Repeated(step, n - 1)), step)
    ensures Run(s, Repeated(step, 0)) == s
  {
    if n > 0 { assert Repeated(step, n)[..n - 1] == Repeated(step, n - 1); }
  }

  lemma {:induction false} RunInTwo(s: Session, a: seq<Step>, b: seq<Step>)
    ensures Run(s, a + b) == Run(Run(s, a), b)
  {
    if b == [] {
      assert a + b == a;
    } else {
      assert (a + b)[..|a + b| - 1] == a + b[..|b| - 1];
      RunInTwo(s, a, b[..|b| - 1]);
    }
  }

  function Sent(dataSize: nat, n: nat): seq<Message> {
    seq(n, i requires 0 <= i < n => Data(Packet(i, dataSize)))
  }

  lemma {:induction false} AllSent(dataSize: nat, n: nat)
    ensures Run(Start(dataSize), Repeated(SendData, n)) ==
            Session(dataSize, Sending, n, Sent(dataSize, n), 0, Listener(0, 0, false, true), [], [])
  {
    hide Packet;
    RunRepeated(Start(dataSize), SendData, n);
    if n > 0 {
      AllSent(dataSize, n - 1);
      assert Sent(dataSize, n) == Sent(dataSize, n - 1) + [Data(Packet(n - 1, dataSize))];
    } else {
      assert Sent(dataSize, 0) == [];
    }
  }

  lemma {:induction false} AllDelivered(s: Session, n: nat, k: nat)
    requires k <= n && s.listener == Listener(0, 0, false, true) && s.replies == [] && s.sentReplies == []
    requires s.channel == Sent(s.dataSize, n) + [ResultRequest]
    ensures Run(s, Repeated(DeliverMessage, k)) ==
            s.(channel := s.channel[k..], listener := Listener(k * s.dataSize, k, false, true))
  {
    hide Packet, Receive, Take;
    RunRepeated(s, DeliverMessage, k);
    if k > 0 {
      AllDelivered(s, n, k - 1);
      PacketSize(k - 1, s.dataSize);
      assert s.channel[k - 1..][0] == Data(Packet(k - 1, s.dataSize)) && s.channel[k - 1..][1..] == s.channel[k..];
      OneMore(k - 1, s.dataSize);
      DeliverOne(Run(s, Repeated(DeliverMessage, k - 1)), Packet(k - 1, s.dataSize));
    } else {
      assert s.channel[0..] == s.channel;
    }
  }

  lemma DeliverOne(s: Session, p: bytes)
    requires s.channel != [] && s.channel[0] == Data(p) && |p| == s.dataSize + SEQ_BYTES && s.listener.open
    ensures var l := s.listener;
            Take(s, DeliverMessage) ==
            s.(channel := s.channel[1..],
               listener := l.(bytesReceived := l.bytesReceived + s.dataSize, packetsReceived := l.packetsReceived + 1))
  {
    assert s.replies + [] == s.replies && s.sentReplies + [] == s.sentReplies;
  }

  /** `n` packets and the request, everything delivered. */
  function Delivered(n: nat): seq<Step> {
    Repeated(SendData, n) + [RequestResult] + Repeated(DeliverMessage, n + 1)
  }

  lemma AnsweredOnce(dataSize: nat, n: nat)
    ensures Run(Start(dataSize), Delivered(n)) ==
            Session(dataSize, Waiting, n, [], 0, Listener(n * dataSize, n, true, true), [Reply(n * dataSize, n)],
              [Reply(n * dataSize, n)])
  {
    hide Packet, Run;
    var a, b, c := Repeated(SendData, n), [RequestResult], Repeated(DeliverMessage, n + 1);
    var sent := Run(Start(dataSize), a);
    AllSent(dataSize, n);
    RunInTwo(Start(dataSize), a, b);
    RunOne(sent, RequestResult);
    var asked := Run(Start(dataSize), a + b);
    AllDelivered(asked, n, n);
    RunRepeated(asked, DeliverMessage, n + 1);
    assert asked.channel[n..] == [ResultRequest];
    RunInTwo(Start(dataSize), a + b, c);
  }

  /** A test in which nothing is lost ends with the result that everything arrived. */
  lemma WholeTestReports(dataSize: nat, n: nat)
    ensures var s := Run(Start(dataSize), Delivered(n) + [DeliverReply]);
            && s.phase == Finished(Some(Reply(n * dataSize, n))) && s.sent == n && s.lost == 0
            && LossPercent(s.sent, n) == 0.0
  {
    hide Run;
    AnsweredOnce(dataSize, n);
    RunInTwo(Start(dataSize), Delivered(n), [DeliverReply]);
    RunOne(Run(Start(dataSize), Delivered(n)), DeliverReply);
    NoLoss(n);
  }

  /** The same test when the reply is lost on its way: the initiator asks again and is told the same. */
  lemma RetryReports(dataSize: nat, n: nat)
    ensures var again := [LoseReply(0), Retry, DeliverMessage, DeliverReply];
            var s := Run(Run(Start(dataSize), Delivered(n)), again);
            s.phase == Finished(Some(Reply(n * dataSize, n)))
  {
    hide Packet, Run;
    var s := Run(Start(dataSize), Delivered(n));
    AnsweredOnce(dataSize, n);
    var lost := Take(s, LoseReply(0));
    RunInTwo(s, [LoseReply(0)], [Retry, DeliverMessage, DeliverReply]);
    RunInTwo(lost, [Retry], [DeliverMessage, DeliverReply]);
    RunInTwo(Take(lost, Retry), [DeliverMessage], [DeliverReply]);
    RunOne(s, LoseReply(0));
    RunOne(lost, Retry);
    RunOne(Take(lost, Retry), DeliverMessage);
    RunOne(Take(Take(lost, Retry), DeliverMessage), DeliverReply);
    assert [LoseReply(0)] + [Retry, DeliverMessage, DeliverReply] ==
      [LoseReply(0), Retry, DeliverMessage, DeliverReply];
    assert [Retry] + [DeliverMessage, DeliverReply] == [Retry, DeliverMessage, DeliverReply];
    assert [DeliverMessage] + [DeliverReply] == [DeliverMessage, DeliverReply];
  }

  lemma RunOne(s: Session, step: Step)
    ensures Run(s, [step]) == Take(s, step)
  {
    assert [step][..0] == [];
    assert Run(s, []) == s;
  }

  lemma NoLoss(n: nat)
    ensures LossPercent(n, n) == 0.0
  {
    var r := n as real;
    if n > 0 { assert r / r * r == r && (r / r - 1.0) * r == 0.0; }
  }
}
