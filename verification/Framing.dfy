/** network_ipc.py: messages as length-prefixed frames over a byte stream that arrives in arbitrary pieces. */
module Framing {
  type Byte = b: int | 0 <= b < 256
  type Bytes = seq<Byte>

  const LIMIT := 0x1_0000_0000

  /** What get returns: an object, or the marker for the end and for anything unreadable. Empty stands for the
      exception that a timeout raises. */
  datatype Message = Object(text: Bytes) | Done | Empty

  function ToBytes(n: nat): (r: Bytes)
    requires n < LIMIT
    ensures |r| == 4 && FromBytes(r) == n
  {
    var third := n / 0x100;
    var second := third / 0x100;
    [second / 0x100, second % 0x100, third % 0x100, n % 0x100]
  }

  function FromBytes(b: Bytes): (n: nat)
    requires |b| == 4
    ensures n < LIMIT
  {
    ((b[0] as int * 0x100 + b[1]) * 0x100 + b[2]) * 0x100 + b[3]
  }

  lemma {:induction false} LengthsAreExact(b: Bytes)
    requires |b| == 4
    ensures ToBytes(FromBytes(b)) == b
  {
    var first := b[0] as int * 0x100 + b[1];
    var second := first * 0x100 + b[2];
    assert FromBytes(b) / 0x100 == second && second / 0x100 == first;
  }

  /** The most significant byte comes first. */
  lemma {:induction false} BigEndian(b: Bytes)
    requires |b| == 4
    ensures FromBytes(b) == 0x100_0000 * b[0] as int + 0x1_0000 * b[1] as int + 0x100 * b[2] as int + b[3] as int
    ensures ToBytes(FromBytes(b)) == b
  {
    LengthsAreExact(b);
  }

  function Frame(data: Bytes): (r: Bytes)
    requires |data| < LIMIT
    ensures |r| == 4 + |data|
  {
    ToBytes(|data|) + data
  }

  /** What the sender writes; put drops an object whose text is too long for the prefix. */
  function Encoded(texts: seq<Bytes>): Bytes {
    if texts == [] then []
    else Encoded(texts[..|texts| - 1]) + if |texts[|texts| - 1]| < LIMIT then Frame(texts[|texts| - 1]) else []
  }

  // ---------------------------------------------------------------------------------------
  // One read
  // ---------------------------------------------------------------------------------------

  datatype Read = Read(message: Message, rest: Bytes)

  function Parsed(data: Bytes, parses: Bytes -> bool): Message {
    if parses(data) then Object(data) else Done
  }

  /** What get makes of all that is still to come; an incomplete frame is consumed. */
  function Decoded(stream: Bytes, parses: Bytes -> bool): Read {
    if |stream| < 4 || |stream| < 4 + FromBytes(stream[..4]) then Read(Done, [])
    else
      var end := 4 + FromBytes(stream[..4]);
      Read(Parsed(stream[4..end], parses), stream[end..])
  }

  lemma {:induction false} ReadsParts(lengthBytes: Bytes, data: Bytes, rest: Bytes, parses: Bytes -> bool)
    requires |lengthBytes| == 4 && |data| == FromBytes(lengthBytes)
    ensures Decoded(lengthBytes + data + rest, parses) == Read(Parsed(data, parses), rest)
  {
    var stream := lengthBytes + data + rest;
    assert stream[..4] == lengthBytes;
    assert stream[4..4 + |data|] == data;
    assert stream[4 + |data|..] == rest;
  }

  lemma {:induction false} ReadsTooLittle(lengthBytes: Bytes, data: Bytes, parses: Bytes -> bool)
    requires (|lengthBytes| < 4 && data == []) || (|lengthBytes| == 4 && |data| < FromBytes(lengthBytes))
    ensures Decoded(lengthBytes + data, parses) == Read(Done, [])
  {
    if |lengthBytes| == 4 {
      assert (lengthBytes + data)[..4] == lengthBytes;
    }
  }

  lemma {:induction false} ReadsFrame(data: Bytes, rest: Bytes, parses: Bytes -> bool)
    requires |data| < LIMIT
    ensures Decoded(Frame(data) + rest, parses) == Read(Parsed(data, parses), rest)
  {
    ReadsParts(ToBytes(|data|), data, rest, parses);
  }

  /** One get of a whole frame: the text if it parses, else the end marker; what follows the frame is left. */
  lemma {:induction false} WholeFrameIsRead(prefix: Bytes, data: Bytes, rest: Bytes, parses: Bytes -> bool)
    requires |prefix| == 4
    requires |data| == 0x100_0000 * prefix[0] as int + 0x1_0000 * prefix[1] as int + 0x100 * prefix[2] as int
      + prefix[3] as int
    ensures Decoded(prefix + data + rest, parses) == Read(if parses(data) then Object(data) else Done, rest)
    ensures |data| < LIMIT && Frame(data) == prefix + data
  {
    BigEndian(prefix);
    ReadsParts(prefix, data, rest, parses);
  }

  lemma {:induction false} ReadsCutFrame(data: Bytes, cut: nat, parses: Bytes -> bool)
    requires |data| < LIMIT && cut < 4 + |data|
    ensures Decoded(Frame(data)[..cut], parses) == Read(Done, [])
  {
    if cut >= 4 {
      assert Frame(data)[..cut][..4] == ToBytes(|data|);
    }
  }

  // ---------------------------------------------------------------------------------------
  // Successive reads
  // ---------------------------------------------------------------------------------------

  /** The results of that many gets. */
  function Received(stream: Bytes, parses: Bytes -> bool, gets: nat): (r: seq<Message>)
    ensures |r| == gets
    decreases gets
  {
    if gets == 0 then []
    else
      var read := Decoded(stream, parses);
      [read.message] + Received(read.rest, parses, gets - 1)
  }

  /** The texts that put does not drop. */
  function Sendable(texts: seq<Bytes>): (r: seq<Bytes>)
    ensures forall i :: 0 <= i < |r| ==> |r[i]| < LIMIT
  {
    if texts == [] then []
    else Sendable(texts[..|texts| - 1]) + if |texts[|texts| - 1]| < LIMIT then [texts[|texts| - 1]] else []
  }

  function Frames(texts: seq<Bytes>): Bytes
    requires forall i :: 0 <= i < |texts| ==> |texts[i]| < LIMIT
  {
    if texts == [] then [] else Frame(texts[0]) + Frames(texts[1..])
  }

  lemma {:induction false} Regroup(a: Bytes, b: Bytes, c: Bytes)
    ensures a + (b + c) == a + b + c
  {
  }

  lemma {:induction false} FramesOneMore(texts: seq<Bytes>, data: Bytes)
    requires |data| < LIMIT && forall i :: 0 <= i < |texts| ==> |texts[i]| < LIMIT
    ensures Frames(texts + [data]) == Frames(texts) + Frame(data)
  {
    if texts == [] {
      assert [data][1..] == [] && Frames([data]) == Frame(data) + [];
    } else {
      FramesOneMore(texts[1..], data);
      assert (texts + [data])[1..] == texts[1..] + [data];
      Regroup(Frame(texts[0]), Frames(texts[1..]), Frame(data));
    }
  }

  lemma {:induction false} EncodedIsFrames(texts: seq<Bytes>)
    ensures Encoded(texts) == Frames(Sendable(texts))
  {
    if texts != [] {
      var front, last := texts[..|texts| - 1], texts[|texts| - 1];
      EncodedIsFrames(front);
      if |last| < LIMIT {
        FramesOneMore(Sendable(front), last);
      } else {
        assert Encoded(texts) == Encoded(front) && Sendable(texts) == Sendable(front);
      }
    }
  }

  /** How many whole frames the first bytes of the stream hold. */
  function Complete(texts: seq<Bytes>, cut: int): (n: nat)
    ensures n <= |texts|
  {
    if texts == [] || cut < 4 + |texts[0]| then 0 else 1 + Complete(texts[1..], cut - 4 - |texts[0]|)
  }

  lemma {:induction false} CompleteExactly(texts: seq<Bytes>, cut: int)
    requires forall i :: 0 <= i < |texts| ==> |texts[i]| < LIMIT
    requires cut <= |Frames(texts)|
    ensures Complete(texts, cut) == |texts| <==> texts == [] || cut == |Frames(texts)|
  {
    if texts != [] && cut >= 4 + |texts[0]| {
      CompleteExactly(texts[1..], cut - 4 - |texts[0]|);
    }
  }

  lemma {:induction false} NothingLeft(parses: Bytes -> bool, gets: nat)
    ensures forall i :: 0 <= i < gets ==> Received([], parses, gets)[i] == Done
  {
    if gets > 0 {
      NothingLeft(parses, gets - 1);
    }
  }

  /** The i-th result: the i-th text if its frame arrived whole, else the end marker. */
  function Expected(texts: seq<Bytes>, parses: Bytes -> bool, complete: nat, i: nat): Message
    requires complete <= |texts|
  {
    if i < complete then Parsed(texts[i], parses) else Done
  }

  ghost predicate Yields(received: seq<Message>, texts: seq<Bytes>, parses: Bytes -> bool, complete: nat)
    requires complete <= |texts|
  {
    forall i :: 0 <= i < |received| ==> received[i] == Expected(texts, parses, complete, i)
  }

  lemma {:induction false} YieldsOneMore(
      received: seq<Message>, texts: seq<Bytes>, parses: Bytes -> bool, complete: nat)
    requires texts != [] && complete < |texts| && Yields(received, texts[1..], parses, complete)
    ensures Yields([Parsed(texts[0], parses)] + received, texts, parses, complete + 1)
  {
    var more := [Parsed(texts[0], parses)] + received;
    forall i | 0 <= i < |more|
      ensures more[i] == Expected(texts, parses, complete + 1, i)
    {
      if i > 0 {
        assert more[i] == received[i - 1];
      }
    }
  }

  lemma {:induction false} FirstFrame(texts: seq<Bytes>, cut: nat)
    requires texts != [] && forall i :: 0 <= i < |texts| ==> |texts[i]| < LIMIT
    requires cut <= |Frames(texts)|
    ensures
      var size, stream := 4 + |texts[0]|, Frames(texts)[..cut];
      if cut < size then stream == Frame(texts[0])[..cut]
      else stream == Frame(texts[0]) + Frames(texts[1..])[..cut - size]
  {
  }

  lemma {:induction false} ReceivesCut(texts: seq<Bytes>, cut: nat, parses: Bytes -> bool, gets: nat)
    requires texts != [] && (forall i :: 0 <= i < |texts| ==> |texts[i]| < LIMIT) && gets > 0
    requires cut < 4 + |texts[0]| && cut <= |Frames(texts)|
    ensures Yields(Received(Frames(texts)[..cut], parses, gets), texts, parses, 0)
  {
    FirstFrame(texts, cut);
    ReadsCutFrame(texts[0], cut, parses);
    NothingLeft(parses, gets - 1);
  }

  lemma {:induction false} ReceivesWhole(
      texts: seq<Bytes>, cut: nat, parses: Bytes -> bool, gets: nat, complete: nat)
    requires texts != [] && (forall i :: 0 <= i < |texts| ==> |texts[i]| < LIMIT) && gets > 0
    requires 4 + |texts[0]| <= cut <= |Frames(texts)| && complete < |texts|
    requires
      var rest := Frames(texts[1..])[..cut - 4 - |texts[0]|];
      Yields(Received(rest, parses, gets - 1), texts[1..], parses, complete)
    ensures Yields(Received(Frames(texts)[..cut], parses, gets), texts, parses, complete + 1)
  {
    var rest := Frames(texts[1..])[..cut - 4 - |texts[0]|];
    FirstFrame(texts, cut);
    ReadsFrame(texts[0], rest, parses);
    YieldsOneMore(Received(rest, parses, gets - 1), texts, parses, complete);
  }

  lemma {:induction false} ReceivesPrefix(texts: seq<Bytes>, cut: nat, parses: Bytes -> bool, gets: nat)
    requires forall i :: 0 <= i < |texts| ==> |texts[i]| < LIMIT
    requires cut <= |Frames(texts)|
    ensures Yields(Received(Frames(texts)[..cut], parses, gets), texts, parses, Complete(texts, cut))
    decreases |texts|
  {
    if texts == [] {
      NothingLeft(parses, gets);
    } else if gets > 0 {
      if cut < 4 + |texts[0]| {
        ReceivesCut(texts, cut, parses, gets);
      } else {
        ReceivesPrefix(texts[1..], cut - 4 - |texts[0]|, parses, gets - 1);
        ReceivesWhole(texts, cut, parses, gets, Complete(texts[1..], cut - 4 - |texts[0]|));
      }
    }
  }

  /** A stream cut anywhere yields the texts whose frames arrived whole, in order and unaltered, and then the end
      marker for good. */
  lemma {:induction false} CutStreamYieldsPrefix(texts: seq<Bytes>, cut: nat, parses: Bytes -> bool, gets: nat, i: nat)
    requires cut <= |Encoded(texts)| && i < gets
    ensures Received(Encoded(texts)[..cut], parses, gets)[i]
      == Expected(Sendable(texts), parses, Complete(Sendable(texts), cut), i)
  {
    EncodedIsFrames(texts);
    ReceivesPrefix(Sendable(texts), cut, parses, gets);
  }

  /** The whole stream yields every text that was sent, and then the end marker. */
  lemma {:induction false} RoundTrip(texts: seq<Bytes>, parses: Bytes -> bool, gets: nat, i: nat)
    requires i < gets && forall j :: 0 <= j < |texts| ==> parses(texts[j]) && |texts[j]| < LIMIT
    ensures Received(Encoded(texts), parses, gets)[i] == if i < |texts| then Object(texts[i]) else Done
  {
    AllSendable(texts);
    EncodedIsFrames(texts);
    var stream := Encoded(texts);
    assert stream[..|stream|] == stream;
    CompleteExactly(texts, |stream|);
    ReceivesPrefix(texts, |stream|, parses, gets);
  }

  lemma {:induction false} AllSendable(texts: seq<Bytes>)
    requires forall j :: 0 <= j < |texts| ==> |texts[j]| < LIMIT
    ensures Sendable(texts) == texts
  {
    if texts != [] {
      AllSendable(texts[..|texts| - 1]);
    }
  }

  // ---------------------------------------------------------------------------------------
  // Interrupted reads
  // ---------------------------------------------------------------------------------------

  /** So many bytes are not yet a whole frame. */
  predicate Partial(stream: Bytes, taken: nat) {
    taken <= |stream| && (taken < 4 || taken < 4 + FromBytes(stream[..4]))
  }

  /** A read that is interrupted loses the bytes it has taken. If these were the length prefix, the text is read as
      if it were a frame, and an object comes out that nobody sent. */
  lemma {:induction false} InterruptedReadMisreads(inner: Bytes, rest: Bytes, parses: Bytes -> bool)
    requires |inner| + 4 < LIMIT
    ensures
      var stream := Frame(Frame(inner)) + rest;
      && Partial(stream, 4)
      && Decoded(stream, parses) == Read(Parsed(Frame(inner), parses), rest)
      && Decoded(stream[4..], parses) == Read(Parsed(inner, parses), rest)
  {
    var stream := Frame(Frame(inner)) + rest;
    ReadsFrame(Frame(inner), rest, parses);
    assert stream[..4] == ToBytes(|Frame(inner)|);
    assert stream[4..] == Frame(inner) + rest;
    ReadsFrame(inner, rest, parses);
  }

  ghost predicate Short(texts: seq<Bytes>) {
    forall i :: 0 <= i < |texts| ==> |texts[i]| < LIMIT
  }

  /** The first results are exactly these objects. */
  ghost predicate YieldsObjects(stream: Bytes, texts: seq<Bytes>, parses: Bytes -> bool) {
    forall i :: 0 <= i < |texts| ==> Received(stream, parses, |texts|)[i] == Object(texts[i])
  }

  lemma {:induction false} ObjectIsFrame(stream: Bytes, text: Bytes, parses: Bytes -> bool)
    requires Decoded(stream, parses).message == Object(text)
    ensures |text| < LIMIT && stream == Frame(text) + Decoded(stream, parses).rest
  {
    LengthsAreExact(stream[..4]);
    var end := 4 + FromBytes(stream[..4]);
    assert text == stream[4..end];
    assert stream == stream[..4] + stream[4..end] + stream[end..];
  }

  /** Only a stream that starts with the frames of some texts yields these texts. */
  lemma {:induction false} OnlyFrames(stream: Bytes, texts: seq<Bytes>, parses: Bytes -> bool)
    requires YieldsObjects(stream, texts, parses)
    ensures Short(texts) && Frames(texts) <= stream
    decreases |texts|
  {
    if texts != [] {
      var read, tail := Decoded(stream, parses), texts[1..];
      assert Received(stream, parses, |texts|)[0] == Object(texts[0]);
      ObjectIsFrame(stream, texts[0], parses);
      forall i | 0 <= i < |tail|
        ensures Received(read.rest, parses, |tail|)[i] == Object(tail[i])
      {
        assert Received(stream, parses, |texts|)[i + 1] == Object(texts[i + 1]);
      }
      OnlyFrames(read.rest, tail, parses);
    }
  }

  /** After an interruption the texts still come out exactly if it took no byte. */
  lemma {:induction false} InterruptionIsHarmlessExactly(texts: seq<Bytes>, taken: nat, parses: Bytes -> bool)
    requires Short(texts) && forall i :: 0 <= i < |texts| ==> parses(texts[i])
    requires taken <= |Encoded(texts)|
    ensures YieldsObjects(Encoded(texts)[taken..], texts, parses) <==> taken == 0
  {
    var stream := Encoded(texts);
    AllSendable(texts);
    EncodedIsFrames(texts);
    if taken == 0 {
      assert stream[0..] == stream;
      forall i | 0 <= i < |texts|
        ensures Received(stream, parses, |texts|)[i] == Object(texts[i])
      {
        RoundTrip(texts, parses, |texts|, i);
      }
    } else if YieldsObjects(stream[taken..], texts, parses) {
      OnlyFrames(stream[taken..], texts, parses);
    }
  }

  // ---------------------------------------------------------------------------------------
  // Sender and receiver
  // ---------------------------------------------------------------------------------------

  /** A connection that fails during a send has taken some of the frame, and takes nothing more. */
  class IPCSender {
    var stream: Bytes
    var broken: bool
    ghost var texts: seq<Bytes>

    ghost predicate Valid()
      reads this
    {
      stream <= Encoded(texts) && (!broken ==> stream == Encoded(texts))
    }

    constructor ()
      ensures Valid() && !broken && texts == []
    {
      stream, broken, texts := [], false, [];
    }

    /** `room` is how many bytes the connection still takes; all errors are swallowed. */
    method Put(data: Bytes, room: nat)
      requires Valid()
      modifies this
      ensures Valid() && texts == old(texts) + [data]
      ensures broken <==> old(broken) || (|data| < LIMIT && room < 4 + |data|)
      ensures old(broken) || |data| >= LIMIT ==> stream == old(stream)
      ensures !old(broken) && |data| < LIMIT ==>
        stream == old(stream) + Frame(data)[..if room < 4 + |data| then room else 4 + |data|]
    {
      texts := texts + [data];
      assert texts[..|texts| - 1] == old(texts);
      if |data| < LIMIT {
        var frame := ToBytes(|data|) + data;
        SendAll(frame, room);
      }
    }

    method SendAll(frame: Bytes, room: nat)
      modifies this`stream, this`broken
      ensures broken <==> old(broken) || room < |frame|
      ensures stream
        == if old(broken) then old(stream) else old(stream) + frame[..if room < |frame| then room else |frame|]
    {
      if !broken {
        if room < |frame| {
          stream, broken := stream + frame[..room], true;
        } else {
          stream := stream + frame;
        }
      }
    }
  }

  datatype Arrival = Chunk(bytes: Bytes) | TimedOut | Failed

  /** The receiving end of a connection: what is still to arrive before the peer closes it, and how often a read has
      timed out or failed. */
  class Connection {
    const mayInterrupt: bool
    var incoming: Bytes
    ghost var timeouts: nat
    ghost var interruptions: nat

    constructor (incoming: Bytes, mayInterrupt: bool)
      ensures this.incoming == incoming && this.mayInterrupt == mayInterrupt && timeouts == interruptions == 0
    {
      this.incoming, this.mayInterrupt := incoming, mayInterrupt;
      timeouts, interruptions := 0, 0;
    }

    /** Some bytes, no more than asked for; none only when the peer has closed. Otherwise nothing is taken. */
    method Recv(size: nat) returns (arrival: Arrival)
      requires size > 0
      modifies this
      ensures arrival.Chunk? ==>
        && old(incoming) == arrival.bytes + incoming && |arrival.bytes| <= size
        && (arrival.bytes == [] <==> old(incoming) == [])
      ensures !arrival.Chunk? ==> mayInterrupt && incoming == old(incoming)
      ensures timeouts == old(timeouts) + if arrival == TimedOut then 1 else 0
      ensures interruptions == old(interruptions) + if arrival.Chunk? then 0 else 1
    {
      var outcome: Arrival := *;
      if mayInterrupt && !outcome.Chunk? {
        timeouts, interruptions := timeouts + (if outcome == TimedOut then 1 else 0), interruptions + 1;
        return outcome;
      }
      if incoming == [] {
        return Chunk([]);
      }
      var n :| 1 <= n <= size && n <= |incoming|;
      arrival := Chunk(incoming[..n]);
      incoming := incoming[n..];
    }
  }

  function Interruption(arrival: Arrival): Message {
    if arrival == TimedOut then Empty else Done
  }

  class IPCReceiver {
    const conn: Connection
    const parses: Bytes -> bool

    constructor (conn: Connection, parses: Bytes -> bool)
      ensures this.conn == conn && this.parses == parses
    {
      this.conn := conn;
      this.parses := parses;
    }

    /** However the bytes arrive, the result is that of decoding the stream, unless the read is interrupted; then
        part of a frame may be gone. */
    method Get() returns (message: Message, ghost interrupted: bool)
      modifies conn
      ensures !interrupted ==> Read(message, conn.incoming) == Decoded(old(conn.incoming), parses)
      ensures interrupted ==> message in {Empty, Done} && exists taken: nat ::
        Partial(old(conn.incoming), taken) && conn.incoming == old(conn.incoming)[taken..]
      ensures interrupted ==> conn.mayInterrupt
      ensures conn.timeouts == old(conn.timeouts) + if message == Empty then 1 else 0
      ensures conn.interruptions == old(conn.interruptions) + if interrupted then 1 else 0
    {
      ghost var stream := conn.incoming;
      var lengthBytes: Bytes := [];
      while |lengthBytes| < 4
        invariant |lengthBytes| <= 4 && lengthBytes + conn.incoming == stream == old(conn.incoming)
        invariant conn.timeouts == old(conn.timeouts) && conn.interruptions == old(conn.interruptions)
      {
        var arrival := conn.Recv(4 - |lengthBytes|);
        if !arrival.Chunk? {
          LosesPartial(stream, lengthBytes, [], conn.incoming);
          return Interruption(arrival), true;
        }
        var chunk := arrival.bytes;
        if chunk == [] {
          ReadsTooLittle(lengthBytes, [], parses);
          return Done, false;
        }
        Regroup(lengthBytes, chunk, conn.incoming);
        lengthBytes := lengthBytes + chunk;
      }
      var length := FromBytes(lengthBytes);
      var data: Bytes := [];
      while |data| < length
        invariant |data| <= length && lengthBytes + data + conn.incoming == stream
        invariant conn.timeouts == old(conn.timeouts) && conn.interruptions == old(conn.interruptions)
      {
        var arrival := conn.Recv(length - |data|);
        if !arrival.Chunk? {
          LosesPartial(stream, lengthBytes, data, conn.incoming);
          return Interruption(arrival), true;
        }
        var chunk := arrival.bytes;
        if chunk == [] {
          ReadsTooLittle(lengthBytes, data, parses);
          return Done, false;
        }
        Regroup(lengthBytes + data, chunk, conn.incoming);
        Regroup(lengthBytes, data, chunk);
        data := data + chunk;
      }
      ReadsParts(lengthBytes, data, conn.incoming, parses);
      message, interrupted := if parses(data) then Object(data) else Done, false;
    }

    /** Successive gets. */
    method GetMany(gets: nat) returns (messages: seq<Message>, ghost interrupted: bool)
      modifies conn
      ensures |messages| == gets
      ensures interrupted <==> conn.interruptions > old(conn.interruptions)
      ensures interrupted ==> conn.mayInterrupt
      ensures !interrupted ==> messages == Received(old(conn.incoming), parses, gets)
    {
      messages, interrupted := [], false;
      ghost var stream := conn.incoming;
      for i := 0 to gets
        invariant |messages| == i
        invariant conn.interruptions >= old(conn.interruptions)
        invariant interrupted <==> conn.interruptions > old(conn.interruptions)
        invariant interrupted ==> conn.mayInterrupt
        invariant !interrupted ==>
          messages + Received(conn.incoming, parses, gets - i) == Received(stream, parses, gets)
      {
        var message;
        ghost var lost, before := false, conn.incoming;
        message, lost := Get();
        OneMoreGet(messages, before, parses, gets - i);
        messages := messages + [message];
        interrupted := interrupted || lost;
      }
    }
  }

  lemma {:induction false} OneMoreGet(messages: seq<Message>, stream: Bytes, parses: Bytes -> bool, gets: nat)
    requires gets > 0
    ensures
      var read := Decoded(stream, parses);
      messages + Received(stream, parses, gets)
      == messages + [read.message] + Received(read.rest, parses, gets - 1)
  {
  }

  lemma {:induction false} LosesPartial(stream: Bytes, lengthBytes: Bytes, data: Bytes, rest: Bytes)
    requires stream == lengthBytes + data + rest
    requires (|lengthBytes| < 4 && data == []) || (|lengthBytes| == 4 && |data| < FromBytes(lengthBytes))
    ensures Partial(stream, |lengthBytes + data|) && rest == stream[|lengthBytes + data|..]
  {
    if |lengthBytes| == 4 {
      assert stream[..4] == lengthBytes;
    }
  }

  /** What a sender has got through, even over a failing connection, reaches an uninterrupted receiver as a prefix of
      the texts. */
  lemma {:induction false} SentIsPrefix(stream: Bytes, texts: seq<Bytes>, parses: Bytes -> bool, gets: nat, i: nat)
    requires stream <= Encoded(texts) && i < gets
    ensures Received(stream, parses, gets)[i]
      == Expected(Sendable(texts), parses, Complete(Sendable(texts), |stream|), i)
  {
    assert stream == Encoded(texts)[..|stream|];
    CutStreamYieldsPrefix(texts, |stream|, parses, gets, i);
  }
}
