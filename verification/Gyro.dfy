/**
  The gyro's serial frame receiver (Decode_frame, UART2_CommandRoute, Sum_check).

  A frame is A5 5A, then a body whose first byte is the body's own length, whose last but
  one byte is the sum of the bytes before it, and whose last byte is a trailer.
 */
module Gyro {
  import opened Wire

  const RX_BUFFER_SIZE: nat := 50
  const HEAD: byte := 0xA5
  const START: byte := 0x5A

  // ---------------------------------------------------------------------------
  // The receiver as a state machine
  // ---------------------------------------------------------------------------

  /** rx_buffer, rx_wr_index and the "last byte was A5" bit of RC_Flag. */
  datatype Receiver = Receiver(buf: seq<byte>, wr: nat, head: bool) {
    /** What holds between two calls: the write index leaves room for one more byte. */
    predicate Valid() {
      |buf| == RX_BUFFER_SIZE && wr < RX_BUFFER_SIZE
    }
  }

  function Sum(bs: seq<byte>): nat {
    if bs == [] then 0 else bs[0] + Sum(bs[1..])
  }

  /**
    Sum_check on a complete body. A body of length 1 makes the code read the byte in memory
    before the buffer, which is `below` here.
   */
  predicate SumOk(body: seq<byte>, below: byte)
    requires body != []
  {
    if |body| == 1 then 0 == below else Sum(body[..|body| - 2]) % 0x100 == body[|body| - 2]
  }

  /** What one body makes the receiver hand on. */
  function Accepted(body: seq<byte>, below: byte): seq<seq<byte>>
    requires body != []
  {
    if SumOk(body, below) then [body] else []
  }

  function Saturated(wr: nat): nat {
    if wr == RX_BUFFER_SIZE then wr - 1 else wr
  }

  /** One call of Decode_frame, and the bodies it hands on (at most one). */
  function Step(r: Receiver, b: byte, below: byte): (res: (Receiver, seq<seq<byte>>))
    requires r.Valid()
    ensures res.0.Valid()
  {
    if b == START && r.head then (Receiver(r.buf, 0, false), [])
    else
      var buf := r.buf[r.wr := b];
      var wr := r.wr + 1;
      var complete := b != HEAD && b != START && wr == buf[0];
      (Receiver(buf, Saturated(wr), b == HEAD), if complete then Accepted(buf[..wr], below) else [])
  }

  /** A whole byte stream. */
  function Feed(r: Receiver, bs: seq<byte>, below: byte): (res: (Receiver, seq<seq<byte>>))
    requires r.Valid()
    ensures res.0.Valid()
    decreases |bs|
  {
    if bs == [] then (r, [])
    else
      var (r1, out1) := Step(r, bs[0], below);
      var (r2, out2) := Feed(r1, bs[1..], below);
      (r2, out1 + out2)
  }

  lemma {:induction false} FeedConcat(r: Receiver, a: seq<byte>, b: seq<byte>, below: byte)
    requires r.Valid()
    ensures var (r1, out1) := Feed(r, a, below);
            var (r2, out2) := Feed(r1, b, below);
            Feed(r, a + b, below) == (r2, out1 + out2)
    decreases |a|
  {
    hide Step;
    if a == [] {
      assert a + b == b;
      assert [] + Feed(r, b, below).1 == Feed(r, b, below).1;
    } else {
      assert (a + b)[1..] == a[1..] + b;
      var (r1, out1) := Step(r, a[0], below);
      FeedConcat(r1, a[1..], b, below);
      var out2 := Feed(r1, a[1..], below).1;
      var out3 := Feed(Feed(r, a, below).0, b, below).1;
      assert out1 + (out2 + out3) == (out1 + out2) + out3;
    }
  }

  lemma FeedOne(r: Receiver, b: byte, below: byte)
    requires r.Valid()
    ensures Feed(r, [b], below) == Step(r, b, below)
  {
    assert [b][1..] == [];
    assert Step(r, b, below).1 + [] == Step(r, b, below).1;
  }

  // ---------------------------------------------------------------------------
  // The object
  // ---------------------------------------------------------------------------

  class GyroDevice {
    const rxBuffer: array<byte>
    const below: byte
    var rxWrIndex: nat
    var uartHead: bool
    var rxOver: bool
    /** Every body passed on to a handler, in order. */
    var handled: seq<seq<byte>>

    ghost predicate Valid()
      reads this
    {
      rxBuffer.Length == RX_BUFFER_SIZE && rxWrIndex < RX_BUFFER_SIZE
    }

    ghost function State(): Receiver
      reads this, rxBuffer
    {
      Receiver(rxBuffer[..], rxWrIndex, uartHead)
    }

    constructor (memoryBelow: byte)
      ensures Valid() && State() == PowerUp() && handled == [] && below == memoryBelow
    {
      rxBuffer := new byte[RX_BUFFER_SIZE](_ => 0);
      below := memoryBelow;
      rxWrIndex := 0;
      uartHead := false;
      rxOver := false;
      handled := [];
      new;
      assert rxBuffer[..] == PowerUp().buf;
    }

    /** Sum_check: adds up all but the last two bytes. */
    method SumCheck() returns (ok: bool)
      requires rxBuffer.Length == RX_BUFFER_SIZE && 0 < rxBuffer[0] <= RX_BUFFER_SIZE
      ensures ok <==> SumOk(rxBuffer[..rxBuffer[0]], below)
    {
      var length: int := rxBuffer[0];
      ghost var body := rxBuffer[..length];
      var checksum, i := 0, 0;
      assert length >= 2 ==> body[0..length - 2] == body[..length - 2];
      while i < length - 2
        invariant 0 <= i && (i <= length - 2 || i == 0)
        invariant length < 2 ==> checksum == 0
        invariant length >= 2 ==> Sum(body[..length - 2]) == checksum + Sum(body[i..length - 2])
      {
        assert body[i..length - 2][1..] == body[i + 1..length - 2];
        checksum := checksum + rxBuffer[i];
        i := i + 1;
      }
      ok := checksum % 0x100 == if length == 1 then below else rxBuffer[length - 2];
    }

    /** UART2_CommandRoute */
    method CommandRoute()
      requires rxBuffer.Length == RX_BUFFER_SIZE && (rxOver ==> 0 < rxBuffer[0] <= RX_BUFFER_SIZE)
      modifies this`rxOver, this`handled
      ensures !rxOver
      ensures handled == old(handled) + if old(rxOver) then Accepted(rxBuffer[..rxBuffer[0]], below) else []
    {
      if rxOver {
        rxOver := false;
        var ok := SumCheck();
        if ok {
          handled := handled + [rxBuffer[..rxBuffer[0]]];
        }
      }
    }

    /** Decode_frame */
    method DecodeFrame(data: byte)
      requires Valid()
      modifies this, rxBuffer
      ensures Valid()
      ensures State() == Step(old(State()), data, below).0
      ensures handled == old(handled) + Step(old(State()), data, below).1
    {
      if data == HEAD {
        uartHead := true;
        rxBuffer[rxWrIndex] := data;
        rxWrIndex := rxWrIndex + 1;
      } else if data == START {
        if uartHead {
          rxWrIndex := 0;
          rxOver := false;
        } else {
          rxBuffer[rxWrIndex] := data;
          rxWrIndex := rxWrIndex + 1;
        }
        uartHead := false;
      } else {
        rxBuffer[rxWrIndex] := data;
        rxWrIndex := rxWrIndex + 1;
        uartHead := false;
        if rxWrIndex == rxBuffer[0] {
          rxOver := true;
          CommandRoute();
        }
      }
      if rxWrIndex == RX_BUFFER_SIZE {
        rxWrIndex := rxWrIndex - 1;
      }
    }

    /** The loop of rcvFrame over one block read from the serial port. */
    method ReceiveBlock(bs: seq<byte>)
      requires Valid()
      modifies this, rxBuffer
      ensures Valid()
      ensures State() == Feed(old(State()), bs, below).0
      ensures handled == old(handled) + Feed(old(State()), bs, below).1
    {
      var i := 0;
      assert bs[0..] == bs;
      while i < |bs|
        invariant i <= |bs| && Valid()
        invariant Feed(old(State()), bs, below).0 == Feed(State(), bs[i..], below).0
        invariant old(handled) + Feed(old(State()), bs, below).1 == handled + Feed(State(), bs[i..], below).1
      {
        assert bs[i..][1..] == bs[i + 1..];
        DecodeFrame(bs[i]);
        i := i + 1;
      }
    }
  }

  function PowerUp(): Receiver {
    Receiver(seq(RX_BUFFER_SIZE, _ => 0), 0, false)
  }

  // ---------------------------------------------------------------------------
  // One frame
  // ---------------------------------------------------------------------------

  /** No A5 directly before a 5A, also not across the byte received before. */
  predicate NoStart(head: bool, bs: seq<byte>) {
    && (head && bs != [] ==> bs[0] != START)
    && forall i | 0 < i < |bs| :: !(bs[i - 1] == HEAD && bs[i] == START)
  }

  predicate Plain(b: byte) {
    b != HEAD && b != START
  }

  /** A body whose length byte is its length, without a start inside it, ended by a plain byte. */
  predicate FillsBuffer(body: seq<byte>) {
    && 2 <= |body| <= RX_BUFFER_SIZE && body[0] as int == |body|
    && NoStart(false, body)
    && Plain(body[|body| - 1])
  }

  /** ... and shorter than the buffer. */
  predicate IsBody(body: seq<byte>) {
    FillsBuffer(body) && |body| < RX_BUFFER_SIZE
  }

  /** A5 5A resets the receiver from every state and hands nothing on. */
  lemma StartResets(r: Receiver, below: byte)
    requires r.Valid()
    ensures Feed(r, [HEAD, START], below).1 == []
    ensures var r' := Feed(r, [HEAD, START], below).0; r'.wr == 0 && !r'.head
  {
    assert [HEAD, START] == [HEAD] + [START];
    FeedConcat(r, [HEAD], [START], below);
    FeedOne(r, HEAD, below);
    FeedOne(Step(r, HEAD, below).0, START, below);
  }

  /** With the first k bytes of a body received, the rest completes exactly that body. */
  lemma {:induction false} BodyCompletes(r: Receiver, body: seq<byte>, k: nat, below: byte)
    requires r.Valid() && FillsBuffer(body) && k < |body|
    requires r.wr == k && r.buf[..k] == body[..k] && (r.head <==> k > 0 && body[k - 1] == HEAD)
    ensures var (r', out) := Feed(r, body[k..], below);
            out == Accepted(body, below) && r'.wr == Saturated(|body|) && r'.buf[..|body|] == body && !r'.head
    decreases |body| - k
  {
    hide Sum, SumOk, Accepted;
    var b := body[k];
    var (r1, out1) := Step(r, b, below);
    assert body[k..][1..] == body[k + 1..];
    assert r1.buf[..k + 1] == body[..k + 1];
    if k > 0 { assert r1.buf[0] == r1.buf[..k + 1][0] == body[0]; }
    if k + 1 == |body| {
      assert body[k + 1..] == [];
      assert r1.buf[..k + 1] == body;
    } else {
      BodyCompletes(r1, body, k + 1, below);
    }
  }

  function Frame(body: seq<byte>): seq<byte> {
    [HEAD, START] + body
  }

  /**
    From every receiver state a whole frame hands its body on if the sum is right, and
    nothing else, and leaves the receiver quiet.
   */
  lemma FrameHandledOnce(r: Receiver, body: seq<byte>, below: byte)
    requires r.Valid() && IsBody(body)
    ensures var (r', out) := Feed(r, Frame(body), below); out == Accepted(body, below) && Quiet(r') && !r'.head
  {
    StartResets(r, below);
    FeedConcat(r, [HEAD, START], body, below);
    var r0 := Feed(r, [HEAD, START], below).0;
    assert body[0..] == body;
    BodyCompletes(r0, body, 0, below);
    var r' := Feed(r0, body, below).0;
    assert r'.buf[0] == r'.buf[..|body|][0];
  }

  // ---------------------------------------------------------------------------
  // Between frames
  // ---------------------------------------------------------------------------

  /** Nothing can be handed on before the next start: the length byte is behind or out of reach. */
  predicate Quiet(r: Receiver) {
    r.Valid() && 0 < r.wr && (r.buf[0] as int <= r.wr || r.buf[0] as int > RX_BUFFER_SIZE)
  }

  lemma {:induction false} QuietUntilStart(r: Receiver, bs: seq<byte>, below: byte)
    requires Quiet(r) && NoStart(r.head, bs)
    ensures var (r', out) := Feed(r, bs, below); out == [] && Quiet(r')
    decreases |bs|
  {
    if bs != [] {
      var (r1, out1) := Step(r, bs[0], below);
      assert r1.buf[0] == r.buf[0];
      assert Quiet(r1) && out1 == [];
      assert r1.head <==> bs[0] == HEAD;
      QuietUntilStart(r1, bs[1..], below);
    }
  }

  /** Noise, and then a frame. */
  datatype Segment = Segment(gap: seq<byte>, body: seq<byte>)

  function Bytes(segments: seq<Segment>): seq<byte> {
    if segments == [] then [] else segments[0].gap + (Frame(segments[0].body) + Bytes(segments[1..]))
  }

  /** The bodies with a right sum, in order. */
  function GoodBodies(segments: seq<Segment>, below: byte): seq<seq<byte>>
    requires forall k | 0 <= k < |segments| :: IsBody(segments[k].body)
  {
    if segments == [] then []
    else
      assert IsBody(segments[0].body);
      Accepted(segments[0].body, below) + GoodBodies(segments[1..], below)
  }

  /**
    A stream of frames with noise between and after them: exactly the bodies with a right
    sum are handed on, once each and in order, whatever the noise.
   */
  lemma {:induction false} StreamHandsOnGoodBodies(r: Receiver, segments: seq<Segment>, tail: seq<byte>, below: byte)
    requires Quiet(r)
    requires forall k | 0 <= k < |segments| :: IsBody(segments[k].body)
    requires forall k | 0 <= k < |segments| :: NoStart(k == 0 && r.head, segments[k].gap)
    requires NoStart(segments == [] && r.head, tail)
    ensures var (r', out) := Feed(r, Bytes(segments) + tail, below);
            out == GoodBodies(segments, below) && Quiet(r')
    decreases |segments|
  {
    if segments == [] {
      assert Bytes(segments) + tail == tail;
      QuietUntilStart(r, tail, below);
    } else {
      var s := segments[0];
      var more := Bytes(segments[1..]) + tail;
      assert Bytes(segments) + tail == s.gap + (Frame(s.body) + more);
      QuietUntilStart(r, s.gap, below);
      var r1 := Feed(r, s.gap, below).0;
      FrameHandledOnce(r1, s.body, below);
      var r2 := Feed(r1, Frame(s.body), below).0;
      FeedConcat(r, s.gap, Frame(s.body) + more, below);
      FeedConcat(r1, Frame(s.body), more, below);
      StreamHandsOnGoodBodies(r2, segments[1..], tail, below);
    }
  }

  /** From any state, after any noise, one frame resynchronises the receiver for good. */
  lemma Resynchronises(
    r: Receiver, noise: seq<byte>, body: seq<byte>, segments: seq<Segment>, tail: seq<byte>, below: byte)
    requires r.Valid() && IsBody(body)
    requires forall k | 0 <= k < |segments| :: IsBody(segments[k].body) && NoStart(false, segments[k].gap)
    requires NoStart(false, tail)
    ensures Feed(r, noise + (Frame(body) + (Bytes(segments) + tail)), below).1
            == Feed(r, noise, below).1 + (Accepted(body, below) + GoodBodies(segments, below))
  {
    var r1 := Feed(r, noise, below).0;
    FeedConcat(r, noise, Frame(body) + (Bytes(segments) + tail), below);
    FeedConcat(r1, Frame(body), Bytes(segments) + tail, below);
    FrameHandledOnce(r1, body, below);
    StreamHandsOnGoodBodies(Feed(r1, Frame(body), below).0, segments, tail, below);
  }

  // ---------------------------------------------------------------------------
  // The length bytes left out above
  // ---------------------------------------------------------------------------

  /** Length bytes 0 and above 50 never complete: the receiver is quiet until the next start. */
  lemma ImpossibleLengthIsQuiet(r: Receiver, length: byte, below: byte)
    requires r.Valid() && (length == 0 || length as int > RX_BUFFER_SIZE)
    ensures var (r', out) := Feed(r, [HEAD, START, length], below); out == [] && Quiet(r')
  {
    StartResets(r, below);
    FeedConcat(r, [HEAD, START], [length], below);
    assert [HEAD, START] + [length] == [HEAD, START, length];
    var r0 := Feed(r, [HEAD, START], below).0;
    FeedOne(r0, length, below);
  }

  /** Length byte 1: whether anything is handed on depends on memory outside the buffer. */
  lemma LengthOneReadsOutside(r: Receiver, below: byte)
    requires r.Valid()
    ensures Feed(r, [HEAD, START, 1], below).1 == if below == 0 then [[1]] else []
  {
    StartResets(r, below);
    FeedConcat(r, [HEAD, START], [1], below);
    assert [HEAD, START] + [1] == [HEAD, START, 1];
    var r0 := Feed(r, [HEAD, START], below).0;
    var one: byte := 1;
    FeedOne(r0, one, below);
    assert Step(r0, one, below).0.buf[..1] == [one];
  }

  /** What a full buffer hands on while plain bytes keep replacing its last one. */
  function Repeats(body: seq<byte>, tail: seq<byte>, below: byte): seq<seq<byte>>
    requires |body| == RX_BUFFER_SIZE
  {
    if tail == [] then []
    else
      (if Plain(tail[0]) then Accepted(body[..RX_BUFFER_SIZE - 1] + [tail[0]], below) else [])
      + Repeats(body, tail[1..], below)
  }

  lemma {:induction false} FullBufferRepeats(r: Receiver, body: seq<byte>, tail: seq<byte>, below: byte)
    requires r.Valid() && |body| == RX_BUFFER_SIZE && body[0] as int == RX_BUFFER_SIZE && NoStart(r.head, tail)
    requires r.wr == RX_BUFFER_SIZE - 1 && r.buf[..RX_BUFFER_SIZE - 1] == body[..RX_BUFFER_SIZE - 1]
    ensures Feed(r, tail, below).1 == Repeats(body, tail, below)
    decreases |tail|
  {
    if tail != [] {
      var b := tail[0];
      var r1 := Step(r, b, below).0;
      assert r1.buf == r.buf[RX_BUFFER_SIZE - 1 := b];
      assert r1.buf == body[..RX_BUFFER_SIZE - 1] + [b];
      assert r1.buf[0] == r.buf[..RX_BUFFER_SIZE - 1][0] == body[0];
      assert r1.buf[..RX_BUFFER_SIZE] == r1.buf;
      FullBufferRepeats(r1, body, tail[1..], below);
    }
  }

  /** The last byte is no part of the sum. */
  lemma TrailerIsFree(body: seq<byte>, b: byte, below: byte)
    requires |body| >= 2
    ensures SumOk(body[..|body| - 1] + [b], below) == SumOk(body, below)
  {
    assert (body[..|body| - 1] + [b])[..|body| - 2] == body[..|body| - 2];
  }

  function PlainCount(tail: seq<byte>): nat {
    if tail == [] then 0 else (if Plain(tail[0]) then 1 else 0) + PlainCount(tail[1..])
  }

  lemma {:induction false} RepeatsCount(body: seq<byte>, tail: seq<byte>, below: byte)
    requires |body| == RX_BUFFER_SIZE
    ensures |Repeats(body, tail, below)| == if SumOk(body, below) then PlainCount(tail) else 0
    decreases |tail|
  {
    if tail != [] {
      TrailerIsFree(body, tail[0], below);
      RepeatsCount(body, tail[1..], below);
    }
  }

  /**
    Length byte 50, from every receiver state: the index saturates below it, so after the
    body itself every further plain byte replaces the trailer and hands a body on again; if
    the sum is right that is one body and one more for each plain byte, else none at all.
   */
  lemma LengthFiftyRepeats(r: Receiver, body: seq<byte>, tail: seq<byte>, below: byte)
    requires r.Valid() && FillsBuffer(body) && |body| == RX_BUFFER_SIZE && NoStart(false, tail)
    ensures var out := Feed(r, Frame(body) + tail, below).1;
            && out == Accepted(body, below) + Repeats(body, tail, below)
            && |out| == if SumOk(body, below) then 1 + PlainCount(tail) else 0
  {
    StartResets(r, below);
    var r0 := Feed(r, [HEAD, START], below).0;
    assert body[0..] == body;
    BodyCompletes(r0, body, 0, below);
    var r1 := Feed(r0, body, below).0;
    assert r1.buf[..RX_BUFFER_SIZE - 1] == r1.buf[..RX_BUFFER_SIZE][..RX_BUFFER_SIZE - 1];
    FullBufferRepeats(r1, body, tail, below);
    RepeatsCount(body, tail, below);
    FeedConcat(r, [HEAD, START], body + tail, below);
    FeedConcat(r0, body, tail, below);
    assert [HEAD, START] + (body + tail) == Frame(body) + tail;
  }

  // ---------------------------------------------------------------------------
  // Bodies without a header
  // ---------------------------------------------------------------------------

  /**
    Start-free bytes can make this receiver hand a body on: it has received nothing yet, or
    at least three bytes of the length it holds are missing, or two and the sum need not
    complete a start, or one and the sum is right already.
   */
  predicate CanComplete(r: Receiver)
    requires r.Valid()
  {
    var missing := r.buf[0] as int - r.wr;
    || r.wr == 0
    || (0 < missing && r.buf[0] as int <= RX_BUFFER_SIZE
        && (|| missing >= 3
            || (missing == 2 && !(r.head && Sum(r.buf[..r.wr]) % 0x100 == START as int))
            || (missing == 1 && Sum(r.buf[..r.wr - 1]) % 0x100 == r.buf[r.wr - 1] as int)))
  }

  lemma {:induction false} SumAppend(a: seq<byte>, b: byte)
    ensures Sum(a + [b]) == Sum(a) + b
    decreases |a|
  {
    if a == [] {
      assert [b][1..] == [];
      assert [] + [b] == [b];
    } else {
      assert (a + [b])[1..] == a[1..] + [b];
      SumAppend(a[1..], b);
    }
  }

  /** A receiver that cannot complete stays so and stays silent until the next start. */
  lemma StuckStep(r: Receiver, b: byte, below: byte)
    requires r.Valid() && !CanComplete(r) && !(r.head && b == START)
    ensures var (r1, out) := Step(r, b, below); out == [] && !CanComplete(r1) && (r1.head <==> b == HEAD)
  {
    var r1 := Step(r, b, below).0;
    var length := r.buf[0] as int;
    assert r1.buf[0] == r.buf[0];
    if 0 < length - r.wr && length <= RX_BUFFER_SIZE {
      var body := r1.buf[..r.wr + 1];
      if length - r.wr == 1 {
        assert body[..|body| - 2] == r.buf[..r.wr - 1] && body[|body| - 2] == r.buf[r.wr - 1];
        assert !SumOk(body, below);
        assert r1.wr < RX_BUFFER_SIZE - 1 || r1.buf[..r1.wr - 1] == r.buf[..r1.wr - 1];
      } else {
        assert length - r.wr == 2 && r1.buf[..r1.wr - 1] == r.buf[..r.wr] && r1.buf[r1.wr - 1] == b;
      }
    }
  }

  lemma {:induction false} StuckStaysSilent(r: Receiver, bs: seq<byte>, below: byte)
    requires r.Valid() && !CanComplete(r) && NoStart(r.head, bs)
    ensures Feed(r, bs, below).1 == []
    decreases |bs|
  {
    hide CanComplete, Step;
    if bs != [] {
      StuckStep(r, bs[0], below);
      StuckStaysSilent(Step(r, bs[0], below).0, bs[1..], below);
    }
  }

  /** The bytes that complete a body from here: zeros, the sum where it belongs, a zero for the trailer. */
  lemma {:induction false} Completion(r: Receiver, below: byte) returns (bs: seq<byte>)
    requires r.Valid() && CanComplete(r) && r.wr > 0
    ensures bs != [] && NoStart(r.head, bs) && Feed(r, bs, below).1 != []
    decreases r.buf[0] as int - r.wr
  {
    var missing := r.buf[0] as int - r.wr;
    var zero: byte := 0;
    var sum: byte := Sum(r.buf[..r.wr]) % 0x100;
    var b := if missing == 2 then sum else zero;
    var (r1, out) := Step(r, b, below);
    assert r1.buf[0] == r.buf[0];
    if missing == 1 {
      var body := r1.buf[..r.wr + 1];
      assert body[..|body| - 2] == r.buf[..r.wr - 1] && body[|body| - 2] == r.buf[r.wr - 1];
      assert SumOk(body, below);
      bs := [b];
      FeedOne(r, b, below);
    } else {
      assert r1.wr == r.wr + 1 && r1.buf[..r1.wr] == r.buf[..r.wr] + [b];
      assert r1.buf[..r1.wr - 1] == r.buf[..r.wr];
      var rest := Completion(r1, below);
      bs := [b] + rest;
      assert bs[1..] == rest;
      if b == HEAD { assert rest[0] != START; }
    }
  }

  /**
    Exactly the receivers that can complete can be made to hand on a body without any
    header; in particular every receiver that has just been started.
   */
  lemma HeaderlessBodiesExactly(r: Receiver, below: byte)
    requires r.Valid()
    ensures (exists bs :: NoStart(r.head, bs) && Feed(r, bs, below).1 != []) <==> CanComplete(r)
  {
    if !CanComplete(r) {
      forall bs | NoStart(r.head, bs) ensures Feed(r, bs, below).1 == [] {
        StuckStaysSilent(r, bs, below);
      }
    } else if r.wr > 0 {
      var bs := Completion(r, below);
    } else {
      var three: byte := 3;
      var (r1, out) := Step(r, three, below);
      var rest := Completion(r1, below);
      assert ([three] + rest)[1..] == rest;
      assert NoStart(r.head, [three] + rest);
      assert Feed(r, [three] + rest, below).1 == out + Feed(r1, rest, below).1;
    }
  }

  /** At power-up the receiver takes a body without any header. */
  lemma PowerUpNeedsNoHeader(body: seq<byte>, below: byte)
    requires IsBody(body)
    ensures Feed(PowerUp(), body, below).1 == Accepted(body, below)
  {
    assert body[0..] == body;
    BodyCompletes(PowerUp(), body, 0, below);
  }
}
