/**
  Which frames the gyro receiver accepts, byte by byte: A5 5A, the length, the contents, the
  sum modulo 256, a trailer.
 */
module GyroFrames {
  import opened Wire
  import opened Gyro

  // ---------------------------------------------------------------------------
  // The sum
  // ---------------------------------------------------------------------------

  /** The sum begins at 0 and every byte adds itself. */
  lemma SumExactly(bs: seq<byte>, b: byte)
    ensures Sum([]) == 0 && Sum(bs + [b]) == Sum(bs) + b
  {
    SumAppend(bs, b);
  }

  lemma {:induction false} SumBound(bs: seq<byte>)
    ensures 0 <= Sum(bs) <= 255 * |bs|
    ensures (forall k | 0 <= k < |bs| :: bs[k] == 0) ==> Sum(bs) == 0
    decreases |bs|
  {
    if bs != [] {
      SumBound(bs[1..]);
      assert forall k | 0 <= k < |bs| - 1 :: bs[1..][k] == bs[k + 1];
    }
  }

  lemma {:induction false} SumUpdate(bs: seq<byte>, j: nat, b: byte)
    requires j < |bs|
    ensures Sum(bs[j := b]) == Sum(bs) - bs[j] + b
    decreases |bs|
  {
    if j == 0 {
      assert bs[0 := b][1..] == bs[1..];
    } else {
      assert bs[j := b][1..] == bs[1..][j - 1 := b];
      SumUpdate(bs[1..], j - 1, b);
    }
  }

  /** A body is accepted exactly when its last byte but one is the sum of all before it, up to multiples of 256. */
  lemma AcceptedExactly(body: seq<byte>, below: byte)
    requires |body| >= 2
    ensures var n := |body|;
            Accepted(body, below) == if (Sum(body[..n - 2]) - body[n - 2]) % 256 == 0 then [body] else []
  {
    hide Sum;
    var sum, check := Sum(body[..|body| - 2]), body[|body| - 2];
    assert sum == sum / 256 * 256 + sum % 256;
    assert (sum - check) % 256 == (sum % 256 - check) % 256;
  }

  /** One wrong byte, in the contents, the length or the sum itself, is always noticed; a wrong trailer never is. */
  lemma OneWrongByte(body: seq<byte>, j: nat, b: byte, below: byte)
    requires |body| >= 2 && j < |body| && b != body[j] && Accepted(body, below) != []
    ensures Accepted(body[j := b], below) == if j < |body| - 1 then [] else [body[j := b]]
  {
    hide Sum, Accepted;
    var n := |body|;
    AcceptedExactly(body, below);
    AcceptedExactly(body[j := b], below);
    if j < n - 2 {
      assert body[j := b][..n - 2] == body[..n - 2][j := b];
      SumUpdate(body[..n - 2], j, b);
      NotAMultiple(Sum(body[..n - 2]) - body[n - 2], b - body[j]);
    } else {
      assert body[j := b][..n - 2] == body[..n - 2];
      if j == n - 2 { NotAMultiple(Sum(body[..n - 2]) - body[n - 2], body[j] - b); }
    }
  }

  lemma NotAMultiple(a: int, d: int)
    requires a % 256 == 0 && -256 < d < 256 && d != 0
    ensures (a + d) % 256 != 0
  {
  }

  // ---------------------------------------------------------------------------
  // Whole frames
  // ---------------------------------------------------------------------------

  /** The body a sender makes of its contents and a trailer. */
  function Body(contents: seq<byte>, trailer: byte): seq<byte>
    requires |contents| <= 47
  {
    var length: byte := |contents| + 3;
    var sum: byte := Sum([length] + contents) % 256;
    [length] + contents + [sum, trailer]
  }

  /** No A5 5A inside, and a trailer that is neither of the two. */
  predicate Sendable(body: seq<byte>) {
    && body != [] && body[|body| - 1] != 0xA5 && body[|body| - 1] != 0x5A
    && forall i | 0 < i < |body| :: !(body[i - 1] == 0xA5 && body[i] == 0x5A)
  }

  /** Whatever state the receiver is in, such a frame is handed on, once and unchanged. */
  lemma SentIsReceived(r: Receiver, contents: seq<byte>, trailer: byte, below: byte)
    requires r.Valid() && |contents| <= 47 && Sendable(Body(contents, trailer))
    ensures Feed(r, [0xA5, 0x5A] + Body(contents, trailer), below).1 == [Body(contents, trailer)]
  {
    var body := Body(contents, trailer);
    assert body[..|body| - 2] == [body[0]] + contents;
    assert Accepted(body, below) == [body];
    hide Sum, Accepted, Feed;
    if |body| < 50 {
      FrameHandledOnce(r, body, below);
    } else {
      LengthFiftyRepeats(r, body, [], below);
      assert Frame(body) + [] == Frame(body);
      assert Repeats(body, [], below) == [];
    }
  }

  /** For example frames of zeros, of which the sum is their length. */
  lemma ZerosAreReceived(r: Receiver, zeros: seq<byte>, trailer: byte, below: byte)
    requires r.Valid() && |zeros| <= 47 && (forall k | 0 <= k < |zeros| :: zeros[k] == 0)
    requires trailer != 0xA5 && trailer != 0x5A
    ensures var length: byte := |zeros| + 3;
            Feed(r, [0xA5, 0x5A] + ([length] + zeros + [length, trailer]), below).1
            == [[length] + zeros + [length, trailer]]
  {
    var length: byte := |zeros| + 3;
    SumBound(zeros);
    assert ([length] + zeros)[1..] == zeros;
    assert Body(zeros, trailer) == [length] + zeros + [length, trailer];
    hide Sum, Feed;
    SentIsReceived(r, zeros, trailer, below);
  }

  /** A length byte of 0 or above 50 makes nothing of whatever follows, up to the next start. */
  lemma LengthsNotTaken(r: Receiver, length: byte, noise: seq<byte>, below: byte)
    requires r.Valid() && (length == 0 || length > 50) && NoStart(length == 0xA5, noise)
    ensures Feed(r, [0xA5, 0x5A, length] + noise, below).1 == []
  {
    FeedConcat(r, [HEAD, START, length], noise, below);
    ImpossibleLengthIsQuiet(r, length, below);
    HeadAfter(r, length, below);
    QuietUntilStart(Feed(r, [HEAD, START, length], below).0, noise, below);
  }

  lemma HeadAfter(r: Receiver, b: byte, below: byte)
    requires r.Valid()
    ensures Feed(r, [HEAD, START, b], below).0.head <==> b == HEAD
  {
    StartResets(r, below);
    FeedConcat(r, [HEAD, START], [b], below);
    assert [HEAD, START] + [b] == [HEAD, START, b];
    FeedOne(Feed(r, [HEAD, START], below).0, b, below);
  }

  // ---------------------------------------------------------------------------
  // The trailer
  // ---------------------------------------------------------------------------

  /** As long as the length is not reached nothing is handed on, and the bytes are kept. */
  lemma {:induction false} PrefixKept(r: Receiver, body: seq<byte>, k: nat, below: byte)
    requires r.Valid() && r.wr == 0 && !r.head && NoStart(false, body)
    requires 2 <= |body| < RX_BUFFER_SIZE && body[0] as int == |body| && k < |body|
    ensures var (r', out) := Feed(r, body[..k], below);
            out == [] && r'.wr == k && r'.buf[..k] == body[..k] && (r'.head <==> k > 0 && body[k - 1] == HEAD)
    decreases k
  {
    hide Accepted;
    if k > 0 {
      PrefixKept(r, body, k - 1, below);
      var r1 := Feed(r, body[..k - 1], below).0;
      var b := body[k - 1];
      assert body[..k] == body[..k - 1] + [b];
      FeedConcat(r, body[..k - 1], [b], below);
      FeedOne(r1, b, below);
      var r2 := Step(r1, b, below).0;
      assert r2.buf[..k] == body[..k];
      assert r2.buf[0] == r2.buf[..k][0];
    }
  }

  /** A frame whose trailer is A5 or 5A is not handed on, whatever its sum. */
  lemma TrailerMustBePlain(r: Receiver, body: seq<byte>, below: byte)
    requires r.Valid() && NoStart(false, body) && 2 <= |body| < 50 && body[0] as int == |body|
    requires body[|body| - 1] == 0xA5 || body[|body| - 1] == 0x5A
    ensures Feed(r, [0xA5, 0x5A] + body, below).1 == []
  {
    hide Accepted;
    StartResets(r, below);
    FeedConcat(r, [HEAD, START], body, below);
    var r0 := Feed(r, [HEAD, START], below).0;
    var k := |body| - 1;
    PrefixKept(r0, body, k, below);
    assert body == body[..k] + [body[k]];
    FeedConcat(r0, body[..k], [body[k]], below);
    FeedOne(Feed(r0, body[..k], below).0, body[k], below);
  }
}
