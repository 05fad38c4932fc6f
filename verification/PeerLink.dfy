/** A connection between two nodes: length-prefixed frames, the write queue of the sender, and the
    read loop of the receiver. */
module PeerLink {
  import opened Primitives

  type byte = n: nat | n < 256
  type Body = seq<byte>

  const MAX_BODY := 10 * 1024 * 1024
  const MAX_WRITE_QUEUE := 1000

  // ----- frames -----

  /** The length as an unsigned 32-bit number, most significant byte first. */
  function Prefix(length: nat): (p: seq<byte>)
    ensures |p| == 4
  {
    var len := length % 0x1_0000_0000;
    [len / 0x100_0000, len / 0x1_0000 % 256, len / 0x100 % 256, len % 256]
  }

  function LengthOf(p: seq<byte>): nat
    requires |p| == 4
  {
    p[0] as int * 0x100_0000 + p[1] as int * 0x1_0000 + p[2] as int * 0x100 + p[3] as int
  }

  lemma LengthRoundTrip(length: nat)
    requires length < 0x1_0000_0000
    ensures LengthOf(Prefix(length)) == length
  {
    var a, b := length / 0x100, length / 0x1_0000;
    assert length == a * 0x100 + length % 256;
    assert a == (a / 0x100) * 0x100 + a % 256 && a / 0x100 == b;
    assert b == (b / 0x100) * 0x100 + b % 256 && b / 0x100 == length / 0x100_0000;
  }

  /** Most significant byte first. */
  lemma PrefixIsBigEndian(length: nat)
    requires length < 0x1_0000_0000
    ensures var p := Prefix(length);
      && length == p[0] as int * 0x100_0000 + p[1] as int * 0x1_0000 + p[2] as int * 0x100 + p[3] as int
  {
    LengthRoundTrip(length);
  }

  function Frame(body: Body): seq<byte> {
    Prefix(|body|) + body
  }

  function Concat(frames: seq<seq<byte>>): seq<byte> {
    if frames == [] then [] else frames[0] + Concat(frames[1..])
  }

  function Frames(bodies: seq<Body>): (frames: seq<seq<byte>>)
    ensures |frames| == |bodies|
  {
    seq(|bodies|, i requires 0 <= i < |bodies| => Frame(bodies[i]))
  }

  /** The bytes that carry these bodies. */
  function Stream(bodies: seq<Body>): seq<byte> {
    Concat(Frames(bodies))
  }

  lemma {:induction false} ConcatAppend(a: seq<seq<byte>>, b: seq<seq<byte>>)
    ensures Concat(a + b) == Concat(a) + Concat(b)
    decreases |a|
  {
    if a == [] {
      assert a + b == b;
    } else {
      assert (a + b)[1..] == a[1..] + b;
      ConcatAppend(a[1..], b);
      assert a[0] + (Concat(a[1..]) + Concat(b)) == a[0] + Concat(a[1..]) + Concat(b);
    }
  }

  // ----- parsing -----

  /** What a reader has made of a stream: the bodies it delivered, the bytes it still waits on, and
      whether it closed the connection over an oversized frame. */
  datatype Parsed = Parsed(bodies: seq<Body>, rest: seq<byte>, closed: bool)

  function Parse(stream: seq<byte>): Parsed
    decreases |stream|
  {
    if |stream| < 4 then Parsed([], stream, false)
    else
      var n := LengthOf(stream[..4]);
      if n > MAX_BODY then Parsed([], stream, true)
      else if |stream| < 4 + n then Parsed([], stream, false)
      else
        var more := Parse(stream[4 + n..]);
        Parsed([stream[4..4 + n]] + more.bodies, more.rest, more.closed)
  }

  lemma ParseFrame(body: Body, rest: seq<byte>)
    requires |body| <= MAX_BODY
    ensures Parse(Frame(body) + rest)
         == Parsed([body] + Parse(rest).bodies, Parse(rest).rest, Parse(rest).closed)
  {
    var stream := Frame(body) + rest;
    LengthRoundTrip(|body|);
    assert stream[..4] == Prefix(|body|) && stream[4..4 + |body|] == body && stream[4 + |body|..] == rest;
  }

  /** A complete frame stands at the front. */
  predicate HasFrame(stream: seq<byte>) {
    |stream| >= 4 && LengthOf(stream[..4]) <= MAX_BODY && |stream| >= 4 + LengthOf(stream[..4])
  }

  /** A first body, then what the rest parses to. */
  function Prepend(body: Body, more: Parsed): Parsed {
    Parsed([body] + more.bodies, more.rest, more.closed)
  }

  lemma ParseFront(a: seq<byte>, b: seq<byte>)
    requires HasFrame(a)
    ensures var n := LengthOf(a[..4]); Parse(a + b) == Prepend(a[4..4 + n], Parse(a[4 + n..] + b))
  {
    var n := LengthOf(a[..4]);
    assert (a + b)[..4] == a[..4] && (a + b)[4..4 + n] == a[4..4 + n] && (a + b)[4 + n..] == a[4 + n..] + b;
  }

  lemma ParseNothing()
    ensures Parse([]) == Parsed([], [], false)
  {
  }

  lemma ParseStuck(a: seq<byte>, b: seq<byte>)
    requires !HasFrame(a)
    ensures Parse(a).bodies == [] && (!Parse(a).closed ==> Parse(a).rest == a)
    ensures Parse(a).closed ==> Parse(a + b) == Parsed([], a + b, true)
  {
    assert |a| >= 4 ==> (a + b)[..4] == a[..4];
  }

  /** The parse of more bytes, given the parse of the first ones. */
  function Continued(first: Parsed, b: seq<byte>): Parsed {
    var more := Parse(first.rest + b);
    Parsed(first.bodies + more.bodies, more.rest, more.closed)
  }

  /** Bytes that arrive later are parsed where the earlier ones left off: it makes no difference how
      a stream is cut into arrivals. */
  lemma {:induction false} ParseInPieces(a: seq<byte>, b: seq<byte>)
    ensures Parse(a).closed ==> Parse(a + b).closed && Parse(a + b).bodies == Parse(a).bodies
    ensures !Parse(a).closed ==> Parse(a + b) == Continued(Parse(a), b)
    decreases |a|
  {
    hide Parse, LengthOf, Prefix;
    if HasFrame(a) {
      var n := LengthOf(a[..4]);
      var body, rest := a[4..4 + n], a[4 + n..];
      assert a + [] == a && rest + [] == rest;
      ParseFront(a, []);
      ParseFront(a, b);
      ParseInPieces(rest, b);
      Regroup(body, Parse(rest).bodies, Parse(Parse(rest).rest + b).bodies);
    } else {
      ParseStuck(a, b);
      assert [] + Parse(a + b).bodies == Parse(a + b).bodies;
    }
  }

  lemma Regroup(body: Body, x: seq<Body>, y: seq<Body>)
    ensures [body] + x + y == [body] + (x + y)
  {
  }

  predicate Sendable(bodies: seq<Body>) {
    forall i | 0 <= i < |bodies| :: |bodies[i]| <= MAX_BODY
  }

  /** Reading back what was framed gives the same bodies in the same order and leaves nothing. */
  lemma {:induction false} StreamRoundTrip(bodies: seq<Body>)
    requires Sendable(bodies)
    ensures Parse(Stream(bodies)) == Parsed(bodies, [], false)
    decreases |bodies|
  {
    hide Parse, Frame;
    if bodies == [] {
      ParseNothing();
    } else {
      StreamRoundTrip(bodies[1..]);
      assert Frames(bodies)[1..] == Frames(bodies[1..]);
      ParseFrame(bodies[0], Stream(bodies[1..]));
      assert [bodies[0]] + bodies[1..] == bodies;
    }
  }

  /** However far the stream has arrived, what was delivered is a prefix of what was sent. */
  lemma PartialStreamIsPrefix(bodies: seq<Body>, arrived: seq<byte>)
    requires Sendable(bodies) && arrived <= Stream(bodies)
    ensures !Parse(arrived).closed && Parse(arrived).bodies <= bodies
  {
    var later := Stream(bodies)[|arrived|..];
    assert arrived + later == Stream(bodies);
    StreamRoundTrip(bodies);
    ParseInPieces(arrived, later);
  }

  /** An oversized frame ends the connection: what came before it is delivered, nothing after. */
  lemma OversizedFrameCloses(bodies: seq<Body>, big: Body, rest: seq<byte>)
    requires Sendable(bodies) && MAX_BODY < |big| < 0x1_0000_0000
    ensures Parse(Stream(bodies) + (Frame(big) + rest)).closed
    ensures Parse(Stream(bodies) + (Frame(big) + rest)).bodies == bodies
  {
    var tail := Frame(big) + rest;
    LengthRoundTrip(|big|);
    assert tail[..4] == Prefix(|big|);
    StreamRoundTrip(bodies);
    ParseInPieces(Stream(bodies), tail);
    assert [] + tail == tail && bodies + [] == bodies;
  }

  // ----- the receiver -----

  class Reader {
    var headerBuf: seq<byte>
    var readingBody: bool
    var inbox: seq<byte>
    var delivered: seq<Body>
    var open: bool
    ghost var received: seq<byte>

    /** The bytes not yet delivered: a header that was read, then what has arrived behind it. */
    ghost function Waiting(): seq<byte>
      reads this
    {
      (if readingBody then headerBuf else []) + inbox
    }

    /** What has been delivered, together with what is waiting, parses like the whole stream. */
    ghost predicate Tracks(all: seq<byte>)
      reads this
    {
      && (readingBody ==> |headerBuf| == 4 && LengthOf(headerBuf) <= MAX_BODY)
      && (open ==> Parse(all) == Continued(Parsed(delivered, Waiting(), false), []))
      && (!open ==> Parse(all).closed && delivered == Parse(all).bodies)
    }

    /** Not enough has arrived for the read that is under way. */
    predicate Starved()
      reads this
    {
      if readingBody then |headerBuf| == 4 && |inbox| < LengthOf(headerBuf) else |inbox| < 4
    }

    ghost predicate Valid()
      reads this
    {
      Tracks(received) && (open ==> Starved())
    }

    constructor ()
      ensures Valid() && delivered == [] && received == [] && open
    {
      headerBuf, readingBody, inbox, delivered, open, received := [], false, [], [], true, [];
    }

    method ReadHeader(ghost all: seq<byte>)
      requires Tracks(all) && open && !readingBody && !Starved()
      modifies this
      ensures Tracks(all) && received == old(received) && |inbox| < |old(inbox)|
    {
      assert Waiting() == inbox && inbox + [] == inbox && delivered + [] == delivered;
      ghost var waiting := inbox;
      headerBuf, inbox := inbox[..4], inbox[4..];
      if LengthOf(headerBuf) > MAX_BODY {
        open := false;
      } else {
        readingBody := true;
        assert Waiting() == waiting;
      }
    }

    method ReadBody(ghost all: seq<byte>)
      requires Tracks(all) && open && readingBody && !Starved()
      modifies this
      ensures Tracks(all) && received == old(received) && |inbox| <= |old(inbox)| && !readingBody
    {
      hide Parse;
      var n := LengthOf(headerBuf);
      var body := inbox[..n];
      ghost var waiting := Waiting();
      assert waiting[..4] == headerBuf && waiting[4..4 + n] == body && waiting[4 + n..] == inbox[n..];
      assert waiting + [] == waiting && inbox[n..] + [] == inbox[n..];
      RegroupEnd(delivered, body, Parse(inbox[n..]).bodies);
      ghost var rest := inbox[n..];
      ParseFront(waiting, []);
      assert Parse(waiting) == Prepend(body, Parse(rest));
      delivered, inbox, readingBody := delivered + [body], inbox[n..], false;
      assert Waiting() == rest;
    }

    /** Bytes arrive: alternate between reading a header and reading a body for as long as they
        last. What has been delivered is always the parse of everything received, however it was cut
        into arrivals. */
    method Receive(chunk: seq<byte>)
      requires Valid()
      modifies this
      ensures Valid() && received == old(received) + chunk
      ensures delivered == Parse(received).bodies && open == !Parse(received).closed
    {
      hide Parse;
      ghost var all := received + chunk;
      ParseInPieces(received, chunk);
      StarvedParse();
      received := all;
      if !open {
        return;
      }
      inbox := inbox + chunk;
      assert old(Waiting()) + chunk == Waiting() && Waiting() + [] == Waiting();
      while open && !Starved()
        invariant Tracks(all) && received == all
        decreases |inbox|, readingBody
      {
        if readingBody {
          ReadBody(all);
        } else {
          ReadHeader(all);
        }
      }
      StarvedParse();
    }

    /** While a read is under way, nothing that is waiting parses yet. */
    lemma StarvedParse()
      ensures open && Starved() && (readingBody ==> LengthOf(headerBuf) <= MAX_BODY) ==>
                Parse(Waiting()) == Parsed([], Waiting(), false)
      ensures Waiting() + [] == Waiting() && delivered + [] == delivered
    {
      if readingBody && |headerBuf| == 4 {
        assert Waiting()[..4] == headerBuf;
      }
    }
  }

  lemma RegroupEnd(x: seq<Body>, body: Body, y: seq<Body>)
    ensures x + ([body] + y) == x + [body] + y
  {
  }

  // ----- the sender -----

  class Writer {
    var writeQueue: seq<seq<byte>>
    var writing: bool
    /** What went out up to the last write error; since then the bodies that were queued, the bytes
        that went out, and how many of them belong to the frame at the front of the queue. */
    ghost var lost: seq<byte>
    ghost var accepted: seq<Body>
    ghost var wire: seq<byte>
    ghost var partial: nat

    /** How many of the accepted bodies are no longer in the queue. */
    ghost function Done(): int
      reads this
    {
      |accepted| - |writeQueue|
    }

    /** One write is in flight exactly while the queue is not empty; the queue holds the frames of the
        last accepted bodies, and the frames of the others went out, then a part of the first one. */
    ghost predicate Valid()
      reads this
    {
      && writing == (writeQueue != [])
      && |writeQueue| <= MAX_WRITE_QUEUE && |writeQueue| <= |accepted|
      && writeQueue == Frames(accepted[Done()..])
      && (if writeQueue == [] then partial == 0 else partial <= |writeQueue[0]|)
      && wire == Stream(accepted[..Done()]) + if writeQueue == [] then [] else writeQueue[0][..partial]
    }

    constructor ()
      ensures Valid() && accepted == [] && wire == [] && lost == []
    {
      writeQueue, writing, lost, accepted, wire, partial := [], false, [], [], [], 0;
    }

    /** A message is dropped when the queue is full, and otherwise queued; the first one starts a
        write. */
    method Send(body: Body) returns (queued: bool)
      requires Valid()
      modifies this
      ensures Valid() && wire == old(wire) && lost == old(lost)
      ensures queued == (|old(writeQueue)| < MAX_WRITE_QUEUE)
      ensures accepted == if queued then old(accepted) + [body] else old(accepted)
    {
      if |writeQueue| >= MAX_WRITE_QUEUE {
        return false;
      }
      ghost var done := Done();
      FramesOneMore(accepted[done..], body);
      assert (accepted + [body])[done..] == accepted[done..] + [body];
      assert (accepted + [body])[..done] == accepted[..done];
      writeQueue := writeQueue + [Frame(body)];
      accepted := accepted + [body];
      if !writing {
        writing := true;
      }
      queued := true;
    }

    /** The transport takes some more bytes of the frame in flight. */
    ghost method Transmit(count: nat)
      requires Valid() && writing && partial + count <= |writeQueue[0]|
      modifies this`wire, this`partial
      ensures Valid() && partial == old(partial) + count
      ensures wire == old(wire) + writeQueue[0][old(partial)..old(partial) + count]
    {
      var front := writeQueue[0];
      assert front[..partial + count] == front[..partial] + front[partial..partial + count];
      wire := wire + front[partial..partial + count];
      partial := partial + count;
    }

    /** The transport has taken the rest of the frame in flight: the next one starts, or the link
        falls idle. */
    method WriteDone()
      requires Valid() && writing
      modifies this
      ensures Valid() && accepted == old(accepted) && lost == old(lost) && writeQueue == old(writeQueue)[1..]
      ensures wire == old(wire) + old(writeQueue)[0][old(partial)..]
    {
      Transmit(|writeQueue[0]| - partial);
      ghost var done := Done();
      assert accepted[done..][1..] == accepted[done + 1..];
      assert Frames(accepted[done..])[1..] == Frames(accepted[done..][1..]);
      assert accepted[..done + 1] == accepted[..done] + [accepted[done]];
      StreamOneMore(accepted[..done], accepted[done]);
      OneFrame(accepted[done]);
      writeQueue := writeQueue[1..];
      partial := 0;
      if writeQueue == [] {
        writing := false;
      }
    }

    /** A write error clears the queue, and the link starts anew behind what went out. */
    method WriteFailed()
      requires Valid() && writing
      modifies this
      ensures Valid() && writeQueue == [] && accepted == [] && wire == [] && lost == old(lost) + old(wire)
    {
      writing := false;
      writeQueue := [];
      lost, accepted, wire, partial := lost + wire, [], [], 0;
    }

    lemma WireIsPrefix()
      requires Valid()
      ensures wire <= Stream(accepted)
    {
      var done := Done();
      assert accepted == accepted[..done] + accepted[done..];
      assert Frames(accepted) == Frames(accepted[..done]) + Frames(accepted[done..]);
      ConcatAppend(Frames(accepted[..done]), Frames(accepted[done..]));
      assert Stream(accepted) == Stream(accepted[..done]) + Concat(writeQueue);
    }

    /** Until the first write error: whatever part of the wire has arrived, the receiver has been
        delivered a prefix of the accepted messages, in order. */
    lemma ReceiverSeesPrefix(arrived: seq<byte>)
      requires Valid() && Sendable(accepted) && lost == [] && arrived <= lost + wire
      ensures Parse(arrived).bodies <= accepted && !Parse(arrived).closed
    {
      WireIsPrefix();
      assert [] + wire == wire;
      PartialStreamIsPrefix(accepted, arrived);
    }

    /** After an error the same holds of what was accepted since, behind what was delivered before, if
        the receiver was left between two frames. */
    lemma ReceiverSeesPrefixAgain(arrived: seq<byte>)
      requires Valid() && Sendable(accepted) && arrived <= wire
      requires !Parse(lost).closed && Parse(lost).rest == []
      ensures !Parse(lost + arrived).closed && Parse(arrived).bodies <= accepted
      ensures Parse(lost + arrived).bodies == Parse(lost).bodies + Parse(arrived).bodies
    {
      hide Parse, LengthOf, Prefix;
      WireIsPrefix();
      PartialStreamIsPrefix(accepted, arrived);
      ParseInPieces(lost, arrived);
      assert [] + arrived == arrived;
    }

    /** The receiver has all of what went out between two frames exactly when none or all of the frame
        in flight is out: only such an error leaves it there. */
    lemma BetweenFrames()
      requires Valid() && Sendable(accepted)
      ensures !Parse(wire).closed
      ensures Parse(wire).rest == [] <==> partial == 0 || (writing && partial == |writeQueue[0]|)
    {
      hide Parse, LengthOf, Prefix;
      var done := Done();
      var cut := if writeQueue == [] then [] else writeQueue[0][..partial];
      StreamRoundTrip(accepted[..done]);
      ParseInPieces(Stream(accepted[..done]), cut);
      assert [] + cut == cut;
      if writeQueue == [] {
        ParseNothing();
      } else {
        assert writeQueue[0] == Frame(accepted[done]);
        ParseCut(accepted[done], partial);
      }
    }
  }

  /** A frame of which a part has arrived waits, whole it is delivered. */
  lemma ParseCut(body: Body, count: nat)
    requires |body| <= MAX_BODY && count <= |Frame(body)|
    ensures !Parse(Frame(body)[..count]).closed
    ensures Parse(Frame(body)[..count]).rest == [] <==> count == 0 || count == |Frame(body)|
  {
    hide Parse, LengthOf, Prefix;
    var frame := Frame(body);
    if count == |frame| {
      assert frame[..count] == frame + [];
      ParseFrame(body, []);
      ParseNothing();
    } else {
      var cut := frame[..count];
      LengthRoundTrip(|body|);
      assert count >= 4 ==> cut[..4] == Prefix(|body|);
      ParseWaits(cut);
    }
  }

  lemma ParseWaits(cut: seq<byte>)
    requires !HasFrame(cut) && (|cut| >= 4 ==> LengthOf(cut[..4]) <= MAX_BODY)
    ensures Parse(cut) == Parsed([], cut, false)
  {
    hide LengthOf;
  }

  /** An error inside a frame is not noticed: the receiver takes the first bytes of what is sent next as
      the end of the frame that was cut, and delivers a message nobody sent. */
  lemma CutFrameSwallows(lost: seq<byte>, later: seq<byte>)
    requires var r := Parse(lost);
      && !r.closed && |r.rest| >= 4 && LengthOf(r.rest[..4]) <= MAX_BODY
      && |r.rest| < 4 + LengthOf(r.rest[..4]) <= |r.rest| + |later|
    ensures var r := Parse(lost);
            var missing := 4 + LengthOf(r.rest[..4]) - |r.rest|;
            Parse(lost + later).bodies == r.bodies + ([r.rest[4..] + later[..missing]] + Parse(later[missing..]).bodies)
  {
    hide Parse, LengthOf;
    var rest := Parse(lost).rest;
    var n := LengthOf(rest[..4]);
    var missing, all := 4 + n - |rest|, rest + later;
    ParseInPieces(lost, later);
    FilledFrame(rest, later, n);
    ParseFront(all, []);
  }

  lemma FilledFrame(rest: seq<byte>, later: seq<byte>, n: nat)
    requires 4 <= |rest| < 4 + n <= |rest| + |later|
    ensures var all := rest + later;
      && all[..4] == rest[..4] && all + [] == all
      && all[4..4 + n] == rest[4..] + later[..4 + n - |rest|]
      && all[4 + n..] + [] == later[4 + n - |rest|..]
  {
  }

  lemma FramesOneMore(bodies: seq<Body>, body: Body)
    ensures Frames(bodies + [body]) == Frames(bodies) + [Frame(body)]
  {
  }

  lemma OneFrame(body: Body)
    ensures Concat([Frame(body)]) == Frame(body)
  {
    assert [Frame(body)][1..] == [];
  }

  lemma StreamOneMore(accepted: seq<Body>, body: Body)
    ensures Stream(accepted + [body]) == Stream(accepted) + Concat([Frame(body)])
  {
    ConcatAppend(Frames(accepted), [Frame(body)]);
    FramesOneMore(accepted, body);
  }
}
