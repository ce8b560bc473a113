/**
 The reliable streams of crates/kmsync/src/transport.rs: one lane byte, then
 blocks of a 32-bit length and a sealed frame. A stream is a finite byte sequence.
 */
module StreamFraming {
  import opened Bytes
  import opened DataPlane
  import opened Frames
  import opened SecureChannel
  import opened Wrappers

  const STREAM_FRAME_LIMIT_BYTES: nat := 16 * 1024 * 1024

  // ---- Writing ----

  function Block(sealed: Bytes): Bytes
    requires |sealed| <= U32_MAX
  {
    Le32(|sealed|) + sealed
  }

  predicate PrefixesFit(frames: seq<Bytes>) {
    forall f <- frames :: |f| <= U32_MAX
  }

  function Blocks(frames: seq<Bytes>): Bytes
    requires PrefixesFit(frames)
  {
    if frames == [] then [] else Block(frames[0]) + Blocks(frames[1..])
  }

  function StreamBytes(lane: TransportLane, frames: seq<Bytes>): Bytes
    requires PrefixesFit(frames)
  {
    [LaneCode(lane)] + Blocks(frames)
  }

  lemma {:induction false} BlocksSnoc(frames: seq<Bytes>, last: Bytes)
    requires PrefixesFit(frames) && |last| <= U32_MAX
    ensures Blocks(frames + [last]) == Blocks(frames) + Block(last)
  {
    hide Block;
    if frames == [] {
      assert frames + [last] == [last];
      assert Blocks([last]) == Block(last) + Blocks([last][1..]);
    } else {
      BlocksSnoc(frames[1..], last);
      assert (frames + [last])[1..] == frames[1..] + [last];
    }
  }

  /** The sending side of one lane stream. */
  class LaneStream {
    const lane: TransportLane
    var bytes: Bytes
    ghost var frames: seq<Bytes>

    ghost predicate Valid()
      reads this
    {
      PrefixesFit(frames) && bytes == StreamBytes(lane, frames)
    }

    /** `open_lane_stream` writes the lane byte. */
    constructor (lane: TransportLane)
      ensures Valid() && this.lane == lane && frames == []
    {
      this.lane := lane;
      bytes, frames := [LaneCode(lane)], [];
    }

    /** `send_stream_frame`, from the sealed frame on. */
    method Send(sealed: Bytes) returns (ok: bool)
      requires Valid()
      modifies this
      ensures Valid() && (ok <==> |sealed| <= U32_MAX)
      ensures frames == if ok then old(frames) + [sealed] else old(frames)
    {
      if |sealed| > U32_MAX {
        return false;
      }
      BlocksSnoc(frames, sealed);
      hide Blocks;
      frames := frames + [sealed];
      bytes := bytes + Le32(|sealed|);
      bytes := bytes + sealed;
      return true;
    }
  }

  // ---- Reading ----

  datatype ReadError = UnknownStreamLane(lane: byte) | LengthCut | TooLarge(len: u32) | BodyCut

  /** What the reader loop passes on: bodies, and at most one error after which it stops. */
  datatype ReadResult = ReadResult(bodies: seq<Bytes>, error: Option<ReadError>)

  function ReadBlocks(s: Bytes, at: nat): ReadResult
    requires at <= |s|
    decreases |s| - at
  {
    if at == |s| then ReadResult([], None)
    else if |s| < at + 4 then ReadResult([], Some(LengthCut))
    else
      var len := U32At(s, at);
      if len > STREAM_FRAME_LIMIT_BYTES then ReadResult([], Some(TooLarge(len)))
      else if |s| < at + 4 + len then ReadResult([], Some(BodyCut))
      else
        var rest := ReadBlocks(s, at + 4 + len);
        rest.(bodies := [s[at + 4..at + 4 + len]] + rest.bodies)
  }

  /** The lane of the stream, if there is one, and what is read from it. */
  function ReadStream(s: Bytes): (Option<TransportLane>, ReadResult) {
    if s == [] then (None, ReadResult([], None))
    else
      match DecodeLane(s[0])
      case None => (None, ReadResult([], Some(UnknownStreamLane(s[0]))))
      case Some(lane) => (Some(lane), ReadBlocks(s, 1))
  }

  /** The loop of `read_quic_stream`. It ends because every turn moves past at least the four length bytes. */
  method ReadLaneStream(s: Bytes) returns (lane: Option<TransportLane>, r: ReadResult)
    ensures (lane, r) == ReadStream(s)
  {
    hide FromLe;
    if s == [] {
      return None, ReadResult([], None);
    }
    lane := DecodeLane(s[0]);
    if lane.None? {
      return None, ReadResult([], Some(UnknownStreamLane(s[0])));
    }
    var at := 1;
    var bodies: seq<Bytes> := [];
    ghost var all := ReadBlocks(s, 1);
    assert bodies + all.bodies == all.bodies;
    while true
      invariant 1 <= at <= |s|
      invariant var rest := ReadBlocks(s, at); all == ReadResult(bodies + rest.bodies, rest.error)
      decreases |s| - at
    {
      if at == |s| {
        assert bodies + [] == bodies;
        return lane, ReadResult(bodies, None);
      }
      if |s| < at + 4 {
        assert bodies + [] == bodies;
        return lane, ReadResult(bodies, Some(LengthCut));
      }
      var len := U32At(s, at);
      if len > STREAM_FRAME_LIMIT_BYTES {
        assert bodies + [] == bodies;
        return lane, ReadResult(bodies, Some(TooLarge(len)));
      }
      if |s| < at + 4 + len {
        assert bodies + [] == bodies;
        return lane, ReadResult(bodies, Some(BodyCut));
      }
      var body := s[at + 4..at + 4 + len];
      assert bodies + ([body] + ReadBlocks(s, at + 4 + len).bodies)
          == (bodies + [body]) + ReadBlocks(s, at + 4 + len).bodies;
      bodies := bodies + [body];
      at := at + 4 + len;
    }
  }

  // ---- What arrives ----

  predicate WithinLimit(frames: seq<Bytes>) {
    forall f <- frames :: |f| <= STREAM_FRAME_LIMIT_BYTES
  }

  /** What a reader gets from a stream of `frames`: those before the first one over the limit. */
  function Readable(frames: seq<Bytes>): ReadResult
    requires PrefixesFit(frames)
  {
    if frames == [] then ReadResult([], None)
    else if |frames[0]| > STREAM_FRAME_LIMIT_BYTES then ReadResult([], Some(TooLarge(|frames[0]|)))
    else
      var rest := Readable(frames[1..]);
      rest.(bodies := [frames[0]] + rest.bodies)
  }

  lemma {:induction false} ReadableExactly(frames: seq<Bytes>)
    requires PrefixesFit(frames)
    ensures Readable(frames) == ReadResult(frames, None) <==> WithinLimit(frames)
  {
    if frames != [] {
      var first, rest := frames[0], frames[1..];
      ReadableExactly(rest);
      assert frames == [first] + rest;
      var r := Readable(rest);
      assert |first| <= STREAM_FRAME_LIMIT_BYTES ==> Readable(frames) == r.(bodies := [first] + r.bodies);
      assert |first| > STREAM_FRAME_LIMIT_BYTES ==> Readable(frames) != ReadResult(frames, None);
      hide Readable;
      assert ([first] + r.bodies)[1..] == r.bodies;
    }
  }

  /** The frame at which reading stops is the first one over the limit. */
  lemma {:induction false} ReadableStops(frames: seq<Bytes>)
    requires PrefixesFit(frames) && Readable(frames).error.Some?
    ensures var n := |Readable(frames).bodies|;
            n < |frames| && Readable(frames).bodies == frames[..n] && WithinLimit(frames[..n])
            && |frames[n]| > STREAM_FRAME_LIMIT_BYTES && Readable(frames).error == Some(TooLarge(|frames[n]| as u32))
  {
    var first, rest := frames[0], frames[1..];
    if |first| <= STREAM_FRAME_LIMIT_BYTES {
      ReadableStops(rest);
      var r, n := Readable(rest), |Readable(rest).bodies|;
      assert Readable(frames) == r.(bodies := [first] + r.bodies);
      hide Readable;
      assert frames == [first] + rest;
      assert frames[..n + 1] == [first] + rest[..n] && frames[n + 1] == rest[n];
    }
  }

  lemma BlockAt(s: Bytes, at: nat, f: Bytes, rest: Bytes)
    requires |f| <= U32_MAX && at <= |s| && s[at..] == Block(f) + rest
    ensures at + 4 + |f| <= |s| && U32At(s, at) == |f|
    ensures s[at + 4..at + 4 + |f|] == f && s[at + 4 + |f|..] == rest
  {
    hide Le, FromLe;
    var t := Block(f) + rest;
    assert s[at..at + 4] == t[..4] == Le32(|f|);
    assert s[at + 4..at + 4 + |f|] == t[4..4 + |f|] == f;
    assert s[at + 4 + |f|..] == t[4 + |f|..] == rest;
    ReadsBack32(s, at, |f|);
  }

  /** Reading one block of a stream that goes on for at least `n` bytes. */
  lemma ReadStep(s: Bytes, at: nat, f: Bytes, rest: Bytes, n: nat)
    requires |f| <= U32_MAX && at <= n <= |s| && s[at..] == Block(f) + rest
    ensures at + 4 + |f| <= |s| && s[at + 4 + |f|..] == rest
    ensures var next := at + 4 + |f|;
            ReadBlocks(s[..n], at)
              == if n == at then ReadResult([], None)
                 else if n < at + 4 then ReadResult([], Some(LengthCut))
                 else if |f| > STREAM_FRAME_LIMIT_BYTES then ReadResult([], Some(TooLarge(|f|)))
                 else if n < next then ReadResult([], Some(BodyCut))
                 else var tail := ReadBlocks(s[..n], next); tail.(bodies := [f] + tail.bodies)
  {
    BlockAt(s, at, f, rest);
    hide Block;
    var t := s[..n];
    if n >= at + 4 {
      assert t[at..at + 4] == s[at..at + 4];
      hide FromLe;
      if n >= at + 4 + |f| {
        assert t[at + 4..at + 4 + |f|] == f;
      }
    }
  }

  lemma {:induction false} ReadOfBlocks(s: Bytes, at: nat, frames: seq<Bytes>)
    requires PrefixesFit(frames) && at <= |s| && s[at..] == Blocks(frames)
    decreases |frames|
    ensures ReadBlocks(s, at) == Readable(frames)
  {
    if frames == [] {
      assert at == |s|;
    } else {
      var first, rest := frames[0], frames[1..];
      ReadStep(s, at, first, Blocks(rest), |s|);
      assert s[..|s|] == s && |s| >= at + 4;
      hide Blocks, Block, ReadBlocks;
      if |first| <= STREAM_FRAME_LIMIT_BYTES {
        ReadOfBlocks(s, at + 4 + |first|, rest);
      }
    }
  }

  /** A stream is read back exactly as written if and only if no frame is over the limit. */
  lemma StreamRoundTripExactly(lane: TransportLane, frames: seq<Bytes>)
    requires PrefixesFit(frames)
    ensures ReadStream(StreamBytes(lane, frames)) == (Some(lane), ReadResult(frames, None)) <==> WithinLimit(frames)
  {
    var s := StreamBytes(lane, frames);
    assert s[1..] == Blocks(frames);
    ReadOfBlocks(s, 1, frames);
    ReadableExactly(frames);
    hide Blocks, ReadBlocks, Readable;
  }

  /** From `at` on, the stream holds these frames. */
  ghost predicate HasBlocks(s: Bytes, at: nat, frames: seq<Bytes>) {
    at <= |s| && PrefixesFit(frames) && s[at..] == Blocks(frames)
  }

  lemma HasBlocksStep(s: Bytes, at: nat, frames: seq<Bytes>)
    requires HasBlocks(s, at, frames) && frames != []
    ensures |frames[0]| <= U32_MAX && PrefixesFit(frames[1..])
    ensures s[at..] == Block(frames[0]) + Blocks(frames[1..])
  {
    BlocksStep(frames);
  }

  lemma NoBlocksLeft(s: Bytes, at: nat, n: nat)
    requires HasBlocks(s, at, []) && at <= n <= |s|
    ensures ReadBlocks(s[..n], at) == ReadResult([], None)
  {
    assert |s[at..]| == 0;
    ReadNothing(s[..n], at);
  }

  /** What reading the next block of a cut stream adds. */
  lemma CutStep(s: Bytes, at: nat, frames: seq<Bytes>, n: nat)
    requires HasBlocks(s, at, frames) && frames != [] && at <= n <= |s|
    ensures var next := at + 4 + |frames[0]|;
            && HasBlocks(s, next, frames[1..])
            && ReadBlocks(s[..n], at).bodies
               == if next <= n && |frames[0]| <= STREAM_FRAME_LIMIT_BYTES
                  then [frames[0]] + ReadBlocks(s[..n], next).bodies else []
  {
    hide ReadBlocks, Blocks, Block, PrefixesFit;
    HasBlocksStep(s, at, frames);
    ReadStep(s, at, frames[0], Blocks(frames[1..]), n);
  }

  /** However a stream of blocks is cut, the bodies read from it are the first frames written. */
  lemma {:induction false} CutBlocksReadPrefix(s: Bytes, at: nat, frames: seq<Bytes>, n: nat)
    requires HasBlocks(s, at, frames) && at <= n <= |s|
    decreases |frames|
    ensures ReadBlocks(s[..n], at).bodies <= frames
  {
    hide HasBlocks, ReadBlocks;
    if frames == [] {
      NoBlocksLeft(s, at, n);
    } else {
      CutStep(s, at, frames, n);
      var next := at + 4 + |frames[0]|;
      if next <= n {
        CutBlocksReadPrefix(s, next, frames[1..], n);
        PrefixStep(frames, ReadBlocks(s[..n], next).bodies);
      }
    }
  }

  lemma PrefixStep(frames: seq<Bytes>, bodies: seq<Bytes>)
    requires frames != [] && bodies <= frames[1..]
    ensures [frames[0]] + bodies <= frames
  {
  }

  lemma BlocksStep(frames: seq<Bytes>)
    requires PrefixesFit(frames) && frames != []
    ensures PrefixesFit(frames[1..]) && |frames[0]| <= U32_MAX
    ensures Blocks(frames) == Block(frames[0]) + Blocks(frames[1..])
  {
    hide Block;
  }

  lemma ReadNothing(s: Bytes, at: nat)
    requires at == |s|
    ensures ReadBlocks(s, at) == ReadResult([], None)
  {
  }

  lemma CutStreamReadsPrefix(lane: TransportLane, frames: seq<Bytes>, n: nat)
    requires PrefixesFit(frames) && n <= |StreamBytes(lane, frames)|
    ensures ReadStream(StreamBytes(lane, frames)[..n]).1.bodies <= frames
  {
    var s := StreamBytes(lane, frames);
    if n > 0 {
      assert s[1..] == Blocks(frames);
      CutBlocksReadPrefix(s, 1, frames, n);
    }
  }

  // ---- Codec, cipher and framing together ----

  function Deliveries(lane: TransportLane, bodies: seq<Bytes>): (ds: seq<Delivery>)
    ensures |ds| == |bodies|
  {
    seq(|bodies|, j requires 0 <= j < |bodies| => Delivery(lane, bodies[j]))
  }

  /** `calls` are calls of the sealer for this lane, in the order of their making. */
  ghost predicate AreCallsOf(config: SecurityConfig, sends: seq<Send>, lane: TransportLane, calls: seq<nat>) {
    && IsRising(calls)
    && forall m :: 0 <= m < |calls| ==>
         calls[m] < |sends| && sends[calls[m]].lane == lane && SealedBy(config, calls[m], sends[calls[m]]).Success?
  }

  /** What these calls sealed. */
  ghost function SealedFrames(config: SecurityConfig, sends: seq<Send>, lane: TransportLane, calls: seq<nat>)
    : (frames: seq<Bytes>)
    requires AreCallsOf(config, sends, lane, calls)
    ensures |frames| == |calls|
  {
    seq(|calls|, m requires 0 <= m < |calls| => SealedBy(config, calls[m], sends[calls[m]]).value)
  }

  lemma EnvelopesAreAuthentic(config: SecurityConfig, sends: seq<Send>, ds: seq<Delivery>, calls: seq<nat>)
    requires DeliversCalls(config, sends, ds, calls)
    ensures Authentic(config, sends, ds)
  {
    hide SealedBy, Decrypts;
    forall d | d in ds ensures WasSealed(config, sends, d.bytes) {
      var j :| 0 <= j < |ds| && ds[j] == d;
      assert SealedBy(config, calls[j], sends[calls[j]]) == Success(d.bytes);
    }
  }

  /** Frames written to one stream all come out of the opener, in order, whatever else was sealed in between. */
  lemma StreamDeliversEveryFrame(
    config: SecurityConfig, revoked: seq<DeviceId>, sends: seq<Send>, lane: TransportLane, calls: seq<nat>)
    requires IdealCipher(config.cipher) && config.rotationFrames <= U32_MAX
    requires forall send <- sends :: GoodSend(send, revoked)
    requires AreCallsOf(config, sends, lane, calls) && WithinLimit(SealedFrames(config, sends, lane, calls))
    ensures var frames := SealedFrames(config, sends, lane, calls);
            && ReadStream(StreamBytes(lane, frames)) == (Some(lane), ReadResult(frames, None))
            && forall j :: 0 <= j < |calls| ==>
                 Outcome(config, revoked, Deliveries(lane, frames), j) == Some(sends[calls[j]].frame)
  {
    hide SealedBy, Outcome, GoodSend, Decrypts, ReadStream, StreamBytes;
    var frames := SealedFrames(config, sends, lane, calls);
    StreamRoundTripExactly(lane, frames);
    var ds := Deliveries(lane, frames);
    assert DeliversCalls(config, sends, ds, calls);
    EnvelopesAreAuthentic(config, sends, ds, calls);
    forall j | 0 <= j < |calls| ensures Outcome(config, revoked, ds, j) == Some(sends[calls[j]].frame) {
      InOrderRunDeliversAll(config, revoked, sends, ds, calls, j);
    }
  }

  // ---- Several lanes into one opener ----

  /** What the opener gets from one lane, in order. */
  function OnLane(ds: seq<Delivery>, lane: TransportLane): seq<Bytes> {
    if ds == [] then []
    else
      var before, last := OnLane(ds[..|ds| - 1], lane), ds[|ds| - 1];
      if last.lane == lane then before + [last.bytes] else before
  }

  lemma {:induction false} OnLaneGrows(ds: seq<Delivery>, lane: TransportLane, j: nat, k: nat)
    requires j <= k <= |ds|
    ensures OnLane(ds[..j], lane) <= OnLane(ds[..k], lane)
    decreases k
  {
    if j < k {
      OnLaneGrows(ds, lane, j, k - 1);
      assert ds[..k][..k - 1] == ds[..k - 1];
    }
  }

  /** The place of delivery `j` among those on its lane. */
  function PlaceOf(ds: seq<Delivery>, j: nat): nat
    requires j < |ds|
  {
    |OnLane(ds[..j], ds[j].lane)|
  }

  lemma PlaceHolds(ds: seq<Delivery>, j: nat)
    requires j < |ds|
    ensures var all := OnLane(ds, ds[j].lane);
            PlaceOf(ds, j) < |all| && all[PlaceOf(ds, j)] == ds[j].bytes
  {
    var lane := ds[j].lane;
    assert ds[..j + 1][..j] == ds[..j];
    assert OnLane(ds[..j + 1], lane) == OnLane(ds[..j], lane) + [ds[j].bytes];
    OnLaneGrows(ds, lane, j + 1, |ds|);
    assert ds[..|ds|] == ds;
  }

  lemma PlacesRise(ds: seq<Delivery>, k: nat, j: nat)
    requires k < j < |ds| && ds[k].lane == ds[j].lane
    ensures PlaceOf(ds, k) < PlaceOf(ds, j)
  {
    var lane := ds[j].lane;
    assert ds[..k + 1][..k] == ds[..k];
    assert OnLane(ds[..k + 1], lane) == OnLane(ds[..k], lane) + [ds[k].bytes];
    OnLaneGrows(ds, lane, k + 1, j);
  }

  /** Which calls were written to the stream of each lane, and what of each stream has been received. */
  datatype Streams = Streams(calls: TransportLane -> seq<nat>, received: TransportLane -> Bytes)

  /**
   The opener gets, in any interleaving, what the readers of the three streams pass on, in the order of
   each stream and as far as it was received, and any envelopes of the datagram lane, in any order.
   */
  ghost predicate Arrives(config: SecurityConfig, sends: seq<Send>, streams: Streams, ds: seq<Delivery>) {
    && (forall lane: TransportLane | lane != UnreliableLane ::
          && AreCallsOf(config, sends, lane, streams.calls(lane))
          && var frames := SealedFrames(config, sends, lane, streams.calls(lane));
             PrefixesFit(frames)
             && streams.received(lane) <= StreamBytes(lane, frames)
             && OnLane(ds, lane) <= ReadStream(streams.received(lane)).1.bodies)
    && (forall d <- ds :: d.lane == UnreliableLane ==>
          exists i :: 0 <= i < |sends| && sends[i].lane == UnreliableLane
                      && SealedBy(config, i, sends[i]) == Success(d.bytes))
  }

  /** The call that sealed a delivery from a stream. */
  function CallOf(streams: Streams, ds: seq<Delivery>, j: nat): nat
    requires j < |ds|
  {
    var calls := streams.calls(ds[j].lane);
    if PlaceOf(ds, j) < |calls| then calls[PlaceOf(ds, j)] else 0
  }

  lemma ArrivedCall(config: SecurityConfig, sends: seq<Send>, streams: Streams, ds: seq<Delivery>, j: nat)
    requires Arrives(config, sends, streams, ds) && j < |ds| && ds[j].lane != UnreliableLane
    ensures PlaceOf(ds, j) < |streams.calls(ds[j].lane)|
    ensures var i := CallOf(streams, ds, j);
            i < |sends| && sends[i].lane == ds[j].lane && SealedBy(config, i, sends[i]) == Success(ds[j].bytes)
  {
    hide SealedBy, ReadStream, StreamBytes, OnLane, PlaceOf;
    var lane := ds[j].lane;
    var frames := SealedFrames(config, sends, lane, streams.calls(lane));
    var stream := StreamBytes(lane, frames);
    assert streams.received(lane) == stream[..|streams.received(lane)|];
    CutStreamReadsPrefix(lane, frames, |streams.received(lane)|);
    PlaceHolds(ds, j);
    assert OnLane(ds, lane) <= frames;
  }

  /** Every delivery is the envelope of some call on its lane. */
  lemma ArrivedEnvelope(config: SecurityConfig, sends: seq<Send>, streams: Streams, ds: seq<Delivery>, k: nat)
    returns (i: nat)
    requires Arrives(config, sends, streams, ds) && k < |ds|
    ensures i < |sends| && sends[i].lane == ds[k].lane && SealedBy(config, i, sends[i]) == Success(ds[k].bytes)
    ensures ds[k].lane != UnreliableLane ==> i == CallOf(streams, ds, k)
  {
    hide SealedBy, CallOf;
    if ds[k].lane != UnreliableLane {
      ArrivedCall(config, sends, streams, ds, k);
      i := CallOf(streams, ds, k);
    } else {
      assert ds[k] in ds;
      i :| 0 <= i < |sends| && sends[i].lane == UnreliableLane
           && SealedBy(config, i, sends[i]) == Success(ds[k].bytes);
    }
  }

  lemma ArrivalIsAuthentic(config: SecurityConfig, sends: seq<Send>, streams: Streams, ds: seq<Delivery>)
    requires Arrives(config, sends, streams, ds)
    ensures Authentic(config, sends, ds)
  {
    hide SealedBy, Decrypts, Arrives, CallOf;
    forall d | d in ds ensures WasSealed(config, sends, d.bytes) {
      var j :| 0 <= j < |ds| && ds[j] == d;
      var i := ArrivedEnvelope(config, sends, streams, ds, j);
    }
  }

  /** A frame comes from a stream once. */
  lemma ArrivesOnce(
    config: SecurityConfig, sends: seq<Send>, streams: Streams, ds: seq<Delivery>, k: nat, j: nat)
    requires IdealCipher(config.cipher) && config.rotationFrames <= U32_MAX
    requires Arrives(config, sends, streams, ds) && k < j < |ds| && ds[j].lane != UnreliableLane
    ensures ds[k].bytes != ds[j].bytes
  {
    hide SealedBy, ParseHeader, PlaceOf, OnLane, ReadStream, StreamBytes;
    var m := ArrivedEnvelope(config, sends, streams, ds, k);
    var n := ArrivedEnvelope(config, sends, streams, ds, j);
    SealedHeader(config, m, sends[m]);
    SealedHeader(config, n, sends[n]);
    SequenceOfCall(Rotation(config.rotationFrames), m);
    SequenceOfCall(Rotation(config.rotationFrames), n);
    if ds[k].lane == ds[j].lane {
      PlacesRise(ds, k, j);
      ArrivedCall(config, sends, streams, ds, k);
      ArrivedCall(config, sends, streams, ds, j);
      assert AreCallsOf(config, sends, ds[j].lane, streams.calls(ds[j].lane));
    }
  }

  /**
   One sealer, several lanes, one opener: a frame from a stream is lost if and only if a frame of its epoch
   that is the window or more above it was opened before it. Otherwise it is returned unchanged.
   */
  lemma LanesLoseOvertakenFramesOnly(
    config: SecurityConfig, revoked: seq<DeviceId>, sends: seq<Send>, streams: Streams, ds: seq<Delivery>, j: nat)
    requires IdealCipher(config.cipher) && config.rotationFrames <= U32_MAX
    requires forall send <- sends :: GoodSend(send, revoked)
    requires Arrives(config, sends, streams, ds) && j < |ds| && ds[j].lane != UnreliableLane
    ensures var call := CallOf(streams, ds, j);
            && call < |sends|
            && Outcome(config, revoked, ds, j)
               == if exists k ::
                       0 <= k < j && IsAhead(config, revoked, ds, k, NumberOf(Rotation(config.rotationFrames), call))
                  then None else Some(sends[call].frame)
  {
    ArrivedCall(config, sends, streams, ds, j);
    ArrivalIsAuthentic(config, sends, streams, ds);
    forall k | 0 <= k < j ensures ds[k].bytes != ds[j].bytes {
      ArrivesOnce(config, sends, streams, ds, k, j);
    }
    hide Arrives, SealedBy, Outcome, GoodSend, IsAhead, NumberOf, CallOf, Authentic;
    ReturnsUnlessOvertaken(config, revoked, sends, ds, CallOf(streams, ds, j), j);
  }

  // ---- When nothing is overtaken ----

  /** Whatever the readers of the streams pass on is returned. */
  ghost predicate ReturnsStreamFrames(
    config: SecurityConfig, revoked: seq<DeviceId>, sends: seq<Send>, streams: Streams, ds: seq<Delivery>)
  {
    forall j :: 0 <= j < |ds| && ds[j].lane != UnreliableLane ==>
                  CallOf(streams, ds, j) < |sends|
                  && Outcome(config, revoked, ds, j) == Some(sends[CallOf(streams, ds, j)].frame)
  }

  ghost predicate LanesRun(
    config: SecurityConfig, revoked: seq<DeviceId>, sends: seq<Send>, streams: Streams, ds: seq<Delivery>)
  {
    (forall send <- sends :: GoodSend(send, revoked)) && Arrives(config, sends, streams, ds)
  }

  lemma ShortEpochsReturnStreams(
    config: SecurityConfig, revoked: seq<DeviceId>, sends: seq<Send>, streams: Streams, ds: seq<Delivery>)
    requires IdealCipher(config.cipher) && config.rotationFrames <= U32_MAX
    requires LanesRun(config, revoked, sends, streams, ds) && Rotation(config.rotationFrames) <= Window(config)
    ensures ReturnsStreamFrames(config, revoked, sends, streams, ds)
  {
    hide Arrives, SealedBy, Outcome, GoodSend, CallOf, Authentic, IdealCipher, Window;
    ArrivalIsAuthentic(config, sends, streams, ds);
    ShortEpochsLoseNothing(config, revoked, sends, ds);
    forall j | 0 <= j < |ds| && ds[j].lane != UnreliableLane
      ensures CallOf(streams, ds, j) < |sends|
      ensures Outcome(config, revoked, ds, j) == Some(sends[CallOf(streams, ds, j)].frame)
    {
      ArrivedCall(config, sends, streams, ds, j);
      forall k | 0 <= k < j ensures ds[k].bytes != ds[j].bytes {
        ArrivesOnce(config, sends, streams, ds, k, j);
      }
      assert IsFirstArrival(config, sends, ds, CallOf(streams, ds, j), j);
    }
  }

  /** Call 0 was written to the stream of its lane, all of it was received, and the other streams are empty. */
  ghost function OneFrame(config: SecurityConfig, slow: Send): Streams
    requires SealedBy(config, 0, slow).Success? && |SealedBy(config, 0, slow).value| <= U32_MAX
  {
    var frames := [SealedBy(config, 0, slow).value];
    Streams(lane => if lane == slow.lane then [0] else [],
            lane => if lane == slow.lane then StreamBytes(lane, frames) else StreamBytes(lane, []))
  }

  lemma OvertakingRunOnLane(d: Delivery, e: Delivery, lane: TransportLane)
    requires d.lane == UnreliableLane && lane != UnreliableLane
    ensures OnLane([d, e], lane) == if e.lane == lane then [e.bytes] else []
    ensures e.lane == lane ==> PlaceOf([d, e], 1) == 0
  {
    assert [d, e][..1] == [d] && [d][..0] == [];
    assert OnLane([d], lane) == [];
  }

  /** What the reader of each stream passes on. */
  lemma OneFrameStream(config: SecurityConfig, sends: seq<Send>, slow: Send, lane: TransportLane)
    requires sends != [] && sends[0] == slow && lane != UnreliableLane
    requires SealedBy(config, 0, slow).Success? && |SealedBy(config, 0, slow).value| <= STREAM_FRAME_LIMIT_BYTES
    ensures var streams := OneFrame(config, slow);
            && AreCallsOf(config, sends, lane, streams.calls(lane))
            && var frames := SealedFrames(config, sends, lane, streams.calls(lane));
               PrefixesFit(frames)
               && streams.received(lane) == StreamBytes(lane, frames)
               && ReadStream(streams.received(lane)).1.bodies == frames
               && frames == if lane == slow.lane then [SealedBy(config, 0, slow).value] else []
  {
    hide SealedBy, StreamBytes, ReadStream;
    var streams := OneFrame(config, slow);
    var frames := SealedFrames(config, sends, lane, streams.calls(lane));
    assert frames == if lane == slow.lane then [SealedBy(config, 0, slow).value] else [];
    StreamRoundTripExactly(lane, frames);
  }

  lemma OvertakenLane(config: SecurityConfig, slow: Send, fast: Send, lane: TransportLane)
    requires IdealCipher(config.cipher) && config.rotationFrames <= U32_MAX
    requires Rotation(config.rotationFrames) > Window(config)
    requires slow.lane != UnreliableLane && fast.lane == UnreliableLane
    requires SealedBy(config, 0, slow).Success? && |SealedBy(config, 0, slow).value| <= STREAM_FRAME_LIMIT_BYTES
    requires lane != UnreliableLane
    ensures var sends, streams := OvertakingSends(config, slow, fast), OneFrame(config, slow);
            && AreCallsOf(config, sends, lane, streams.calls(lane))
            && var frames := SealedFrames(config, sends, lane, streams.calls(lane));
               PrefixesFit(frames)
               && streams.received(lane) <= StreamBytes(lane, frames)
               && OnLane(OvertakingRun(config, slow, fast), lane) <= ReadStream(streams.received(lane)).1.bodies
  {
    var ds := OvertakingRun(config, slow, fast);
    OvertakingEnvelopes(config, slow, fast);
    hide SealedBy, StreamBytes, ReadStream, OnLane, OvertakingRun, OvertakingSends, OneFrame, AreCallsOf;
    assert ds == [ds[0], ds[1]];
    OneFrameStream(config, OvertakingSends(config, slow, fast), slow, lane);
    OvertakingRunOnLane(ds[0], ds[1], lane);
  }

  /** The envelope of call 0 comes from its stream after a datagram that was sealed a window later. */
  lemma OvertakenStreamArrives(config: SecurityConfig, slow: Send, fast: Send)
    requires IdealCipher(config.cipher) && config.rotationFrames <= U32_MAX
    requires Rotation(config.rotationFrames) > Window(config)
    requires slow.lane != UnreliableLane && fast.lane == UnreliableLane
    requires SealedBy(config, 0, slow).Success? && |SealedBy(config, 0, slow).value| <= STREAM_FRAME_LIMIT_BYTES
    ensures Arrives(config, OvertakingSends(config, slow, fast), OneFrame(config, slow),
                    OvertakingRun(config, slow, fast))
  {
    var sends, ds, w := OvertakingSends(config, slow, fast), OvertakingRun(config, slow, fast), Window(config);
    OvertakingEnvelopes(config, slow, fast);
    hide SealedBy, StreamBytes, ReadStream, OnLane, OvertakingRun, OvertakingSends, OneFrame, AreCallsOf, PrefixesFit;
    forall lane: TransportLane | lane != UnreliableLane {
      OvertakenLane(config, slow, fast, lane);
    }
    assert w < |sends| && sends[w].lane == UnreliableLane && SealedBy(config, w, sends[w]) == Success(ds[0].bytes);
  }

  lemma OvertakenIsCallZero(config: SecurityConfig, slow: Send, fast: Send)
    requires IdealCipher(config.cipher) && config.rotationFrames <= U32_MAX
    requires Rotation(config.rotationFrames) > Window(config)
    requires slow.lane != UnreliableLane && fast.lane == UnreliableLane
    requires SealedBy(config, 0, slow).Success? && |SealedBy(config, 0, slow).value| <= STREAM_FRAME_LIMIT_BYTES
    ensures CallOf(OneFrame(config, slow), OvertakingRun(config, slow, fast), 1) == 0
  {
    var ds := OvertakingRun(config, slow, fast);
    OvertakingEnvelopes(config, slow, fast);
    hide SealedBy, OnLane, PlaceOf, OvertakingRun, StreamBytes;
    assert ds == [ds[0], ds[1]];
    OvertakingRunOnLane(ds[0], ds[1], slow.lane);
  }

  /**
   No frame from a stream is lost, however the lanes run into each other, if and only if an epoch is no
   longer than the replay window: else any datagram can overtake any frame that a stream carries.
   */
  lemma LanesLoseNothingExactly(config: SecurityConfig, revoked: seq<DeviceId>, slow: Send, fast: Send)
    requires IdealCipher(config.cipher) && config.rotationFrames <= U32_MAX
    requires GoodSend(slow, revoked) && GoodSend(fast, revoked)
    requires slow.lane != UnreliableLane && fast.lane == UnreliableLane
    requires SealedBy(config, 0, slow).Success? && |SealedBy(config, 0, slow).value| <= STREAM_FRAME_LIMIT_BYTES
    ensures (forall sends, streams, ds :: LanesRun(config, revoked, sends, streams, ds) ==>
                                            ReturnsStreamFrames(config, revoked, sends, streams, ds))
       <==> Rotation(config.rotationFrames) <= Window(config)
  {
    hide LanesRun, ReturnsStreamFrames, IdealCipher, GoodSend, SealedBy;
    if Rotation(config.rotationFrames) <= Window(config) {
      forall sends, streams, ds | LanesRun(config, revoked, sends, streams, ds)
        ensures ReturnsStreamFrames(config, revoked, sends, streams, ds)
      {
        ShortEpochsReturnStreams(config, revoked, sends, streams, ds);
      }
    } else {
      OvertakenStreamIsLost(config, revoked, slow, fast);
    }
  }

  lemma OvertakenStreamIsLost(config: SecurityConfig, revoked: seq<DeviceId>, slow: Send, fast: Send)
    requires IdealCipher(config.cipher) && config.rotationFrames <= U32_MAX
    requires GoodSend(slow, revoked) && GoodSend(fast, revoked)
    requires Rotation(config.rotationFrames) > Window(config)
    requires slow.lane != UnreliableLane && fast.lane == UnreliableLane
    requires SealedBy(config, 0, slow).Success? && |SealedBy(config, 0, slow).value| <= STREAM_FRAME_LIMIT_BYTES
    ensures var sends, ds := OvertakingSends(config, slow, fast), OvertakingRun(config, slow, fast);
            LanesRun(config, revoked, sends, OneFrame(config, slow), ds)
            && !ReturnsStreamFrames(config, revoked, sends, OneFrame(config, slow), ds)
  {
    var sends, ds := OvertakingSends(config, slow, fast), OvertakingRun(config, slow, fast);
    OvertakingEnvelopes(config, slow, fast);
    hide Arrives, SealedBy, Outcome, GoodSend, CallOf, IdealCipher, OvertakingRun, OvertakingSends, OneFrame;
    OvertakenStreamArrives(config, slow, fast);
    OvertakenIsCallZero(config, slow, fast);
    OvertakingSendsAreGood(config, revoked, slow, fast);
    LongEpochsLoseAFrame(config, revoked, slow, fast);
  }
}
