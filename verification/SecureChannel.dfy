/**
 Sealing and opening frames (crates/kmsync/src/transport.rs), and what a receiver
 gets when an adversary loses, reorders, duplicates and forges what was sent.
 The cipher is taken as an ideal AEAD in the sense of section 2.8 of RFC 8439.
 */
module SecureChannel {
  import opened Bytes
  import opened DataPlane
  import opened FrameCodec
  import opened FrameEncoders
  import opened FrameLaws
  import opened Frames
  import opened Replay
  import opened Wrappers

  // ---- Sealing ----

  datatype Send = Send(lane: TransportLane, frame: Frame)

  function EnvelopeHeader(config: SecurityConfig, n: nat, lane: TransportLane): DataPlaneHeader {
    var number := NumberOf(Rotation(config.rotationFrames), n);
    DataPlaneHeader(lane, number.0, number.1)
  }

  function Envelope(config: SecurityConfig, h: DataPlaneHeader, plain: Bytes): Bytes
    requires h.epoch <= U32_MAX
  {
    HeaderBytes(h)
    + config.cipher.encrypt(config.cipher.keyForEpoch(h.epoch), NonceBytes(h.epoch, h.sequence), HeaderBytes(h), plain)
  }

  /** The result of call `n` of a sealer, counted from 0. */
  function SealedBy(config: SecurityConfig, n: nat, send: Send): Result<Bytes, DataPlaneError> {
    var h := EnvelopeHeader(config, n, send.lane);
    if h.epoch > U32_MAX then Failure(EpochExhausted)
    else Success(Envelope(config, h, Encode(send.frame)))
  }

  /**
   Call `n` of a sealer, in terms of its settings: it is sealed under epoch `n / rotationFrames`, with the key of
   that epoch and the nonce of that epoch and sequence `n + 1`; it fails exactly when that epoch does not fit.
   */
  lemma SealedExactly(config: SecurityConfig, n: nat, send: Send)
    ensures var length: nat := if config.rotationFrames == 0 then 1 else config.rotationFrames;
            var epoch := n / length;
            var sequence: u64 := if n + 1 < U64_MAX then n + 1 else U64_MAX;
            SealedBy(config, n, send)
              == if epoch > U32_MAX then Failure(EpochExhausted)
                 else
                   var header := HeaderBytes(DataPlaneHeader(send.lane, epoch, sequence));
                   Success(header + config.cipher.encrypt(config.cipher.keyForEpoch(epoch), NonceBytes(epoch, sequence),
                                                          header, Encode(send.frame)))
  {
    NumberOfCall(config.rotationFrames, n);
    hide NumberOf, HeaderBytes, NonceBytes, Encode;
  }

  class DataPlaneSealer {
    const config: SecurityConfig
    var epoch: u64
    var framesInEpoch: u64
    var nextSequence: u64
    /** How often `SealFrame` was called. */
    ghost var calls: nat

    ghost predicate Valid()
      reads this
    {
      SealerState(epoch, framesInEpoch, nextSequence) == StateAfter(Rotation(config.rotationFrames), calls)
    }

    constructor (config: SecurityConfig)
      ensures Valid() && calls == 0 && this.config == config
    {
      this.config := config;
      epoch, framesInEpoch, nextSequence := 0, 0, 1;
      calls := 0;
    }

    /** `seal_frame`: the counters move on even when the epoch no longer fits the nonce. */
    method SealFrame(lane: TransportLane, frame: Frame) returns (r: Result<Bytes, DataPlaneError>)
      requires Valid()
      modifies this
      ensures Valid() && calls == old(calls) + 1
      ensures r == SealedBy(config, old(calls), Send(lane, frame))
    {
      hide Encode, HeaderBytes, NonceBytes;
      if framesInEpoch >= Rotation(config.rotationFrames) {
        epoch := SaturatingAdd(epoch, 1);
        framesInEpoch := 0;
      }
      var sequence := nextSequence;
      nextSequence := SaturatingAdd(nextSequence, 1);
      framesInEpoch := SaturatingAdd(framesInEpoch, 1);
      calls := calls + 1;

      var encoded := EncodeVec(frame);
      var header := HeaderBytes(DataPlaneHeader(lane, epoch, sequence));
      var key := config.cipher.keyForEpoch(epoch);
      if epoch > U32_MAX {
        return Failure(EpochExhausted);
      }
      var ciphertext := config.cipher.encrypt(key, NonceBytes(epoch, sequence), header, encoded);
      return Success(header + ciphertext);
    }
  }

  // ---- Opening ----

  function FrameDeviceIds(f: Frame): seq<DeviceId> {
    match f.payload
    case Input(i) => [i.sourceDeviceId, i.targetDeviceId]
    case Clipboard(c) => [c.sourceId]
    case Files(l) => [l.sourceId]
    case Chunk(c) => [c.sourceId]
    case Control(m) => [m.sourceDeviceId]
  }

  predicate NamesRevoked(f: Frame, revoked: seq<DeviceId>) {
    exists id <- FrameDeviceIds(f) :: id in revoked
  }

  /** Everything `open_frame` checks before it asks the replay guard: no state is read. */
  function Inspect(config: SecurityConfig, revoked: seq<DeviceId>, lane: TransportLane, sealed: Bytes)
    : Result<(Frame, Number), DataPlaneError>
  {
    var h :- ParseHeader(sealed);
    if h.lane != lane then Failure(LaneMismatch)
    else if h.epoch > U32_MAX then Failure(EpochExhausted)
    else
      match Decrypt(config, h, sealed)
      case None => Failure(DecryptFailed)
      case Some(plain) =>
        match Decode(plain)
        case Failure(e) => Failure(BadFrame(e))
        case Success(f) =>
          if LaneOf(f.payload) != lane then Failure(PayloadLaneMismatch)
          else if NamesRevoked(f, revoked) then Failure(RevokedDevice)
          else Success((f, (h.epoch, h.sequence)))
  }

  function Decrypt(config: SecurityConfig, h: DataPlaneHeader, sealed: Bytes): Option<Bytes>
    requires h.epoch <= U32_MAX && |sealed| >= DATA_PLANE_HEADER_LEN
  {
    config.cipher.decrypt(config.cipher.keyForEpoch(h.epoch), NonceBytes(h.epoch, h.sequence),
                          sealed[..DATA_PLANE_HEADER_LEN], sealed[DATA_PLANE_HEADER_LEN..])
  }

  class DataPlaneOpener {
    const config: SecurityConfig
    const revoked: seq<DeviceId>
    const guard: ReplayGuard

    ghost predicate Valid()
      reads guard, guard.epochs.Values
    {
      guard.Valid() && guard.window == Window(config)
    }

    constructor (config: SecurityConfig, revoked: seq<DeviceId>)
      ensures Valid() && fresh(guard) && fresh(guard.epochs.Values) && guard.accepted == {}
      ensures this.config == config && this.revoked == revoked
    {
      this.config, this.revoked := config, revoked;
      this.guard := new ReplayGuard(config.replayWindow);
    }

    /** `open_frame`: a number is recorded only after every check has passed. */
    method OpenFrame(lane: TransportLane, sealed: Bytes) returns (r: Result<Frame, DataPlaneError>)
      requires Valid()
      modifies guard, guard.epochs.Values
      ensures Valid() && fresh(guard.epochs.Values - old(guard.epochs.Values))
      ensures var seen := Inspect(config, revoked, lane, sealed);
              var open := seen.Success? && Accepts(old(guard.accepted), guard.window, seen.value.1.0, seen.value.1.1);
              guard.accepted == (if open then old(guard.accepted) + {seen.value.1} else old(guard.accepted))
              && (r.Success? <==> open) && (r.Success? ==> r.value == seen.value.0)
              && (seen.Failure? ==> r == Failure(seen.error))
    {
      hide Accepts, Decode, LaneOf, NamesRevoked, Decrypt, ParseHeader;
      var header := ParseHeader(sealed);
      if header.Failure? {
        return Failure(header.error);
      }
      var h := header.value;
      assert |sealed| >= DATA_PLANE_HEADER_LEN by {
        ParsedIsLong(sealed);
      }
      if h.lane != lane {
        return Failure(LaneMismatch);
      }
      if h.epoch > U32_MAX {
        return Failure(EpochExhausted);
      }
      var plain := Decrypt(config, h, sealed);
      if plain.None? {
        return Failure(DecryptFailed);
      }
      var decoded := Decode(plain.value);
      if decoded.Failure? {
        return Failure(BadFrame(decoded.error));
      }
      var frame := decoded.value;
      if LaneOf(frame.payload) != lane {
        return Failure(PayloadLaneMismatch);
      }
      if NamesRevoked(frame, revoked) {
        return Failure(RevokedDevice);
      }
      var accepted := guard.Accept(h.epoch, h.sequence);
      return if accepted.Success? then Success(frame) else Failure(Replayed(accepted.error));
    }
  }

  lemma ParsedIsLong(sealed: Bytes)
    ensures ParseHeader(sealed).Success? ==> |sealed| >= DATA_PLANE_HEADER_LEN
  {
  }

  function Window(config: SecurityConfig): u64 {
    Clamped(config.replayWindow)
  }

  // ---- Whole runs ----

  datatype Delivery = Delivery(lane: TransportLane, bytes: Bytes)

  /** The numbers recorded by an opener after a run of deliveries. */
  function OpenedBy(config: SecurityConfig, revoked: seq<DeviceId>, ds: seq<Delivery>): set<Number> {
    if ds == [] then {}
    else
      var before, last := OpenedBy(config, revoked, ds[..|ds| - 1]), ds[|ds| - 1];
      var seen := Inspect(config, revoked, last.lane, last.bytes);
      if seen.Success? && Accepts(before, Window(config), seen.value.1.0, seen.value.1.1) then before + {seen.value.1}
      else before
  }

  /** The frame that delivery `j` of a run returns, if any. */
  function Outcome(config: SecurityConfig, revoked: seq<DeviceId>, ds: seq<Delivery>, j: nat): Option<Frame>
    requires j < |ds|
  {
    var before := OpenedBy(config, revoked, ds[..j]);
    var seen := Inspect(config, revoked, ds[j].lane, ds[j].bytes);
    if seen.Success? && Accepts(before, Window(config), seen.value.1.0, seen.value.1.1) then Some(seen.value.0)
    else None
  }

  method SealAll(config: SecurityConfig, sends: seq<Send>) returns (rs: seq<Result<Bytes, DataPlaneError>>)
    ensures |rs| == |sends| && forall i :: 0 <= i < |sends| ==> rs[i] == SealedBy(config, i, sends[i])
  {
    hide SealedBy;
    var sealer := new DataPlaneSealer(config);
    rs := [];
    for i := 0 to |sends|
      invariant sealer.Valid() && sealer.calls == i && sealer.config == config && fresh(sealer)
      invariant |rs| == i && forall k :: 0 <= k < i ==> rs[k] == SealedBy(config, k, sends[k])
    {
      var r := sealer.SealFrame(sends[i].lane, sends[i].frame);
      rs := rs + [r];
    }
  }

  lemma OpenedByStep(config: SecurityConfig, revoked: seq<DeviceId>, ds: seq<Delivery>)
    ensures OpenedBy(config, revoked, ds[..0]) == {}
    ensures forall j :: 0 <= j < |ds| ==>
              var before, seen := OpenedBy(config, revoked, ds[..j]), Inspect(config, revoked, ds[j].lane, ds[j].bytes);
              OpenedBy(config, revoked, ds[..j + 1])
                == if seen.Success? && Accepts(before, Window(config), seen.value.1.0, seen.value.1.1)
                   then before + {seen.value.1} else before
  {
    hide Inspect, Accepts;
    forall j | 0 <= j < |ds| ensures ds[..j + 1][..j] == ds[..j] && ds[..j + 1][j] == ds[j] {
    }
  }

  method OpenAll(config: SecurityConfig, revoked: seq<DeviceId>, ds: seq<Delivery>)
    returns (rs: seq<Result<Frame, DataPlaneError>>)
    ensures |rs| == |ds|
    ensures forall j :: 0 <= j < |ds| ==>
              match Outcome(config, revoked, ds, j)
              case Some(f) => rs[j] == Success(f)
              case None => rs[j].Failure?
  {
    hide Inspect, Accepts, OpenedBy;
    OpenedByStep(config, revoked, ds);
    var opener := new DataPlaneOpener(config, revoked);
    rs := [];
    for j := 0 to |ds|
      invariant opener.Valid() && opener.config == config && opener.revoked == revoked
      invariant fresh(opener) && fresh(opener.guard) && fresh(opener.guard.epochs.Values)
      invariant opener.guard.accepted == OpenedBy(config, revoked, ds[..j])
      invariant |rs| == j
      invariant forall k :: 0 <= k < j ==>
                  match Outcome(config, revoked, ds, k)
                  case Some(f) => rs[k] == Success(f)
                  case None => rs[k].Failure?
    {
      var r := opener.OpenFrame(ds[j].lane, ds[j].bytes);
      rs := rs + [r];
    }
  }

  // ---- Assumptions on the cipher and the adversary ----

  ghost predicate IdealCipher(c: Cipher) {
    forall key, nonce, aad, plain :: c.decrypt(key, nonce, aad, c.encrypt(key, nonce, aad, plain)) == Some(plain)
  }

  /** The envelope parses and decrypts. */
  predicate Decrypts(config: SecurityConfig, sealed: Bytes) {
    var h := ParseHeader(sealed);
    h.Success? && h.value.epoch <= U32_MAX && Decrypt(config, h.value, sealed).Some?
  }

  predicate WasSealed(config: SecurityConfig, sends: seq<Send>, sealed: Bytes) {
    exists i :: 0 <= i < |sends| && SealedBy(config, i, sends[i]) == Success(sealed)
  }

  /** Nothing decrypts that the sealer did not make. All else may be delivered, in any order, any number of times. */
  predicate Authentic(config: SecurityConfig, sends: seq<Send>, ds: seq<Delivery>) {
    forall d <- ds :: Decrypts(config, d.bytes) ==> WasSealed(config, sends, d.bytes)
  }

  /** A frame that survives the codec, sent on its own lane, by devices that are not revoked. */
  predicate GoodSend(send: Send, revoked: seq<DeviceId>) {
    Representable(send.frame) && LaneOf(send.frame.payload) == send.lane && !NamesRevoked(send.frame, revoked)
  }

  ghost predicate Channel(config: SecurityConfig, revoked: seq<DeviceId>, sends: seq<Send>, ds: seq<Delivery>) {
    && IdealCipher(config.cipher)
    && config.rotationFrames <= U32_MAX
    && (forall send <- sends :: GoodSend(send, revoked))
    && Authentic(config, sends, ds)
  }

  // ---- What the receiver gets ----

  lemma DecryptOfEnvelope(config: SecurityConfig, h: DataPlaneHeader, plain: Bytes)
    requires IdealCipher(config.cipher) && h.epoch <= U32_MAX
    ensures ParseHeader(Envelope(config, h, plain)) == Success(h)
    ensures |Envelope(config, h, plain)| >= DATA_PLANE_HEADER_LEN
    ensures Decrypt(config, h, Envelope(config, h, plain)) == Some(plain)
  {
    hide HeaderBytes, NonceBytes, ParseHeader;
    var key, nonce := config.cipher.keyForEpoch(h.epoch), NonceBytes(h.epoch, h.sequence);
    ParseOfHeader(h, config.cipher.encrypt(key, nonce, HeaderBytes(h), plain));
  }

  /** The opener's checks, on an envelope of the sealer. */
  lemma InspectOfSealed(config: SecurityConfig, revoked: seq<DeviceId>, n: nat, send: Send, lane: TransportLane)
    requires IdealCipher(config.cipher) && GoodSend(send, revoked) && SealedBy(config, n, send).Success?
    ensures Inspect(config, revoked, lane, SealedBy(config, n, send).value)
         == if lane == send.lane then Success((send.frame, NumberOf(Rotation(config.rotationFrames), n)))
            else Failure(LaneMismatch)
  {
    hide Encode, Decode, Representable, NamesRevoked, LaneOf, ParseHeader, Decrypt;
    DecryptOfEnvelope(config, EnvelopeHeader(config, n, send.lane), Encode(send.frame));
    hide Envelope;
    RoundTripExactly(send.frame);
  }

  /** The lane of a payload: pointer movements have their own, all other input shares one. */
  predicate BelongsOn(f: Frame, lane: TransportLane) {
    match f.payload
    case Input(i) => lane == if i.channel == InputUnreliable then UnreliableLane else ReliableLane
    case Control(_) => lane == ControlLane
    case _ => lane == ClipboardLane
  }

  /** The device sent the frame or, for input, is to receive it. */
  predicate Concerns(f: Frame, id: DeviceId) {
    match f.payload
    case Input(i) => i.sourceDeviceId == id || i.targetDeviceId == id
    case Clipboard(c) => c.sourceId == id
    case Files(l) => l.sourceId == id
    case Chunk(c) => c.sourceId == id
    case Control(m) => m.sourceDeviceId == id
  }

  lemma ConcernsExactly(f: Frame, revoked: seq<DeviceId>)
    ensures NamesRevoked(f, revoked) <==> exists id <- revoked :: Concerns(f, id)
  {
    var ids := FrameDeviceIds(f);
    match f.payload
    case Input(i) => assert ids == [i.sourceDeviceId, i.targetDeviceId] && ids[0] in ids && ids[1] in ids;
    case _ => assert ids[0] in ids;
  }

  /** How the opener takes an envelope of the sealer, whatever was sent: wrong lanes and revoked devices are refused. */
  lemma SealedIsRefusedExactly(config: SecurityConfig, revoked: seq<DeviceId>, n: nat, send: Send, lane: TransportLane)
    requires IdealCipher(config.cipher) && Representable(send.frame) && SealedBy(config, n, send).Success?
    ensures Inspect(config, revoked, lane, SealedBy(config, n, send).value)
         == if lane != send.lane then Failure(LaneMismatch)
            else if !BelongsOn(send.frame, lane) then Failure(PayloadLaneMismatch)
            else if exists id <- revoked :: Concerns(send.frame, id) then Failure(RevokedDevice)
            else Success((send.frame, NumberOf(Rotation(config.rotationFrames), n)))
  {
    hide Encode, Decode, Representable, NamesRevoked, ParseHeader, Decrypt, Concerns;
    DecryptOfEnvelope(config, EnvelopeHeader(config, n, send.lane), Encode(send.frame));
    hide Envelope;
    RoundTripExactly(send.frame);
    ConcernsExactly(send.frame, revoked);
  }

  /** What is wrong with an envelope on its lane is said in this order: its epoch, its ciphertext, its frame. */
  lemma UnreadableIsNamed(config: SecurityConfig, revoked: seq<DeviceId>, h: DataPlaneHeader, body: Bytes)
    ensures var seen := Inspect(config, revoked, h.lane, HeaderBytes(h) + body);
            if h.epoch > U32_MAX then seen == Failure(EpochExhausted)
            else
              match config.cipher.decrypt(config.cipher.keyForEpoch(h.epoch), NonceBytes(h.epoch, h.sequence),
                                          HeaderBytes(h), body)
              case None => seen == Failure(DecryptFailed)
              case Some(plain) => Decode(plain).Failure? ==> seen == Failure(BadFrame(Decode(plain).error))
  {
    hide HeaderBytes, NonceBytes, ParseHeader, Decode, LaneOf, NamesRevoked;
    ParseOfHeader(h, body);
  }

  /** Whatever is delivered, no frame that concerns a revoked device is returned, and none on a lane not its own. */
  lemma NothingRevokedIsReturned(config: SecurityConfig, revoked: seq<DeviceId>, ds: seq<Delivery>, j: nat)
    requires j < |ds|
    ensures match Outcome(config, revoked, ds, j)
            case Some(f) => BelongsOn(f, ds[j].lane) && forall id <- revoked :: !Concerns(f, id)
            case None => true
  {
    hide ParseHeader, Decrypt, Decode, NamesRevoked, Accepts, OpenedBy, Concerns;
    match Outcome(config, revoked, ds, j)
    case Some(f) => ConcernsExactly(f, revoked);
    case None =>
  }

  lemma InspectedDecrypts(config: SecurityConfig, revoked: seq<DeviceId>, lane: TransportLane, sealed: Bytes)
    requires Inspect(config, revoked, lane, sealed).Success?
    ensures Decrypts(config, sealed)
    ensures var h := ParseHeader(sealed).value;
            h.lane == lane && Inspect(config, revoked, lane, sealed).value.1 == (h.epoch, h.sequence)
  {
    hide ParseHeader, Decrypt, Decode, LaneOf, NamesRevoked;
  }

  /** Whatever is returned was sent, unchanged, on that lane. */
  lemma ReturnsOnlyWhatWasSent(
    config: SecurityConfig, revoked: seq<DeviceId>, sends: seq<Send>, ds: seq<Delivery>, j: nat)
    requires Channel(config, revoked, sends, ds) && j < |ds|
    ensures var outcome := Outcome(config, revoked, ds, j);
            outcome.Some? ==>
              exists i :: 0 <= i < |sends| && SealedBy(config, i, sends[i]) == Success(ds[j].bytes)
                          && sends[i] == Send(ds[j].lane, outcome.value)
  {
    hide Inspect, SealedBy, GoodSend, Accepts, Decrypts;
    if Outcome(config, revoked, ds, j).Some? {
      InspectedDecrypts(config, revoked, ds[j].lane, ds[j].bytes);
      assert ds[j] in ds;
      var i :| 0 <= i < |sends| && SealedBy(config, i, sends[i]) == Success(ds[j].bytes);
      InspectOfSealed(config, revoked, i, sends[i], ds[j].lane);
    }
  }

  lemma {:induction false} OpenedByGrows(
    config: SecurityConfig, revoked: seq<DeviceId>, ds: seq<Delivery>, j: nat, k: nat)
    requires j <= k <= |ds|
    ensures OpenedBy(config, revoked, ds[..j]) <= OpenedBy(config, revoked, ds[..k])
    decreases k
  {
    hide Inspect, Accepts;
    if j < k {
      OpenedByGrows(config, revoked, ds, j, k - 1);
      assert ds[..k][..k - 1] == ds[..k - 1];
    }
  }

  lemma OutcomeRecords(config: SecurityConfig, revoked: seq<DeviceId>, ds: seq<Delivery>, j: nat)
    requires j < |ds|
    ensures var seen := Inspect(config, revoked, ds[j].lane, ds[j].bytes);
            OpenedBy(config, revoked, ds[..j + 1])
              == OpenedBy(config, revoked, ds[..j])
                 + (if Outcome(config, revoked, ds, j).Some? then {seen.value.1} else {})
  {
    hide Inspect, Accepts;
    assert ds[..j + 1][..j] == ds[..j];
  }

  /** No envelope is opened twice, on whatever lanes it is delivered. */
  lemma OpensAtMostOnce(config: SecurityConfig, revoked: seq<DeviceId>, ds: seq<Delivery>, j: nat, k: nat)
    requires j < k < |ds|
    ensures Outcome(config, revoked, ds, j).Some? && Outcome(config, revoked, ds, k).Some? ==>
              ds[j].bytes != ds[k].bytes
  {
    OutcomeRecords(config, revoked, ds, j);
    OpenedByGrows(config, revoked, ds, j + 1, k);
    if Outcome(config, revoked, ds, j).Some? && Outcome(config, revoked, ds, k).Some? {
      InspectedDecrypts(config, revoked, ds[j].lane, ds[j].bytes);
      InspectedDecrypts(config, revoked, ds[k].lane, ds[k].bytes);
    }
    hide Inspect, OpenedBy, ParseHeader, Decrypts;
  }

  /** Delivery `k` was opened, and its number neither repeats `number` nor is `window` or more above it. */
  predicate Compatible(config: SecurityConfig, revoked: seq<DeviceId>, ds: seq<Delivery>, k: nat, number: Number)
    requires k < |ds|
  {
    Outcome(config, revoked, ds, k).Some? ==>
      var h := ParseHeader(ds[k].bytes);
      h.Success? && (h.value.epoch == number.0 ==>
                       h.value.sequence != number.1 && h.value.sequence < number.1 + Window(config))
  }

  lemma AcceptsOfUnion(accepted: set<Number>, n: Number, window: nat, number: Number)
    ensures Accepts(accepted + {n}, window, number.0, number.1)
       <==> Accepts(accepted, window, number.0, number.1)
            && (n.0 == number.0 ==> n.1 != number.1 && n.1 < number.1 + window)
  {
    var both := accepted + {n};
    assert n in both && forall m <- accepted :: m in both;
  }

  /** What an opened delivery adds to the decision about `number`. */
  lemma CompatibleStep(config: SecurityConfig, revoked: seq<DeviceId>, ds: seq<Delivery>, k: nat, number: Number)
    requires k < |ds|
    ensures Accepts(OpenedBy(config, revoked, ds[..k + 1]), Window(config), number.0, number.1)
       <==> Accepts(OpenedBy(config, revoked, ds[..k]), Window(config), number.0, number.1)
            && Compatible(config, revoked, ds, k, number)
  {
    OutcomeRecords(config, revoked, ds, k);
    if Outcome(config, revoked, ds, k).Some? {
      InspectedDecrypts(config, revoked, ds[k].lane, ds[k].bytes);
      var n := Inspect(config, revoked, ds[k].lane, ds[k].bytes).value.1;
      AcceptsOfUnion(OpenedBy(config, revoked, ds[..k]), n, Window(config), number);
    }
    hide OpenedBy, Outcome, Inspect, ParseHeader, Decrypts, Accepts;
  }

  lemma {:induction false} AcceptsExactly(
    config: SecurityConfig, revoked: seq<DeviceId>, ds: seq<Delivery>, j: nat, number: Number)
    requires j <= |ds|
    ensures Accepts(OpenedBy(config, revoked, ds[..j]), Window(config), number.0, number.1)
       <==> forall k :: 0 <= k < j ==> Compatible(config, revoked, ds, k, number)
    decreases j
  {
    hide OpenedBy, Outcome, Compatible, ParseHeader, Window;
    if j == 0 {
      OpenedByStep(config, revoked, ds);
    } else {
      hide Accepts;
      AcceptsExactly(config, revoked, ds, j - 1, number);
      CompatibleStep(config, revoked, ds, j - 1, number);
    }
  }

  /**
   A sealed frame that arrives on its lane is returned exactly when no frame of
   its epoch opened before has the same sequence number or one that is `Window`
   or more above it.
   */
  lemma ReturnsSentFrameExactly(
    config: SecurityConfig, revoked: seq<DeviceId>, sends: seq<Send>, ds: seq<Delivery>, i: nat, j: nat)
    requires Channel(config, revoked, sends, ds) && i < |sends| && j < |ds|
    ensures SealedBy(config, i, sends[i]) == Success(ds[j].bytes) && ds[j].lane == sends[i].lane ==>
              var number := NumberOf(Rotation(config.rotationFrames), i);
              Outcome(config, revoked, ds, j)
                == if forall k :: 0 <= k < j ==> Compatible(config, revoked, ds, k, number) then Some(sends[i].frame)
                   else None
  {
    var number := NumberOf(Rotation(config.rotationFrames), i);
    hide SealedBy, GoodSend, Accepts, Compatible, Inspect, NumberOf;
    if SealedBy(config, i, sends[i]) == Success(ds[j].bytes) {
      InspectOfSealed(config, revoked, i, sends[i], ds[j].lane);
      AcceptsExactly(config, revoked, ds, j, number);
    }
  }

  /** A delivery that fails leaves no trace: without it, every other delivery has the same outcome. */
  lemma FailedOpenLeavesNoTrace(
    config: SecurityConfig, revoked: seq<DeviceId>, ds: seq<Delivery>, j: nat, k: nat)
    requires j < k < |ds| && Outcome(config, revoked, ds, j) == None
    ensures var without := ds[..j] + ds[j + 1..];
            Outcome(config, revoked, ds, k) == Outcome(config, revoked, without, k - 1)
  {
    var without := ds[..j] + ds[j + 1..];
    SameNumbersWithout(config, revoked, ds, j, k);
    assert without[k - 1] == ds[k];
    hide Inspect, Accepts, OpenedBy;
  }

  lemma SameDeliverySameNumbers(
    config: SecurityConfig, revoked: seq<DeviceId>, ds: seq<Delivery>, k: nat, es: seq<Delivery>, n: nat)
    requires k < |ds| && n < |es| && ds[k] == es[n]
    requires OpenedBy(config, revoked, ds[..k]) == OpenedBy(config, revoked, es[..n])
    ensures OpenedBy(config, revoked, ds[..k + 1]) == OpenedBy(config, revoked, es[..n + 1])
  {
    OutcomeRecords(config, revoked, ds, k);
    OutcomeRecords(config, revoked, es, n);
    hide OpenedBy, Inspect, Accepts;
  }

  lemma {:induction false} SameNumbersWithout(
    config: SecurityConfig, revoked: seq<DeviceId>, ds: seq<Delivery>, j: nat, k: nat)
    requires j < k <= |ds| && Outcome(config, revoked, ds, j) == None
    ensures var without := ds[..j] + ds[j + 1..];
            OpenedBy(config, revoked, ds[..k]) == OpenedBy(config, revoked, without[..k - 1])
    decreases k
  {
    hide OpenedBy, Inspect, Accepts;
    var without := ds[..j] + ds[j + 1..];
    if k == j + 1 {
      OutcomeRecords(config, revoked, ds, j);
      assert without[..j] == ds[..j];
    } else {
      SameNumbersWithout(config, revoked, ds, j, k - 1);
      SameDeliverySameNumbers(config, revoked, ds, k - 1, without, k - 2);
    }
  }

  lemma SealedHeader(config: SecurityConfig, n: nat, send: Send)
    requires IdealCipher(config.cipher) && SealedBy(config, n, send).Success?
    ensures SealsOk(Rotation(config.rotationFrames), n)
    ensures ParseHeader(SealedBy(config, n, send).value) == Success(EnvelopeHeader(config, n, send.lane))
  {
    hide Encode, ParseHeader;
    DecryptOfEnvelope(config, EnvelopeHeader(config, n, send.lane), Encode(send.frame));
    hide Envelope;
  }

  // ---- Frames that overtake each other ----

  /** Delivery `k` was opened, under the epoch of `number` and `window` or more above it. */
  predicate IsAhead(config: SecurityConfig, revoked: seq<DeviceId>, ds: seq<Delivery>, k: nat, number: Number)
    requires k < |ds|
  {
    && Outcome(config, revoked, ds, k).Some?
    && var h := ParseHeader(ds[k].bytes);
       h.Success? && h.value.epoch == number.0 && h.value.sequence >= number.1 + Window(config)
  }

  /** An opened delivery has the header of the call that sealed it, and no other call shares its number. */
  lemma OpenedHeader(
    config: SecurityConfig, revoked: seq<DeviceId>, sends: seq<Send>, ds: seq<Delivery>, k: nat) returns (i: nat)
    requires Channel(config, revoked, sends, ds) && k < |ds| && Outcome(config, revoked, ds, k).Some?
    ensures i < |sends| && SealedBy(config, i, sends[i]) == Success(ds[k].bytes)
    ensures ParseHeader(ds[k].bytes) == Success(EnvelopeHeader(config, i, sends[i].lane))
    ensures EnvelopeHeader(config, i, sends[i].lane).sequence == i + 1
  {
    hide Outcome, SealedBy, GoodSend, ParseHeader;
    ReturnsOnlyWhatWasSent(config, revoked, sends, ds, k);
    i :| 0 <= i < |sends| && SealedBy(config, i, sends[i]) == Success(ds[k].bytes);
    SealedHeader(config, i, sends[i]);
    SequenceOfCall(Rotation(config.rotationFrames), i);
  }

  lemma CompatibleUnlessAhead(
    config: SecurityConfig, revoked: seq<DeviceId>, sends: seq<Send>, ds: seq<Delivery>, i: nat, j: nat, k: nat)
    requires Channel(config, revoked, sends, ds) && i < |sends| && k < j < |ds|
    requires SealedBy(config, i, sends[i]) == Success(ds[j].bytes) && ds[k].bytes != ds[j].bytes
    ensures var number := NumberOf(Rotation(config.rotationFrames), i);
            Compatible(config, revoked, ds, k, number) <==> !IsAhead(config, revoked, ds, k, number)
  {
    hide Outcome, SealedBy, GoodSend, ParseHeader, Authentic;
    if Outcome(config, revoked, ds, k).Some? {
      var n := OpenedHeader(config, revoked, sends, ds, k);
      assert n != i;
      SealedHeader(config, i, sends[i]);
      SequenceOfCall(Rotation(config.rotationFrames), i);
    }
  }

  /**
   A sealed frame that arrives for the first time is lost if and only if a frame of its epoch that is the
   window or more above it was opened before it, whatever lanes the two came on.
   */
  lemma ReturnsUnlessOvertaken(
    config: SecurityConfig, revoked: seq<DeviceId>, sends: seq<Send>, ds: seq<Delivery>, i: nat, j: nat)
    requires Channel(config, revoked, sends, ds) && i < |sends| && j < |ds|
    requires forall k :: 0 <= k < j ==> ds[k].bytes != ds[j].bytes
    ensures SealedBy(config, i, sends[i]) == Success(ds[j].bytes) && ds[j].lane == sends[i].lane ==>
              var number := NumberOf(Rotation(config.rotationFrames), i);
              Outcome(config, revoked, ds, j)
                == if exists k :: 0 <= k < j && IsAhead(config, revoked, ds, k, number) then None
                   else Some(sends[i].frame)
  {
    hide Outcome, SealedBy, Channel, Compatible, IsAhead, NumberOf;
    ReturnsSentFrameExactly(config, revoked, sends, ds, i, j);
    if SealedBy(config, i, sends[i]) == Success(ds[j].bytes) {
      forall k | 0 <= k < j
        ensures var number := NumberOf(Rotation(config.rotationFrames), i);
                Compatible(config, revoked, ds, k, number) <==> !IsAhead(config, revoked, ds, k, number)
      {
        CompatibleUnlessAhead(config, revoked, sends, ds, i, j, k);
      }
    }
  }

  /** It does happen: a frame that arrives after one of its epoch at least the window above it is lost. */
  lemma OvertakenFrameIsLost(
    config: SecurityConfig, revoked: seq<DeviceId>, sends: seq<Send>, ds: seq<Delivery>, m: nat, i: nat, j: nat)
    requires Channel(config, revoked, sends, ds) && m < |sends| && i < |sends| && 0 < j < |ds|
    requires SealedBy(config, m, sends[m]) == Success(ds[0].bytes) && ds[0].lane == sends[m].lane
    requires SealedBy(config, i, sends[i]) == Success(ds[j].bytes) && ds[j].lane == sends[i].lane
    requires EnvelopeHeader(config, m, sends[m].lane).epoch == EnvelopeHeader(config, i, sends[i].lane).epoch
    requires m >= i + Window(config)
    ensures Outcome(config, revoked, ds, j) == None
  {
    hide Outcome, SealedBy, GoodSend, ParseHeader, Authentic;
    ReturnsUnlessOvertaken(config, revoked, sends, ds, m, 0);
    SealedHeader(config, m, sends[m]);
    SealedHeader(config, i, sends[i]);
    SequenceOfCall(Rotation(config.rotationFrames), m);
    SequenceOfCall(Rotation(config.rotationFrames), i);
    var number := NumberOf(Rotation(config.rotationFrames), i);
    assert IsAhead(config, revoked, ds, 0, number);
    hide IsAhead, NumberOf, Compatible;
    ReturnsSentFrameExactly(config, revoked, sends, ds, i, j);
    assert !Compatible(config, revoked, ds, 0, number) by { AheadIsIncompatible(config, revoked, ds, 0, number); }
  }

  lemma AheadIsIncompatible(config: SecurityConfig, revoked: seq<DeviceId>, ds: seq<Delivery>, k: nat, number: Number)
    requires k < |ds| && IsAhead(config, revoked, ds, k, number)
    ensures !Compatible(config, revoked, ds, k, number)
  {
    hide Outcome, ParseHeader;
  }

  /** Delivery `j` brings the envelope of call `i` on its own lane, and nothing brought it before. */
  predicate IsFirstArrival(config: SecurityConfig, sends: seq<Send>, ds: seq<Delivery>, i: nat, j: nat)
    requires i < |sends| && j < |ds|
  {
    && SealedBy(config, i, sends[i]) == Success(ds[j].bytes)
    && ds[j].lane == sends[i].lane
    && forall k :: 0 <= k < j ==> ds[k].bytes != ds[j].bytes
  }

  /** Every first arrival of the run is returned. */
  ghost predicate ReturnsFirstArrivals(
    config: SecurityConfig, revoked: seq<DeviceId>, sends: seq<Send>, ds: seq<Delivery>)
  {
    forall i, j :: 0 <= i < |sends| && 0 <= j < |ds| && IsFirstArrival(config, sends, ds, i, j) ==>
                     Outcome(config, revoked, ds, j) == Some(sends[i].frame)
  }

  lemma NoneAheadInShortEpochs(
    config: SecurityConfig, revoked: seq<DeviceId>, sends: seq<Send>, ds: seq<Delivery>, k: nat, i: nat)
    requires Channel(config, revoked, sends, ds) && Rotation(config.rotationFrames) <= Window(config) && k < |ds|
    ensures !IsAhead(config, revoked, ds, k, NumberOf(Rotation(config.rotationFrames), i))
  {
    hide Outcome, SealedBy, GoodSend, ParseHeader, Authentic;
    var rotation, number := Rotation(config.rotationFrames), NumberOf(Rotation(config.rotationFrames), i);
    if IsAhead(config, revoked, ds, k, number) {
      var n := OpenedHeader(config, revoked, sends, ds, k);
      SealedHeader(config, n, sends[n]);
      CallsOfOneEpoch(rotation, i, n);
      SequenceOfCall(rotation, i);
      assert false;
    }
  }

  lemma ShortEpochsLoseNothing(
    config: SecurityConfig, revoked: seq<DeviceId>, sends: seq<Send>, ds: seq<Delivery>)
    requires Channel(config, revoked, sends, ds) && Rotation(config.rotationFrames) <= Window(config)
    ensures ReturnsFirstArrivals(config, revoked, sends, ds)
  {
    hide Outcome, SealedBy, Channel, IsAhead, NumberOf;
    forall i, j | 0 <= i < |sends| && 0 <= j < |ds| && IsFirstArrival(config, sends, ds, i, j)
      ensures Outcome(config, revoked, ds, j) == Some(sends[i].frame)
    {
      forall k | 0 <= k < j
        ensures !IsAhead(config, revoked, ds, k, NumberOf(Rotation(config.rotationFrames), i))
      {
        NoneAheadInShortEpochs(config, revoked, sends, ds, k, i);
      }
      ReturnsUnlessOvertaken(config, revoked, sends, ds, i, j);
    }
  }

  /** One frame, and then as many others as the window is wide. */
  function OvertakingSends(config: SecurityConfig, slow: Send, fast: Send): (sends: seq<Send>)
    ensures |sends| == Window(config) + 1 && sends[0] == slow && sends[Window(config)] == fast
  {
    [slow] + seq(Window(config), _ => fast)
  }

  /** The last of them arrives, and then the first. */
  function OvertakingRun(config: SecurityConfig, slow: Send, fast: Send): (ds: seq<Delivery>)
    requires Rotation(config.rotationFrames) > Window(config)
    ensures |ds| == 2
  {
    FirstEpochSeals(config, 0, slow);
    FirstEpochSeals(config, Window(config), fast);
    [Delivery(fast.lane, SealedBy(config, Window(config), fast).value),
     Delivery(slow.lane, SealedBy(config, 0, slow).value)]
  }

  lemma FirstEpochSeals(config: SecurityConfig, n: nat, send: Send)
    requires n < Rotation(config.rotationFrames)
    ensures SealedBy(config, n, send).Success? && EnvelopeHeader(config, n, send.lane).epoch == 0
  {
    FirstEpoch(Rotation(config.rotationFrames), n + 1);
    hide StateAfter;
  }

  /** The two deliveries are different envelopes of the first epoch. */
  lemma OvertakingEnvelopes(config: SecurityConfig, slow: Send, fast: Send)
    requires IdealCipher(config.cipher) && config.rotationFrames <= U32_MAX
    requires Rotation(config.rotationFrames) > Window(config)
    ensures var ds := OvertakingRun(config, slow, fast);
            && SealedBy(config, Window(config), fast) == Success(ds[0].bytes) && ds[0].lane == fast.lane
            && SealedBy(config, 0, slow) == Success(ds[1].bytes) && ds[1].lane == slow.lane
            && ds[0].bytes != ds[1].bytes
  {
    var rotation, w := Rotation(config.rotationFrames), Window(config);
    FirstEpochSeals(config, 0, slow);
    FirstEpochSeals(config, w, fast);
    SealedHeader(config, 0, slow);
    SealedHeader(config, w, fast);
    SequenceOfCall(rotation, 0);
    SequenceOfCall(rotation, w);
    hide SealedBy, ParseHeader, StateAfter;
  }

  lemma OvertakingSendsAreGood(config: SecurityConfig, revoked: seq<DeviceId>, slow: Send, fast: Send)
    requires GoodSend(slow, revoked) && GoodSend(fast, revoked)
    ensures forall send <- OvertakingSends(config, slow, fast) :: GoodSend(send, revoked)
  {
    hide GoodSend, Window;
  }

  /** Two envelopes of the sealer are a run of the channel. */
  lemma ChannelOfTwo(
    config: SecurityConfig, revoked: seq<DeviceId>, sends: seq<Send>, ds: seq<Delivery>, m: nat, i: nat)
    requires IdealCipher(config.cipher) && config.rotationFrames <= U32_MAX
    requires forall send <- sends :: GoodSend(send, revoked)
    requires |ds| == 2 && m < |sends| && i < |sends|
    requires SealedBy(config, m, sends[m]) == Success(ds[0].bytes)
    requires SealedBy(config, i, sends[i]) == Success(ds[1].bytes)
    ensures Channel(config, revoked, sends, ds)
  {
    hide SealedBy, Decrypts, GoodSend, IdealCipher;
    forall d | d in ds ensures WasSealed(config, sends, d.bytes) {
    }
  }

  /** With epochs longer than the window, the run loses a frame that arrives for the first time. */
  lemma LongEpochsLoseAFrame(config: SecurityConfig, revoked: seq<DeviceId>, slow: Send, fast: Send)
    requires IdealCipher(config.cipher) && config.rotationFrames <= U32_MAX
    requires GoodSend(slow, revoked) && GoodSend(fast, revoked)
    requires Rotation(config.rotationFrames) > Window(config)
    ensures var sends, ds := OvertakingSends(config, slow, fast), OvertakingRun(config, slow, fast);
            && Channel(config, revoked, sends, ds)
            && IsFirstArrival(config, sends, ds, 0, 1)
            && Outcome(config, revoked, ds, 1) == None
  {
    var sends, ds := OvertakingSends(config, slow, fast), OvertakingRun(config, slow, fast);
    OvertakingEnvelopes(config, slow, fast);
    FirstEpochSeals(config, 0, slow);
    FirstEpochSeals(config, Window(config), fast);
    hide Outcome, SealedBy, NumberOf, OvertakingSends, OvertakingRun, GoodSend, IdealCipher, Window, Channel;
    OvertakingSendsAreGood(config, revoked, slow, fast);
    ChannelOfTwo(config, revoked, sends, ds, Window(config), 0);
    OvertakenFrameIsLost(config, revoked, sends, ds, Window(config), 0, 1);
  }

  /**
   No frame that arrives is lost, in any run, if and only if an epoch is no longer than the replay window.
   The settings of the program, epochs of 4096 frames and a window of 64, are on the other side.
   */
  lemma NothingIsOvertakenExactly(config: SecurityConfig, revoked: seq<DeviceId>, send: Send)
    requires IdealCipher(config.cipher) && config.rotationFrames <= U32_MAX && GoodSend(send, revoked)
    ensures (forall sends, ds :: Channel(config, revoked, sends, ds) ==>
                                   ReturnsFirstArrivals(config, revoked, sends, ds))
       <==> Rotation(config.rotationFrames) <= Window(config)
  {
    hide Channel, ReturnsFirstArrivals, IdealCipher, GoodSend;
    if Rotation(config.rotationFrames) <= Window(config) {
      forall sends, ds | Channel(config, revoked, sends, ds)
        ensures ReturnsFirstArrivals(config, revoked, sends, ds)
      {
        ShortEpochsLoseNothing(config, revoked, sends, ds);
      }
    } else {
      LongEpochsLoseAFrame(config, revoked, send, send);
      FirstArrivalLost(config, revoked, OvertakingSends(config, send, send), OvertakingRun(config, send, send), 0, 1);
    }
  }

  lemma FirstArrivalLost(
    config: SecurityConfig, revoked: seq<DeviceId>, sends: seq<Send>, ds: seq<Delivery>, i: nat, j: nat)
    requires i < |sends| && j < |ds| && IsFirstArrival(config, sends, ds, i, j)
    requires Outcome(config, revoked, ds, j) == None
    ensures !ReturnsFirstArrivals(config, revoked, sends, ds)
  {
    hide IsFirstArrival, Outcome;
  }

  /** Not a cipher to use, but one that inverts itself. */
  function EchoCipher(): Cipher {
    Cipher(_ => [], (_, _, _, plain) => plain, (_, _, _, sealed) => Some(sealed))
  }

  function HeartbeatSend(): Send {
    Send(ControlLane, Frame(1, 1, Control(Heartbeat(1, 1, 1))))
  }

  lemma HeartbeatIsGood(revoked: seq<DeviceId>)
    requires 1 !in revoked
    ensures GoodSend(HeartbeatSend(), revoked)
  {
    hide Le;
    var message := HeartbeatSend().frame.payload.message;
    assert FrameDeviceIds(HeartbeatSend().frame) == [1];
    assert |ControlBytes(message)| == 41;
  }

  /** A run under the settings of the program: heartbeat 64 arrives before heartbeat 0, which is then lost. */
  lemma ShippedSettingsLoseAFrame()
    ensures var config := SecurityConfig(EchoCipher(), DATA_PLANE_DEFAULT_ROTATION_FRAMES, DATA_PLANE_REPLAY_WINDOW);
            var sends := OvertakingSends(config, HeartbeatSend(), HeartbeatSend());
            var ds := OvertakingRun(config, HeartbeatSend(), HeartbeatSend());
            && |sends| == 65 && |ds| == 2
            && Channel(config, [], sends, ds)
            && IsFirstArrival(config, sends, ds, 0, 1)
            && Outcome(config, [], ds, 1) == None
  {
    var config := SecurityConfig(EchoCipher(), DATA_PLANE_DEFAULT_ROTATION_FRAMES, DATA_PLANE_REPLAY_WINDOW);
    assert IdealCipher(config.cipher) && Window(config) == 64;
    hide Channel, IsFirstArrival, Outcome, OvertakingSends, OvertakingRun, GoodSend, IdealCipher;
    HeartbeatIsGood([]);
    LongEpochsLoseAFrame(config, [], HeartbeatSend(), HeartbeatSend());
  }

  predicate IsRising(calls: seq<nat>) {
    forall j, k :: 0 <= j < k < |calls| ==> calls[j] < calls[k]
  }

  /** Delivery `j` is the envelope of call `calls[j]`, on the lane it was sealed for. */
  ghost predicate DeliversCalls(config: SecurityConfig, sends: seq<Send>, ds: seq<Delivery>, calls: seq<nat>) {
    && |calls| == |ds|
    && forall j :: 0 <= j < |ds| ==>
         calls[j] < |sends| && SealedBy(config, calls[j], sends[calls[j]]) == Success(ds[j].bytes)
         && ds[j].lane == sends[calls[j]].lane
  }

  lemma EarlierIsNotAhead(
    config: SecurityConfig, revoked: seq<DeviceId>, sends: seq<Send>, ds: seq<Delivery>, calls: seq<nat>, k: nat,
    j: nat)
    requires IdealCipher(config.cipher) && config.rotationFrames <= U32_MAX
    requires DeliversCalls(config, sends, ds, calls) && k < j < |ds| && calls[k] < calls[j]
    ensures ds[k].bytes != ds[j].bytes
    ensures !IsAhead(config, revoked, ds, k, NumberOf(Rotation(config.rotationFrames), calls[j]))
  {
    hide Outcome, SealedBy, ParseHeader;
    SealedHeader(config, calls[k], sends[calls[k]]);
    SealedHeader(config, calls[j], sends[calls[j]]);
    SequenceOfCall(Rotation(config.rotationFrames), calls[k]);
    SequenceOfCall(Rotation(config.rotationFrames), calls[j]);
  }

  /** Whichever calls are delivered, once each and in order, every one of their frames is returned. */
  lemma InOrderRunDeliversAll(
    config: SecurityConfig, revoked: seq<DeviceId>, sends: seq<Send>, ds: seq<Delivery>, calls: seq<nat>, j: nat)
    requires Channel(config, revoked, sends, ds) && DeliversCalls(config, sends, ds, calls) && IsRising(calls)
    requires j < |ds|
    ensures Outcome(config, revoked, ds, j) == Some(sends[calls[j]].frame)
  {
    forall k | 0 <= k < j
      ensures ds[k].bytes != ds[j].bytes
      ensures !IsAhead(config, revoked, ds, k, NumberOf(Rotation(config.rotationFrames), calls[j]))
    {
      EarlierIsNotAhead(config, revoked, sends, ds, calls, k, j);
    }
    hide SealedBy, Outcome, GoodSend, IsAhead, NumberOf;
    ReturnsUnlessOvertaken(config, revoked, sends, ds, calls[j], j);
  }
}
