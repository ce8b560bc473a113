/**
 The encrypted data plane of crates/kmsync/src/transport.rs: the sealer numbers
 frames and rotates key epochs, the opener parses, decrypts, decodes and checks
 before it records a number. The cipher and the key schedule are parameters.
 */
module DataPlane {
  import opened Bytes
  import opened FrameCodec
  import opened Frames
  import opened Replay
  import opened Wrappers

  const DATA_PLANE_MAGIC: Bytes := [0x53, 0x59, 0x45, 0x31] // SYE1
  const DATA_PLANE_VERSION: byte := 1
  const DATA_PLANE_HEADER_LEN: nat := 22
  const DATA_PLANE_REPLAY_WINDOW: u64 := 64
  const DATA_PLANE_DEFAULT_ROTATION_FRAMES: u64 := 4096

  type Key = Bytes

  /** An AEAD and the key schedule that gives one key to every epoch. */
  datatype Cipher = Cipher(
    keyForEpoch: u64 -> Key,
    encrypt: (Key, Bytes, Bytes, Bytes) -> Bytes,
    decrypt: (Key, Bytes, Bytes, Bytes) -> Option<Bytes>)

  datatype SecurityConfig = SecurityConfig(cipher: Cipher, rotationFrames: u64, replayWindow: u64)

  datatype DataPlaneError =
    | EnvelopeTooShort
    | EnvelopeMagic
    | EnvelopeVersion(version: byte)
    | UnknownLane(lane: byte)
    | LaneMismatch
    | EpochExhausted
    | DecryptFailed
    | BadFrame(error: DecodeError)
    | PayloadLaneMismatch
    | RevokedDevice
    | Replayed(reason: ReplayError)

  // ---- Header and nonce ----

  function LaneCode(lane: TransportLane): byte {
    match lane
    case UnreliableLane => 1
    case ReliableLane => 2
    case ClipboardLane => 3
    case ControlLane => 4
  }

  function DecodeLane(b: byte): Option<TransportLane> {
    match b
    case 1 => Some(UnreliableLane)
    case 2 => Some(ReliableLane)
    case 3 => Some(ClipboardLane)
    case 4 => Some(ControlLane)
    case _ => None
  }

  datatype DataPlaneHeader = DataPlaneHeader(lane: TransportLane, epoch: u64, sequence: u64)

  function HeaderBytes(h: DataPlaneHeader): (r: Bytes)
    ensures |r| == DATA_PLANE_HEADER_LEN
  {
    DATA_PLANE_MAGIC + [DATA_PLANE_VERSION, LaneCode(h.lane)] + Le64(h.epoch) + Le64(h.sequence)
  }

  function ParseHeader(sealed: Bytes): Result<DataPlaneHeader, DataPlaneError> {
    if |sealed| < DATA_PLANE_HEADER_LEN then Failure(EnvelopeTooShort)
    else if sealed[..4] != DATA_PLANE_MAGIC then Failure(EnvelopeMagic)
    else if sealed[4] != DATA_PLANE_VERSION then Failure(EnvelopeVersion(sealed[4]))
    else
      match DecodeLane(sealed[5])
      case None => Failure(UnknownLane(sealed[5]))
      case Some(lane) => Success(DataPlaneHeader(lane, U64At(sealed, 6), U64At(sealed, 14)))
  }

  lemma ParseOfHeader(h: DataPlaneHeader, body: Bytes)
    ensures ParseHeader(HeaderBytes(h) + body) == Success(h)
    ensures (HeaderBytes(h) + body)[..DATA_PLANE_HEADER_LEN] == HeaderBytes(h)
    ensures (HeaderBytes(h) + body)[DATA_PLANE_HEADER_LEN..] == body
  {
    hide Le, FromLe;
    var s := HeaderBytes(h) + body;
    assert s[..4] == DATA_PLANE_MAGIC;
    assert s[6..14] == Le64(h.epoch) && s[14..22] == Le64(h.sequence);
    ReadsBack64(s, 6, h.epoch);
    ReadsBack64(s, 14, h.sequence);
  }

  lemma LaneOfByte(b: byte)
    ensures DecodeLane(b).Some? ==> LaneCode(DecodeLane(b).value) == b
  {
  }

  /** Bytes parse to a header if and only if they begin with it as it is written. */
  lemma HeaderParsesExactly(sealed: Bytes, h: DataPlaneHeader)
    ensures ParseHeader(sealed) == Success(h)
       <==> |sealed| >= DATA_PLANE_HEADER_LEN && sealed[..DATA_PLANE_HEADER_LEN] == HeaderBytes(h)
  {
    hide Le, FromLe, U64At, DecodeLane, LaneCode;
    if |sealed| >= DATA_PLANE_HEADER_LEN {
      var head := sealed[..DATA_PLANE_HEADER_LEN];
      if ParseHeader(sealed) == Success(h) {
        LaneOfByte(sealed[5]);
        FieldBytes(sealed, 6);
        FieldBytes(sealed, 14);
        assert head == sealed[..4] + [sealed[4], sealed[5]] + sealed[6..14] + sealed[14..22];
      }
      if head == HeaderBytes(h) {
        hide ParseHeader, HeaderBytes;
        assert sealed == HeaderBytes(h) + sealed[DATA_PLANE_HEADER_LEN..];
        ParseOfHeader(h, sealed[DATA_PLANE_HEADER_LEN..]);
      }
    }
  }

  /** What is wrong with a header is said by its first wrong byte: the version, or else the lane. */
  lemma WrongHeaderIsNamed(version: byte, lane: byte, rest: Bytes)
    requires |rest| >= 16
    ensures var parsed := ParseHeader(DATA_PLANE_MAGIC + [version, lane] + rest);
            if version != 1 then parsed == Failure(EnvelopeVersion(version))
            else if lane !in [1, 2, 3, 4] then parsed == Failure(UnknownLane(lane))
            else parsed.Success?
  {
    hide FromLe;
    var sealed := DATA_PLANE_MAGIC + [version, lane] + rest;
    assert sealed[..4] == DATA_PLANE_MAGIC && sealed[4] == version && sealed[5] == lane;
  }

  /** The 96-bit nonce has room for 32 bits of epoch. */
  function NonceBytes(epoch: u64, sequence: u64): (r: Bytes)
    requires epoch <= U32_MAX
    ensures |r| == 12
  {
    Le32(epoch) + Le64(sequence)
  }

  /** The epoch comes first, then the sequence, both in little-endian order. */
  lemma NonceLayout(epoch: u64, sequence: u64)
    requires epoch <= U32_MAX
    ensures FromLe(NonceBytes(epoch, sequence)[..4]) == epoch && FromLe(NonceBytes(epoch, sequence)[4..]) == sequence
  {
    hide Le;
    assert NonceBytes(epoch, sequence)[..4] == Le32(epoch) && NonceBytes(epoch, sequence)[4..] == Le64(sequence);
    PowersOf256();
    FromLeOfLe(epoch, 4);
    FromLeOfLe(sequence, 8);
  }

  lemma NonceIsInjective(e: u64, s: u64, f: u64, t: u64)
    requires e <= U32_MAX && f <= U32_MAX && NonceBytes(e, s) == NonceBytes(f, t)
    ensures e == f && s == t
  {
    hide Le;
    assert NonceBytes(e, s)[..4] == Le32(e) && NonceBytes(f, t)[..4] == Le32(f);
    assert NonceBytes(e, s)[4..] == Le64(s) && NonceBytes(f, t)[4..] == Le64(t);
    PowersOf256();
    FromLeOfLe(e, 4);
    FromLeOfLe(f, 4);
    FromLeOfLe(s, 8);
    FromLeOfLe(t, 8);
  }

  // ---- Numbering ----

  datatype SealerState = SealerState(epoch: u64, framesInEpoch: u64, nextSequence: u64)

  /** At least one frame goes into every epoch. */
  function Rotation(rotationFrames: u64): (r: u64)
    ensures r >= 1
  {
    if rotationFrames < 1 then 1 else rotationFrames
  }

  /** The counters after one more call, which uses the new epoch and the old `nextSequence`. */
  function NextState(s: SealerState, rotation: u64): SealerState {
    var rotated := s.framesInEpoch >= rotation;
    SealerState(
      if rotated then SaturatingAdd(s.epoch, 1) else s.epoch,
      SaturatingAdd(if rotated then 0 else s.framesInEpoch, 1),
      SaturatingAdd(s.nextSequence, 1))
  }

  /** The counters of a sealer after `n` calls, successful or not. */
  function StateAfter(rotation: u64, n: nat): SealerState {
    if n == 0 then SealerState(0, 0, 1) else NextState(StateAfter(rotation, n - 1), rotation)
  }

  /** The (epoch, sequence) pair that call `n`, counted from 0, uses. */
  function NumberOf(rotation: u64, n: nat): Number {
    (StateAfter(rotation, n + 1).epoch, StateAfter(rotation, n).nextSequence)
  }

  /** Call `n` succeeds exactly when its epoch fits the nonce. */
  predicate SealsOk(rotation: u64, n: nat) {
    NumberOf(rotation, n).0 <= U32_MAX
  }

  lemma ProductsAreOrdered(a: nat, b: nat, c: nat, d: nat)
    requires a <= b && c <= d
    ensures a * c <= b * d
  {
    assert a * c <= b * c;
    assert b * c <= b * d;
  }

  lemma {:induction false} SequenceAfter(rotation: u64, n: nat)
    ensures StateAfter(rotation, n).nextSequence == if n < U64_MAX then n + 1 else U64_MAX
  {
    if n > 0 {
      SequenceAfter(rotation, n - 1);
    }
  }

  /** `n` calls have gone into `epoch` full epochs and the current one. */
  predicate Counts(s: SealerState, rotation: u64, n: nat) {
    n == s.epoch * rotation + s.framesInEpoch && s.framesInEpoch <= rotation && (n > 0 ==> s.framesInEpoch >= 1)
  }

  lemma CountsStep(s: SealerState, rotation: u64, n: nat)
    requires rotation >= 1
    ensures Counts(s, rotation, n) && NextState(s, rotation).epoch < U64_MAX
        ==> Counts(NextState(s, rotation), rotation, n + 1)
  {
    assert (s.epoch + 1) * rotation == s.epoch * rotation + rotation;
  }

  /** The counters in closed form, as long as the epoch has not saturated. */
  lemma {:induction false} CountersAfter(rotation: u64, n: nat)
    requires rotation >= 1
    ensures StateAfter(rotation, n).epoch < U64_MAX ==> Counts(StateAfter(rotation, n), rotation, n)
  {
    if n > 0 {
      CountersAfter(rotation, n - 1);
      var s := StateAfter(rotation, n - 1);
      if StateAfter(rotation, n).epoch < U64_MAX {
        hide Counts;
        CountsStep(s, rotation, n - 1);
      }
    }
  }

  /** Below 2^32 frames an epoch, the sequence number of a call that succeeds has not saturated. */
  lemma SequenceOfCall(rotation: u64, n: nat)
    requires 1 <= rotation <= U32_MAX && SealsOk(rotation, n)
    ensures NumberOf(rotation, n).1 == n + 1
  {
    SequenceAfter(rotation, n);
    CountersAfter(rotation, n + 1);
    hide StateAfter;
    var s := StateAfter(rotation, n + 1);
    ProductsAreOrdered(s.epoch, U32_MAX, rotation, U32_MAX);
  }

  /** A saturated epoch was reached after filling all the epochs below it. */
  lemma {:induction false} SaturatedAfter(rotation: u64, n: nat)
    requires rotation >= 1
    ensures StateAfter(rotation, n).epoch == U64_MAX ==> n > U64_MAX * rotation
  {
    if n > 0 && StateAfter(rotation, n - 1).epoch < U64_MAX {
      var s := StateAfter(rotation, n - 1);
      CountersAfter(rotation, n - 1);
      assert (U64_MAX - 1) * rotation + rotation == U64_MAX * rotation;
    } else if n > 0 {
      SaturatedAfter(rotation, n - 1);
    }
  }

  lemma QuotientOf(epoch: nat, rotation: nat, rest: nat)
    requires rest < rotation
    ensures (epoch * rotation + rest) / rotation == epoch
  {
    var q := (epoch * rotation + rest) / rotation;
    if q < epoch {
      ProductsAreOrdered(q + 1, epoch, rotation, rotation);
    } else if q > epoch {
      ProductsAreOrdered(epoch + 1, q, rotation, rotation);
    }
  }

  lemma LargeQuotient(n: nat, epoch: nat, rotation: nat)
    requires rotation >= 1 && n >= epoch * rotation
    ensures n / rotation >= epoch
  {
    if n / rotation < epoch {
      ProductsAreOrdered(n / rotation + 1, epoch, rotation, rotation);
    }
  }

  /** Which pair a call uses: every `rotationFrames` calls open a new epoch, and the sequence never starts again. */
  lemma NumberOfCall(rotationFrames: u64, n: nat)
    ensures var length: nat := if rotationFrames == 0 then 1 else rotationFrames;
            var epoch, sequence := n / length, n + 1;
            NumberOf(Rotation(rotationFrames), n)
              == (if epoch < U64_MAX then epoch else U64_MAX, if sequence < U64_MAX then sequence else U64_MAX)
  {
    var rotation := Rotation(rotationFrames);
    var s := StateAfter(rotation, n + 1);
    SequenceAfter(rotation, n);
    CountersAfter(rotation, n + 1);
    SaturatedAfter(rotation, n + 1);
    hide StateAfter;
    if s.epoch < U64_MAX {
      QuotientOf(s.epoch, rotation, s.framesInEpoch - 1);
      assert n == s.epoch * rotation + (s.framesInEpoch - 1);
    } else {
      LargeQuotient(n, U64_MAX, rotation);
    }
  }

  /** The first epoch lasts for `rotation` calls. */
  lemma {:induction false} FirstEpoch(rotation: u64, n: nat)
    requires n <= rotation
    ensures StateAfter(rotation, n).epoch == 0 && StateAfter(rotation, n).framesInEpoch == n
  {
    if n > 0 {
      FirstEpoch(rotation, n - 1);
    }
  }

  /** Calls of one epoch are less than `rotation` apart. */
  lemma CallsOfOneEpoch(rotation: u64, i: nat, n: nat)
    requires rotation >= 1 && SealsOk(rotation, n) && NumberOf(rotation, i).0 == NumberOf(rotation, n).0
    ensures n < i + rotation
  {
    CountersAfter(rotation, i + 1);
    CountersAfter(rotation, n + 1);
    hide StateAfter;
  }

  /** No two successful calls, however far apart, use the same (epoch, sequence) pair. */
  ghost predicate NumbersNeverRepeat(rotation: u64) {
    forall i: nat, j: nat :: i < j && SealsOk(rotation, i) && SealsOk(rotation, j)
                             ==> NumberOf(rotation, i) != NumberOf(rotation, j)
  }

  /** A multiple of 2^32 or more that stays below 2^64 has a factor below 2^32. */
  lemma SmallFactor(epoch: nat, rotation: nat)
    requires rotation > U32_MAX && epoch * rotation <= U64_MAX
    ensures epoch <= U32_MAX
  {
    assert epoch > U32_MAX ==> epoch * rotation >= (U32_MAX + 1) * (U32_MAX + 1) by {
      if epoch > U32_MAX {
        ProductsAreOrdered(U32_MAX + 1, epoch, U32_MAX + 1, rotation);
      }
    }
  }

  /** Up to 2^64 - 1 calls, epochs of 2^32 frames or more do not run out of nonce space. */
  lemma {:induction false} EpochStaysSmall(rotation: u64, n: nat)
    requires rotation > U32_MAX && n <= U64_MAX
    ensures StateAfter(rotation, n).epoch <= U32_MAX
  {
    if n > 0 {
      EpochStaysSmall(rotation, n - 1);
      CountersAfter(rotation, n);
      SmallFactor(StateAfter(rotation, n).epoch, rotation);
    }
  }

  /** When the calls up to saturation fill whole epochs, the next epoch still fits the nonce. */
  lemma NextEpochIsSmall(s: SealerState, rotation: u64)
    requires rotation > U32_MAX && Counts(s, rotation, U64_MAX) && s.framesInEpoch == rotation
    ensures s.epoch + 1 <= U32_MAX
  {
    assert (s.epoch + 1) * rotation == s.epoch * rotation + rotation;
    SmallFactor(s.epoch + 1, rotation);
  }

  /** With 2^32 frames or more an epoch, the saturated sequence is used twice under one epoch. */
  lemma LongEpochsRepeat(rotation: u64)
    requires rotation > U32_MAX
    ensures !NumbersNeverRepeat(rotation)
  {
    var n := U64_MAX as nat;
    var s := StateAfter(rotation, n);
    SequenceAfter(rotation, n - 1);
    SequenceAfter(rotation, n);
    SequenceAfter(rotation, n + 1);
    CountersAfter(rotation, n);
    EpochStaysSmall(rotation, n);
    assert StateAfter(rotation, n + 1) == NextState(s, rotation);
    assert StateAfter(rotation, n + 2) == NextState(StateAfter(rotation, n + 1), rotation);
    assert s.framesInEpoch <= rotation;
    hide StateAfter, Counts;
    if s.framesInEpoch < rotation {
      assert NumberOf(rotation, n - 1) == NumberOf(rotation, n);
      assert SealsOk(rotation, n - 1) && SealsOk(rotation, n);
    } else {
      NextEpochIsSmall(s, rotation);
      assert NumberOf(rotation, n) == NumberOf(rotation, n + 1);
      assert SealsOk(rotation, n) && SealsOk(rotation, n + 1);
    }
  }

  /** Nonces are unique over every run exactly when an epoch holds fewer than 2^32 frames. */
  lemma NumbersNeverRepeatExactly(rotation: u64)
    requires rotation >= 1
    ensures NumbersNeverRepeat(rotation) <==> rotation <= U32_MAX
  {
    if rotation <= U32_MAX {
      forall i: nat, j: nat | i < j && SealsOk(rotation, i) && SealsOk(rotation, j)
        ensures NumberOf(rotation, i) != NumberOf(rotation, j)
      {
        SequenceOfCall(rotation, i);
        SequenceOfCall(rotation, j);
      }
    } else {
      LongEpochsRepeat(rotation);
    }
  }
}
