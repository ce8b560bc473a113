/**
 The replay guard of crates/kmsync/src/transport.rs: for every key epoch a
 sliding window over sequence numbers, kept in the 128 bits of a `u128`.
 */
module Replay {
  import opened Bytes
  import opened Wrappers

  // ---- Bits of a u128 ----

  const U128_SIZE: nat := 0x1_0000_0000_0000_0000_0000_0000_0000_0000

  /** Bit `i` of the binary form of `x`. */
  predicate Bit(x: nat, i: nat)
    decreases i
  {
    if i == 0 then x % 2 == 1 else Bit(x / 2, i - 1)
  }

  /** `x << k`: doubling `k` times, losing what passes bit 127. */
  function Shl(x: u128, k: nat): u128
    decreases k
  {
    if k == 0 then x else Shl(2 * x % U128_SIZE, k - 1)
  }

  function Pow2(n: nat): (p: nat)
    ensures p > 0
  {
    if n == 0 then 1 else 2 * Pow2(n - 1)
  }

  /** `x | (1 << i)`. */
  function SetBit(x: nat, i: nat): nat {
    if Bit(x, i) then x else x + Pow2(i)
  }

  lemma DivisionIsUnique(n: int, p: int, q: int, r: int)
    requires p > 0 && n == p * q + r && 0 <= r < p
    ensures n / p == q && n % p == r
  {
    var d := n / p - q;
    assert p * d == r - n % p;
    assert d >= 1 ==> p * d >= p;
    assert d <= -1 ==> p * d <= -p;
  }

  lemma HalfOfMod(x: nat, p: nat)
    requires p > 0
    ensures x % (2 * p) / 2 == x / 2 % p && x % (2 * p) % 2 == x % 2
  {
    var q, r := x / (2 * p), x % (2 * p);
    assert x == 2 * (p * q) + r;
    DivisionIsUnique(x / 2, p, q, r / 2);
  }

  lemma {:induction false} BitOfMod(x: nat, n: nat, i: nat)
    requires i < n
    ensures Bit(x % Pow2(n), i) == Bit(x, i)
    decreases i
  {
    HalfOfMod(x, Pow2(n - 1));
    if i > 0 {
      BitOfMod(x / 2, n - 1, i - 1);
    }
  }

  lemma DoubleOfProduct(x: nat, y: nat)
    ensures 2 * (x * y) == 2 * x * y
  {
  }

  lemma {:induction false} PowOfSum(a: nat, b: nat)
    ensures Pow2(a + b) == Pow2(a) * Pow2(b)
  {
    if a > 0 {
      PowOfSum(a - 1, b);
      assert Pow2(a + b) == 2 * Pow2(a - 1 + b) && Pow2(a) == 2 * Pow2(a - 1);
      hide Pow2;
      DoubleOfProduct(Pow2(a - 1), Pow2(b));
    }
  }

  lemma {:induction false} EightBitsAByte(width: nat)
    ensures Pow2(8 * width) == Pow256(width)
  {
    if width > 0 {
      EightBitsAByte(width - 1);
      assert Pow2(4) == 2 * (2 * Pow2(2));
      hide Pow2;
      PowOfSum(4, 4);
      PowOfSum(8, 8 * (width - 1));
    }
  }

  lemma U128SizeIsPower()
    ensures Pow2(128) == U128_SIZE
  {
    EightBitsAByte(16);
    PowersOf256();
    hide Pow2, Pow256;
  }

  lemma BitOfDouble(x: u128, i: nat)
    requires i < 128
    ensures Bit(2 * x % U128_SIZE, i) <==> i > 0 && Bit(x, i - 1)
  {
    U128SizeIsPower();
    BitOfMod(2 * x, 128, i);
    hide Pow2;
    assert 2 * x / 2 == x;
  }

  lemma {:induction false} BitOfShl(x: u128, k: nat, i: nat)
    requires i < 128
    ensures Bit(Shl(x, k), i) <==> k <= i && Bit(x, i - k)
    decreases k
  {
    hide Bit;
    if k > 0 {
      BitOfShl(2 * x % U128_SIZE, k - 1, i);
      if k - 1 <= i {
        BitOfDouble(x, i - (k - 1));
      }
    }
  }

  /** Setting a clear bit changes that bit only. */
  lemma {:induction false} BitOfAddPow(x: nat, k: nat, i: nat)
    requires !Bit(x, k)
    ensures Bit(x + Pow2(k), i) <==> i == k || Bit(x, i)
    decreases k
  {
    if k == 0 {
      assert (x + 1) / 2 == x / 2;
    } else {
      assert (x + Pow2(k)) / 2 == x / 2 + Pow2(k - 1);
      if i > 0 {
        BitOfAddPow(x / 2, k - 1, i - 1);
      }
    }
  }

  lemma BitOfSetBit(x: nat, k: nat, i: nat)
    ensures Bit(SetBit(x, k), i) <==> i == k || Bit(x, i)
  {
    if !Bit(x, k) {
      BitOfAddPow(x, k, i);
    }
  }

  /** A number below 2^n stays below it when a clear bit under `n` is set. */
  lemma {:induction false} SetBitStaysBelow(x: nat, k: nat, n: nat)
    requires k < n && x < Pow2(n)
    ensures SetBit(x, k) < Pow2(n)
    decreases k
  {
    if k > 0 {
      SetBitStaysBelow(x / 2, k - 1, n - 1);
      assert Bit(x, k) == Bit(x / 2, k - 1);
      assert SetBit(x, k) == 2 * SetBit(x / 2, k - 1) + x % 2;
      assert Pow2(n) == 2 * Pow2(n - 1);
      hide SetBit, Bit, Pow2;
    }
  }

  function OrBit(x: u128, i: nat): u128
    requires i < 128
  {
    U128SizeIsPower();
    SetBitStaysBelow(x, i, 128);
    SetBit(x, i)
  }

  // ---- One window ----

  datatype ReplayError = TooOld | Duplicate

  /** What the guard is for: a new number, less than `window` below everything accepted so far. */
  predicate IsFresh(accepted: set<nat>, window: nat, sequence: nat) {
    sequence !in accepted && forall x <- accepted :: x < sequence + window
  }

  /** `seen` lists the last 128 numbers up to `highest` that were accepted. */
  ghost predicate Represents(highest: nat, seen: nat, accepted: set<nat>) {
    && (forall x <- accepted :: x <= highest)
    && (highest in accepted || (highest == 0 && accepted == {}))
    && (forall i: nat :: i < 128 ==> (Bit(seen, i) <==> i <= highest && highest - i in accepted))
  }

  lemma {:induction false} ZeroHasNoBits(i: nat)
    ensures !Bit(0, i)
  {
    if i > 0 {
      ZeroHasNoBits(i - 1);
    }
  }

  lemma OneHasBitZero(i: nat)
    ensures Bit(1, i) <==> i == 0
  {
    if i > 0 {
      ZeroHasNoBits(i - 1);
    }
  }

  /** The bitmap after moving up to a higher number. */
  function Advance(seen: u128, shift: nat): u128 {
    if shift >= 128 then 1 else OrBit(Shl(seen, shift), 0)
  }

  lemma AdvanceRepresents(highest: nat, seen: u128, accepted: set<nat>, sequence: nat)
    requires Represents(highest, seen, accepted) && sequence > highest
    ensures Represents(sequence, Advance(seen, sequence - highest), accepted + {sequence})
  {
    hide Bit, SetBit, Shl;
    var shift := sequence - highest;
    var after := Advance(seen, shift);
    forall i: nat | i < 128
      ensures Bit(after, i) <==> i <= sequence && sequence - i in accepted + {sequence}
    {
      if shift >= 128 {
        OneHasBitZero(i);
      } else {
        BitOfSetBit(Shl(seen, shift), 0, i);
        BitOfShl(seen, shift, i);
      }
    }
  }

  lemma MarkRepresents(highest: nat, seen: u128, accepted: set<nat>, sequence: nat)
    requires Represents(highest, seen, accepted) && sequence <= highest && highest - sequence < 128
    ensures Represents(highest, OrBit(seen, highest - sequence), accepted + {sequence})
  {
    hide Bit, SetBit;
    var offset := highest - sequence;
    forall i: nat | i < 128
      ensures Bit(OrBit(seen, offset), i) <==> i <= highest && highest - i in accepted + {sequence}
    {
      BitOfSetBit(seen, offset, i);
    }
  }

  class ReplayWindow {
    var highest: u64
    var seen: u128
    /** Every number accepted since the window was created. */
    ghost var accepted: set<nat>

    ghost predicate Valid()
      reads this
    {
      Represents(highest, seen, accepted)
    }

    constructor ()
      ensures Valid() && accepted == {}
    {
      highest, seen, accepted := 0, 0, {};
      new;
      forall i: nat | i < 128 ensures !Bit(0, i) {
        ZeroHasNoBits(i);
      }
    }

    /** `DataPlaneReplayWindow::accept`. */
    method Accept(sequence: u64, window: u64) returns (r: Result<(), ReplayError>)
      requires Valid() && 1 <= window <= 128
      modifies this
      ensures Valid()
      ensures r.Success? <==> IsFresh(old(accepted), window, sequence)
      ensures r == Failure(TooOld) <==> exists x <- old(accepted) :: x >= sequence + window
      ensures accepted == if r.Success? then old(accepted) + {sequence} else old(accepted)
      ensures r.Failure? ==> highest == old(highest) && seen == old(seen)
    {
      hide Bit, SetBit, Shl;
      if sequence > highest {
        AdvanceRepresents(highest, seen, accepted, sequence);
        seen := Advance(seen, sequence - highest);
        highest := sequence;
        accepted := accepted + {sequence};
        return Success(());
      }
      var offset := highest - sequence;
      if offset >= window {
        return Failure(TooOld);
      }
      assert Bit(seen, offset) <==> highest - offset in accepted;
      if Bit(seen, offset) {
        return Failure(Duplicate);
      }
      MarkRepresents(highest, seen, accepted, sequence);
      seen := OrBit(seen, offset);
      accepted := accepted + {sequence};
      return Success(());
    }
  }

  // ---- One window per epoch ----

  type Number = (u64, u64)

  /** The numbers accepted under one epoch. */
  ghost function InEpoch(accepted: set<Number>, epoch: u64): set<nat> {
    set n <- accepted | n.0 == epoch :: n.1
  }

  /** The decision of the guard, as a function of the (epoch, sequence) pairs accepted before. */
  predicate Accepts(accepted: set<Number>, window: nat, epoch: u64, sequence: u64) {
    (epoch, sequence) !in accepted && forall n <- accepted :: n.0 == epoch ==> n.1 < sequence + window
  }

  lemma AcceptsIsFresh(accepted: set<Number>, window: nat, epoch: u64, sequence: u64)
    ensures Accepts(accepted, window, epoch, sequence) <==> IsFresh(InEpoch(accepted, epoch), window, sequence)
  {
    var mine := InEpoch(accepted, epoch);
    assert (epoch, sequence) in accepted <==> sequence in mine;
    forall n | n in accepted && n.0 == epoch ensures n.1 in mine {
    }
    forall x | x in mine ensures (epoch, x) in accepted {
    }
  }

  lemma InEpochAfter(accepted: set<Number>, epoch: u64, sequence: u64)
    ensures var after := accepted + {(epoch, sequence)};
            InEpoch(after, epoch) == InEpoch(accepted, epoch) + {sequence as nat}
            && forall e: u64 :: e != epoch ==> InEpoch(after, e) == InEpoch(accepted, e)
  {
    var after := accepted + {(epoch, sequence)};
    forall x: nat ensures x in InEpoch(after, epoch) <==> x in InEpoch(accepted, epoch) + {sequence as nat} {
    }
    forall e: u64 | e != epoch ensures InEpoch(after, e) == InEpoch(accepted, e) {
    }
  }

  /** The bitmap has room for a window of 1 to 128 numbers. */
  function Clamped(window: u64): (r: u64)
    ensures 1 <= r <= 128
  {
    if window < 1 then 1 else if window > 128 then 128 else window
  }

  /** Every window from 1 to 128 is used as it is; 0 becomes 1, and anything larger 128. */
  lemma ClampedExactly(window: u64)
    ensures Clamped(window) as int == if window == 0 then 1 else if window >= 128 then 128 else window
  {
  }

  class ReplayGuard {
    const window: u64
    var epochs: map<u64, ReplayWindow>
    ghost var accepted: set<Number>

    ghost predicate Valid()
      reads this, epochs.Values
    {
      && 1 <= window <= 128
      && (forall e <- epochs :: epochs[e].Valid() && epochs[e].accepted == InEpoch(accepted, e))
      && (forall e, f | e in epochs && f in epochs && e != f :: epochs[e] != epochs[f])
      && (forall n <- accepted :: n.0 in epochs)
    }

    /** The window is clamped to what the bitmap can hold. */
    constructor (window: u64)
      ensures Valid() && accepted == {} && fresh(epochs.Values)
      ensures this.window == Clamped(window)
    {
      this.window := if window < 1 then 1 else if window > 128 then 128 else window;
      this.epochs := map[];
      this.accepted := {};
    }

    /** The window of an epoch, created when the epoch is new. */
    method WindowOf(epoch: u64) returns (w: ReplayWindow)
      requires Valid()
      modifies this`epochs
      ensures Valid() && epoch in epochs && epochs[epoch] == w
      ensures fresh(epochs.Values - old(epochs.Values)) && forall e <- old(epochs) :: e in epochs
    {
      hide Represents, IsFresh;
      if epoch !in epochs {
        assert InEpoch(accepted, epoch) == {};
        var created := new ReplayWindow();
        epochs := epochs[epoch := created];
      }
      w := epochs[epoch];
    }

    /** `DataPlaneReplayGuard::accept`. */
    method Accept(epoch: u64, sequence: u64) returns (r: Result<(), ReplayError>)
      requires Valid()
      modifies this, epochs.Values
      ensures Valid() && fresh(epochs.Values - old(epochs.Values))
      ensures r.Success? <==> Accepts(old(accepted), window, epoch, sequence)
      ensures accepted == if r.Success? then old(accepted) + {(epoch, sequence)} else old(accepted)
    {
      hide Represents, IsFresh, Accepts, InEpoch;
      AcceptsIsFresh(accepted, window, epoch, sequence);
      InEpochAfter(accepted, epoch, sequence);
      var w := WindowOf(epoch);
      r := w.Accept(sequence, window);
      if r.Success? {
        accepted := accepted + {(epoch, sequence)};
      }
    }
  }

  // ---- Whole runs ----

  /** What is accepted after a run of calls. */
  function AcceptedBy(window: nat, calls: seq<Number>): set<Number> {
    if calls == [] then {}
    else
      var before, last := AcceptedBy(window, calls[..|calls| - 1]), calls[|calls| - 1];
      if Accepts(before, window, last.0, last.1) then before + {last} else before
  }

  /** Call `i` of the run succeeds. */
  predicate Succeeds(window: nat, calls: seq<Number>, i: nat)
    requires i < |calls|
  {
    Accepts(AcceptedBy(window, calls[..i]), window, calls[i].0, calls[i].1)
  }

  lemma {:induction false} AcceptedByGrows(window: nat, calls: seq<Number>, i: nat, j: nat)
    requires i <= j <= |calls|
    ensures AcceptedBy(window, calls[..i]) <= AcceptedBy(window, calls[..j])
    decreases j
  {
    if i < j {
      AcceptedByGrows(window, calls, i, j - 1);
      assert calls[..j][..j - 1] == calls[..j - 1];
    }
  }

  /** In no run is the same (epoch, sequence) pair accepted twice. */
  lemma NeverTwice(window: nat, calls: seq<Number>, i: nat, j: nat)
    requires i < j < |calls| && calls[i] == calls[j]
    ensures !(Succeeds(window, calls, i) && Succeeds(window, calls, j))
  {
    assert calls[..i + 1][..i] == calls[..i];
    AcceptedByGrows(window, calls, i + 1, j);
  }

  /** A run of the guard from its creation decides every call as `Succeeds` says. */
  method AcceptAll(window: u64, calls: seq<Number>) returns (outcomes: seq<bool>)
    ensures |outcomes| == |calls|
    ensures forall i :: 0 <= i < |calls| ==> outcomes[i] == Succeeds(Clamped(window), calls, i)
  {
    hide Represents, InEpoch, IsFresh, Accepts;
    var guard := new ReplayGuard(window);
    outcomes := [];
    assert calls[..0] == [];
    for i := 0 to |calls|
      invariant guard.Valid() && fresh(guard) && fresh(guard.epochs.Values) && guard.window == Clamped(window)
      invariant |outcomes| == i && guard.accepted == AcceptedBy(Clamped(window), calls[..i])
      invariant forall k :: 0 <= k < i ==> outcomes[k] == Succeeds(Clamped(window), calls, k)
    {
      var r := guard.Accept(calls[i].0, calls[i].1);
      outcomes := outcomes + [r.Success?];
      assert calls[..i + 1][..i] == calls[..i];
    }
  }
}
