/** The 64-bit sliding replay window of section 3.3.2 of RFC 3711, and the plain
    set of accepted packet indices it stands for. */
module ReplayWindow {
  import opened Bits
  import opened Bytes

  const SIZE := 64

  /** `x << s` in 64 bits. */
  function Shl64(x: u64, s: nat): u64 {
    x * Pow2(s) % 0x1_0000_0000_0000_0000
  }

  predicate Seen(window: u64, delta: nat) {
    And(window, Shl64(1, delta)) != 0
  }

  /** The window after accepting an index `shift` ahead of the highest. */
  function Advance(window: u64, shift: nat): u64 {
    var moved := if shift < SIZE then Shl64(window, shift) else 0;
    Word(moved, 1);
    Or(moved, 1)
  }

  /** The window after accepting an index `delta` behind the highest. */
  function Mark(window: u64, delta: nat): u64 {
    Word(window, Shl64(1, delta));
    Or(window, Shl64(1, delta))
  }

  /** The window speaks for the set: nothing in the set is above `highest`, and
      bit `d` says whether `highest - d` is in the set. */
  ghost predicate Tracks(highest: nat, window: u64, accepted: set<nat>) {
    && (forall i :: i in accepted ==> i <= highest)
    && (forall d: nat :: d < 64 ==> (Bit(window, d) <==> d <= highest && highest - d in accepted))
  }

  lemma Width()
    ensures Pow2(64) == 0x1_0000_0000_0000_0000
  {
    Pow256IsPow2(8);
    assert Pow256(4) == 0x1_0000_0000;
  }

  lemma Word(a: u64, b: u64)
    ensures Or(a, b) < 0x1_0000_0000_0000_0000
  {
    Width();
    OrBound(a, b, 64);
  }

  lemma BitShl64(x: u64, s: nat, k: nat)
    ensures Bit(Shl64(x, s), k) <==> k < 64 && k >= s && Bit(x, k - s)
  {
    Width();
    BitMod(x * Pow2(s), 64, k);
    BitShift(x, s, k);
  }

  lemma OneBit(delta: nat)
    requires delta < SIZE
    ensures Shl64(1, delta) == Pow2(delta)
  {
    Width();
    Pow2Monotonic(delta, 64);
    assert 1 * Pow2(delta) == Pow2(delta);
  }

  lemma {:induction false} Pow2Monotonic(a: nat, b: nat)
    requires a < b
    ensures Pow2(a) < Pow2(b)
    decreases b
  {
    if a < b - 1 { Pow2Monotonic(a, b - 1); }
  }

  lemma SeenReadsBit(window: u64, delta: nat)
    requires delta < SIZE
    ensures Seen(window, delta) <==> Bit(window, delta)
  {
    OneBit(delta);
    AndPow2(window, delta);
  }

  /** Inside the window, the mask test is set membership. */
  lemma SeenIsMembership(highest: nat, window: u64, accepted: set<nat>, i: nat)
    requires Tracks(highest, window, accepted) && i <= highest < i + 64
    ensures Seen(window, highest - i) <==> i in accepted
  {
    SeenReadsBit(window, highest - i);
    assert highest - (highest - i) == i;
  }

  lemma AdvanceTracks(highest: nat, window: u64, accepted: set<nat>, i: nat)
    requires Tracks(highest, window, accepted) && i > highest
    ensures Tracks(i, Advance(window, i - highest), accepted + {i})
  {
    var shift := i - highest;
    var moved := if shift < SIZE then Shl64(window, shift) else 0;
    forall d: nat | d < 64
      ensures Bit(Advance(window, shift), d) <==> d <= i && i - d in accepted + {i}
    {
      BitOr(moved, 1, d);
      BitOne(d);
      if shift < SIZE { BitShl64(window, shift, d); } else { BitZero(d); }
      if d >= shift { assert highest - (d - shift) == i - d; }
    }
  }

  lemma MarkTracks(highest: nat, window: u64, accepted: set<nat>, i: nat)
    requires Tracks(highest, window, accepted) && i <= highest < i + 64
    ensures Tracks(highest, Mark(window, highest - i), accepted + {i})
  {
    var delta := highest - i;
    OneBit(delta);
    forall d: nat | d < 64
      ensures Bit(Mark(window, delta), d) <==> d <= highest && highest - d in accepted + {i}
    {
      BitOr(window, Pow2(delta), d);
      BitPow2(delta, d);
    }
  }
}
