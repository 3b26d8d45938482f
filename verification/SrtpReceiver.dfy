/** What holds of the SRTP receiver in every run, whatever packets arrive. */
module SrtpReceiver {
  import opened Bytes
  import opened SrtpCipher
  import opened ReplayWindow
  import opened Srtp

  /** The state after receiving `packets`, oldest first, from a fresh context, and
      the indices of those that were authenticated; `None` when some packet ran
      past the source's buffer, after which nothing can be said. */
  function Run(c: Crypto, k: SessionKeys, tagLen: nat, packets: seq<seq<byte>>): Option<(RecvState, set<nat>)>
    requires TagLength(tagLen)
  {
    if |packets| == 0 then Some((FRESH, {}))
    else
      var n := |packets| - 1;
      match Run(c, k, tagLen, packets[..n])
      case None => None
      case Some((st, accepted)) =>
        if CopyFits(tagLen, st, packets[n]) then Some(Next(c, k, tagLen, st, accepted, packets[n])) else None
  }

  function Next(c: Crypto, k: SessionKeys, tagLen: nat, st: RecvState, accepted: set<nat>, packet: seq<byte>)
    : (RecvState, set<nat>)
    requires TagLength(tagLen)
  {
    (Unprotect(c, k, tagLen, st, packet).0,
     accepted + if Authentic(c, k, tagLen, st, packet) then {Estimate(st, packet)} else {})
  }

  /** The receiver's fields describe a set of accepted indices. */
  ghost predicate Describes(st: RecvState, accepted: set<nat>) {
    if st.initialized then
      && st.roc <= 0xFFFF
      && st.Highest() in accepted
      && Tracks(st.Highest(), st.window, accepted)
    else st == FRESH && accepted == {}
  }

  /** The replay check against the plain set: not accepted before, and less than
      64 behind the largest accepted index. */
  predicate Fresh(accepted: set<nat>, index: nat) {
    index !in accepted && forall i :: i in accepted ==> i < index + 64
  }

  lemma ReplayCheckIsFreshness(st: RecvState, accepted: set<nat>, index: u32)
    requires Describes(st, accepted)
    ensures ReplayOk(st, index) <==> Fresh(accepted, index)
  {
    if st.initialized && index <= st.Highest() < index + 64 {
      SeenIsMembership(st.Highest(), st.window, accepted, index);
    }
  }

  /** After sequence number 100, index 37 is still accepted and 36 is not. */
  lemma WindowEdge()
    ensures var st := RecvState(true, 0, 100, 1); ReplayOk(st, 37) && !ReplayOk(st, 36)
  {
    hide Seen;
    SeenReadsBit(1, 63);
    Bits.BitOne(63);
  }

  /** Guessing a 17-bit rollover counter wraps the index far behind the window. */
  lemma OverflowingRocIsTooOld(st: RecvState, accepted: set<nat>, sn: u16)
    requires Describes(st, accepted) && EstimateRoc(st, sn) > 0xFFFF
    ensures EstimateRoc(st, sn) == 0x1_0000 && !ReplayOk(st, Index(EstimateRoc(st, sn), sn))
  {
  }

  /** Accepting a packet adds its index to the set and never lowers the highest. */
  lemma UpdateDescribes(st: RecvState, accepted: set<nat>, sn: u16)
    requires Describes(st, accepted)
    requires ReplayOk(st, Index(EstimateRoc(st, sn), sn))
    ensures var roc := EstimateRoc(st, sn);
      var st' := ReplayUpdate(st, sn, roc);
      && roc <= 0xFFFF && Index(roc, sn) == roc * SEQ_MOD + sn
      && Describes(st', accepted + {Index(roc, sn)})
      && (st.initialized ==> st'.Highest() >= st.Highest())
  {
    hide Advance, Mark, Tracks, Seen;
    var roc := EstimateRoc(st, sn);
    if roc > 0xFFFF { OverflowingRocIsTooOld(st, accepted, sn); }
    var index := Index(roc, sn);
    if !st.initialized {
      FirstWindow(sn);
      assert accepted + {index} == {sn};
    } else if index > st.Highest() {
      AdvanceTracks(st.Highest(), st.window, accepted, index);
    } else {
      MarkTracks(st.Highest(), st.window, accepted, index);
    }
  }

  lemma NothingAccepted()
    ensures Describes(FRESH, {})
  {
  }

  lemma FirstWindow(index: nat)
    ensures Tracks(index, 1, {index})
  {
    forall d: nat | d < 64 ensures Bits.Bit(1, d) <==> d <= index && index - d in {index} {
      Bits.BitOne(d);
    }
  }

  lemma NextDescribes(c: Crypto, k: SessionKeys, tagLen: nat, st: RecvState, accepted: set<nat>, packet: seq<byte>)
    requires TagLength(tagLen) && Describes(st, accepted)
    ensures var (st', accepted') := Next(c, k, tagLen, st, accepted, packet); Describes(st', accepted')
  {
    hide Tag, Crypt, EstimateRoc, ReplayOk, ReplayUpdate, Describes;
    if Authentic(c, k, tagLen, st, packet) {
      UpdateDescribes(st, accepted, SequenceOf(packet));
    } else {
      assert accepted + {} == accepted;
    }
  }

  /** In every run on arbitrary packets that has an outcome, the 64-bit window
      refines the plain set of accepted indices. */
  lemma {:induction false} WindowRefinesSet(c: Crypto, k: SessionKeys, tagLen: nat, packets: seq<seq<byte>>)
    requires TagLength(tagLen) && Run(c, k, tagLen, packets).Some?
    ensures var (st, accepted) := Run(c, k, tagLen, packets).value; Describes(st, accepted)
  {
    hide Next, Describes, CopyFits;
    if |packets| == 0 {
      NothingAccepted();
    } else {
      var n := |packets| - 1;
      WindowRefinesSet(c, k, tagLen, packets[..n]);
      var (st, accepted) := Run(c, k, tagLen, packets[..n]).value;
      NextDescribes(c, k, tagLen, st, accepted, packets[n]);
    }
  }

  /** The tag of a packet is right for the rollover counter the receiver estimates. */
  predicate TagMatches(c: Crypto, k: SessionKeys, tagLen: nat, st: RecvState, packet: seq<byte>)
    requires TagLength(tagLen) && |packet| >= 12 + tagLen
  {
    Tag(c, k, tagLen, packet[..|packet| - tagLen], EstimateRoc(st, SequenceOf(packet))) == packet[|packet| - tagLen..]
  }

  lemma OnePacket(c: Crypto, k: SessionKeys, tagLen: nat, st: RecvState, accepted: set<nat>, packet: seq<byte>)
    requires TagLength(tagLen) && Describes(st, accepted)
    ensures Authentic(c, k, tagLen, st, packet) <==>
      |packet| >= 12 + tagLen && Fresh(accepted, Estimate(st, packet)) && TagMatches(c, k, tagLen, st, packet)
    ensures Authentic(c, k, tagLen, st, packet) ==>
      Estimate(st, packet) == EstimateRoc(st, SequenceOf(packet)) * SEQ_MOD + SequenceOf(packet)
    ensures var st' := Unprotect(c, k, tagLen, st, packet).0;
      st.initialized ==> st'.initialized && st'.Highest() >= st.Highest()
  {
    if |packet| >= 12 + tagLen {
      ReplayCheckIsFreshness(st, accepted, Estimate(st, packet));
      if Authentic(c, k, tagLen, st, packet) {
        UpdateDescribes(st, accepted, SequenceOf(packet));
      }
    }
  }

  /** For the next packet of any run: it has an outcome exactly when it is short,
      or its index is not fresh, or it fits the buffer without its tag.  Then it
      is authenticated exactly when it is long enough, its index is fresh and its
      tag is right, and the 32-bit index did not wrap.  The highest index never
      decreases. */
  lemma NextPacket(c: Crypto, k: SessionKeys, tagLen: nat, packets: seq<seq<byte>>, packet: seq<byte>)
    requires TagLength(tagLen) && Run(c, k, tagLen, packets).Some?
    ensures var (st, accepted) := Run(c, k, tagLen, packets).value;
      var after := Run(c, k, tagLen, packets + [packet]);
      && (after.Some? <==>
          |packet| < 12 + tagLen || !Fresh(accepted, Estimate(st, packet)) || |packet| - tagLen <= 2048)
      && (after.Some? ==>
          && (Authentic(c, k, tagLen, st, packet) <==>
              |packet| >= 12 + tagLen && Fresh(accepted, Estimate(st, packet)) && TagMatches(c, k, tagLen, st, packet))
          && (Authentic(c, k, tagLen, st, packet) ==>
              Estimate(st, packet) == EstimateRoc(st, SequenceOf(packet)) * SEQ_MOD + SequenceOf(packet))
          && var (st', _) := after.value;
             (st.initialized ==> st'.initialized && st'.Highest() >= st.Highest()))
  {
    WindowRefinesSet(c, k, tagLen, packets);
    assert (packets + [packet])[..|packets|] == packets;
    var (st, accepted) := Run(c, k, tagLen, packets).value;
    hide Run, Describes, Authentic, Unprotect, TagMatches, Fresh, Estimate, ReplayOk;
    RunNext(c, k, tagLen, packets, packet);
    if |packet| >= 12 + tagLen { ReplayCheckIsFreshness(st, accepted, Estimate(st, packet)); }
    OnePacket(c, k, tagLen, st, accepted, packet);
  }

  lemma RunNext(c: Crypto, k: SessionKeys, tagLen: nat, packets: seq<seq<byte>>, packet: seq<byte>)
    requires TagLength(tagLen) && Run(c, k, tagLen, packets).Some?
    ensures var (st, accepted) := Run(c, k, tagLen, packets).value;
      Run(c, k, tagLen, packets + [packet])
      == if CopyFits(tagLen, st, packet) then Some(Next(c, k, tagLen, st, accepted, packet)) else None
  {
    hide CopyFits, Next;
    assert (packets + [packet])[..|packets|] == packets;
  }

  /** The indices around the highest one that the estimate gets right.  Which
      end of the half-circle is included depends on the half `sl` is in; with a
      zero rollover counter a low `sl` reads everything as the first cycle. */
  predicate WithinReach(st: RecvState, i: nat) {
    if st.sl >= 0x8000 then st.Highest() - 0x8000 <= i <= st.Highest() + 0x7FFF
    else if st.roc == 0 then i < SEQ_MOD
    else st.Highest() - 0x7FFF <= i <= st.Highest() + 0x8000
  }

  /** Estimating the rollover counter from 16 bits is right exactly within reach. */
  lemma EstimateExact(st: RecvState, i: nat)
    requires st.initialized && st.roc <= 0xFFFF
    ensures EstimateRoc(st, i % SEQ_MOD) == i / SEQ_MOD <==> WithinReach(st, i)
  {
  }

  /** Less than half a cycle away is always within reach (section 3.3.1 of RFC 3711). */
  lemma HalfCycleWithinReach(st: RecvState, i: nat)
    requires st.initialized && st.roc <= 0xFFFF
    requires -0x8000 < i - st.Highest() < 0x8000
    ensures EstimateRoc(st, i % SEQ_MOD) == i / SEQ_MOD
  {
    EstimateExact(st, i);
  }
}
