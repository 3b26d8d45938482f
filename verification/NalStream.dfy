/** Many NAL units one after the other, some of them cut short by a failed send,
    in the clear and through an SRTP session. */
module NalStream {
  import opened Bytes
  import opened Nal
  import opened NalTransport
  import opened RtpTransport
  import opened RtpOrder
  import SrtpSession

  /** A unit and how many of its packets were taken before a send failed. */
  datatype Unit = Unit(timestamp: u32, header: Header, payload: seq<byte>, taken: nat)

  /** The units are of the codec of `like`, in range, and not mistaken for fragments. */
  predicate Sendable(like: Header, us: seq<Unit>, max: nat) {
    && max > 0
    && forall i :: 0 <= i < |us| ==>
         && us[i].header.H264? == like.H264? && us[i].header.Valid()
         && !LooksFragmented(us[i].header, us[i].payload, max)
         && us[i].taken <= |Outs(us[i].header, us[i].payload, max)|
  }

  /** All packets of the first unit were taken. */
  predicate Complete(like: Header, us: seq<Unit>, max: nat)
    requires Sendable(like, us, max) && |us| > 0
  {
    us[0].taken == |Outs(us[0].header, us[0].payload, max)|
  }

  function FirstOuts(like: Header, us: seq<Unit>, max: nat): seq<Outgoing>
    requires Sendable(like, us, max) && |us| > 0
  {
    Outs(us[0].header, us[0].payload, max)[..us[0].taken]
  }

  function OutsAll(like: Header, us: seq<Unit>, max: nat): seq<Outgoing>
    requires Sendable(like, us, max)
  {
    if |us| == 0 then [] else FirstOuts(like, us, max) + OutsAll(like, us[1..], max)
  }

  /** The RTP packets of all units: sequence numbers run on without a gap, each
      unit has its own timestamp. */
  function UnitPackets(s: Stream, seqNum: u16, like: Header, us: seq<Unit>, max: nat): seq<seq<byte>>
    requires s.Valid() && Sendable(like, us, max)
    decreases |us|
  {
    if |us| == 0 then []
    else
      Packets(s, seqNum, us[0].timestamp, FirstOuts(like, us, max))
      + UnitPackets(s, SeqAfter(seqNum, us[0].taken), like, us[1..], max)
  }

  // -------------------------------------------------------------- the receiver

  /** A fragment that is not the first of its unit. */
  predicate Continues(like: Header, o: Outgoing) { IsFragment(like, o.body) && !StartBit(like, o.body) }

  /** The number of continuing fragments in front, up to an end bit. */
  function Following(like: Header, outs: seq<Outgoing>): (n: nat)
    ensures n <= |outs|
  {
    if |outs| == 0 || !Continues(like, outs[0]) then 0
    else if EndBit(like, outs[0].body) then 1
    else 1 + Following(like, outs[1..])
  }

  /** How many payloads belong together at the front. */
  function FirstGroup(like: Header, outs: seq<Outgoing>): (n: nat)
    requires |outs| > 0
    ensures 0 < n <= |outs|
  {
    if IsFragment(like, outs[0].body) && !EndBit(like, outs[0].body) then 1 + Following(like, outs[1..]) else 1
  }

  /** The units in a list of payloads; what does not make up a unit is dropped. */
  function DepacketizeAll(like: Header, outs: seq<Outgoing>): seq<(Header, seq<byte>)>
    decreases |outs|
  {
    if |outs| == 0 then []
    else
      var n := FirstGroup(like, outs);
      (match Depacketize(like, outs[..n]) case Some(u) => [u] case None => []) + DepacketizeAll(like, outs[n..])
  }

  /** What arrives: every complete unit, but fragmenting drops the forbidden bit of
      H.264. */
  function Arrived(like: Header, us: seq<Unit>, max: nat): seq<(Header, seq<byte>)>
    requires Sendable(like, us, max)
  {
    if |us| == 0 then []
    else
      (if Complete(like, us, max) then [Rebuilt(us[0], max)] else []) + Arrived(like, us[1..], max)
  }

  function Rebuilt(u: Unit, max: nat): (Header, seq<byte>) {
    (if Whole(u.header, u.payload, max) then u.header else Delivered(u.header), u.payload)
  }

  // ------------------------------------------------------------------- proofs

  /** Reading depends on the codec of `like` only. */
  lemma SameFields(a: Header, b: Header, body: seq<byte>)
    requires a.H264? == b.H264?
    ensures a.Size() == b.Size() && a.FuSize() == b.FuSize() && IsFragment(a, body) == IsFragment(b, body)
    ensures |body| >= a.Size() ==> Parse(a, body) == Parse(b, body)
    ensures |body| >= a.FuSize() ==>
      && FragmentHeader(a, body) == FragmentHeader(b, body)
      && StartBit(a, body) == StartBit(b, body) && EndBit(a, body) == EndBit(b, body)
  {
  }

  lemma {:induction false} SameGather(a: Header, b: Header, outs: seq<Outgoing>)
    requires a.H264? == b.H264?
    requires forall i :: 0 <= i < |outs| ==> |outs[i].body| >= a.FuSize() && |outs[i].body| >= b.FuSize()
    ensures Gather(a, outs) == Gather(b, outs)
    decreases |outs|
  {
    if |outs| > 0 {
      var front := outs[..|outs| - 1];
      assert forall i :: 0 <= i < |front| ==> front[i] == outs[i];
      SameGather(a, b, front);
    }
  }

  lemma SameCodec(a: Header, b: Header, outs: seq<Outgoing>)
    requires a.H264? == b.H264?
    ensures Depacketize(a, outs) == Depacketize(b, outs)
  {
    forall i | 0 <= i < |outs|
      ensures a.Size() == b.Size() && a.FuSize() == b.FuSize()
      ensures IsFragment(a, outs[i].body) == IsFragment(b, outs[i].body)
      ensures |outs[i].body| >= a.Size() ==> Parse(a, outs[i].body) == Parse(b, outs[i].body)
      ensures |outs[i].body| >= a.FuSize() ==>
        && FragmentHeader(a, outs[i].body) == FragmentHeader(b, outs[i].body)
        && StartBit(a, outs[i].body) == StartBit(b, outs[i].body) && EndBit(a, outs[i].body) == EndBit(b, outs[i].body)
    {
      SameFields(a, b, outs[i].body);
    }
    FragmentSizes(a);
    FragmentSizes(b);
    hide Parse, FragmentHeader, StartBit, EndBit, Header.Size, Header.FuSize, Header.FuType;
    assert OneUnit(a, outs) == OneUnit(b, outs);
    if OneUnit(a, outs) {
      hide OneUnit;
      SameGather(a, b, outs);
    }
  }

  lemma FragmentSizes(h: Header)
    ensures 0 < h.Size() < h.FuSize()
    ensures forall body :: IsFragment(h, body) ==> |body| >= h.FuSize()
  {
  }

  /** A run of `n` continuing fragments that stops there, by an end bit or by what
      comes next. */
  lemma {:induction false} FollowingIs(like: Header, outs: seq<Outgoing>, n: nat)
    requires n <= |outs|
    requires forall i :: 0 <= i < n ==> Continues(like, outs[i]) && (i < n - 1 ==> !EndBit(like, outs[i].body))
    requires n == |outs| || !Continues(like, outs[n])
      || (n > 0 && Continues(like, outs[n - 1]) && EndBit(like, outs[n - 1].body))
    ensures Following(like, outs) == n
    decreases n
  {
    if n > 1 {
      var rest := outs[1..];
      assert forall i :: 0 <= i < n - 1 ==> rest[i] == outs[i + 1];
      assert rest[n - 2] == outs[n - 1] && (n < |outs| ==> rest[n - 1] == outs[n]);
      hide Continues, EndBit;
      FollowingIs(like, rest, n - 1);
    }
  }

  /** What the receiver sees of the packets of one unit. */
  lemma UnitFields(like: Header, h: Header, payload: seq<byte>, max: nat, i: nat)
    requires like.H264? == h.H264? && h.Valid() && max > h.FuSize() && !LooksFragmented(h, payload, max)
    requires i < |Outs(h, payload, max)|
    ensures var outs := Outs(h, payload, max);
      && (i == 0 ==> !Continues(like, outs[i]))
      && if Whole(h, payload, max) then |outs| == 1 && !IsFragment(like, outs[i].body)
         else |outs| >= 2 && IsFragment(like, outs[i].body)
              && (i > 0 ==> Continues(like, outs[i])) && (EndBit(like, outs[i].body) <==> i == |outs| - 1)
  {
    hide Header.Serialize, Header.WriteFu, Fragment;
    var outs := Outs(h, payload, max);
    SameFields(like, h, outs[i].body);
    if Whole(h, payload, max) {
      HeaderRoundTrip(h, payload);
    } else {
      AtLeastTwo(h, payload, max);
      FragmentsAreOneUnit(h, payload, ChunkFor(h, max));
      hide Fragments, FragmentHeader;
    }
  }

  /** The packets of a unit that were taken stand together at the front. */
  lemma UnitInFront(like: Header, h: Header, payload: seq<byte>, max: nat, k: nat, rest: seq<Outgoing>)
    requires like.H264? == h.H264? && h.Valid() && max > h.FuSize() && !LooksFragmented(h, payload, max)
    requires 0 < k <= |Outs(h, payload, max)| && (|rest| == 0 || !Continues(like, rest[0]))
    ensures FirstGroup(like, Outs(h, payload, max)[..k] + rest) == k
  {
    var outs := Outs(h, payload, max);
    var all := outs[..k] + rest;
    assert all[0] == outs[0];
    forall i | 0 <= i < |outs|
      ensures (i == 0 ==> !Continues(like, outs[i]))
        && if Whole(h, payload, max) then |outs| == 1 && !IsFragment(like, outs[i].body)
           else |outs| >= 2 && IsFragment(like, outs[i].body)
                && (i > 0 ==> Continues(like, outs[i])) && (EndBit(like, outs[i].body) <==> i == |outs| - 1)
    {
      UnitFields(like, h, payload, max, i);
    }
    hide Outs, LooksFragmented, IsFragment, EndBit, Continues;
    if !Whole(h, payload, max) {
      var tail := all[1..];
      assert forall i :: 0 <= i < k - 1 ==> tail[i] == outs[i + 1];
      assert |rest| > 0 ==> tail[k - 1] == rest[0];
      ContinuesIsFragment(like);
      FollowingIs(like, tail, k - 1);
    }
  }

  lemma ContinuesIsFragment(like: Header)
    ensures forall o :: Continues(like, o) ==> IsFragment(like, o.body)
  {
  }

  /** What is made of them: the unit if all are there, nothing otherwise. */
  lemma UnitOrNothing(like: Header, h: Header, payload: seq<byte>, max: nat, k: nat)
    requires like.H264? == h.H264? && h.Valid() && max > h.FuSize() && !LooksFragmented(h, payload, max)
    requires 0 < k <= |Outs(h, payload, max)|
    ensures Depacketize(like, Outs(h, payload, max)[..k])
         == if k == |Outs(h, payload, max)|
            then Some((if Whole(h, payload, max) then h else Delivered(h), payload)) else None
  {
    var outs := Outs(h, payload, max);
    var part := outs[..k];
    if k == |outs| {
      assert part == outs;
      RoundTrip(h, payload, max);
      hide Depacketize, Outs;
      SameCodec(like, h, outs);
    } else {
      UnitFields(like, h, payload, max, k - 1);
      hide Outs, LooksFragmented, Gather, FragmentHeader, StartBit, Parse;
      assert part[k - 1] == outs[k - 1];
    }
  }

  lemma {:induction false} StartsFresh(like: Header, us: seq<Unit>, max: nat)
    requires Sendable(like, us, max) && max > like.FuSize()
    ensures var outs := OutsAll(like, us, max); |outs| == 0 || !Continues(like, outs[0])
    decreases |us|
  {
    hide Outs, LooksFragmented, Continues;
    if |us| > 0 {
      if us[0].taken > 0 {
        UnitFields(like, us[0].header, us[0].payload, max, 0);
      } else {
        StartsFresh(like, us[1..], max);
        assert OutsAll(like, us, max) == OutsAll(like, us[1..], max);
      }
    }
  }

  /** From the payloads of any list of units a receiver rebuilds exactly the
      complete ones: a unit cut short costs no other. */
  lemma {:induction false} UnitsRoundTrip(like: Header, us: seq<Unit>, max: nat)
    requires Sendable(like, us, max) && max > like.FuSize()
    ensures DepacketizeAll(like, OutsAll(like, us, max)) == Arrived(like, us, max)
    decreases |us|
  {
    hide Outs, Depacketize, FirstGroup, Delivered, LooksFragmented, Continues, Whole;
    if |us| > 0 {
      var h, payload, k := us[0].header, us[0].payload, us[0].taken;
      var outs, rest := FirstOuts(like, us, max), OutsAll(like, us[1..], max);
      UnitsRoundTrip(like, us[1..], max);
      SomeOuts(h, payload, max);
      if k == 0 {
        assert outs + rest == rest;
        assert [] + Arrived(like, us[1..], max) == Arrived(like, us[1..], max);
      } else {
        StartsFresh(like, us[1..], max);
        UnitInFront(like, h, payload, max, k, rest);
        assert (outs + rest)[..k] == outs && (outs + rest)[k..] == rest;
        UnitOrNothing(like, h, payload, max, k);
      }
    }
  }

  lemma SomeOuts(h: Header, payload: seq<byte>, max: nat)
    requires h.Valid() && max > h.FuSize()
    ensures |Outs(h, payload, max)| > 0
  {
    if !Whole(h, payload, max) { AtLeastTwo(h, payload, max); }
  }

  lemma {:induction false} OpenBoth(a: seq<seq<byte>>, b: seq<seq<byte>>)
    requires OpenAll(a).Some? && OpenAll(b).Some?
    ensures OpenAll(a + b) == Some(OpenAll(a).value + OpenAll(b).value)
    decreases |a|
  {
    hide Open;
    if |a| == 0 {
      assert a + b == b && [] + OpenAll(b).value == OpenAll(b).value;
    } else {
      assert (a + b)[1..] == a[1..] + b;
      OpenBoth(a[1..], b);
      var (marker, body) := Open(a[0]).value;
      var rest := OpenAll(a[1..]).value;
      assert [Outgoing(marker, body)] + (rest + OpenAll(b).value) == [Outgoing(marker, body)] + rest + OpenAll(b).value;
    }
  }

  lemma {:induction false} OpenUnits(s: Stream, seqNum: u16, like: Header, us: seq<Unit>, max: nat)
    requires s.Valid() && Sendable(like, us, max)
    ensures OpenAll(UnitPackets(s, seqNum, like, us, max)) == Some(OutsAll(like, us, max))
    decreases |us|
  {
    hide Outs, FirstOuts, Packets, LooksFragmented, SeqAfter;
    if |us| > 0 {
      var outs, next := FirstOuts(like, us, max), SeqAfter(seqNum, us[0].taken);
      OpenPackets(s, seqNum, us[0].timestamp, outs);
      OpenUnits(s, next, like, us[1..], max);
      OpenBoth(Packets(s, seqNum, us[0].timestamp, outs), UnitPackets(s, next, like, us[1..], max));
    }
  }

  /** From the RTP packets of any list of units a receiver rebuilds exactly the
      complete ones. */
  lemma StreamRebuilds(s: Stream, seqNum: u16, like: Header, us: seq<Unit>, max: nat)
    requires s.Valid() && Sendable(like, us, max) && max > like.FuSize()
    ensures var read := OpenAll(UnitPackets(s, seqNum, like, us, max));
      read.Some? && DepacketizeAll(like, read.value) == Arrived(like, us, max)
  {
    hide UnitPackets, OutsAll, DepacketizeAll, Arrived, OpenAll;
    OpenUnits(s, seqNum, like, us, max);
    UnitsRoundTrip(like, us, max);
  }

  // ------------------------------------------------------ through the session

  lemma NumberedBoth(a: seq<seq<byte>>, b: seq<seq<byte>>, sn: u16)
    requires Numbered(a, sn) && Numbered(b, SeqAfter(sn, |a|))
    ensures Numbered(a + b, sn)
  {
    forall i | |a| <= i < |a| + |b| ensures SeqAfter(SeqAfter(sn, |a|), i - |a|) == SeqAfter(sn, i) {
      SeqSum(sn, |a|, i - |a|);
    }
  }

  lemma SeqSum(sn: u16, i: nat, j: nat)
    ensures SeqAfter(SeqAfter(sn, i), j) == SeqAfter(sn, i + j)
  {
  }

  lemma {:induction false} UnitsNumbered(s: Stream, seqNum: u16, like: Header, us: seq<Unit>, max: nat)
    requires s.Valid() && Sendable(like, us, max)
    ensures Numbered(UnitPackets(s, seqNum, like, us, max), seqNum)
    decreases |us|
  {
    hide Outs, Packets, LooksFragmented, SeqAfter, Numbered;
    if |us| == 0 {
      NothingNumbered(seqNum);
    } else {
      var outs, next := FirstOuts(like, us, max), SeqAfter(seqNum, us[0].taken);
      PacketsNumbered(s, seqNum, us[0].timestamp, outs);
      UnitsNumbered(s, next, like, us[1..], max);
      NumberedBoth(Packets(s, seqNum, us[0].timestamp, outs), UnitPackets(s, next, like, us[1..], max), seqNum);
    }
  }

  lemma NothingNumbered(sn: u16)
    ensures Numbered([], sn)
  {
  }

  /** Units sent through an SRTP session: once all their packets were accepted,
      in whatever order, the receiver arranges them by sequence number and
      rebuilds exactly the complete units. */
  lemma UnitsOverSrtp(w: SrtpSession.World, events: seq<SrtpSession.Event>, s: SrtpSession.System, js: seq<nat>,
                      seqNum: u16, like: Header, us: seq<Unit>, max: nat)
    requires w.Valid() && SrtpSession.Run(w, events) == Some(s) && Accepted(s, js)
    requires Sendable(like, us, max) && max > like.FuSize()
    requires var ps := UnitPackets(w.stream, seqNum, like, us, max);
      |ps| <= 0x1_0000 && forall p :: p in Originals(s, js) <==> p in ps
    ensures var n := |UnitPackets(w.stream, seqNum, like, us, max)|;
      var read := OpenAll(Arrange(Results(s, js), seqNum, n));
      read.Some? && DepacketizeAll(like, read.value) == Arrived(like, us, max)
  {
    hide SrtpSession.Run, UnitPackets, OpenAll, DepacketizeAll, Arrived, Arrange, Results, Originals, Numbered;
    UnitsNumbered(w.stream, seqNum, like, us, max);
    ListOverSrtp(w, events, s, js, seqNum, UnitPackets(w.stream, seqNum, like, us, max));
    StreamRebuilds(w.stream, seqNum, like, us, max);
  }
}
