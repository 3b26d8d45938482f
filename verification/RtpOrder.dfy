/** Putting received RTP packets back into the order of their sequence numbers. */
module RtpOrder {
  import opened Bytes
  import opened RtpTransport
  import Srtp
  import SrtpSession

  /** The first packet with this sequence number. */
  function Pick(got: seq<seq<byte>>, sn: u16): Option<seq<byte>> {
    if |got| == 0 then None
    else if |got[0]| >= 12 && Srtp.SequenceOf(got[0]) == sn then Some(got[0])
    else Pick(got[1..], sn)
  }

  /** The packets numbered `sn`, `sn` + 1, ..., as far as they are there. */
  function Arrange(got: seq<seq<byte>>, sn: u16, n: nat): seq<seq<byte>>
    decreases n
  {
    if n == 0 then []
    else
      (match Pick(got, sn) case Some(p) => [p] case None => []) + Arrange(got, SeqAfter(sn, 1), n - 1)
  }

  /** Packets numbered one after the other from `sn` on. */
  predicate Numbered(ps: seq<seq<byte>>, sn: u16) {
    forall i :: 0 <= i < |ps| ==> |ps[i]| >= 12 && Srtp.SequenceOf(ps[i]) == SeqAfter(sn, i)
  }

  lemma {:induction false} PickFinds(got: seq<seq<byte>>, p: seq<byte>)
    requires p in got && |p| >= 12
    requires forall x :: x in got && |x| >= 12 && Srtp.SequenceOf(x) == Srtp.SequenceOf(p) ==> x == p
    ensures Pick(got, Srtp.SequenceOf(p)) == Some(p)
    decreases |got|
  {
    hide Srtp.SequenceOf;
    if got[0] != p { PickFinds(got[1..], p); }
  }

  lemma SeqDistinct(sn: u16, i: nat, j: nat)
    requires i < 0x1_0000 && j < 0x1_0000 && SeqAfter(sn, i) == SeqAfter(sn, j)
    ensures i == j
  {
  }

  /** Whatever the order and however often each packet came: the packets come out
      in order, if there are no more of them than sequence numbers. */
  lemma ArrangeRestores(got: seq<seq<byte>>, sn: u16, ps: seq<seq<byte>>)
    requires Numbered(ps, sn) && |ps| <= 0x1_0000 && (forall p :: p in got <==> p in ps)
    ensures Arrange(got, sn, |ps|) == ps
  {
    assert ps[0..] == ps;
    SeqAfterNone(sn);
    ArrangeFrom(got, sn, ps, 0);
  }

  lemma {:induction false} ArrangeFrom(got: seq<seq<byte>>, sn: u16, ps: seq<seq<byte>>, i: nat)
    requires Numbered(ps, sn) && i <= |ps| <= 0x1_0000 && (forall p :: p in got <==> p in ps)
    ensures Arrange(got, SeqAfter(sn, i), |ps| - i) == ps[i..]
    decreases |ps| - i
  {
    hide Srtp.SequenceOf, Pick;
    if i < |ps| {
      forall x | x in got && |x| >= 12 && Srtp.SequenceOf(x) == SeqAfter(sn, i) ensures x == ps[i] {
        var j :| 0 <= j < |ps| && ps[j] == x;
        SeqDistinct(sn, i, j);
      }
      assert ps[i] in got;
      PickFinds(got, ps[i]);
      NextSeq'(sn, i);
      hide SeqAfter;
      ArrangeFrom(got, sn, ps, i + 1);
      assert ps[i..] == [ps[i]] + ps[i + 1..];
    }
  }

  lemma NextSeq'(sn: u16, i: nat)
    ensures SeqAfter(SeqAfter(sn, i), 1) == SeqAfter(sn, i + 1)
  {
  }

  /** The packets of a stream are numbered that way. */
  lemma PacketsNumbered(s: Stream, sn: u16, timestamp: u32, outs: seq<Outgoing>)
    requires s.Valid()
    ensures Numbered(Packets(s, sn, timestamp, outs), sn)
  {
    hide Packet, Srtp.SequenceOf, SeqAfter, Open;
    forall i | 0 <= i < |outs|
      ensures var p := Packets(s, sn, timestamp, outs)[i];
        |p| >= 12 && Srtp.SequenceOf(p) == SeqAfter(sn, i)
    {
      PacketFields(s, SeqAfter(sn, i), outs[i].marker, timestamp, outs[i].body);
    }
  }

  // ------------------------------------------------------ through the session

  /** Any choice of accepted deliveries of a session. */
  predicate Accepted(s: SrtpSession.System, js: seq<nat>) {
    forall i :: 0 <= i < |js| ==>
      js[i] < |s.log| && s.log[js[i]].result.Some? && s.log[js[i]].packet < |s.handed|
  }

  /** The RTP packets the sender made them from. */
  function Originals(s: SrtpSession.System, js: seq<nat>): seq<seq<byte>>
    requires Accepted(s, js)
  {
    seq(|js|, i requires 0 <= i < |js| => s.handed[s.log[js[i]].packet].rtp)
  }

  /** What unprotect returned for them. */
  function Results(s: SrtpSession.System, js: seq<nat>): seq<seq<byte>>
    requires Accepted(s, js)
  {
    seq(|js|, i requires 0 <= i < |js| => s.log[js[i]].result.value)
  }

  lemma ResultsAre(w: SrtpSession.World, events: seq<SrtpSession.Event>, s: SrtpSession.System, js: seq<nat>)
    requires w.Valid() && SrtpSession.Run(w, events) == Some(s) && Accepted(s, js)
    ensures Results(s, js) == Originals(s, js)
  {
    hide SrtpSession.Run;
    forall i | 0 <= i < |js| ensures s.log[js[i]].result.value == s.handed[s.log[js[i]].packet].rtp {
      SrtpSession.EndToEnd(w, events, s, js[i]);
    }
  }

  /** Once every packet of a numbered list was accepted, in whatever order, the
      receiver has the list. */
  lemma ListOverSrtp(w: SrtpSession.World, events: seq<SrtpSession.Event>, s: SrtpSession.System, js: seq<nat>,
                     sn: u16, ps: seq<seq<byte>>)
    requires w.Valid() && SrtpSession.Run(w, events) == Some(s) && Accepted(s, js)
    requires Numbered(ps, sn) && |ps| <= 0x1_0000 && (forall p :: p in Originals(s, js) <==> p in ps)
    ensures Arrange(Results(s, js), sn, |ps|) == ps
  {
    hide SrtpSession.Run, Originals, Results, Numbered, Arrange;
    ResultsAre(w, events, s, js);
    ArrangeRestores(Results(s, js), sn, ps);
  }
}
