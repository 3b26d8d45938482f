/** An SRTP session end to end: an RTP sender over an SRTP sender, a network that
    drops, duplicates, reorders and injects, and an SRTP receiver. */
module SrtpSession {
  import opened Bytes
  import opened SrtpCipher
  import opened Srtp
  import opened SrtpReceiver
  import opened RtpTransport
  import opened DeliveryLog
  import opened RtpHeader
  import Bits

  /** The constants of a session; `start` is the first sequence number. */
  datatype World = World(c: Crypto, k: SessionKeys, tagLen: nat, stream: Stream, start: u16) {
    predicate Valid() { TagLength(tagLen) && stream.Valid() }
  }

  /** A packet handed to the inner transport: the RTP packet, its protected form,
      and whether the transport took it.  A transport that reports failure may
      have put the packet on the wire all the same. */
  datatype Handed = Handed(rtp: seq<byte>, packet: seq<byte>, taken: bool)

  datatype System = System(seqNum: u16, sender: SendState, handed: seq<Handed>, receiver: RecvState, log: seq<Delivery>)

  datatype Event =
    | Send(marker: bool, timestamp: u32, body: seq<byte>, linkOk: bool)
    | Deliver(position: nat)
    | Inject(packet: seq<byte>)

  function Init(w: World): System {
    System(w.start, SendState(0, 0), [], FRESH, [])
  }

  /** How many of the first `p` packets were taken. */
  function Slot(handed: seq<Handed>, p: nat): nat
    requires p <= |handed|
  {
    if p == 0 then 0 else Slot(handed, p - 1) + if handed[p - 1].taken then 1 else 0
  }

  /** The RTP sender advances only when SRTP and the link below it succeed. */
  function Step(w: World, s: System, e: Event): System
    requires w.Valid() && (e.Deliver? ==> e.position < |s.handed|)
  {
    match e
    case Send(marker, timestamp, body, linkOk) =>
      var rtp := Packet(w.stream, s.seqNum, marker, timestamp, body);
      var (sender, packet) := Protect(w.c, w.k, w.tagLen, s.sender, rtp);
      if packet.None? then s.(sender := sender)
      else s.(seqNum := (if linkOk then (s.seqNum + 1) % SEQ_MOD else s.seqNum), sender := sender,
              handed := s.handed + [Handed(rtp, packet.value, linkOk)])
    case Deliver(position) =>
      var (receiver, result) := Unprotect(w.c, w.k, w.tagLen, s.receiver, s.handed[position].packet);
      s.(receiver := receiver, log := s.log + [Delivery(position, Slot(s.handed, position), result)])
    case Inject(packet) =>
      s.(receiver := Unprotect(w.c, w.k, w.tagLen, s.receiver, packet).0)
  }

  /** The index the next new packet ought to get. */
  function NextIndex(w: World, s: System): nat { w.start + Slot(s.handed, |s.handed|) }

  /** What the session assumes of the network: the first packet to arrive is from
      the sender's first cycle and later ones are where the receiver's estimate
      reaches; injected packets have an outcome and do not carry a valid tag for
      a fresh index.  Any packet the sender handed on may arrive, even one that
      was refused, and any number may be sent. */
  predicate Enabled(w: World, s: System, e: Event)
    requires w.Valid()
  {
    match e
    case Send(_, _, _, _) => true
    case Deliver(position) =>
      && position < |s.handed|
      && var index := w.start + Slot(s.handed, position);
         if s.receiver.initialized then WithinReach(s.receiver, index) else index < SEQ_MOD
    case Inject(packet) =>
      CopyFits(w.tagLen, s.receiver, packet) && !Authentic(w.c, w.k, w.tagLen, s.receiver, packet)
  }

  /** The system after a run, newest event last, or `None` if some event breaks
      the assumptions. */
  function Run(w: World, events: seq<Event>): Option<System>
    requires w.Valid()
  {
    if |events| == 0 then Some(Init(w))
    else
      var e := events[|events| - 1];
      match Run(w, events[..|events| - 1])
      case None => None
      case Some(s) => if Enabled(w, s, e) then Some(Step(w, s, e)) else None
  }

  // ------------------------------------------------------------------- slots

  lemma {:induction false} SlotKept(handed: seq<Handed>, more: seq<Handed>, p: nat)
    requires p <= |handed|
    ensures Slot(handed + more, p) == Slot(handed, p)
  {
    if p > 0 { SlotKept(handed, more, p - 1); }
  }

  lemma SlotNext(handed: seq<Handed>, item: Handed)
    ensures Slot(handed + [item], |handed| + 1) == Slot(handed, |handed|) + if item.taken then 1 else 0
  {
    SlotKept(handed, [item], |handed|);
  }

  /** Two packets share a slot exactly when no packet from the first up to the
      second was taken. */
  lemma {:induction false} SharedSlot(handed: seq<Handed>, p: nat, q: nat)
    requires p <= q <= |handed|
    ensures Slot(handed, p) <= Slot(handed, q)
    ensures Slot(handed, p) == Slot(handed, q) <==> forall i :: p <= i < q ==> !handed[i].taken
    decreases q
  {
    if p < q { SharedSlot(handed, p, q - 1); }
  }

  // ------------------------------------------------------------- the sender

  /** The rollover counter of an index; it has 32 bits. */
  function RocOf(index: nat): u32 { index / SEQ_MOD % INDEX_MOD }

  function Remembering(index: nat): SendState { SendState(RocOf(index), index % SEQ_MOD) }

  /** Between packets the SRTP sender remembers the last index it was given,
      whether or not that attempt went through; at the start it remembers 0. */
  predicate SenderReady(w: World, s: System) {
    var m, st := NextIndex(w, s), s.sender;
    && s.seqNum == m % SEQ_MOD
    && (st == Remembering(m) || (m > 0 && st == Remembering(m - 1)) || (st == SendState(0, 0) && m == w.start))
  }

  /** A packet really carries index `index`: its sequence number is the low half
      and it is sealed under the high half. */
  ghost predicate Carries(w: World, item: Handed, index: nat)
    requires w.Valid()
  {
    && Sendable(w.tagLen, item.rtp)
    && SequenceOf(item.rtp) == index % SEQ_MOD
    && SsrcOf(item.rtp) == w.stream.ssrc
    && item.packet == Seal(w.c, w.k, w.tagLen, RocOf(index), item.rtp)
  }

  lemma RollOver(m: nat)
    ensures m > 0 ==> Roll(Remembering(m - 1), m % SEQ_MOD) == Remembering(m)
    ensures Roll(Remembering(m), m % SEQ_MOD) == Remembering(m)
    ensures m < SEQ_MOD ==> Roll(SendState(0, 0), m) == Remembering(m)
  {
    if m > 0 {
      var hi := (m - 1) / SEQ_MOD;
      RocSteps(hi);
      if m % SEQ_MOD == 0 {
        assert m / SEQ_MOD == hi + 1 && (m - 1) % SEQ_MOD == 0xFFFF;
      } else {
        assert m / SEQ_MOD == hi && (m - 1) % SEQ_MOD == m % SEQ_MOD - 1;
      }
    }
  }

  /** Whatever happened before, the rollover counter comes out right, and a
      retry of the same sequence number does not raise it again. */
  lemma RollIsRight(w: World, s: System)
    requires SenderReady(w, s)
    ensures Roll(s.sender, s.seqNum) == Remembering(NextIndex(w, s))
  {
    hide Slot, Roll, Remembering;
    RollOver(NextIndex(w, s));
  }

  /** For a sender that may skip or repeat numbers: less than a cycle from index
      `l`, the counter for index `i` comes out right exactly if `i` is in the same
      cycle and not more than half a cycle back, or in the next and not more than
      half a cycle ahead. */
  lemma RollExactly(l: nat, i: nat)
    requires -0x1_0000 < i - l < 0x1_0000
    ensures Roll(Remembering(l), i % 0x1_0000) == Remembering(i) <==>
      || (i / 0x1_0000 == l / 0x1_0000 && l - i <= 0x7FFF)
      || (i / 0x1_0000 == l / 0x1_0000 + 1 && i - l <= 0x8000)
  {
    var hi := l / 0x1_0000;
    RocSteps(hi);
    if i / 0x1_0000 != hi && i / 0x1_0000 != hi + 1 { assert i / 0x1_0000 == hi - 1; }
  }

  lemma RocSteps(hi: nat)
    ensures (hi + 1) % INDEX_MOD == (hi % INDEX_MOD + 1) % INDEX_MOD
    ensures (hi + 1) % INDEX_MOD != hi % INDEX_MOD
    ensures hi > 0 ==> (hi - 1) % INDEX_MOD != hi % INDEX_MOD
  {
  }

  /** The index a packet is encrypted under is its index modulo 2^32. */
  lemma EncryptedIndex(w: World, item: Handed, index: nat)
    requires w.Valid() && Carries(w, item, index)
    ensures Index(RocOf(index), SequenceOf(item.rtp)) == index % INDEX_MOD
  {
    hide Seal, Sendable, SequenceOf, SsrcOf;
    LowIndex(index);
  }

  lemma LowIndex(index: nat)
    ensures (RocOf(index) * SEQ_MOD + index % SEQ_MOD) % INDEX_MOD == index % INDEX_MOD
  {
    var hi, lo := index / SEQ_MOD, index % SEQ_MOD;
    var k, x := hi / INDEX_MOD * SEQ_MOD, hi % INDEX_MOD * SEQ_MOD + lo;
    assert index == INDEX_MOD * k + x;
    Bits.ModUnique(index, INDEX_MOD, k + x / INDEX_MOD, x % INDEX_MOD);
  }

  /** One attempt hands on nothing, or one packet that carries the next index. */
  lemma SendStep(w: World, s: System, e: Event)
    requires w.Valid() && e.Send? && SenderReady(w, s)
    ensures var s' := Step(w, s, e);
      && SenderReady(w, s') && s'.receiver == s.receiver && s'.log == s.log
      && (s'.handed == s.handed
          || (|s'.handed| == |s.handed| + 1 && s'.handed[..|s.handed|] == s.handed
              && Carries(w, s'.handed[|s.handed|], NextIndex(w, s))))
  {
    hide Packet, Seal, Roll, Open, SequenceOf, SsrcOf, Slot, RocOf;
    RollIsRight(w, s);
    PacketFields(w.stream, s.seqNum, e.marker, e.timestamp, e.body);
    var handed := Step(w, s, e).handed;
    if |handed| > |s.handed| { SlotNext(s.handed, handed[|s.handed|]); }
  }

  // ----------------------------------------------------------- the receiver

  lemma EstimateIsRight(w: World, s: System, position: nat)
    requires w.Valid() && Enabled(w, s, Deliver(position)) && Describes(s.receiver, Indices(w.start, s.log))
    ensures var index := w.start + Slot(s.handed, position);
      EstimateRoc(s.receiver, index % SEQ_MOD) == index / SEQ_MOD
  {
    if s.receiver.initialized { EstimateExact(s.receiver, w.start + Slot(s.handed, position)); }
  }

  /** A packet less than half a cycle from the highest index may always arrive. */
  lemma HalfCycleEnabled(w: World, s: System, position: nat)
    requires w.Valid() && position < |s.handed| && s.receiver.initialized && s.receiver.roc <= 0xFFFF
    requires -0x8000 < w.start + Slot(s.handed, position) - s.receiver.Highest() < 0x8000
    ensures Enabled(w, s, Deliver(position))
  {
    hide Slot;
  }

  /** A packet handed on never runs past the receiver's buffer. */
  lemma HandedFits(w: World, item: Handed, index: nat, st: RecvState)
    requires w.Valid() && Carries(w, item, index)
    ensures CopyFits(w.tagLen, st, item.packet)
  {
    hide Crypt, Tag, ReplayOk, Estimate;
  }

  /** What a delivery returns: the very RTP packet that was handed on, if its slot
      is fresh and its index has 32 bits. */
  function Verdict(w: World, s: System, log: seq<Delivery>, position: nat): Option<seq<byte>>
    requires position < |s.handed|
  {
    var slot := Slot(s.handed, position);
    if FreshSlot(log, slot) && w.start + slot < INDEX_MOD then Some(s.handed[position].rtp) else None
  }

  /** A delivery returns the verdict, and changes nothing if that is to refuse. */
  lemma DeliverStep(w: World, s: System, position: nat)
    requires w.Valid() && position < |s.handed| && Enabled(w, s, Deliver(position))
    requires Describes(s.receiver, Indices(w.start, s.log))
    requires Carries(w, s.handed[position], w.start + Slot(s.handed, position))
    ensures var s', verdict := Step(w, s, Deliver(position)), Verdict(w, s, s.log, position);
      && s'.log == s.log + [Delivery(position, Slot(s.handed, position), verdict)]
      && Describes(s'.receiver, Indices(w.start, s'.log))
      && (verdict.None? ==> s'.receiver == s.receiver)
  {
    hide Seal, Unprotect, Describes, EstimateRoc, ReplayOk, ReplayUpdate, Fresh, FreshSlot, Indices, Sendable, Slot;
    var slot, item := Slot(s.handed, position), s.handed[position];
    var index := w.start + slot;
    var roc, sn := index / SEQ_MOD, index % SEQ_MOD;
    EstimateIsRight(w, s, position);
    assert RocOf(index) == roc;
    UnsealSealed(w.c, w.k, w.tagLen, roc, item.rtp, s.receiver);
    if index < INDEX_MOD {
      assert Index(roc, sn) == index;
      ReplayCheckIsFreshness(s.receiver, Indices(w.start, s.log), index);
      FreshIsFreshSlot(w.start, s.log, slot);
    } else {
      OverflowingRocIsTooOld(s.receiver, Indices(w.start, s.log), sn);
    }
    if ReplayOk(s.receiver, Index(roc, sn)) {
      UpdateDescribes(s.receiver, Indices(w.start, s.log), sn);
      IndicesAppend(w.start, s.log, Delivery(position, slot, Some(item.rtp)));
    } else {
      IndicesAppend(w.start, s.log, Delivery(position, slot, None));
      assert Indices(w.start, s.log) + {} == Indices(w.start, s.log);
    }
  }

  // ------------------------------------------------------------- whole runs

  ghost predicate Invariant(w: World, s: System)
    requires w.Valid()
  {
    && SenderReady(w, s)
    && (forall p :: 0 <= p < |s.handed| ==> Carries(w, s.handed[p], w.start + Slot(s.handed, p)))
    && Describes(s.receiver, Indices(w.start, s.log))
    && forall j :: 0 <= j < |s.log| ==> LoggedRight(w, s, j)
  }

  /** Delivery `j` of a run returned the verdict of that moment. */
  predicate LoggedRight(w: World, s: System, j: nat)
    requires j < |s.log|
  {
    && s.log[j].packet < |s.handed| && s.log[j].slot == Slot(s.handed, s.log[j].packet)
    && s.log[j].result == Verdict(w, s, s.log[..j], s.log[j].packet)
  }

  lemma SendKeepsInvariant(w: World, s: System, e: Event)
    requires w.Valid() && Invariant(w, s) && e.Send? && Enabled(w, s, e)
    ensures Invariant(w, Step(w, s, e))
  {
    hide Step, Describes, Indices, SenderReady, Carries, LoggedRight, Slot;
    var s' := Step(w, s, e);
    SendStep(w, s, e);
    var more := s'.handed[|s.handed|..];
    assert s'.handed == s.handed + more;
    CarriesKept(w, s.handed, more);
    LoggedKept(w, s, s', more);
  }

  lemma CarriesKept(w: World, handed: seq<Handed>, more: seq<Handed>)
    requires w.Valid() && |more| <= 1
    requires forall p :: 0 <= p < |handed| ==> Carries(w, handed[p], w.start + Slot(handed, p))
    requires |more| == 1 ==> Carries(w, more[0], w.start + Slot(handed, |handed|))
    ensures var all := handed + more;
      forall p :: 0 <= p < |all| ==> Carries(w, all[p], w.start + Slot(all, p))
  {
    hide Carries, Slot;
    var all := handed + more;
    forall p | 0 <= p < |all| ensures Carries(w, all[p], w.start + Slot(all, p)) {
      SlotKept(handed, more, p);
    }
  }

  lemma LoggedKept(w: World, s: System, s': System, more: seq<Handed>)
    requires s'.handed == s.handed + more && s'.log == s.log
    requires forall j :: 0 <= j < |s.log| ==> LoggedRight(w, s, j)
    ensures forall j :: 0 <= j < |s'.log| ==> LoggedRight(w, s', j)
  {
    hide Slot, FreshSlot;
    forall j | 0 <= j < |s'.log| ensures LoggedRight(w, s', j) {
      assert LoggedRight(w, s, j);
      SlotKept(s.handed, more, s.log[j].packet);
    }
  }

  lemma DeliverKeepsInvariant(w: World, s: System, position: nat)
    requires w.Valid() && Invariant(w, s) && Enabled(w, s, Deliver(position))
    ensures Invariant(w, Step(w, s, Deliver(position)))
  {
    hide Unprotect, Describes, Indices, Carries, FreshSlot, Slot;
    var s' := Step(w, s, Deliver(position));
    DeliverStep(w, s, position);
    forall j | 0 <= j < |s'.log| ensures LoggedRight(w, s', j) {
      if j < |s.log| {
        assert LoggedRight(w, s, j);
        assert s'.log[..j] == s.log[..j];
      } else {
        assert s'.log[..j] == s.log;
      }
    }
  }

  /** What does not carry a valid tag for a fresh index changes nothing at all. */
  lemma InjectChangesNothing(w: World, s: System, packet: seq<byte>)
    requires w.Valid() && Enabled(w, s, Inject(packet))
    ensures Step(w, s, Inject(packet)) == s
  {
    hide Authentic;
  }

  lemma StepKeepsInvariant(w: World, s: System, e: Event)
    requires w.Valid() && Invariant(w, s) && Enabled(w, s, e)
    ensures Invariant(w, Step(w, s, e))
  {
    hide Invariant, Step, Enabled;
    match e
    case Send(_, _, _, _) => SendKeepsInvariant(w, s, e);
    case Deliver(position) => DeliverKeepsInvariant(w, s, position);
    case Inject(packet) => InjectChangesNothing(w, s, packet);
  }

  lemma {:induction false} RunKeepsInvariant(w: World, events: seq<Event>)
    requires w.Valid() && Run(w, events).Some?
    ensures Invariant(w, Run(w, events).value)
    decreases |events|
  {
    hide Step, Enabled;
    if |events| == 0 {
      assert Indices(w.start, []) == {};
    } else {
      var n := |events| - 1;
      RunKeepsInvariant(w, events[..n]);
      StepKeepsInvariant(w, Run(w, events[..n]).value, events[n]);
    }
  }

  /** Every packet handed on carries the index start + k, where k packets were
      taken before it, however many attempts failed in between. */
  lemma SenderIndices(w: World, events: seq<Event>, s: System, position: nat)
    requires w.Valid() && Run(w, events) == Some(s) && position < |s.handed|
    ensures Carries(w, s.handed[position], w.start + Slot(s.handed, position))
  {
    hide Carries, SenderReady, Describes, LoggedRight, Step, Enabled;
    RunKeepsInvariant(w, events);
  }

  /** In every run: each delivery returns either nothing or exactly the RTP
      packet that was handed on, and does so exactly when its index is below 2^32,
      no packet of that index was accepted before and nothing accepted is 64 or
      more ahead. */
  lemma EndToEnd(w: World, events: seq<Event>, s: System, j: nat)
    requires w.Valid() && Run(w, events) == Some(s) && j < |s.log|
    ensures LoggedRight(w, s, j)
  {
    hide Carries, SenderReady, Describes, LoggedRight, Step, Enabled;
    RunKeepsInvariant(w, events);
  }

  /** From index 2^32 on everything is refused. */
  lemma NothingBeyond(w: World, events: seq<Event>, s: System, j: nat)
    requires w.Valid() && Run(w, events) == Some(s) && j < |s.log| && w.start + s.log[j].slot >= INDEX_MOD
    ensures s.log[j].result == None
  {
    EndToEnd(w, events, s, j);
  }

  /** No index is ever accepted twice, so no packet is, and of a packet and its
      retries at most one. */
  lemma AcceptedOnce(w: World, events: seq<Event>, s: System, i: nat, j: nat)
    requires w.Valid() && Run(w, events) == Some(s) && i < j < |s.log|
    requires s.log[i].result.Some? && s.log[j].result.Some?
    ensures s.log[i].slot != s.log[j].slot && s.log[i].packet != s.log[j].packet
  {
    EndToEnd(w, events, s, i);
    EndToEnd(w, events, s, j);
    assert s.log[..j][i] == s.log[i];
  }

  // -------------------------------------------------------------- keystream

  lemma CarriedLength(w: World, item: Handed, index: nat)
    requires w.Valid() && Carries(w, item, index)
    ensures |item.rtp| <= MAX_PACKET
  {
    hide Seal;
  }

  /** The counter block that block `n` of a packet handed on is encrypted with. */
  function BlockOf(w: World, s: System, p: nat, n: nat): Block
    requires p < |s.handed|
  {
    CounterBlock(Iv(w.k.salt, w.stream.ssrc, (w.start + Slot(s.handed, p)) % INDEX_MOD), n)
  }

  /** Its number is the initial counter of RFC 3711 plus `n`. */
  lemma BlockOfCounts(w: World, s: System, p: nat, n: nat)
    requires p < |s.handed| && n < 0x1_0000
    ensures BeNat(BlockOf(w, s, p, n))
         == RfcCounter(w.k.salt, w.stream.ssrc, (w.start + Slot(s.handed, p)) % 0x1_0000_0000) + n
  {
    hide BeNat, Iv, CounterBlock, RfcCounter, Slot;
    var index := (w.start + Slot(s.handed, p)) % INDEX_MOD;
    IvCounts(w.k.salt, w.stream.ssrc, index);
    CounterCounts(w.k.salt, w.stream.ssrc, index, n);
  }

  /** These are the blocks the packets of a run are encrypted with: payload byte i
      is xored with byte i mod 16 of AES of block i / 16. */
  lemma HandedBytes(w: World, events: seq<Event>, s: System, p: nat, i: nat)
    requires w.Valid() && Run(w, events) == Some(s) && p < |s.handed|
    requires var rtp := s.handed[p].rtp;
      |rtp| >= 12 && SrtpHeaderLength(rtp).Some? && SrtpHeaderLength(rtp).value <= i < |rtp|
    ensures var rtp := s.handed[p].rtp;
      var j := i - SrtpHeaderLength(rtp).value;
      i < |s.handed[p].packet|
      && s.handed[p].packet[i] == Bits.Xor(rtp[i], w.c.aes(w.k.key, BlockOf(w, s, p, j / 16))[j % 16])
  {
    hide Run, BlockOf, RfcCounter, Seal, Slot, BeNat, SrtpHeaderLength;
    var rtp, index := s.handed[p].rtp, w.start + Slot(s.handed, p);
    var j := i - SrtpHeaderLength(rtp).value;
    SenderIndices(w, events, s, p);
    CarriedLength(w, s.handed[p], index);
    EncryptedIndex(w, s.handed[p], index);
    Word32Bytes(rtp[8..12]);
    BlockOfCounts(w, s, p, j / 16);
    SealedBytes(w.c, w.k, w.tagLen, RocOf(index), rtp, i, BlockOf(w, s, p, j / 16));
  }

  lemma SameIndexModulo(a: nat, b: nat)
    requires a <= b
    ensures a % INDEX_MOD == b % INDEX_MOD <==> (b - a) % INDEX_MOD == 0
  {
  }

  /** In every run, however long, two packets handed on share a counter block
      exactly when the block numbers agree and the number of packets taken from
      the first up to the second is a multiple of 2^32.  A packet has at most 128
      blocks. */
  lemma SharedCounterBlock(w: World, events: seq<Event>, s: System, p: nat, n: nat, q: nat, n': nat)
    requires w.Valid() && Run(w, events) == Some(s) && p <= q < |s.handed|
    requires n * 16 < |s.handed[p].rtp| && n' * 16 < |s.handed[q].rtp|
    ensures Slot(s.handed, p) <= Slot(s.handed, q)
    ensures BlockOf(w, s, p, n) == BlockOf(w, s, q, n')
       <==> n == n' && (Slot(s.handed, q) - Slot(s.handed, p)) % INDEX_MOD == 0
  {
    hide CounterBlock, Iv, Carries, Run, Slot;
    SenderIndices(w, events, s, p);
    SenderIndices(w, events, s, q);
    var i, j := w.start + Slot(s.handed, p), w.start + Slot(s.handed, q);
    CarriedLength(w, s.handed[p], i);
    CarriedLength(w, s.handed[q], j);
    SharedSlot(s.handed, p, q);
    SameIndexModulo(i, j);
    if BlockOf(w, s, p, n) == BlockOf(w, s, q, n') {
      CounterBlocksDistinct(w.k.salt, w.stream.ssrc, i % INDEX_MOD, n, w.stream.ssrc, j % INDEX_MOD, n');
    }
  }

  /** With fewer than 2^32 packets taken in between, they share a block exactly
      when none was: the second is a retry, with whatever payload. */
  lemma SharedByRetry(w: World, events: seq<Event>, s: System, p: nat, n: nat, q: nat, n': nat)
    requires w.Valid() && Run(w, events) == Some(s) && p <= q < |s.handed|
    requires Slot(s.handed, q) - Slot(s.handed, p) < INDEX_MOD
    requires n * 16 < |s.handed[p].rtp| && n' * 16 < |s.handed[q].rtp|
    ensures BlockOf(w, s, p, n) == BlockOf(w, s, q, n') <==> n == n' && forall i :: p <= i < q ==> !s.handed[i].taken
  {
    hide BlockOf, Run, Slot;
    SharedCounterBlock(w, events, s, p, n, q, n');
    SharedSlot(s.handed, p, q);
  }

  /** Among fewer than 2^32 packets that the inner transport took, no counter
      block is used twice. */
  lemma KeystreamNeverReused(w: World, events: seq<Event>, s: System, p: nat, n: nat, q: nat, n': nat)
    requires w.Valid() && Run(w, events) == Some(s) && p <= q < |s.handed|
    requires Slot(s.handed, q) - Slot(s.handed, p) < INDEX_MOD
    requires s.handed[p].taken && s.handed[q].taken && (p != q || n != n')
    requires n * 16 < |s.handed[p].rtp| && n' * 16 < |s.handed[q].rtp|
    ensures BlockOf(w, s, p, n) != BlockOf(w, s, q, n')
  {
    hide BlockOf, Run, Slot;
    SharedByRetry(w, events, s, p, n, q, n');
  }

  // ----------------------------------------------------------------- examples

  lemma RunStep(w: World, events: seq<Event>, e: Event)
    requires w.Valid() && Run(w, events).Some? && Enabled(w, Run(w, events).value, e)
    ensures Run(w, events + [e]) == Some(Step(w, Run(w, events).value, e))
  {
    hide Step, Enabled;
    assert (events + [e])[..|events|] == events;
  }

  /** The send has room for tag and header under the largest packet. */
  predicate Fits(w: World, e: Event)
    requires w.Valid() && e.Send?
  {
    |Packet(w.stream, w.start, e.marker, e.timestamp, e.body)| <= 2048 - w.tagLen
  }

  lemma SendFirst(w: World, s: System, e: Event)
    requires w.Valid() && e.Send? && Fits(w, e) && s.seqNum == w.start
    ensures var s' := Step(w, s, e);
      && |s'.handed| == |s.handed| + 1 && s'.handed[..|s.handed|] == s.handed
      && s'.seqNum == (if e.linkOk then (w.start + 1) % SEQ_MOD else w.start)
      && s'.receiver == s.receiver && s'.log == s.log
      && s'.handed[|s.handed|].rtp == Packet(w.stream, w.start, e.marker, e.timestamp, e.body)
      && s'.handed[|s.handed|].taken == e.linkOk
  {
    hide Packet, Seal, Roll, Open, SequenceOf, SsrcOf;
    PacketFields(w.stream, w.start, e.marker, e.timestamp, e.body);
  }

  lemma OnlyAccepted(w: World, log: seq<Delivery>)
    requires |log| == 1 && log[0].slot == 0 && log[0].result.Some?
    ensures Indices(w.start, log) == {w.start as nat}
  {
    IndicesAppend(w.start, [], log[0]);
    assert Indices(w.start, []) == {};
    assert [] + [log[0]] == log;
  }

  /** From any first sequence number, a packet that fits is accepted when it
      arrives, and refused when it arrives again. */
  lemma FirstPacketArrives(w: World, e: Event)
    requires w.Valid() && e.Send? && Fits(w, e)
    ensures var rtp := Packet(w.stream, w.start, e.marker, e.timestamp, e.body);
      var r := Run(w, [e, Deliver(0), Deliver(0)]);
      r.Some? && r.value.log == [Delivery(0, 0, Some(rtp)), Delivery(0, 0, None)]
  {
    hide Packet, Step, Carries, SenderReady, Indices, Fits;
    var once, twice := [e], [e] + [Deliver(0)];
    assert [] + once == once && twice == [e, Deliver(0)] && twice + [Deliver(0)] == [e, Deliver(0), Deliver(0)];
    RunStep(w, [], e);
    SendFirst(w, Init(w), e);
    var s1 := Step(w, Init(w), e);
    RunKeepsInvariant(w, once);
    RunStep(w, once, Deliver(0));
    DeliverStep(w, s1, 0);
    var s2 := Step(w, s1, Deliver(0));
    DeliverKeepsSender(w, s1, 0);
    RunKeepsInvariant(w, twice);
    OnlyAccepted(w, s2.log);
    RunStep(w, twice, Deliver(0));
    DeliverStep(w, s2, 0);
  }

  lemma DeliverKeepsSender(w: World, s: System, position: nat)
    requires w.Valid() && position < |s.handed|
    ensures Step(w, s, Deliver(position)).handed == s.handed
  {
    hide Unprotect;
  }

  /** A refused packet and the next one, with any two payloads, are encrypted
      with the same counter blocks. */
  lemma RetrySharesBlocks(w: World, e: Event, e': Event)
    requires w.Valid() && e.Send? && e'.Send? && !e.linkOk && Fits(w, e) && Fits(w, e')
    ensures var r := Run(w, [e, e']);
      && r.Some? && var h := r.value.handed;
      && |h| == 2 && h[0].rtp == Packet(w.stream, w.start, e.marker, e.timestamp, e.body)
      && h[1].rtp == Packet(w.stream, w.start, e'.marker, e'.timestamp, e'.body)
      && Slot(h, 0) == Slot(h, 1) == 0
      && forall n: nat :: BlockOf(w, r.value, 0, n) == BlockOf(w, r.value, 1, n)
  {
    hide Packet, Step, Fits, CounterBlock, Iv;
    assert [] + [e] == [e] && [e] + [e'] == [e, e'];
    RunStep(w, [], e);
    SendFirst(w, Init(w), e);
    var s1 := Step(w, Init(w), e);
    assert Slot(s1.handed, 1) == Slot(s1.handed, 0) == 0;
    RunStep(w, [e], e');
    SendFirst(w, s1, e');
    var s2 := Step(w, s1, e');
    assert s2.handed[0] == s2.handed[..1][0];
    assert Slot(s2.handed, 1) == Slot(s2.handed, 0) == 0;
  }
}
