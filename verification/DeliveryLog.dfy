/** A record of what a receiver did with packets the network handed to it, in
    any order and any number of times. */
module DeliveryLog {
  import opened Bytes
  import opened SrtpReceiver

  /** One call of unprotect: which packet of the sender it was given, how far the
      index of that packet is from the first one, and what the call returned. */
  datatype Delivery = Delivery(packet: nat, slot: nat, result: Option<seq<byte>>)

  /** A packet is accepted when its slot was not accepted before and no accepted
      slot is 64 or more ahead of it. */
  predicate FreshSlot(log: seq<Delivery>, slot: nat) {
    forall j :: 0 <= j < |log| && log[j].result.Some? ==>
      log[j].slot != slot && log[j].slot < slot + 64
  }

  ghost function Indices(start: nat, log: seq<Delivery>): set<nat> {
    set j | 0 <= j < |log| && log[j].result.Some? :: start + log[j].slot
  }

  lemma FreshIsFreshSlot(start: nat, log: seq<Delivery>, slot: nat)
    ensures Fresh(Indices(start, log), start + slot) <==> FreshSlot(log, slot)
  {
    if Fresh(Indices(start, log), start + slot) {
      forall j | 0 <= j < |log| && log[j].result.Some?
        ensures log[j].slot != slot && log[j].slot < slot + 64
      {
        assert start + log[j].slot in Indices(start, log);
      }
    }
  }

  lemma IndicesAppend(start: nat, log: seq<Delivery>, d: Delivery)
    ensures Indices(start, log + [d]) == Indices(start, log) + if d.result.Some? then {start + d.slot} else {}
  {
    var log' := log + [d];
    forall i | i in Indices(start, log) ensures i in Indices(start, log') {
      var j :| 0 <= j < |log| && log[j].result.Some? && i == start + log[j].slot;
      assert log'[j] == log[j];
    }
    if d.result.Some? { assert log'[|log|] == d; }
  }
}
