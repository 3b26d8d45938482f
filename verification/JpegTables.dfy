/** Cutting the table data of a frame into quantization tables again.  Section
    3.1.8 of RFC 2435 gives the rightmost precision bit to the first table, the
    next bit to the second and so on; the sender sets the bit of the table's id. */
module JpegTables {
  import opened Bits
  import opened Bytes
  import opened JpegFrame

  /** A receiver's reading of the table data, one precision bit after the other. */
  function SplitTables(precision: nat, data: seq<byte>): Option<seq<seq<byte>>>
    decreases |data|
  {
    if |data| == 0 then Some([])
    else
      var n := if precision % 2 == 1 then 128 else 64;
      if |data| < n then None
      else
        match SplitTables(precision / 2, data[n..])
        case None => None
        case Some(rest) => Some([data[..n]] + rest)
  }

  predicate AllValid(ts: seq<Table>) { forall i :: 0 <= i < |ts| ==> ts[i].Valid() }

  /** The entries of each table. */
  function Contents(ts: seq<Table>): seq<seq<byte>> {
    seq(|ts|, i requires 0 <= i < |ts| => ts[i].entries)
  }

  /** Bit `i` says whether table `i` is wide. */
  predicate BitsMatch(precision: nat, ts: seq<Table>) {
    forall i :: 0 <= i < |ts| ==> (Bit(precision, i) <==> ts[i].wide != 0)
  }

  lemma BitsMatchStep(precision: nat, ts: seq<Table>)
    requires |ts| > 0
    ensures BitsMatch(precision, ts) <==> (precision % 2 == 1 <==> ts[0].wide != 0) && BitsMatch(precision / 2, ts[1..])
  {
    if BitsMatch(precision, ts) {
      assert Bit(precision, 0) <==> ts[0].wide != 0;
      forall i | 0 <= i < |ts[1..]| ensures Bit(precision / 2, i) <==> ts[1..][i].wide != 0 {
        assert Bit(precision, i + 1) <==> ts[i + 1].wide != 0;
      }
    }
    if (precision % 2 == 1 <==> ts[0].wide != 0) && BitsMatch(precision / 2, ts[1..]) {
      forall i | 0 <= i < |ts| ensures Bit(precision, i) <==> ts[i].wide != 0 {
        if i > 0 { assert Bit(precision / 2, i - 1) <==> ts[1..][i - 1].wide != 0; }
      }
    }
  }

  lemma SplitStep(precision: nat, t: Table, data: seq<byte>)
    requires t.Valid() && (precision % 2 == 1 <==> t.wide != 0)
    ensures SplitTables(precision, t.entries + data)
         == match SplitTables(precision / 2, data) case None => None case Some(rest) => Some([t.entries] + rest)
  {
    var all, n := t.entries + data, |t.entries|;
    assert all[..n] == t.entries && all[n..] == data;
  }

  /** The first table of a split tells the first precision bit. */
  lemma SplitFirst(precision: nat, data: seq<byte>)
    requires |data| > 0 && SplitTables(precision, data).Some?
    ensures var r := SplitTables(precision, data).value;
      |r| > 0 && |r[0]| == if precision % 2 == 1 then 128 else 64
  {
  }

  /** Reading by position gives the tables back exactly when every bit matches
      the table at its position. */
  lemma {:induction false} SplitExactly(precision: nat, ts: seq<Table>)
    requires AllValid(ts)
    ensures SplitTables(precision, Entries(ts)) == Some(Contents(ts)) <==> BitsMatch(precision, ts)
    decreases |ts|
  {
    if |ts| == 0 {
      assert Contents(ts) == [];
    } else {
      var t, rest := ts[0], ts[1..];
      assert Contents(ts) == [t.entries] + Contents(rest);
      BitsMatchStep(precision, ts);
      if precision % 2 == 1 <==> t.wide != 0 {
        SplitStep(precision, t, Entries(rest));
        SplitExactly(precision / 2, rest);
        hide SplitTables, Contents, BitsMatch;
        TailsAgree(t.entries, SplitTables(precision / 2, Entries(rest)), Contents(rest));
      } else if SplitTables(precision, Entries(ts)) == Some(Contents(ts)) {
        SplitFirst(precision, Entries(ts));
        assert false;
      }
    }
  }

  lemma TailsAgree<T(!new)>(x: T, r: Option<seq<T>>, rest: seq<T>)
    ensures (match r case None => None case Some(s) => Some([x] + s)) == Some([x] + rest) <==> r == Some(rest)
  {
    if r.Some? && [x] + r.value == [x] + rest {
      assert r.value == ([x] + r.value)[1..] == ([x] + rest)[1..] == rest;
    }
  }

  // ------------------------------------------------------- the bits that are set

  lemma MarkWideBit(precision: byte, pq: nat, tq: nat, i: nat)
    ensures Bit(MarkWide(precision, pq, tq), i) <==> Bit(precision, i) || (pq != 0 && tq < 8 && i == tq)
  {
    if pq != 0 && tq < 8 {
      BitOr(precision, Pow2(tq), i);
      BitPow2(tq, i);
    }
  }

  /** Bit `i` is set exactly if it was before or some wide table has id `i`. */
  lemma {:induction false} MarkAllBit(precision: byte, ts: seq<Table>, i: nat)
    requires i < 8
    ensures Bit(MarkAll(precision, ts), i) <==>
      Bit(precision, i) || exists j :: 0 <= j < |ts| && ts[j].wide != 0 && ts[j].id == i
    decreases |ts|
  {
    if |ts| > 0 {
      var p := MarkWide(precision, ts[0].wide, ts[0].id);
      MarkWideBit(precision, ts[0].wide, ts[0].id, i);
      MarkAllBit(p, ts[1..], i);
      hide Bit, MarkWide;
      if j :| 0 <= j < |ts[1..]| && ts[1..][j].wide != 0 && ts[1..][j].id == i {
        assert ts[j + 1] == ts[1..][j];
      }
      if j :| 0 <= j < |ts| && ts[j].wide != 0 && ts[j].id == i {
        if j > 0 { assert ts[1..][j - 1] == ts[j]; }
      }
    }
  }

  /** A table at position i is wide exactly if some wide table has id i. */
  predicate WideInPlace(ts: seq<Table>) {
    forall i :: 0 <= i < |ts| ==>
      (ts[i].wide != 0 <==> exists j :: 0 <= j < |ts| && ts[j].wide != 0 && ts[j].id == i)
  }

  lemma {:induction false} ManyEntries(ts: seq<Table>)
    requires AllValid(ts)
    ensures |Entries(ts)| >= 64 * |ts|
    decreases |ts|
  {
    if |ts| > 0 { ManyEntries(ts[1..]); }
  }

  /** Of at most 512 bytes of tables, a receiver recovers every table in order
      exactly when the wide ones stand where their ids say. */
  lemma TablesRecovered(ts: seq<Table>)
    requires AllValid(ts) && |Entries(ts)| <= MAX_TABLES
    ensures SplitTables(MarkAll(0, ts), Entries(ts)) == Some(Contents(ts)) <==> WideInPlace(ts)
  {
    ManyEntries(ts);
    SplitExactly(MarkAll(0, ts), ts);
    hide SplitTables, MarkAll, Contents, Entries, AllValid;
    forall i | 0 <= i < |ts|
      ensures Bit(MarkAll(0, ts), i) <==> exists j :: 0 <= j < |ts| && ts[j].wide != 0 && ts[j].id == i
    {
      MarkAllBit(0, ts, i);
      BitZero(i);
    }
  }

  /** Baseline frames have no wide table, so their tables are always recovered. */
  lemma NarrowInPlace(ts: seq<Table>)
    requires forall i :: 0 <= i < |ts| ==> ts[i].wide == 0
    ensures WideInPlace(ts)
  {
  }

  // ------------------------------------------------------------ whole frames

  /** The tables of all DQT segments, in order. */
  function TablesOf(es: seq<Element>): seq<Table> {
    if |es| == 0 then [] else OwnTables(es[0]) + TablesOf(es[1..])
  }

  function OwnTables(e: Element): seq<Table> { if e.Seg? && e.segment.Tables? then e.segment.tables else [] }

  lemma ElementTables(e: Element, info: Info)
    requires e.Valid()
    ensures e.Apply(info).tables == info.tables + Entries(OwnTables(e))
    ensures e.Apply(info).precision == MarkAll(info.precision, OwnTables(e))
  {
    EmptyTables(info.precision);
    hide Entries, MarkAll;
  }

  lemma {:induction false} EntriesAppend(a: seq<Table>, b: seq<Table>)
    ensures Entries(a + b) == Entries(a) + Entries(b)
    decreases |a|
  {
    if |a| == 0 {
      assert a + b == b;
    } else {
      assert (a + b)[1..] == a[1..] + b;
      EntriesAppend(a[1..], b);
    }
  }

  lemma {:induction false} MarkAllAppend(precision: byte, a: seq<Table>, b: seq<Table>)
    ensures MarkAll(precision, a + b) == MarkAll(MarkAll(precision, a), b)
    decreases |a|
  {
    hide MarkWide;
    if |a| == 0 {
      assert a + b == b;
    } else {
      assert (a + b)[1..] == a[1..] + b;
      MarkAllAppend(MarkWide(precision, a[0].wide, a[0].id), a[1..], b);
    }
  }

  /** What a frame says about tables is what its tables are. */
  lemma {:induction false} MeaningOfTables(es: seq<Element>, info: Info)
    requires Writable(es)
    ensures Meaning(es, info).tables == info.tables + Entries(TablesOf(es))
    ensures Meaning(es, info).precision == MarkAll(info.precision, TablesOf(es))
    decreases |es|
  {
    hide Entries, MarkAll, Element.Apply, OwnTables;
    EmptyTables(info.precision);
    if |es| > 0 {
      var ts, rest := OwnTables(es[0]), TablesOf(es[1..]);
      ElementTables(es[0], info);
      MeaningOfTables(es[1..], es[0].Apply(info));
      EntriesAppend(ts, rest);
      MarkAllAppend(info.precision, ts, rest);
      assert info.tables + Entries(ts) + Entries(rest) == info.tables + (Entries(ts) + Entries(rest));
    }
  }

  lemma EmptyTables(precision: byte)
    ensures Entries([]) == [] && MarkAll(precision, []) == precision
  {
  }

  lemma {:induction false} TablesValid(es: seq<Element>)
    requires Writable(es)
    ensures AllValid(TablesOf(es))
    decreases |es|
  {
    if |es| > 0 {
      assert es[0].Valid();
      TablesValid(es[1..]);
    }
  }

  /** The tables of any frame the sender accepts, as a receiver reads them. */
  lemma FrameTables(es: seq<Element>)
    requires Writable(es) && |Meaning(es, BLANK).tables| <= MAX_TABLES
    ensures var m, ts := Meaning(es, BLANK), TablesOf(es);
      SplitTables(m.precision, m.tables) == Some(Contents(ts)) <==> WideInPlace(ts)
  {
    hide Entries, MarkAll, SplitTables, Contents, WideInPlace, AllValid, TablesOf, Meaning;
    MeaningOfTables(es, BLANK);
    TablesValid(es);
    assert [] + Entries(TablesOf(es)) == Entries(TablesOf(es));
    TablesRecovered(TablesOf(es));
  }

  /** One 16-bit table with id 1: it is the first table, but bit 1 is set, and a
      receiver looks in vain for a second table. */
  lemma WideTableMisread()
    ensures var t := Table(1, 1, Zeros(128));
      var es := [Seg(0, Size(8, 16, 16, [(1, 0x11, 0)], [])), Seg(0, Tables([t]))];
      && Writable(es) && HasSize(es) && Meaning(es, BLANK).tables == Zeros(128) && Meaning(es, BLANK).precision == 2
      && SplitTables(2, Zeros(128)) == None
  {
    var t := Table(1, 1, Zeros(128));
    var size, tables := Seg(0, Size(8, 16, 16, [(1, 0x11, 0)], [])), Seg(0, Tables([t]));
    var es := [size, tables];
    OneTable(t);
    assert es[0] == size && size.segment.Size?;
    assert es[1..] == [tables] && es[1..][1..] == [];
    assert TablesOf([tables]) == [t] + [];
    assert TablesOf(es) == [] + TablesOf([tables]);
    MeaningOfTables(es, BLANK);
    assert MarkAll(0, [t]) == 2;
    SplitZeros();
  }

  lemma OneTable(t: Table)
    requires t.Valid()
    ensures Entries([t]) == t.entries && MarkAll(0, [t]) == MarkWide(0, t.wide, t.id) && TableBytes([t]) == t.Bytes()
  {
    assert [t][1..] == [];
  }

  lemma SplitZeros()
    ensures SplitTables(2, Zeros(128)) == None
  {
    assert Zeros(128)[64..] == Zeros(64);
    assert SplitTables(1, Zeros(64)) == None;
  }
}
