/** dtc_mem.c: the bounded store of trouble codes, and the record format of the 0x19 02 report. */
module Dtc {
  import opened Bytes
  import opened Sequences

  const DTC_MAX := 16
  const CODE_RANGE := 0x100_0000 // codes are masked to 24 bits
  const AVAILABILITY_MASK: byte := 0x29

  datatype Entry = Entry(code: word, status: byte)

  predicate Matches(e: Entry, mask: byte) {
    And(e.status, mask) != 0
  }

  /** Some bit is set in both octets. */
  predicate ShareBit(a: byte, b: byte) {
    exists i :: 0 <= i < 8 && Bit(a, i) && Bit(b, i)
  }

  /** What the mask test is about. */
  lemma {:induction false} MatchesExact(e: Entry, mask: byte)
    ensures Matches(e, mask) <==> ShareBit(e.status, mask)
  {
    var both := And(e.status, mask);
    assert Pow2(8) == 0x100;
    AndBounded(e.status, mask, 8);
    if both == 0 {
      forall i | 0 <= i < 8
        ensures !(Bit(e.status, i) && Bit(mask, i))
      {
        AndBit(e.status, mask, i);
        NoBits(i);
      }
    } else {
      var i := SomeBit(both, 8);
      AndBit(e.status, mask, i);
    }
  }

  /** The entries whose status shares a bit with the mask, in store order. */
  function Filter(store: seq<Entry>, mask: byte): (r: seq<Entry>)
    ensures |r| <= |store|
  {
    if store == [] then []
    else (if Matches(store[0], mask) then [store[0]] else []) + Filter(store[1..], mask)
  }

  /** Positions of the store, strictly increasing, and exactly those whose status shares a bit with the mask. */
  ghost predicate Selects(store: seq<Entry>, mask: byte, at: seq<nat>) {
    && (forall k :: 0 <= k < |at| ==> at[k] < |store|)
    && (forall k, l :: 0 <= k < l < |at| ==> at[k] < at[l])
    && (forall j :: 0 <= j < |store| ==> (j in at <==> ShareBit(store[j].status, mask)))
  }

  /** The entries at these positions. */
  ghost predicate Picks(store: seq<Entry>, at: seq<nat>, es: seq<Entry>) {
    |at| == |es| && forall k :: 0 <= k < |at| ==> at[k] < |store| && es[k] == store[at[k]]
  }

  /** The filter takes the selected entries, in store order, and nothing else. */
  lemma {:induction false} FilterSelects(store: seq<Entry>, mask: byte) returns (at: seq<nat>)
    ensures Selects(store, mask, at) && Picks(store, at, Filter(store, mask))
  {
    at := [];
    if store != [] {
      LastOf(store);
      at := FilterSelects(store[..|store| - 1], mask);
      at := SelectNext(store[..|store| - 1], store[|store| - 1], mask, at);
    }
  }

  lemma {:induction false} SelectNext(init: seq<Entry>, last: Entry, mask: byte, before: seq<nat>) returns (at: seq<nat>)
    requires Selects(init, mask, before) && Picks(init, before, Filter(init, mask))
    ensures Selects(init + [last], mask, at) && Picks(init + [last], at, Filter(init + [last], mask))
  {
    FilterLast(init, last, mask);
    SelectsExtends(init, last, mask, before);
    PicksExtends(init, last, before, Filter(init, mask));
    at := if ShareBit(last.status, mask) then before + [|init|] else before;
    assert Filter(init, mask) + [] == Filter(init, mask);
  }

  lemma {:induction false} FilterLast(init: seq<Entry>, last: Entry, mask: byte)
    ensures Filter(init + [last], mask) == Filter(init, mask) + if ShareBit(last.status, mask) then [last] else []
  {
    FilterAppend(init, [last], mask);
    assert [last][1..] == [];
    MatchesExact(last, mask);
  }

  lemma {:induction false} PicksExtends(init: seq<Entry>, last: Entry, at: seq<nat>, es: seq<Entry>)
    requires Picks(init, at, es)
    ensures Picks(init + [last], at, es) && Picks(init + [last], at + [|init|], es + [last])
  {
  }

  lemma {:induction false} SelectsExtends(init: seq<Entry>, last: Entry, mask: byte, at: seq<nat>)
    requires Selects(init, mask, at)
    ensures Selects(init + [last], mask, if ShareBit(last.status, mask) then at + [|init|] else at)
  {
    var store := init + [last];
    var at' := if ShareBit(last.status, mask) then at + [|init|] else at;
    forall j | 0 <= j < |store|
      ensures j in at' <==> ShareBit(store[j].status, mask)
    {
      if j < |init| {
        assert store[j] == init[j];
        assert j in at' <==> j in at;
      } else {
        assert j !in at;
      }
    }
  }

  lemma {:induction false} FilterAppend(a: seq<Entry>, b: seq<Entry>, mask: byte)
    ensures Filter(a + b, mask) == Filter(a, mask) + Filter(b, mask)
  {
    if a == [] {
      assert a + b == b;
    } else {
      assert (a + b)[0] == a[0] && (a + b)[1..] == a[1..] + b;
      FilterAppend(a[1..], b, mask);
      var head := if Matches(a[0], mask) then [a[0]] else [];
      assert head + (Filter(a[1..], mask) + Filter(b, mask)) == (head + Filter(a[1..], mask)) + Filter(b, mask);
    }
  }

  function Add(store: seq<Entry>, code: word, status: byte): seq<Entry> {
    if |store| < DTC_MAX then store + [Entry(code % CODE_RANGE, status)] else store
  }

  /** Up to sixteen entries are kept, oldest first, with the low three octets of the code; nothing is overwritten. */
  lemma {:induction false} AddExact(store: seq<Entry>, code: word, status: byte)
    ensures var r := Add(store, code, status);
            && store <= r && (|store| < 16 <==> |r| == |store| + 1)
            && (|store| < 16 ==> r[|store|].status == status && r[|store|].code as int == code as int % 0x100_0000)
            && (|store| >= 16 ==> r == store)
  {
  }

  ghost predicate CodesOk(es: seq<Entry>) {
    forall i :: 0 <= i < |es| ==> es[i].code < CODE_RANGE
  }

  ghost predicate StoreOk(store: seq<Entry>) {
    |store| <= DTC_MAX && CodesOk(store)
  }

  // ---------- the report ----------

  /** Three big-endian code bytes and the status byte. */
  function EncodeEntry(e: Entry): (r: seq<byte>)
    ensures |r| == 4
  {
    [e.code / 0x1_0000 % 0x100, e.code / 0x100 % 0x100, e.code % 0x100, e.status]
  }

  function Encode(es: seq<Entry>): (r: seq<byte>)
    ensures |r| == 4 * |es|
  {
    if es == [] then [] else EncodeEntry(es[0]) + Encode(es[1..])
  }

  function DecodeEntry(r: seq<byte>): Entry
    requires |r| == 4
  {
    Entry(r[0] as int * 0x1_0000 + Read16(r[1], r[2]), r[3])
  }

  /** A tester's reading of a report body. */
  function Decode(r: seq<byte>): seq<Entry>
    requires |r| % 4 == 0
  {
    if r == [] then [] else [DecodeEntry(r[..4])] + Decode(r[4..])
  }

  lemma {:induction false} EntryRoundTrip(e: Entry)
    requires e.code < CODE_RANGE
    ensures DecodeEntry(EncodeEntry(e)) == e
  {
    var hi, lo := e.code as int / 0x100, e.code as int % 0x100;
    assert e.code as int / 0x1_0000 == hi / 0x100;
  }

  lemma {:induction false} ReportRoundTrip(es: seq<Entry>)
    requires CodesOk(es)
    ensures Decode(Encode(es)) == es
  {
    if es != [] {
      EntryRoundTrip(es[0]);
      var r := Encode(es);
      assert r[..4] == EncodeEntry(es[0]) && r[4..] == Encode(es[1..]);
      ReportRoundTrip(es[1..]);
    }
  }

  lemma {:induction false} FilterOk(store: seq<Entry>, mask: byte)
    requires CodesOk(store)
    ensures CodesOk(Filter(store, mask))
  {
    if store != [] {
      FilterOk(store[1..], mask);
      assert CodesOk([store[0]]);
    }
  }

  lemma {:induction false} EncodeAppend(a: seq<Entry>, b: seq<Entry>)
    ensures Encode(a + b) == Encode(a) + Encode(b)
  {
    if a == [] {
      assert a + b == b;
    } else {
      assert (a + b)[0] == a[0] && (a + b)[1..] == a[1..] + b;
      EncodeAppend(a[1..], b);
    }
  }

  // ---------- the store ----------

  class DtcMem {
    const entries: array<Entry>
    var count: nat

    ghost predicate Valid()
      reads this, entries
    {
      entries.Length == DTC_MAX && count <= DTC_MAX && StoreOk(entries[..count])
    }

    ghost function View(): seq<Entry>
      reads this, entries
      requires Valid()
    {
      entries[..count]
    }

    constructor ()
      ensures Valid() && View() == [] && fresh(entries)
    {
      entries := new Entry[DTC_MAX](i => Entry(0, 0));
      count := 0;
    }

    method Append(code: word, status: byte) returns (ok: bool)
      requires Valid()
      modifies this, entries
      ensures Valid() && View() == Add(old(View()), code, status)
      ensures ok <==> |old(View())| < DTC_MAX
    {
      ok := count < DTC_MAX;
      if ok {
        ghost var before := entries[..count];
        entries[count] := Entry(code % CODE_RANGE, status);
        count := count + 1;
        assert entries[..count] == before + [Entry(code % CODE_RANGE, status)];
      }
    }

    method ClearAll() returns (n: nat)
      requires Valid()
      modifies this, entries
      ensures Valid() && View() == [] && n == |old(View())|
    {
      n := count;
      count := 0;
      forall i | 0 <= i < DTC_MAX {
        entries[i] := Entry(0, 0);
      }
    }

    /** Copies the first `out.Length` matching entries, in store order. */
    method SnapshotByMask(mask: byte, out: array<Entry>) returns (written: nat)
      requires Valid() && out != entries
      modifies out
      ensures View() == old(View())
      ensures written == Min(|Filter(View(), mask)|, out.Length)
      ensures out[..written] == Filter(View(), mask)[..written]
    {
      written := 0;
      var i := 0;
      while i < count && written < out.Length
        invariant i <= count && written <= out.Length
        invariant entries[..] == old(entries[..])
        invariant out[..written] == Filter(entries[..i], mask)
      {
        assert entries[..i + 1] == entries[..i] + [entries[i]];
        FilterAppend(entries[..i], [entries[i]], mask);
        if And(entries[i].status, mask) != 0 {
          out[written] := entries[i];
          written := written + 1;
        }
        i := i + 1;
      }
      assert entries[..count] == entries[..i] + entries[i..count];
      FilterAppend(entries[..i], entries[i..count], mask);
    }
  }
}
