/** The frames octet by octet, as they are on the bus: what is sent, and how what is received is read. */
module IsoTpWire {
  import opened Bytes
  import opened IsoTp
  import IsoTpChannel

  /** The first two octets as one number. */
  function Head(f: Frame): int {
    f.data[0] as int * 0x100 + f.data[1] as int
  }

  /** Eight octets, 11 identifier bits. */
  predicate OnBus(f: Frame, id: nat) {
    f.canId == id % 0x800 && f.dlc == 8
  }

  /** Which frames start or continue something, by their first octets. */
  lemma {:induction false} ReadOctets(f: Frame, cap: nat, id: nat, n: nat)
    requires n < 16
    ensures GoodSf(cap, f) <==> 1 <= f.data[0] <= 7 && f.data[0] as int <= cap
    ensures GoodFf(cap, f) <==> 0x1008 <= Head(f) <= 0x1FFF && Head(f) - 0x1000 <= cap
    ensures GoodFf(cap, f) ==> f.FfLength() == Head(f) - 0x1000
    ensures f.Pci() == PCI_CF <==> 0x20 <= f.data[0] <= 0x2F
    ensures f.Pci() == PCI_CF && f.Low() == n <==> f.data[0] as int == 0x20 + n
    ensures f.Id() == id <==> f.canId % 0x800 == id
  {
  }

  /** How the sender reads an addressed frame while it waits for Flow Control. */
  lemma {:induction false} FlowOctet(id: nat, deadline: nat, ev: BusEvent)
    requires ev.Delivered? && ev.frame.canId % 0x800 == id
    ensures FcStep(id, deadline, ev) ==
            match ev.frame.data[0] case 0x30 => FcClear case 0x31 => FcWaiting case _ => FcFailed
  {
  }

  /** The Flow Control frame: clear to send, with no limit to the block and no separation time. */
  lemma {:induction false} FlowControlOctets(id: nat)
    ensures OnBus(FlowControl(id), id) && FlowControl(id).data == [0x30, 0, 0, 0, 0, 0, 0, 0]
  {
  }

  /** A short message is one frame: its length, its bytes, and zeros. */
  lemma {:induction false} ShortOctets(id: nat, data: seq<byte>)
    requires 1 <= |data| <= 7
    ensures |Segment(id, data)| == 1 && OnBus(Segment(id, data)[0], id)
    ensures var d := Segment(id, data)[0].data;
            && d[0] as int == |data|
            && d[1..1 + |data|] == data
            && forall i :: 1 + |data| <= i < 8 ==> d[i] == 0
  {
    assert Segment(id, data)[0].data == [|data|] + data + Zeros(7 - |data|);
  }

  /**
   * A long message: 1 and twelve bits of length, then frames headed 21, 22, ..., 2F, 20, 21, ...; the
   * bytes after the headers, one frame after the other, are the message and at most six zeros.
   */
  lemma {:induction false} LongOctets(id: nat, data: seq<byte>, k: nat)
    requires 8 <= |data| <= 4095 && k < |Segment(id, data)|
    ensures 6 + 7 * (|Segment(id, data)| - 2) < |data| <= 6 + 7 * (|Segment(id, data)| - 1)
    ensures OnBus(Segment(id, data)[k], id)
    ensures k == 0 ==> Head(Segment(id, data)[0]) == 0x1000 + |data| && Segment(id, data)[0].data[2..] == data[..6]
    ensures k > 0 ==> Segment(id, data)[k].data[0] as int == 0x20 + k % 16
    ensures k > 0 ==> forall j :: 1 <= j <= 7 ==>
              Segment(id, data)[k].data[j] == var i := 6 + 7 * (k - 1) + (j - 1); if i < |data| then data[i] else 0
  {
    var f := Segment(id, data)[k];
    if k == 0 {
      assert f.data[2..] == data[..6];
    } else {
      forall j | 1 <= j <= 7
        ensures f.data[j] == var i := 6 + 7 * (k - 1) + (j - 1); if i < |data| then data[i] else 0
      {
        var i := 6 + 7 * (k - 1) + (j - 1);
        assert (i - 6) / 7 == k - 1 && (i - 6) % 7 == j - 1;
        IsoTpChannel.SegmentByte(id, data, i);
      }
    }
  }
}
