/** queue.c: a bounded FIFO kept in a ring of slots; one method call is one pass of a critical section. */
module Queue {
  import opened Bytes

  const CAP := 8
  const MAX_MSG := 4095

  type Message = seq<byte>

  /** The queue as its users see it. */
  datatype Fifo = Fifo(items: seq<Message>, closed: bool)

  const EMPTY := Fifo([], false)

  predicate Acceptable(data: Message) {
    1 <= |data| <= MAX_MSG
  }

  /** How one pass ends: the thread waits on its condition, or the call returns -1 or 0. */
  datatype Attempt = Waits | Refused | Succeeded

  function PushAttempt(q: Fifo, data: Message): (Attempt, Fifo) {
    if !Acceptable(data) then (Refused, q)
    else if !q.closed && |q.items| == CAP then (Waits, q)
    else if q.closed then (Refused, q)
    else (Succeeded, q.(items := q.items + [data]))
  }

  function PopAttempt(q: Fifo): (Attempt, Fifo) {
    if !q.closed && q.items == [] then (Waits, q)
    else if q.items == [] then (Refused, q)
    else (Succeeded, q.(items := q.items[1..]))
  }

  // ---------- the ring ----------

  /** The `count` messages in the ring, oldest first. */
  function Ring(slots: seq<Message>, head: nat, count: nat): (r: seq<Message>)
    requires |slots| == CAP
    ensures |r| == count
  {
    seq(count, i requires 0 <= i < count => slots[(head + i) % CAP])
  }

  /** Up to CAP consecutive positions are different slots. */
  lemma {:induction false} SlotsApart(head: nat, i: nat, j: nat)
    requires head < CAP && i < j < CAP
    ensures (head + i) % CAP != (head + j) % CAP
  {
  }

  lemma {:induction false} NextSlot(head: nat, i: nat)
    ensures ((head + i) % CAP + 1) % CAP == (head + (i + 1)) % CAP
  {
    var q, r := (head + i) / CAP, (head + i) % CAP;
    assert head + (i + 1) == CAP * q + (r + 1);
  }

  /** Storing at the tail appends, as long as the ring is not full. */
  lemma {:induction false} RingPush(slots: seq<Message>, head: nat, count: nat, data: Message)
    requires |slots| == CAP && head < CAP && count < CAP
    ensures Ring(slots[(head + count) % CAP := data], head, count + 1) == Ring(slots, head, count) + [data]
    ensures ((head + count) % CAP + 1) % CAP == (head + (count + 1)) % CAP
  {
    var tail := (head + count) % CAP;
    var after := Ring(slots[tail := data], head, count + 1);
    forall i | 0 <= i < |after|
      ensures after[i] == (Ring(slots, head, count) + [data])[i]
    {
      if i < count {
        SlotsApart(head, i, count);
      }
    }
    NextSlot(head, count);
  }

  /** Moving the head on drops the oldest. */
  lemma {:induction false} RingPop(slots: seq<Message>, head: nat, count: nat)
    requires |slots| == CAP && head < CAP && 1 <= count <= CAP
    ensures Ring(slots, head, count)[0] == slots[head]
    ensures Ring(slots, (head + 1) % CAP, count - 1) == Ring(slots, head, count)[1..]
    ensures ((head + 1) % CAP + (count - 1)) % CAP == (head + count) % CAP
  {
    var after := Ring(slots, (head + 1) % CAP, count - 1);
    forall i | 0 <= i < |after|
      ensures after[i] == Ring(slots, head, count)[1..][i]
    {
      assert ((head + 1) % CAP + i) % CAP == (head + (i + 1)) % CAP;
    }
  }

  class UdsQueue {
    const slots: array<Message>
    var head: nat
    var tail: nat
    var count: nat
    var closed: bool

    ghost predicate Valid()
      reads this
    {
      slots.Length == CAP && head < CAP && count <= CAP && tail == (head + count) % CAP
    }

    ghost function View(): Fifo
      reads this, slots
      requires Valid()
    {
      Fifo(Ring(slots[..], head, count), closed)
    }

    constructor ()
      ensures Valid() && fresh(slots) && View() == EMPTY
    {
      slots := new Message[CAP](i => []);
      head, tail, count, closed := 0, 0, 0, false;
    }

    method Shutdown()
      requires Valid()
      modifies this
      ensures Valid() && View() == old(View()).(closed := true)
    {
      closed := true;
    }

    method Push(data: Message) returns (r: Attempt)
      requires Valid()
      modifies this, slots
      ensures Valid() && (r, View()) == PushAttempt(old(View()), data)
    {
      if |data| == 0 || |data| > MAX_MSG { return Refused; }
      if !closed && count == CAP { return Waits; }
      if closed { return Refused; }
      RingPush(slots[..], head, count, data);
      slots[tail] := data;
      tail := (tail + 1) % CAP;
      count := count + 1;
      r := Succeeded;
    }

    method Pop() returns (r: Attempt, out: Message)
      requires Valid()
      modifies this
      ensures Valid() && (r, View()) == PopAttempt(old(View()))
      ensures r == Succeeded ==> old(View()).items != [] && out == old(View()).items[0]
    {
      out := [];
      if !closed && count == 0 { return Waits, out; }
      if count == 0 { return Refused, out; }
      RingPop(slots[..], head, count);
      out := slots[head];
      head := (head + 1) % CAP;
      count := count - 1;
      r := Succeeded;
    }
  }

  // ---------- shutdown ----------

  /** The messages that `n` successive pops take. */
  function Popped(q: Fifo, n: nat): seq<Message>
    decreases n
  {
    if n == 0 || PopAttempt(q).0 != Succeeded then []
    else [q.items[0]] + Popped(PopAttempt(q).1, n - 1)
  }

  function AfterPops(q: Fifo, n: nat): Fifo
    decreases n
  {
    if n == 0 then q else AfterPops(PopAttempt(q).1, n - 1)
  }

  lemma {:induction false} TakeFromTail(items: seq<Message>, n: nat)
    requires 1 <= n <= |items|
    ensures [items[0]] + items[1..][..n - 1] == items[..n]
    ensures items[1..][n - 1..] == items[n..]
  {
  }

  /** A closed queue hands out what it holds, in order, and then refuses; it never makes anyone wait. */
  lemma {:induction false} ClosedDrains(q: Fifo, n: nat)
    requires q.closed
    ensures Popped(q, n) == q.items[..Min(n, |q.items|)]
    ensures var q' := AfterPops(q, n);
            && q' == Fifo(q.items[Min(n, |q.items|)..], true)
            && PopAttempt(q').0 == (if n < |q.items| then Succeeded else Refused)
            && forall data :: PushAttempt(q', data) == (Refused, q')
    decreases n
  {
    if n > 0 && q.items != [] {
      ClosedDrains(PopAttempt(q).1, n - 1);
      TakeFromTail(q.items, Min(n, |q.items|));
    } else if n > 0 {
      ClosedDrains(q, n - 1);
    }
  }
}
