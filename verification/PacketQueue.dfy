/** dataPacketQueue: a ring buffer under a mutex with two signal channels. Each method
    here is one critical section. */
module PacketQueue {
  import opened Bits

  /** What a queue is, apart from where its ring starts. notEmpty holds at most one token
      and is closed with the queue; notFull is replaced whenever it is closed, so the
      channels closed so far are those numbered below the current one. */
  datatype Queue<T> = Queue(capacity: nat, contents: seq<T>, closed: bool, token: bool, notFull: nat)

  function NewQueue<T>(capacity: nat): Queue<T> {
    Queue(capacity, [], false, false, 0)
  }

  /** A send that never blocks: the channel has room for one token. */
  function SignalNotEmpty<T>(q: Queue<T>): Queue<T>
    requires !q.closed
  {
    q.(token := true)
  }

  function SignalNotFull<T>(q: Queue<T>): Queue<T> {
    q.(notFull := q.notFull + 1)
  }

  function Min(a: nat, b: nat): nat {
    if a < b then a else b
  }

  /** As many of items as fit. */
  function TryPush<T>(q: Queue<T>, items: seq<T>, cancelled: bool): (r: (Queue<T>, nat))
    requires |q.contents| <= q.capacity
    ensures r.1 <= |items|
  {
    if q.closed || cancelled || items == [] then (q, 0)
    else
      var count := Min(|items|, q.capacity - |q.contents|);
      var filled := q.(contents := q.contents + items[..count]);
      (if q.contents == [] && count > 0 then SignalNotEmpty(filled) else filled, count)
  }

  function PopCount<T>(q: Queue<T>, maximum: int): (count: nat)
    ensures count <= |q.contents|
  {
    if maximum > 0 then Min(|q.contents|, maximum) else |q.contents|
  }

  function Pop<T>(q: Queue<T>, maximum: int): (Queue<T>, seq<T>) {
    var count := PopCount(q, maximum);
    if count == 0 then (q, [])
    else
      var rest := q.(contents := q.contents[count..]);
      var signalled :=
        if rest.contents == [] then rest.(token := false)
        else if !q.closed then SignalNotEmpty(rest)
        else rest;
      (if |q.contents| == q.capacity then SignalNotFull(signalled) else signalled, q.contents[..count])
  }

  function Wake<T>(q: Queue<T>): Queue<T> {
    if !q.closed && q.contents != [] then SignalNotEmpty(q) else q
  }

  function Close<T>(q: Queue<T>): Queue<T> {
    if q.closed then q else SignalNotFull(q.(closed := true))
  }

  // ---------------------------------------------------------------- the ring

  /** Place i of a ring that starts at head. */
  function Slot(head: nat, i: nat, capacity: nat): (k: nat)
    requires head < capacity && i <= capacity
    ensures k < capacity && k == (head + i) % capacity
  {
    if head + i < capacity then
      ModuloUnique(head + i, capacity, 0, head + i);
      head + i
    else
      ModuloUnique(head + i, capacity, 1, head + i - capacity);
      head + i - capacity
  }

  lemma SlotInjective(head: nat, i: nat, j: nat, capacity: nat)
    requires head < capacity && i < capacity && j < capacity
    ensures Slot(head, i, capacity) == Slot(head, j, capacity) <==> i == j
  {
  }

  /** Moving the start of the ring renumbers its places. */
  lemma SlotShift(head: nat, count: nat, i: nat, capacity: nat)
    requires head < capacity && count <= capacity && i < capacity
    ensures Slot(Slot(head, count, capacity), i, capacity)
         == Slot(head, if count + i < capacity then count + i else count + i - capacity, capacity)
  {
  }

  ghost predicate RingShape<T>(items: seq<T>, head: nat, length: nat) {
    (if |items| == 0 then head == 0 else head < |items|) && length <= |items|
  }

  /** The stored elements, oldest first. */
  ghost function Ring<T>(items: seq<T>, head: nat, length: nat): (s: seq<T>)
    requires RingShape(items, head, length)
    ensures |s| == length
  {
    seq(length, i requires 0 <= i < length => items[Slot(head, i, |items|)])
  }

  /** Every place that holds no element holds the zero value. */
  ghost predicate FreeIsZero<T>(items: seq<T>, head: nat, length: nat, zero: T)
    requires RingShape(items, head, length)
  {
    forall i {:trigger Slot(head, i, |items|)} :: length <= i < |items| ==> items[Slot(head, i, |items|)] == zero
  }

  lemma RingPush<T>(items: seq<T>, head: nat, length: nat, zero: T, x: T)
    requires RingShape(items, head, length) && length < |items| && FreeIsZero(items, head, length, zero)
    ensures var items' := items[Slot(head, length, |items|) := x];
            Ring(items', head, length + 1) == Ring(items, head, length) + [x] && FreeIsZero(items', head, length + 1, zero)
  {
    forall i | 0 <= i < |items| ensures Slot(head, i, |items|) == Slot(head, length, |items|) <==> i == length {
      SlotInjective(head, i, length, |items|);
    }
  }

  /** items' is items with the first count places cleared. */
  ghost predicate Cleared<T>(items: seq<T>, items': seq<T>, head: nat, count: nat, zero: T)
    requires head < |items|
  {
    && |items'| == |items|
    && forall i {:trigger Slot(head, i, |items|)} :: 0 <= i < |items| ==>
         items'[Slot(head, i, |items|)] == if i < count then zero else items[Slot(head, i, |items|)]
  }

  lemma ClearNext<T>(items: seq<T>, items': seq<T>, head: nat, count: nat, zero: T)
    requires head < |items| && count < |items| && Cleared(items, items', head, count, zero)
    ensures Cleared(items, items'[Slot(head, count, |items|) := zero], head, count + 1, zero)
  {
    forall i | 0 <= i < |items| ensures Slot(head, i, |items|) == Slot(head, count, |items|) <==> i == count {
      SlotInjective(head, i, count, |items|);
    }
  }

  lemma RingPop<T>(items: seq<T>, items': seq<T>, head: nat, length: nat, count: nat, zero: T)
    requires RingShape(items, head, length) && 0 < count <= length && FreeIsZero(items, head, length, zero)
    requires Cleared(items, items', head, count, zero)
    ensures var head' := Slot(head, count, |items|);
            && RingShape(items', head', length - count)
            && Ring(items', head', length - count) == Ring(items, head, length)[count..]
            && FreeIsZero(items', head', length - count, zero)
  {
    var n, head' := |items|, Slot(head, count, |items|);
    forall i | 0 <= i < n
      ensures items'[Slot(head', i, n)] == if count + i < length then items[Slot(head, count + i, n)] else zero
    {
      SlotShift(head, count, i, n);
    }
    assert Ring(items', head', length - count) == Ring(items, head, length)[count..];
  }

  datatype Outcome = Pushed | Refused | MustWait(channel: nat)

  class DataPacketQueue<T> {
    const zero: T
    const items: array<T>
    var head: nat
    var length: nat
    var closed: bool
    var notEmptyToken: bool
    var notEmptyClosed: bool
    var notFull: nat
    ghost var closedChannels: set<nat>

    ghost predicate Valid()
      reads this, items
    {
      && RingShape(items[..], head, length)
      && FreeIsZero(items[..], head, length, zero)
      && notEmptyClosed == closed
      && ChannelsBelow(closedChannels, notFull)
    }

    ghost function View(): Queue<T>
      requires Valid()
      reads this, items
    {
      Queue(items.Length, Ring(items[..], head, length), closed, notEmptyToken, notFull)
    }

    constructor (capacity: nat, zero: T)
      ensures Valid() && fresh(items) && View() == NewQueue(capacity) && this.zero == zero
    {
      this.zero := zero;
      items := new T[capacity](_ => zero);
      head, length := 0, 0;
      closed, notEmptyToken, notEmptyClosed, notFull := false, false, false, 0;
      closedChannels := {};
    }

    /** signalNotEmptyLocked: a send, which a closed channel would not survive. */
    method SendNotEmpty()
      requires !notEmptyClosed
      modifies this`notEmptyToken
      ensures notEmptyToken
    {
      if !notEmptyToken {
        notEmptyToken := true;
      }
    }

    /** Closes notEmpty, which a second time would not survive. */
    method CloseNotEmpty()
      requires !notEmptyClosed
      modifies this`notEmptyClosed
      ensures notEmptyClosed
    {
      notEmptyClosed := true;
    }

    /** signalNotFullLocked: closes the current channel, which must still be open, and
        makes another. */
    method ReplaceNotFull()
      requires notFull !in closedChannels && ChannelsBelow(closedChannels, notFull)
      modifies this`notFull, this`closedChannels
      ensures notFull == old(notFull) + 1 && ChannelsBelow(closedChannels, notFull)
    {
      closedChannels := closedChannels + {notFull};
      notFull := notFull + 1;
    }

    method Store(item: T)
      requires Valid() && length < items.Length
      modifies items, this`length
      ensures Valid() && View() == old(View()).(contents := old(View()).contents + [item])
    {
      RingPush(items[..], head, length, zero, item);
      ghost var before := items[..];
      var tail := (head + length) % items.Length;
      assert tail == Slot(head, length, items.Length);
      items[tail] := item;
      assert items[..] == before[tail := item];
      length := length + 1;
    }

    /** The critical section of PushBatch: one element in, or the channel to wait on. */
    method PushOne(item: T, cancelled: bool) returns (outcome: Outcome)
      requires Valid()
      modifies this, items
      ensures Valid()
      ensures outcome == if old(View()).closed || cancelled then Refused
                         else if |old(View()).contents| < items.Length then Pushed
                         else MustWait(old(View()).notFull)
      ensures View() == if outcome.Pushed? then TryPush(old(View()), [item], false).0 else old(View())
    {
      if closed || cancelled {
        return Refused;
      }
      if length < items.Length {
        var wasEmpty := length == 0;
        Store(item);
        assert [item][..1] == [item];
        if wasEmpty {
          SendNotEmpty();
        }
        return Pushed;
      }
      return MustWait(notFull);
    }

    method TryPushBatch(batch: seq<T>, cancelled: bool) returns (count: nat)
      requires Valid()
      modifies this, items
      ensures Valid()
      ensures (View(), count) == TryPush(old(View()), batch, cancelled)
    {
      if closed || cancelled || |batch| == 0 {
        return 0;
      }
      count := Min(|batch|, items.Length - length);
      var wasEmpty := length == 0;
      ghost var before := View();
      assert before.contents + batch[..0] == before.contents;
      for index := 0 to count
        invariant Valid() && items.Length == before.capacity
        invariant View() == before.(contents := before.contents + batch[..index])
      {
        Store(batch[index]);
        assert (before.contents + batch[..index]) + [batch[index]] == before.contents + batch[..index + 1];
      }
      if wasEmpty && count > 0 {
        SendNotEmpty();
      }
    }

    /** PopInto: takes up to maximum elements, all of them if maximum is not positive. */
    method PopInto(maximum: int) returns (out: seq<T>)
      requires Valid()
      modifies this, items
      ensures Valid()
      ensures (View(), out) == Pop(old(View()), maximum)
    {
      var count := length;
      if maximum > 0 {
        count := Min(count, maximum);
      }
      if count == 0 {
        return [];
      }
      var wasFull := length == items.Length;
      out := TakeFront(count);
      if length == 0 {
        notEmptyToken := false;
      } else if !closed {
        SendNotEmpty();
      }
      if wasFull {
        ReplaceNotFull();
      }
    }

    method TakeFront(count: nat) returns (out: seq<T>)
      requires Valid() && 0 < count <= length
      modifies items, this`head, this`length
      ensures Valid() && out == old(View()).contents[..count]
      ensures View() == old(View()).(contents := old(View()).contents[count..])
    {
      ghost var before, contents := items[..], View().contents;
      out := [];
      for index := 0 to count
        invariant head == old(head) && length == old(length)
        invariant Cleared(before, items[..], head, index, zero)
        invariant out == contents[..index]
      {
        var itemIndex := (head + index) % items.Length;
        assert itemIndex == Slot(head, index, items.Length);
        ClearNext(before, items[..], head, index, zero);
        ghost var now := items[..];
        assert items[itemIndex] == contents[index] && contents[..index + 1] == contents[..index] + [contents[index]];
        out := out + [items[itemIndex]];
        items[itemIndex] := zero;
        assert items[..] == now[itemIndex := zero];
      }
      RingPop(before, items[..], head, length, count, zero);
      assert (head + count) % items.Length == Slot(head, count, items.Length);
      head := (head + count) % items.Length;
      length := length - count;
    }

    /** Wake: makes sure a consumer that is about to wait will find a token. */
    method WakeConsumer()
      requires Valid()
      modifies this`notEmptyToken
      ensures Valid() && View() == Wake(old(View()))
    {
      if closed {
        return;
      }
      if length > 0 {
        SendNotEmpty();
      }
    }

    method CloseQueue()
      requires Valid()
      modifies this
      ensures Valid() && View() == Close(old(View()))
    {
      if !closed {
        closed := true;
        CloseNotEmpty();
        ReplaceNotFull();
      }
    }
  }

  ghost predicate ChannelsBelow(channels: set<nat>, n: nat) {
    forall c: nat :: c in channels <==> c < n
  }
}
