/** The channel object: a ring buffer, two intrusive wait queues and a closed flag.  Each method is one locked
    region of the source and is proved to do to the abstract channel exactly what `ChanSpec` says. */
module Channel {
  import opened Options
  import opened GQueues
  import opened Ranges
  import Spec = ChanSpec
  import Bits

  /** The n elements of ring b from index i on. */
  ghost function Window<T>(b: seq<T>, i: nat, n: nat): (r: seq<T>)
    requires n <= |b| && (n > 0 ==> i < |b|)
    ensures |r| == n && forall k :: 0 <= k < n ==> r[k] == b[Wrap(i + k, |b|)]
  {
    if n == 0 then [] else Window(b, i, n - 1) + [b[Wrap(i + n - 1, |b|)]]
  }

  /** (i + 1) % cap */
  lemma NextSlot(i: nat, cap: nat)
    requires i < cap
    ensures (i + 1) % cap == Wrap(i + 1, cap)
  {
    Bits.RemainderUnique(i + 1, cap, if i + 1 == cap then 1 else 0, Wrap(i + 1, cap));
  }

  lemma WindowPush<T>(b: seq<T>, i: nat, n: nat, v: T)
    requires n < |b| && i < |b|
    ensures Window(b[Wrap(i + n, |b|) := v], i, n + 1) == Window(b, i, n) + [v]
  {
  }

  lemma WindowPop<T>(b: seq<T>, i: nat, n: nat)
    requires 0 < n <= |b| && i < |b|
    ensures Window(b, i, n) == [b[i]] + Window(b, Wrap(i + 1, |b|), n - 1)
  {
  }

  /** Taking from a full ring and writing the freed slot. */
  lemma WindowRotate<T>(b: seq<T>, i: nat, v: T)
    requires i < |b|
    ensures Window(b[i := v], Wrap(i + 1, |b|), |b|) == Window(b, i, |b|)[1..] + [v]
  {
  }

  ghost function Offers<T>(s: seq<G<T>>): (r: seq<Spec.Offer<T>>)
    reads s`data
    ensures |r| == |s| && forall i :: 0 <= i < |s| ==> r[i] == Spec.Offer(s[i].id, s[i].data)
  {
    if s == [] then [] else [Spec.Offer(s[0].id, s[0].data)] + Offers(s[1..])
  }

  ghost function Ids<T>(s: seq<G<T>>): (r: seq<nat>)
    ensures |r| == |s| && forall i :: 0 <= i < |s| ==> r[i] == s[i].id
  {
    if s == [] then [] else [s[0].id] + Ids(s[1..])
  }

  lemma OffersAppend<T>(s: seq<G<T>>, g: G<T>)
    ensures Offers(s + [g]) == Offers(s) + [Spec.Offer(g.id, g.data)]
  {
  }

  lemma OffersRest<T>(s: seq<G<T>>)
    requires s != []
    ensures Offers(s)[0] == Spec.Offer(s[0].id, s[0].data) && Offers(s)[1..] == Offers(s[1..])
  {
  }

  lemma IdsAppend<T>(s: seq<G<T>>, g: G<T>)
    ensures Ids(s + [g]) == Ids(s) + [g.id]
  {
  }

  lemma IdsConcat<T>(a: seq<G<T>>, b: seq<G<T>>)
    ensures Ids(a + b) == Ids(a) + Ids(b)
  {
  }

  lemma IdsRest<T>(s: seq<G<T>>)
    requires s != []
    ensures Ids(s)[1..] == Ids(s[1..])
  {
  }

  ghost predicate Disjoint<A>(a: seq<A>, b: seq<A>) {
    forall i, j :: 0 <= i < |a| && 0 <= j < |b| ==> a[i] != b[j]
  }

  /** Pops from one queue and pushes onto another that shares no thread with it. */
  method MoveFirst<T>(from: GQueue<T>, to: GQueue<T>) returns (g: G<T>)
    requires from != to && from.Valid() && to.Valid() && from.nodes != [] && Disjoint(to.nodes, from.nodes)
    modifies from, to, from.nodes`next, to.nodes`next
    ensures from.Valid() && to.Valid() && Disjoint(to.nodes, from.nodes)
    ensures g == old(from.nodes)[0] && from.nodes == old(from.nodes)[1..] && to.nodes == old(to.nodes) + [g]
  {
    g := from.Pop();
    to.Push(g);
  }

  /** The calling thread, as the set of objects a call may write to. */
  ghost function Just<T>(g: G?<T>): set<G<T>> { if g == null then {} else {g} }

  class Chan<T(0)> {
    const zero: T
    const bufferCap: nat
    const buffer: array<T>
    const sendQ: GQueue<T>
    const recvQ: GQueue<T>
    var bufferLen: nat
    var sendIdx: nat
    var recvIdx: nat
    var closed: bool

    ghost predicate Valid()
      reads this, buffer, sendQ, recvQ, sendQ.nodes`next, sendQ.nodes`data, recvQ.nodes`next
    {
      Linked() && Spec.WellFormed(Abs())
    }

    /** No thread is in both queues. */
    ghost predicate Linked()
      reads this, sendQ, recvQ, sendQ.nodes`next, recvQ.nodes`next
    {
      && sendQ != recvQ && sendQ.Valid() && recvQ.Valid() && Disjoint(sendQ.nodes, recvQ.nodes)
      && RingValid()
    }

    /** send_idx = (recv_idx + buffer_len) mod cap */
    ghost predicate RingValid()
      reads this
    {
      && buffer.Length == bufferCap && bufferLen <= bufferCap
      && (if bufferCap == 0 then recvIdx == sendIdx == 0
          else recvIdx < bufferCap && sendIdx == Wrap(recvIdx + bufferLen, bufferCap))
    }

    /** What the channel holds, as a value. */
    ghost function Abs(): Spec.Chan<T>
      requires RingValid()
      reads this, buffer, sendQ, recvQ, sendQ.nodes`data
    {
      Spec.Chan(bufferCap, Window(buffer[..], recvIdx, bufferLen), Offers(sendQ.nodes), Ids(recvQ.nodes), closed)
    }

    constructor (cap: nat, zero: T)
      ensures Valid() && Abs() == Spec.New(cap) && fresh(buffer) && fresh(sendQ) && fresh(recvQ)
      ensures this.zero == zero
    {
      this.zero, bufferCap := zero, cap;
      buffer := new T[cap];
      bufferLen, sendIdx, recvIdx, closed := 0, 0, 0, false;
      sendQ := new GQueue();
      recvQ := new GQueue();
    }

    // ---------- Ring ----------

    ghost function Ring(): seq<T>
      requires RingValid()
      reads this, buffer
    {
      Window(buffer[..], recvIdx, bufferLen)
    }

    method PutSlot(v: T)
      requires RingValid() && bufferLen < bufferCap
      modifies this`sendIdx, this`bufferLen, buffer
      ensures RingValid() && Ring() == old(Ring()) + [v]
    {
      ghost var b := buffer[..];
      WindowPush(b, recvIdx, bufferLen, v);
      NextSlot(sendIdx, bufferCap);
      buffer[sendIdx] := v;
      assert buffer[..] == b[sendIdx := v];
      sendIdx := (sendIdx + 1) % bufferCap;
      bufferLen := bufferLen + 1;
    }

    method TakeSlot() returns (v: T)
      requires RingValid() && bufferLen > 0
      modifies this`recvIdx, this`bufferLen
      ensures RingValid() && old(Ring()) == [v] + Ring()
    {
      WindowPop(buffer[..], recvIdx, bufferLen);
      NextSlot(recvIdx, bufferCap);
      v := buffer[recvIdx];
      recvIdx := (recvIdx + 1) % bufferCap;
      bufferLen := bufferLen - 1;
    }

    /** Takes the oldest element of a full ring and puts v in the freed slot. */
    method RotateSlot(v: T) returns (out: T)
      requires RingValid() && 0 < bufferLen == bufferCap
      modifies this`recvIdx, this`sendIdx, buffer
      ensures RingValid() && old(Ring()) == [out] + old(Ring())[1..] && Ring() == old(Ring())[1..] + [v]
    {
      ghost var b := buffer[..];
      WindowPop(b, recvIdx, bufferLen);
      WindowRotate(b, recvIdx, v);
      NextSlot(recvIdx, bufferCap);
      hide Window;
      out := buffer[recvIdx];
      buffer[sendIdx] := v;
      assert buffer[..] == b[recvIdx := v];
      recvIdx := (recvIdx + 1) % bufferCap;
      sendIdx := (sendIdx + 1) % bufferCap;
    }

    // ---------- Waiting ----------

    /** Queues the calling thread as a sender of v. */
    method WaitToSend(g: G<T>, v: T)
      requires Linked() && g !in sendQ.nodes && g !in recvQ.nodes
      modifies sendQ, sendQ.nodes`next, g`next, g`status, g`data, g`chanPanic
      ensures Linked() && g.status == GWaiting && !g.chanPanic && sendQ.nodes == old(sendQ.nodes) + [g]
      ensures Abs() == old(Abs()).(senders := old(Abs()).senders + [Spec.Offer(g.id, v)])
    {
      hide Window, Spec.WellFormed, Chained, Offers, Ids;
      g.status := GWaiting;
      g.data := v;
      g.chanPanic := false;
      sendQ.Push(g);
      OffersAppend(old(sendQ.nodes), g);
    }

    /** Queues the calling thread as a receiver. */
    method WaitToRecv(g: G<T>)
      requires Linked() && g !in sendQ.nodes && g !in recvQ.nodes
      modifies recvQ, recvQ.nodes`next, g`next, g`status, g`chanPanic
      ensures Linked() && g.status == GWaiting && !g.chanPanic && recvQ.nodes == old(recvQ.nodes) + [g]
      ensures Abs() == old(Abs()).(receivers := old(Abs()).receivers + [g.id])
    {
      hide Window, Spec.WellFormed, Chained, Offers, Ids;
      g.status := GWaiting;
      g.chanPanic := false;
      recvQ.Push(g);
      IdsAppend(old(recvQ.nodes), g);
    }

    /** Hands v to the first waiting receiver. */
    method HandOver(v: T) returns (receiver: G<T>)
      requires Linked() && recvQ.nodes != []
      modifies recvQ, recvQ.nodes`next, Just(recvQ.nodes[0])`data
      ensures Linked() && receiver == old(recvQ.nodes)[0] && receiver.data == v && recvQ.nodes == old(recvQ.nodes)[1..]
      ensures Abs() == old(Abs()).(receivers := old(Abs()).receivers[1..])
    {
      hide Window, Spec.WellFormed, Chained, Offers, Ids;
      IdsRest(recvQ.nodes);
      receiver := recvQ.Pop();
      receiver.data := v;
    }

    /** Unlinks the first waiting sender; its value stays readable in its cell. */
    method TakeSender() returns (sender: G<T>)
      requires Linked() && sendQ.nodes != []
      modifies sendQ, sendQ.nodes`next
      ensures Linked() && sender == old(sendQ.nodes)[0] && sendQ.nodes == old(sendQ.nodes)[1..]
      ensures Abs() == old(Abs()).(senders := old(Abs()).senders[1..])
      ensures old(Abs()).senders[0] == Spec.Offer(sender.id, sender.data)
    {
      hide Window, Spec.WellFormed, Chained, Offers, Ids;
      sender := sendQ.Pop();
      OffersRest(old(sendQ.nodes));
    }

    /** Receive's branch for a waiting sender: rotate through a full buffer, or copy directly. */
    method TakeFromSender() returns (v: T, sender: G<T>)
      requires Valid() && sendQ.nodes != []
      modifies this, buffer, sendQ, sendQ.nodes`next
      ensures Linked() && sender == old(sendQ.nodes)[0] && sendQ.nodes == old(sendQ.nodes)[1..]
      ensures recvQ.nodes == old(recvQ.nodes)
      ensures (Abs(), Spec.Got(v, Some(sender.id))) == Spec.Recv(old(Abs()), None)
    {
      sender := TakeSender();
      if bufferCap > 0 && bufferLen > 0 {
        v := RotateSlot(sender.data);
        assert Abs().senders == old(Abs()).senders[1..];
      } else {
        v := sender.data;
      }
    }

    // ---------- Operations ----------

    /** g is the calling thread, null on the main thread.  A woken receiver is returned and has the value. */
    method Send(g: G?<T>, v: T) returns (r: Spec.SendResult, woken: G?<T>)
      requires Valid() && (g != null ==> g !in sendQ.nodes && g !in recvQ.nodes)
      modifies this, buffer, sendQ, recvQ, sendQ.nodes`next, recvQ.nodes`next, recvQ.nodes`data
      modifies Just(g)`next, Just(g)`status, Just(g)`data, Just(g)`chanPanic
      ensures Valid()
      ensures (Abs(), r) == Spec.Send(old(Abs()), if g == null then None else Some(g.id), v)
      ensures r.Handed? ==>
        old(recvQ.nodes) != [] && woken == old(recvQ.nodes)[0] && woken.id == r.receiver && woken.data == v
      ensures recvQ.nodes == if r.Handed? then old(recvQ.nodes)[1..] else old(recvQ.nodes)
      ensures forall x :: x in old(recvQ.nodes) && (r.Handed? ==> x != woken) ==> x.data == old(x.data)
      ensures r.SendBlocks? ==>
        g != null && sendQ.nodes == old(sendQ.nodes) + [g] && g.status == GWaiting && !g.chanPanic
      ensures !r.SendBlocks? ==> sendQ.nodes == old(sendQ.nodes) && (g != null ==> unchanged(g))
    {
      hide Spec.WellFormed, Chained;
      Spec.SendKeepsWellFormed(Abs(), if g == null then None else Some(g.id), v);
      woken := null;
      if closed {
        return Spec.SendPanics, null;
      }
      if recvQ.len > 0 {
        woken := HandOver(v);
        return Spec.Handed(woken.id), woken;
      }
      if bufferLen < bufferCap {
        PutSlot(v);
        return Spec.Buffered, null;
      }
      if g == null {
        return Spec.SendStuck, null;
      }
      WaitToSend(g, v);
      r := Spec.SendBlocks;
    }

    /** The value is returned when it is there at once; a blocked receiver finds it in its own cell later. */
    method Recv(g: G?<T>) returns (r: Spec.RecvResult<T>, v: T, woken: G?<T>)
      requires Valid() && (g != null ==> g !in sendQ.nodes && g !in recvQ.nodes)
      modifies this, buffer, sendQ, recvQ, sendQ.nodes`next, recvQ.nodes`next
      modifies Just(g)`next, Just(g)`status, Just(g)`chanPanic
      ensures Valid()
      ensures (Abs(), r) == Spec.Recv(old(Abs()), if g == null then None else Some(g.id))
      ensures r.Got? ==> v == r.value
      ensures r.GotZero? ==> v == zero
      ensures r.Got? && r.woken.Some? ==>
        old(sendQ.nodes) != [] && woken == old(sendQ.nodes)[0] && woken.id == r.woken.value
      ensures sendQ.nodes == if r.Got? && r.woken.Some? then old(sendQ.nodes)[1..] else old(sendQ.nodes)
      ensures r.RecvBlocks? ==>
        g != null && recvQ.nodes == old(recvQ.nodes) + [g] && g.status == GWaiting && !g.chanPanic
      ensures !r.RecvBlocks? ==> recvQ.nodes == old(recvQ.nodes) && (g != null ==> unchanged(g))
    {
      hide Spec.WellFormed;
      Spec.RecvKeepsWellFormed(Abs(), if g == null then None else Some(g.id));
      v := zero;
      woken := null;
      if sendQ.len > 0 {
        v, woken := TakeFromSender();
        return Spec.Got(v, Some(woken.id)), v, woken;
      }
      if bufferLen > 0 {
        v := TakeSlot();
        return Spec.Got(v, None), v, null;
      }
      if closed {
        return Spec.GotZero, zero, null;
      }
      if g == null {
        return Spec.RecvStuck, v, null;
      }
      WaitToRecv(g);
      r := Spec.RecvBlocks;
    }

    /** Close's first loop: every waiting receiver gets zero and moves to the wake list. */
    method DrainReceivers(wake: GQueue<T>)
      requires wake != recvQ
      requires recvQ.Valid() && wake.Valid() && wake.nodes == []
      modifies recvQ, wake, recvQ.nodes`next, recvQ.nodes`data, recvQ.nodes`chanPanic
      ensures recvQ.Valid() && wake.Valid() && recvQ.nodes == [] && wake.nodes == old(recvQ.nodes)
      ensures forall i :: 0 <= i < |wake.nodes| ==> wake.nodes[i].data == zero && !wake.nodes[i].chanPanic
    {
      hide Chained;
      ghost var waiting := recvQ.nodes;
      ghost var k := 0;
      while recvQ.len > 0
        invariant recvQ.Valid() && wake.Valid() && Disjoint(wake.nodes, recvQ.nodes) && 0 <= k <= |waiting|
        invariant wake.nodes == waiting[..k] && recvQ.nodes == waiting[k..]
        invariant forall i :: 0 <= i < k ==> waiting[i].data == zero && !waiting[i].chanPanic
        decreases recvQ.len
      {
        var g := MoveFirst(recvQ, wake);
        g.data := zero;
        g.chanPanic := false;
        k := k + 1;
      }
    }

    /** Close's second loop: every waiting sender is marked to panic and moves to the wake list. */
    method DrainSenders(wake: GQueue<T>)
      requires wake != sendQ
      requires sendQ.Valid() && wake.Valid() && Disjoint(wake.nodes, sendQ.nodes)
      modifies sendQ, wake, sendQ.nodes`next, sendQ.nodes`chanPanic, wake.nodes`next
      ensures sendQ.Valid() && wake.Valid() && sendQ.nodes == []
      ensures wake.nodes == old(wake.nodes) + old(sendQ.nodes)
      ensures forall i :: 0 <= i < |old(sendQ.nodes)| ==> old(sendQ.nodes)[i].chanPanic
    {
      hide Chained;
      ghost var waiting := sendQ.nodes;
      ghost var woken := wake.nodes;
      ghost var k := 0;
      while sendQ.len > 0
        invariant sendQ.Valid() && wake.Valid() && Disjoint(wake.nodes, sendQ.nodes) && 0 <= k <= |waiting|
        invariant wake.nodes == woken + waiting[..k] && sendQ.nodes == waiting[k..]
        invariant forall i :: 0 <= i < k ==> waiting[i].chanPanic
        decreases sendQ.len
      {
        var g := MoveFirst(sendQ, wake);
        g.chanPanic := true;
        k := k + 1;
      }
    }

    /** Both loops: the wake list has the receivers in order, then the senders in order. */
    method DrainAll() returns (wake: GQueue<T>)
      requires Linked()
      modifies sendQ, recvQ, sendQ.nodes`next, sendQ.nodes`chanPanic
      modifies recvQ.nodes`next, recvQ.nodes`data, recvQ.nodes`chanPanic
      ensures Linked() && sendQ.nodes == recvQ.nodes == []
      ensures fresh(wake) && wake.Valid() && wake.nodes == old(recvQ.nodes) + old(sendQ.nodes)
      ensures Zeroed(old(recvQ.nodes)) && Panicking(old(sendQ.nodes))
    {
      hide Chained;
      wake := new GQueue();
      DrainReceivers(wake);
      DrainSenders(wake);
    }

    /** Woken receivers hold zero and do not panic. */
    ghost predicate Zeroed(s: seq<G<T>>)
      reads s
    {
      forall i :: 0 <= i < |s| ==> s[i].data == zero && !s[i].chanPanic
    }

    ghost predicate Panicking(s: seq<G<T>>)
      reads s
    {
      forall i :: 0 <= i < |s| ==> s[i].chanPanic
    }

    /** Returns the threads to make runnable. */
    method Close() returns (panics: bool, wake: GQueue<T>)
      requires Valid()
      modifies this`closed, sendQ, recvQ, sendQ.nodes`next, sendQ.nodes`chanPanic
      modifies recvQ.nodes`next, recvQ.nodes`data, recvQ.nodes`chanPanic
      ensures Valid() && fresh(wake) && wake.Valid()
      ensures Abs() == Spec.Close(old(Abs())).0
      ensures panics == Spec.Close(old(Abs())).1.ClosePanics?
      ensures wake.nodes == if panics then [] else old(recvQ.nodes) + old(sendQ.nodes)
      ensures if panics then unchanged(this, sendQ, recvQ, sendQ.nodes, recvQ.nodes)
              else sendQ.nodes == recvQ.nodes == []
      ensures !panics ==> Ids(wake.nodes) == WakeOrder(Spec.Close(old(Abs())).1)
      ensures !panics ==> Zeroed(old(recvQ.nodes)) && Panicking(old(sendQ.nodes))
    {
      hide Spec.WellFormed, Window, Chained, Offers, Ids, Spec.Threads, Zeroed, Panicking;
      Spec.CloseKeepsWellFormed(Abs());
      if closed {
        wake := new GQueue();
        return true, wake;
      }
      IdsAre(Offers(sendQ.nodes), sendQ.nodes);
      IdsConcat(recvQ.nodes, sendQ.nodes);
      closed := true;
      wake := DrainAll();
      panics := false;
    }
  }

  /** The threads close wakes: receivers first. */
  ghost function WakeOrder(r: Spec.CloseResult): seq<nat> {
    match r case ClosePanics => [] case Closes(rs, ss) => rs + ss
  }

  lemma IdsAre<T>(s: seq<Spec.Offer<T>>, nodes: seq<G<T>>)
    requires |s| == |nodes| && forall i :: 0 <= i < |s| ==> s[i].g == nodes[i].id
    ensures Spec.Threads(s) == Ids(nodes)
  {
  }
}
