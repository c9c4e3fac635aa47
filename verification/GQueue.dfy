/** Green threads and the intrusive queue that links them through `next`. */
module GQueues {
  import opened Ranges

  datatype Status = GIdle | GRunnable | GRunning | GWaiting | GDead

  /** A green thread.  `data` is the cell its chan_data_ptr points to while it waits on a channel. */
  class G<T> {
    const id: nat
    var status: Status
    var next: G?<T>
    var data: T
    var chanPanic: bool

    constructor (id: nat, data: T)
      ensures this.id == id && status == GRunnable && next == null && this.data == data && !chanPanic
    {
      this.id, this.data := id, data;
      status, next, chanPanic := GRunnable, null, false;
    }
  }

  /** The nodes form the chain head = n0 -> n1 -> ... -> tail, with no node twice. */
  ghost predicate Chained<T>(nodes: seq<G<T>>, head: G?<T>, tail: G?<T>)
    reads nodes`next
  {
    && (forall i, j :: 0 <= i < j < |nodes| ==> nodes[i] != nodes[j])
    && (forall i :: 0 <= i < |nodes| - 1 ==> nodes[i].next == nodes[i + 1])
    && (if nodes == [] then head == null && tail == null
        else head == nodes[0] && tail == nodes[|nodes| - 1] && nodes[|nodes| - 1].next == null)
  }

  class GQueue<T> {
    var head: G?<T>
    var tail: G?<T>
    var len: nat
    ghost var nodes: seq<G<T>>

    ghost predicate Valid()
      reads this, nodes`next
    {
      Chained(nodes, head, tail) && len == |nodes|
    }

    constructor ()
      ensures Valid() && nodes == []
    {
      head, tail, len, nodes := null, null, 0, [];
    }

    /** Appends. */
    method Push(g: G<T>)
      requires Valid() && g !in nodes
      modifies this, nodes`next, g`next
      ensures Valid() && nodes == old(nodes) + [g]
    {
      g.next := null;
      if tail != null {
        tail.next := g;
      } else {
        head := g;
      }
      tail := g;
      len := len + 1;
      nodes := nodes + [g];
    }

    /** Takes the first. */
    method Pop() returns (g: G?<T>)
      requires Valid()
      modifies this, nodes`next
      ensures Valid()
      ensures old(nodes) == [] ==> g == null && nodes == []
      ensures old(nodes) != [] ==> g == old(nodes)[0] && g.next == null && nodes == old(nodes)[1..]
    {
      g := head;
      if g == null {
        return;
      }
      head := g.next;
      if head == null {
        tail := null;
      }
      g.next := null;
      len := len - 1;
      nodes := nodes[1..];
    }

    /** Unlinks g if it is queued; nothing else changes place. */
    method Remove(g: G<T>) returns (found: bool)
      requires Valid()
      modifies this, nodes`next
      ensures Valid() && found == (g in old(nodes)) && nodes == Without(old(nodes), g)
      ensures found ==> g.next == null
    {
      WithoutAbsent(nodes, g);
      if head == null {
        return false;
      }
      if head == g {
        WithoutAt(nodes, g, 0);
        head := g.next;
        if head == null {
          tail := null;
        }
        g.next := null;
        len := len - 1;
        nodes := nodes[1..];
        return true;
      }
      var prev := head;
      ghost var k := 0;
      while prev.next != null
        invariant 0 <= k < |nodes| && prev == nodes[k] && g !in nodes[..k + 1]
        invariant Valid() && nodes == old(nodes)
        invariant prev.next == if k + 1 < |nodes| then nodes[k + 1] else null
        decreases |nodes| - k
      {
        if prev.next == g {
          WithoutAt(nodes, g, k + 1);
          UnlinkAfter(prev, g, k);
          return true;
        }
        prev := prev.next;
        k := k + 1;
      }
      assert nodes[..k + 1] == nodes;
      return false;
    }

    /** Remove's splice: g follows prev, the node at position k. */
    method UnlinkAfter(prev: G<T>, g: G<T>, ghost k: nat)
      requires Valid() && k + 1 < |nodes| && prev == nodes[k] && g == nodes[k + 1]
      modifies this, prev`next, g`next
      ensures Valid() && nodes == old(nodes)[..k + 1] + old(nodes)[k + 2..] && g.next == null
    {
      prev.next := g.next;
      if tail == g {
        tail := prev;
      }
      g.next := null;
      len := len - 1;
      nodes := nodes[..k + 1] + nodes[k + 2..];
    }
  }

  lemma {:induction false} WithoutAt<A>(s: seq<A>, x: A, k: nat)
    requires k < |s| && s[k] == x && x !in s[..k]
    ensures Without(s, x) == s[..k] + s[k + 1..]
  {
    if k > 0 {
      assert s[1..][..k - 1] == s[..k][1..];
      WithoutAt(s[1..], x, k - 1);
    }
  }

  lemma {:induction false} WithoutAbsent<A>(s: seq<A>, x: A)
    ensures x !in s ==> Without(s, x) == s
  {
    if s != [] { WithoutAbsent(s[1..], x); }
  }
}
