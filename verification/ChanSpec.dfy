/** Channels as values: what each locked region of send, receive and close does to the buffer and the two
    wait queues, and what every sequence of them delivers. */
module ChanSpec {
  import opened Options

  /** A blocked sender and the value it is offering. */
  datatype Offer<T> = Offer(g: nat, value: T)

  datatype Chan<T> = Chan(cap: nat, buffer: seq<T>, senders: seq<Offer<T>>, receivers: seq<nat>, closed: bool)

  datatype SendResult = SendPanics | Handed(receiver: nat) | Buffered | SendBlocks | SendStuck

  datatype RecvResult<T> = Got(value: T, woken: Option<nat>) | GotZero | RecvBlocks | RecvStuck

  datatype CloseResult = ClosePanics | Closes(receivers: seq<nat>, senders: seq<nat>)

  function New<T>(cap: nat): Chan<T> { Chan(cap, [], [], [], false) }

  /** g is the calling green thread, None on the main thread. */
  function Send<T>(c: Chan<T>, g: Option<nat>, v: T): (Chan<T>, SendResult) {
    if c.closed then (c, SendPanics)
    else if c.receivers != [] then (c.(receivers := c.receivers[1..]), Handed(c.receivers[0]))
    else if |c.buffer| < c.cap then (c.(buffer := c.buffer + [v]), Buffered)
    else if g.None? then (c, SendStuck)
    else (c.(senders := c.senders + [Offer(g.value, v)]), SendBlocks)
  }

  function Recv<T>(c: Chan<T>, g: Option<nat>): (Chan<T>, RecvResult<T>) {
    if c.senders != [] then
      var s := c.senders[0];
      if c.cap > 0 && c.buffer != [] then
        (c.(buffer := c.buffer[1..] + [s.value], senders := c.senders[1..]), Got(c.buffer[0], Some(s.g)))
      else
        (c.(senders := c.senders[1..]), Got(s.value, Some(s.g)))
    else if c.buffer != [] then (c.(buffer := c.buffer[1..]), Got(c.buffer[0], None))
    else if c.closed then (c, GotZero)
    else if g.None? then (c, RecvStuck)
    else (c.(receivers := c.receivers + [g.value]), RecvBlocks)
  }

  /** Close empties both wait queues: receivers get zero, senders panic when they resume. */
  function Close<T>(c: Chan<T>): (Chan<T>, CloseResult) {
    if c.closed then (c, ClosePanics)
    else (c.(closed := true, senders := [], receivers := []), Closes(c.receivers, Threads(c.senders)))
  }

  function Threads<T>(s: seq<Offer<T>>): (r: seq<nat>)
    ensures |r| == |s| && forall i :: 0 <= i < |s| ==> r[i] == s[i].g
  {
    if s == [] then [] else [s[0].g] + Threads(s[1..])
  }

  function Values<T>(s: seq<Offer<T>>): (r: seq<T>)
    ensures |r| == |s| && forall i :: 0 <= i < |s| ==> r[i] == s[i].value
  {
    if s == [] then [] else [s[0].value] + Values(s[1..])
  }

  /** Who waits when.  The rotate branch of receive relies on it: with a sender waiting, a buffered channel is
      full, so the slot read and the slot written are the same one. */
  ghost predicate WellFormed<T>(c: Chan<T>) {
    && |c.buffer| <= c.cap
    && (c.receivers != [] ==> c.buffer == [] && c.senders == [])
    && (c.senders != [] ==> |c.buffer| == c.cap && c.receivers == [])
    && (c.closed ==> c.senders == [] && c.receivers == [])
  }

  lemma SendKeepsWellFormed<T>(c: Chan<T>, g: Option<nat>, v: T)
    requires WellFormed(c)
    ensures WellFormed(Send(c, g, v).0)
  {
  }

  lemma RecvKeepsWellFormed<T>(c: Chan<T>, g: Option<nat>)
    requires WellFormed(c)
    ensures WellFormed(Recv(c, g).0)
  {
  }

  lemma CloseKeepsWellFormed<T>(c: Chan<T>)
    requires WellFormed(c)
    ensures WellFormed(Close(c).0)
  {
  }

  // ---------- Every run ----------

  datatype Op<T> = SendOp(g: Option<nat>, v: T) | RecvOp(g: Option<nat>) | CloseOp

  /** A completed receive of a sent value. */
  datatype Delivery<T> = Delivery(to: Option<nat>, value: T)

  /** The channel and its past, in lock order: the values sent and who sent them, the receives begun, the sent
      values received, the receives that got zero, and the values close dropped. */
  datatype Past<T> = Past(
    c: Chan<T>, sent: seq<T>, sentBy: seq<Option<nat>>, begun: seq<Option<nat>>, delivered: seq<Delivery<T>>,
    zeros: seq<Option<nat>>, dropped: seq<T>)

  function Somes(s: seq<nat>): (r: seq<Option<nat>>)
    ensures |r| == |s| && forall i :: 0 <= i < |s| ==> r[i] == Some(s[i])
  {
    if s == [] then [] else [Some(s[0])] + Somes(s[1..])
  }

  function Step<T>(p: Past<T>, op: Op<T>): Past<T> {
    match op
    case SendOp(g, v) =>
      var (c, r) := Send(p.c, g, v);
      (match r
       case Handed(to) =>
         p.(c := c, sent := p.sent + [v], sentBy := p.sentBy + [g], delivered := p.delivered + [Delivery(Some(to), v)])
       case Buffered => p.(c := c, sent := p.sent + [v], sentBy := p.sentBy + [g])
       case SendBlocks => p.(c := c, sent := p.sent + [v], sentBy := p.sentBy + [g])
       case _ => p)
    case RecvOp(g) =>
      var (c, r) := Recv(p.c, g);
      (match r
       case Got(v, _) => p.(c := c, begun := p.begun + [g], delivered := p.delivered + [Delivery(g, v)])
       case GotZero => p.(c := c, begun := p.begun + [g], zeros := p.zeros + [g])
       case RecvBlocks => p.(c := c, begun := p.begun + [g])
       case RecvStuck => p)
    case CloseOp =>
      var (c, r) := Close(p.c);
      (match r
       case ClosePanics => p
       case Closes(rs, ss) => p.(c := c, zeros := p.zeros + Somes(rs), dropped := p.dropped + Values(p.c.senders)))
  }

  /** The channel after an operation. */
  function After<T>(c: Chan<T>, op: Op<T>): Chan<T> {
    match op
    case SendOp(g, v) => Send(c, g, v).0
    case RecvOp(g) => Recv(c, g).0
    case CloseOp => Close(c).0
  }

  lemma StepIsAfter<T>(p: Past<T>, op: Op<T>)
    ensures Step(p, op).c == After(p.c, op)
  {
  }

  function Run<T>(cap: nat, ops: seq<Op<T>>): Past<T> {
    if ops == [] then Past(New(cap), [], [], [], [], [], [])
    else Step(Run(cap, ops[..|ops| - 1]), ops[|ops| - 1])
  }

  lemma AfterKeepsCap<T>(c: Chan<T>, op: Op<T>)
    ensures After(c, op).cap == c.cap
  {
  }

  lemma RunLast<T>(cap: nat, ops: seq<Op<T>>, op: Op<T>)
    ensures Run(cap, ops + [op]) == Step(Run(cap, ops), op)
  {
    assert (ops + [op])[..|ops|] == ops;
  }

  function Takers<T>(d: seq<Delivery<T>>): (r: seq<Option<nat>>)
    ensures |r| == |d| && forall i :: 0 <= i < |d| ==> r[i] == d[i].to
  {
    if d == [] then [] else [d[0].to] + Takers(d[1..])
  }

  function Taken<T>(d: seq<Delivery<T>>): (r: seq<T>)
    ensures |r| == |d| && forall i :: 0 <= i < |d| ==> r[i] == d[i].value
  {
    if d == [] then [] else [d[0].value] + Taken(d[1..])
  }

  /** Every value sent is delivered, buffered, offered by a blocked sender or dropped by close, in that order;
      every receive begun has a value, a zero or waits, in that order. */
  ghost predicate Accounted<T>(p: Past<T>) {
    && WellFormed(p.c)
    && p.sent == Taken(p.delivered) + p.c.buffer + Values(p.c.senders) + p.dropped
    && p.begun == Takers(p.delivered) + p.zeros + Somes(p.c.receivers)
    && (!p.c.closed ==> p.dropped == [] && p.zeros == [])
    && (p.zeros != [] ==> p.c.buffer == [])
  }

  lemma SendAccounted<T>(p: Past<T>, g: Option<nat>, v: T)
    requires Accounted(p)
    ensures Accounted(Step(p, SendOp(g, v)))
  {
    if !p.c.closed {
      if p.c.receivers != [] {
        HandedAccounted(p, g, v);
      } else if |p.c.buffer| == p.c.cap && g.Some? {
        assert Values(p.c.senders + [Offer(g.value, v)]) == Values(p.c.senders) + [v];
      }
    }
  }

  /** A send that meets a waiting receiver. */
  lemma HandedAccounted<T>(p: Past<T>, g: Option<nat>, v: T)
    requires Accounted(p) && !p.c.closed && p.c.receivers != []
    ensures Accounted(Step(p, SendOp(g, v)))
  {
    hide Taken, Takers, Somes, Values;
    TakenAppend(p.delivered, Delivery(Some(p.c.receivers[0]), v));
    SomesFirst(p.c.receivers);
    assert p.sent == Taken(p.delivered);
    var ids := Takers(p.delivered);
    assert p.begun == ids + Somes(p.c.receivers);
    assert ids + ([Some(p.c.receivers[0])] + Somes(p.c.receivers[1..]))
      == (ids + [Some(p.c.receivers[0])]) + Somes(p.c.receivers[1..]);
  }

  lemma TakenAppend<T>(d: seq<Delivery<T>>, x: Delivery<T>)
    ensures Taken(d + [x]) == Taken(d) + [x.value] && Takers(d + [x]) == Takers(d) + [x.to]
  {
  }

  lemma SomesFirst(s: seq<nat>)
    requires s != []
    ensures Somes(s) == [Some(s[0])] + Somes(s[1..])
  {
  }

  lemma Regroup<A>(a: seq<A>, x: A, b: seq<A>, v: A, c: seq<A>, d: seq<A>)
    ensures a + ([x] + b) + c + d == (a + [x]) + b + c + d
    ensures a + ([x] + b) + ([v] + c) + d == (a + [x]) + (b + [v]) + c + d
    ensures a + [] + ([v] + c) + d == (a + [v]) + [] + c + d
  {
  }

  /** A receive that gets a value: the sent values are only regrouped. */
  lemma GotRegroups<T>(p: Past<T>, g: Option<nat>)
    requires Accounted(p) && Recv(p.c, g).1.Got?
    ensures var p' := Step(p, RecvOp(g));
      p'.sent == Taken(p'.delivered) + p'.c.buffer + Values(p'.c.senders) + p'.dropped
  {
    var c, c' := p.c, Recv(p.c, g).0;
    var v := Recv(p.c, g).1.value;
    assert Taken(p.delivered + [Delivery(g, v)]) == Taken(p.delivered) + [v];
    if c.senders != [] {
      assert Values(c.senders) == [c.senders[0].value] + Values(c'.senders);
      if c.buffer != [] {
        assert c.buffer == [v] + c.buffer[1..];
        Regroup(Taken(p.delivered), v, c.buffer[1..], c.senders[0].value, Values(c'.senders), p.dropped);
      } else {
        Regroup(Taken(p.delivered), v, [], v, Values(c'.senders), p.dropped);
      }
    } else {
      assert c.buffer == [v] + c.buffer[1..];
      Regroup(Taken(p.delivered), v, c.buffer[1..], v, Values(c.senders), p.dropped);
    }
  }

  lemma GotAccounted<T>(p: Past<T>, g: Option<nat>)
    requires Accounted(p) && Recv(p.c, g).1.Got?
    ensures Accounted(Step(p, RecvOp(g)))
  {
    GotRegroups(p, g);
    GotTakes(p, g);
    hide Taken, Takers, Values, Somes;
  }

  lemma EmptyHanded<T>(p: Past<T>, g: Option<nat>)
    requires Accounted(p) && !Recv(p.c, g).1.Got?
    ensures Accounted(Step(p, RecvOp(g)))
  {
    RecvKeepsWellFormed(p.c, g);
    if Recv(p.c, g).1.RecvBlocks? { SomesLast(p.c.receivers, g.value); }
    assert Somes([]) == [];
    hide Taken, Takers, Values, Somes;
  }

  lemma RecvAccounted<T>(p: Past<T>, g: Option<nat>)
    requires Accounted(p)
    ensures Accounted(Step(p, RecvOp(g)))
  {
    hide Accounted, Step, Recv;
    if Recv(p.c, g).1.Got? { GotAccounted(p, g); } else { EmptyHanded(p, g); }
  }

  lemma SomesLast(s: seq<nat>, x: nat)
    ensures Somes(s + [x]) == Somes(s) + [Some(x)]
  {
  }

  lemma GotTakes<T>(p: Past<T>, g: Option<nat>)
    requires Accounted(p) && Recv(p.c, g).1.Got?
    ensures WellFormed(Recv(p.c, g).0) && p.zeros == []
    ensures var p' := Step(p, RecvOp(g)); p'.begun == Takers(p'.delivered) + p'.zeros + Somes(p'.c.receivers)
  {
    var p' := Step(p, RecvOp(g));
    assert Takers(p'.delivered) == Takers(p.delivered) + [g];
    assert Somes(p.c.receivers) == [];
  }

  lemma CloseAccounted<T>(p: Past<T>)
    requires Accounted(p)
    ensures Accounted(Step(p, CloseOp))
  {
    CloseKeepsWellFormed(p.c);
    if !p.c.closed {
      assert Values<T>([]) == [] && Somes([]) == [];
      hide Taken, Takers, Values, Somes;
      Dropped(Taken(p.delivered) + p.c.buffer, Values(p.c.senders));
      Dropped(Takers(p.delivered), Somes(p.c.receivers));
    }
  }

  lemma Dropped<A>(a: seq<A>, b: seq<A>)
    ensures a + b + [] == a + [] + ([] + b) && a + [] + b == a + ([] + b) + []
  {
  }

  /** Conservation and order over every run of every channel. */
  lemma {:induction false} RunAccounted<T>(cap: nat, ops: seq<Op<T>>)
    ensures Accounted(Run(cap, ops))
  {
    if ops != [] {
      var p := Run(cap, ops[..|ops| - 1]);
      RunAccounted(cap, ops[..|ops| - 1]);
      match ops[|ops| - 1]
      case SendOp(g, v) => SendAccounted(p, g, v);
      case RecvOp(g) => RecvAccounted(p, g);
      case CloseOp => CloseAccounted(p);
    }
  }

  /** The k-th receive to take the lock gets the k-th value sent. */
  lemma KthReceiveGetsKthSend<T>(cap: nat, ops: seq<Op<T>>, k: nat)
    requires k < |Run(cap, ops).delivered|
    ensures var p := Run(cap, ops);
      k < |p.begun| && k < |p.sent| && p.delivered[k] == Delivery(p.begun[k], p.sent[k])
  {
    RunAccounted(cap, ops);
    var p := Run(cap, ops);
    assert p.sent[k] == Taken(p.delivered)[k];
    assert p.begun[k] == Takers(p.delivered)[k];
  }

  /** After close, no receive gets zero while a value that close did not drop is still undelivered. */
  lemma ZerosComeLast<T>(cap: nat, ops: seq<Op<T>>)
    requires Run(cap, ops).zeros != []
    ensures var p := Run(cap, ops); p.c.closed && p.sent == Taken(p.delivered) + p.dropped
  {
    RunAccounted(cap, ops);
  }

  // ---------- What one thread's receive was answered ----------

  /** Receive k of the past got the answer: a sent value, or None for zero. */
  ghost predicate Gave<T>(p: Past<T>, k: nat, answer: Option<T>) {
    match answer
    case Some(v) => k < |p.delivered| && p.delivered[k].value == v
    case None => |p.delivered| <= k < |p.delivered| + |p.zeros|
  }

  /** Receive k is the last that g began. */
  predicate LastOf<T>(p: Past<T>, k: nat, g: nat) {
    k < |p.begun| && p.begun[k] == Some(g) && forall j :: k < j < |p.begun| ==> p.begun[j] != Some(g)
  }

  /** The last receive that g began got the answer. */
  ghost predicate Answered<T>(p: Past<T>, g: nat, answer: Option<T>) {
    exists k: nat :: LastOf(p, k, g) && Gave(p, k, answer)
  }

  /** Once a receive got zero, no later one gets a value. */
  lemma PastOnlyGrows<T>(p: Past<T>, op: Op<T>)
    requires Accounted(p)
    ensures var p' := Step(p, op);
      && p.delivered <= p'.delivered && p.zeros <= p'.zeros && (p.zeros != [] ==> p'.delivered == p.delivered)
      && p'.begun == if op.RecvOp? && !Recv(p.c, op.g).1.RecvStuck? then p.begun + [op.g] else p.begun
  {
    hide Taken, Takers, Values, Somes;
  }

  /** What was answered stays so until g begins another receive. */
  lemma AnswerStays<T>(p: Past<T>, op: Op<T>, g: nat, answer: Option<T>)
    requires Accounted(p) && Answered(p, g, answer) && op != RecvOp(Some(g))
    ensures Answered(Step(p, op), g, answer)
  {
    var k: nat :| LastOf(p, k, g) && Gave(p, k, answer);
    var p' := Step(p, op);
    PastOnlyGrows(p, op);
    hide Accounted, Step;
    assert LastOf(p', k, g) && Gave(p', k, answer);
  }

  /** The receiver that a send hands its value to is answered with it. */
  lemma HandedAnswers<T>(p: Past<T>, g: Option<nat>, v: T)
    requires Accounted(p) && !p.c.closed && p.c.receivers != [] && p.c.receivers[0] !in p.c.receivers[1..]
    ensures Answered(Step(p, SendOp(g, v)), p.c.receivers[0], Some(v))
  {
    var k, p' := |p.delivered|, Step(p, SendOp(g, v));
    WaitersBegun(p);
    forall j | k < j < |p'.begun| ensures p'.begun[j] != Some(p.c.receivers[0]) {
      assert p.c.receivers[j - k] == p.c.receivers[1..][j - k - 1];
    }
    assert LastOf(p', k, p.c.receivers[0]) && Gave(p', k, Some(v));
  }

  /** The waiting receivers are the last receives begun. */
  lemma WaitersBegun<T>(p: Past<T>)
    requires Accounted(p) && !p.c.closed
    ensures |p.begun| == |p.delivered| + |p.c.receivers|
    ensures forall j :: |p.delivered| <= j < |p.begun| ==> p.begun[j] == Some(p.c.receivers[j - |p.delivered|])
  {
  }

  /** The receivers that wait when a channel is closed are answered with zero. */
  lemma CloseAnswers<T>(p: Past<T>, i: nat)
    requires Accounted(p) && !p.c.closed && i < |p.c.receivers| && p.c.receivers[i] !in p.c.receivers[i + 1..]
    ensures Answered(Step(p, CloseOp), p.c.receivers[i], None)
  {
    var k, p' := |p.delivered| + i, Step(p, CloseOp);
    WaitersBegun(p);
    forall j | k < j < |p'.begun| ensures p'.begun[j] != Some(p.c.receivers[i]) {
      assert p.c.receivers[j - |p.delivered|] == p.c.receivers[i + 1..][j - k - 1];
    }
    assert LastOf(p', k, p.c.receivers[i]) && Gave(p', k, None);
  }
}
