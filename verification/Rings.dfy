/** The drop-oldest rings of src/keyb.c (64 keys) and src/serial.c (256 characters): one slot always stays free. */
module Rings {
  /* The queue that a ring stands for */

  function Push(q: seq<int>, x: int, cap: nat): (r: seq<int>)
    requires cap > 0
  {
    if |q| >= cap then q[1..] + [x] else q + [x]
  }

  /** kb_getkey, -1 when there is nothing. */
  function Pop(q: seq<int>): (int, seq<int>) {
    if q == [] then (-1, []) else (q[0], q[1..])
  }

  /** kb_putback: in front, or over the oldest. */
  function PutFront(q: seq<int>, x: int, cap: nat): seq<int>
    requires cap > 0
  {
    if |q| >= cap then [x] + q[1..] else [x] + q
  }

  /** kb_wait: getting a key and putting it back leaves the queue as it was. */
  lemma GetThenPutBack(q: seq<int>, cap: nat)
    requires cap > 0 && q != [] && |q| <= cap
    ensures PutFront(Pop(q).1, Pop(q).0, cap) == q
  {
    assert [q[0]] + q[1..] == q;
  }

  /** Putting back and then getting yields the key, and the queue again unless it was full: then the oldest is lost. */
  lemma PutBackThenGet(q: seq<int>, x: int, cap: nat)
    requires cap > 0 && |q| <= cap
    ensures Pop(PutFront(q, x, cap)).0 == x
    ensures Pop(PutFront(q, x, cap)).1 == q <==> |q| < cap
    ensures |q| == cap ==> [q[0]] + Pop(PutFront(q, x, cap)).1 == q
  {
    if |q| < cap { assert ([x] + q)[1..] == q; } else { assert ([x] + q[1..])[1..] == q[1..]; }
  }

  function PushAll(q: seq<int>, xs: seq<int>, cap: nat): seq<int>
    requires cap > 0
    decreases |xs|
  {
    if xs == [] then q else PushAll(Push(q, xs[0], cap), xs[1..], cap)
  }

  /** The last n elements. */
  function LastOf(s: seq<int>, n: nat): (r: seq<int>)
    ensures |r| == if n < |s| then n else |s|
  {
    if n < |s| then s[|s| - n..] else s
  }

  /** A burst leaves the last keys of all that were pressed. */
  lemma {:induction false} BurstKeepsLast(q: seq<int>, xs: seq<int>, cap: nat)
    requires cap > 0 && |q| <= cap
    ensures PushAll(q, xs, cap) == LastOf(q + xs, cap)
    decreases |xs|
  {
    if xs == [] {
      assert q + xs == q;
    } else {
      BurstKeepsLast(Push(q, xs[0], cap), xs[1..], cap);
      PushedLast(q, xs, cap);
    }
  }

  lemma PushedLast(q: seq<int>, xs: seq<int>, cap: nat)
    requires cap > 0 && |q| <= cap && xs != []
    ensures LastOf(Push(q, xs[0], cap) + xs[1..], cap) == LastOf(q + xs, cap)
  {
    if |q| >= cap {
      assert q + xs == [q[0]] + (q[1..] + [xs[0]] + xs[1..]);
    } else {
      assert q + xs == q + [xs[0]] + xs[1..];
    }
  }

  /* The ring on values: slots, read index, write index */

  /** The mask that the code uses is the remainder, the sizes being powers of two. */
  function Next(i: nat, n: nat): (r: nat)
    requires i < n
    ensures r == if i + 1 == n then 0 else i + 1
  {
    (i + 1) % n
  }

  function Count(n: nat, r: nat, w: nat): nat
    requires r < n && w < n
  {
    if w >= r then w - r else w + n - r
  }

  /** The slot of the i-th oldest element. */
  function Slot(n: nat, r: nat, i: nat): (k: nat)
    requires r < n && i < n
    ensures k < n
  {
    if r + i < n then r + i else r + i - n
  }

  function Items(s: seq<int>, r: nat, w: nat): (q: seq<int>)
    requires r < |s| && w < |s|
    ensures |q| == Count(|s|, r, w) && forall i | 0 <= i < |q| :: q[i] == s[Slot(|s|, r, i)]
  {
    seq(Count(|s|, r, w), i requires 0 <= i < Count(|s|, r, w) => s[Slot(|s|, r, i)])
  }

  lemma ItemsAre(s: seq<int>, r: nat, w: nat, q: seq<int>)
    requires r < |s| && w < |s| && |q| == Count(|s|, r, w)
    requires forall i | 0 <= i < |q| :: q[i] == s[Slot(|s|, r, i)]
    ensures Items(s, r, w) == q
  {
  }

  lemma AppendItems(s: seq<int>, r: nat, w: nat, x: int)
    requires |s| > 1 && r < |s| && w < |s|
    ensures var v := Next(w, |s|);
      Items(s[w := x], if v == r then Next(r, |s|) else r, v) == Push(Items(s, r, w), x, |s| - 1)
  {
    var v := Next(w, |s|);
    var q := Items(s, r, w);
    if v == r {
      ItemsAre(s[w := x], Next(r, |s|), v, q[1..] + [x]);
    } else {
      ItemsAre(s[w := x], r, v, q + [x]);
    }
  }

  lemma GetItems(s: seq<int>, r: nat, w: nat)
    requires r < |s| && w < |s|
    ensures r == w <==> Items(s, r, w) == []
    ensures r != w ==> Pop(Items(s, r, w)) == (s[r], Items(s, Next(r, |s|), w))
  {
    if r != w {
      assert Items(s, r, w)[0] == s[r];
      ItemsAre(s, Next(r, |s|), w, Items(s, r, w)[1..]);
    }
  }

  lemma PutBackItems(s: seq<int>, r: nat, w: nat, x: int)
    requires |s| > 1 && r < |s| && w < |s|
    ensures var b := if r > 0 then r - 1 else |s| - 1; var u := if b == w then Next(b, |s|) else b;
      Items(s[u := x], u, w) == PutFront(Items(s, r, w), x, |s| - 1)
  {
    var b := if r > 0 then r - 1 else |s| - 1;
    var q := Items(s, r, w);
    if b == w {
      assert Next(b, |s|) == r;
      ItemsAre(s[r := x], r, w, [x] + q[1..]);
    } else {
      ItemsAre(s[b := x], b, w, [x] + q);
    }
  }

  /* The ring */

  class Ring {
    const buf: array<int>
    var ridx: nat
    var widx: nat

    ghost predicate Valid()
      reads this
    {
      buf.Length > 1 && ridx < buf.Length && widx < buf.Length
    }

    ghost function Queue(): seq<int>
      requires Valid()
      reads this, buf
    {
      Items(buf[..], ridx, widx)
    }

    ghost function Capacity(): nat
      requires Valid()
      reads this
    {
      buf.Length - 1
    }

    constructor (size: nat)
      requires size > 1
      ensures Valid() && Queue() == [] && Capacity() == size - 1 && fresh(buf)
    {
      buf := new int[size];
      ridx, widx := 0, 0;
    }

    /** The append of the interrupt handlers. */
    method Append(x: int)
      requires Valid()
      modifies this, buf
      ensures Valid() && Queue() == Push(old(Queue()), x, Capacity())
    {
      hide Items, Push;
      AppendItems(buf[..], ridx, widx, x);
      buf[widx] := x;
      widx := Next(widx, buf.Length);
      if widx == ridx {
        ridx := Next(ridx, buf.Length);
      }
    }

    /** kb_getkey, and the nonblocking ser_getc. */
    method Get() returns (x: int)
      requires Valid()
      modifies this`ridx
      ensures Valid() && (x, Queue()) == Pop(old(Queue()))
    {
      hide Items;
      GetItems(buf[..], ridx, widx);
      if ridx == widx {
        return -1;
      }
      x := buf[ridx];
      ridx := Next(ridx, buf.Length);
    }

    method PutBack(x: int)
      requires Valid()
      modifies this`ridx, buf
      ensures Valid() && Queue() == PutFront(old(Queue()), x, Capacity())
    {
      hide Items, PutFront;
      PutBackItems(buf[..], ridx, widx, x);
      ridx := if ridx > 0 then ridx - 1 else buf.Length - 1;
      if ridx == widx {
        ridx := Next(ridx, buf.Length);
      }
      buf[ridx] := x;
    }

    /** kb_wait once there is a key, the sleep before it is not modelled. */
    method Wait()
      requires Valid() && Queue() != []
      modifies this`ridx, buf
      ensures Valid() && Queue() == old(Queue())
    {
      GetThenPutBack(Queue(), Capacity());
      var key := Get();
      PutBack(key);
    }

    /** ser_read of a nonblocking port. */
    method Read(dst: array<int>, count: nat) returns (n: nat)
      requires Valid() && count <= dst.Length && dst != buf
      modifies this`ridx, dst
      ensures Valid() && n <= count && (dst[..n], Queue()) == TakeAll(old(Queue()), count)
      ensures dst[n..] == old(dst[n..])
    {
      hide Items, TakeAll, Pop;
      n := 0;
      ghost var all := TakeAll(Queue(), count);
      while n < count
        invariant Valid() && n <= count && dst[n..] == old(dst[n..])
        invariant all.0 == dst[..n] + TakeAll(Queue(), count - n).0 && all.1 == TakeAll(Queue(), count - n).1
      {
        TakeStep(Queue(), count - n, dst[..n]);
        ghost var had := dst[..n];
        var c := Get();
        if c == -1 {
          assert all.0 == dst[..n];
          return;
        }
        dst[n] := c;
        n := n + 1;
        assert dst[..n] == had + [c];
      }
      TakeNone(Queue());
      assert all.0 == dst[..n];
    }

    /** ser_getc of a blocking port: the wait ends when a character arrives; `arrivals` are those of all waits. */
    method GetBlocking(arrivals: seq<int>, used: nat) returns (x: int, now: nat)
      requires Valid() && used <= |arrivals| && (Queue() == [] ==> used < |arrivals|)
      modifies this, buf
      ensures Valid() && used <= now <= |arrivals|
      ensures [x] + (Queue() + arrivals[now..]) == old(Queue()) + arrivals[used..]
    {
      hide Items, Push;
      GetItems(buf[..], ridx, widx);
      now := used;
      ghost var q := Queue();
      if ridx == widx {
        Append(arrivals[now]);
        PushFirst(arrivals[now], Capacity());
        now := now + 1;
      }
      ghost var p := Queue();
      x := Get();
      assert p == [x] + Queue();
      assert p + arrivals[now..] == q + arrivals[used..];
    }

    /** ser_read of a blocking port, which takes from what is there and what then arrives. */
    method ReadBlocking(dst: array<int>, count: nat, arrivals: seq<int>) returns (n: nat, used: nat)
      requires Valid() && count <= dst.Length && dst != buf && |Queue()| + |arrivals| >= count
      modifies this, buf, dst
      ensures Valid() && n <= count && used <= |arrivals| && dst[n..] == old(dst[n..])
      ensures (dst[..n], Queue() + arrivals[used..]) == TakeAll(old(Queue()) + arrivals, count)
    {
      hide Items, TakeAll, Pop;
      n, used := 0, 0;
      ghost var all := TakeAll(Queue() + arrivals, count);
      assert arrivals[0..] == arrivals;
      while n < count
        invariant Valid() && n <= count && used <= |arrivals| && dst[n..] == old(dst[n..])
        invariant |Queue() + arrivals[used..]| >= count - n
        invariant all.0 == dst[..n] + TakeAll(Queue() + arrivals[used..], count - n).0
        invariant all.1 == TakeAll(Queue() + arrivals[used..], count - n).1
      {
        ghost var stream, had := Queue() + arrivals[used..], dst[..n];
        var c;
        c, used := GetBlocking(arrivals, used);
        PopFirst(c, Queue() + arrivals[used..]);
        TakeStep(stream, count - n, had);
        if c == -1 {
          assert all.0 == dst[..n];
          return;
        }
        dst[n] := c;
        n := n + 1;
        assert dst[..n] == had + [c];
      }
      TakeNone(Queue() + arrivals[used..]);
      assert all.0 == dst[..n];
    }
  }

  lemma PushFirst(x: int, cap: nat)
    requires cap > 0
    ensures Push([], x, cap) == [x]
  {
  }

  lemma PopFirst(x: int, rest: seq<int>)
    ensures Pop([x] + rest) == (x, rest)
  {
  }

  /** What ser_read takes: it stops at a character of -1, which it drops. */
  function TakeAll(q: seq<int>, count: nat): (r: (seq<int>, seq<int>))
    ensures |r.0| <= count
  {
    if count == 0 || q == [] then ([], q)
    else if q[0] == -1 then ([], q[1..])
    else ([q[0]] + TakeAll(q[1..], count - 1).0, TakeAll(q[1..], count - 1).1)
  }

  /** A turn of the loop of ser_read. */
  lemma TakeStep(q: seq<int>, k: nat, had: seq<int>)
    requires k > 0
    ensures var (c, rest) := Pop(q);
      if c == -1 then TakeAll(q, k) == ([], rest)
      else TakeAll(q, k).1 == TakeAll(rest, k - 1).1 && had + TakeAll(q, k).0 == had + [c] + TakeAll(rest, k - 1).0
  {
  }

  lemma TakeNone(q: seq<int>)
    ensures TakeAll(q, 0) == ([], q)
  {
  }

  /** ser_read takes the oldest characters, as many as there are and fit, exactly when none of them is -1. */
  lemma {:induction false} TakeExactly(q: seq<int>, count: nat)
    ensures var n := if count < |q| then count else |q|;
      TakeAll(q, count) == (q[..n], q[n..]) <==> -1 !in q[..n]
    decreases count
  {
    if count > 0 && q != [] {
      var n := if count < |q| then count else |q|;
      TakeExactly(q[1..], count - 1);
      assert q[..n] == [q[0]] + q[1..][..n - 1];
      assert q[n..] == q[1..][n - 1..];
      assert q[..n][0] == q[0];
      var a := TakeAll(q[1..], count - 1);
      assert ([q[0]] + a.0)[1..] == a.0;
      assert ([q[0]] + q[1..][..n - 1])[1..] == q[1..][..n - 1];
    }
  }

  /* Runs of the keyboard buffer */

  datatype Op = Press(key: int) | GetKey | PutKey(key: int) | WaitKey

  /** The queue, every key in the order in which it is due to a reader, and how many of them were read or dropped.
      A pressed key is due last, one that is put back is due next. */
  datatype State = State(q: seq<int>, log: seq<int>, read: nat, dropped: nat) {
    function Next(): nat { read + dropped }
  }

  /** The queue is the keys that are due, in order, and every other key was read or dropped. */
  ghost predicate Inv(s: State, cap: nat) {
    |s.q| <= cap && s.Next() <= |s.log| && s.q == s.log[s.Next()..]
  }

  function Step(s: State, op: Op, cap: nat): State
    requires cap > 0 && s.Next() <= |s.log|
  {
    var full := |s.q| >= cap;
    match op
    case Press(key) =>
      s.(q := Push(s.q, key, cap), log := s.log + [key], dropped := if full then s.dropped + 1 else s.dropped)
    case GetKey => if s.q == [] then s else s.(q := Pop(s.q).1, read := s.read + 1)
    case PutKey(key) =>
      var k := if full && s.Next() < |s.log| then s.Next() + 1 else s.Next();
      s.(q := PutFront(s.q, key, cap), log := s.log[..k] + [key] + s.log[k..],
         dropped := if full then s.dropped + 1 else s.dropped)
    case WaitKey => if s.q == [] then s else s.(q := PutFront(Pop(s.q).1, Pop(s.q).0, cap))
  }

  lemma StepKeepsInv(s: State, op: Op, cap: nat)
    requires cap > 0 && Inv(s, cap)
    ensures Inv(Step(s, op, cap), cap)
  {
    var k := s.Next();
    match op
    case Press(key) =>
      assert (s.log + [key])[k..] == s.q + [key];
      if |s.q| >= cap { assert (s.log + [key])[k + 1..] == s.q[1..] + [key]; }
    case GetKey =>
      if s.q != [] { assert s.log[k..][1..] == s.log[k + 1..]; }
    case PutKey(key) => PutKeepsInv(s, key, cap);
    case WaitKey =>
      if s.q != [] { GetThenPutBack(s.q, cap); }
  }

  lemma PutKeepsInv(s: State, key: int, cap: nat)
    requires cap > 0 && Inv(s, cap)
    ensures Inv(Step(s, PutKey(key), cap), cap)
  {
    var k := s.Next();
    InsertedNext(s.log, k, key);
    if |s.q| >= cap {
      assert s.log[k..][1..] == s.log[k + 1..];
      InsertedNext(s.log, k + 1, key);
    }
  }

  lemma InsertedNext(log: seq<int>, k: nat, key: int)
    requires k <= |log|
    ensures (log[..k] + [key] + log[k..])[k..] == [key] + log[k..]
  {
  }

  ghost function RunAll(s: State, ops: seq<Op>, cap: nat): State
    requires cap > 0 && Inv(s, cap)
    decreases |ops|
  {
    if ops == [] then s
    else StepKeepsInv(s, ops[0], cap); RunAll(Step(s, ops[0], cap), ops[1..], cap)
  }

  /** Over every run: the buffer holds the keys that are due, in order, and every other key was read or dropped. */
  lemma {:induction false} RunsKeepOrder(s: State, ops: seq<Op>, cap: nat)
    requires cap > 0 && Inv(s, cap)
    ensures Inv(RunAll(s, ops, cap), cap)
    decreases |ops|
  {
    if ops != [] {
      StepKeepsInv(s, ops[0], cap);
      RunsKeepOrder(Step(s, ops[0], cap), ops[1..], cap);
    }
  }

  function Pressed(ops: seq<Op>): seq<int> {
    if ops == [] then [] else (if ops[0].Press? then [ops[0].key] else []) + Pressed(ops[1..])
  }

  function Presses(ops: seq<Op>): nat {
    if ops == [] then 0 else (if ops[0].Press? then 1 else 0) + Presses(ops[1..])
  }

  /** Without put-backs the keys are due in the order in which they were pressed, and while no more keys than the buffer
      holds are pressed none is dropped. */
  lemma {:induction false} DueAsPressed(s: State, ops: seq<Op>, cap: nat)
    requires cap > 0 && Inv(s, cap) && forall op | op in ops :: !op.PutKey?
    ensures var t := RunAll(s, ops, cap);
      t.log == s.log + Pressed(ops) && (|s.q| + Presses(ops) <= cap ==> t.dropped == s.dropped)
    decreases |ops|
  {
    hide Step;
    if ops == [] {
      assert s.log + [] == s.log;
    } else {
      StepKeepsInv(s, ops[0], cap);
      assert ops[0] in ops;
      StepAsPressed(s, ops[0], cap);
      DueAsPressed(Step(s, ops[0], cap), ops[1..], cap);
    }
  }

  lemma StepAsPressed(s: State, op: Op, cap: nat)
    requires cap > 0 && Inv(s, cap) && !op.PutKey?
    ensures var t := Step(s, op, cap);
      forall rest :: t.log + rest == s.log + ((if op.Press? then [op.key] else []) + rest)
    ensures var t := Step(s, op, cap);
      && |t.q| <= |s.q| + (if op.Press? then 1 else 0)
      && (|s.q| < cap || !op.Press? ==> t.dropped == s.dropped)
  {
    if op.WaitKey? && s.q != [] { GetThenPutBack(s.q, cap); }
    forall rest
      ensures Step(s, op, cap).log + rest == s.log + ((if op.Press? then [op.key] else []) + rest)
    {
    }
  }
}
