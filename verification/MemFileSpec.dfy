/** Files of src/fsmem.c on values: a growable buffer shared by the handles that are open on it. */
module MemFileSpec {
  import opened Words

  /** struct memfs_file: the whole buffer, max_size is its length; `copied` counts the bytes that realloc moved. */
  datatype File = File(data: seq<byte>, size: nat, copied: nat) {
    ghost predicate Ok() { size <= |data| }

    function Content(): seq<byte>
      requires Ok()
    {
      data[..size]
    }
  }

  /** The size that write asks realloc for when the written end is past the buffer. */
  function Grown(max: nat, total: nat): nat
    requires max < total
  {
    if total < max * 2 then max * 2 else total
  }

  /** A growth at least doubles the buffer, covers the write, and stays below twice the written end. */
  lemma GrownBounds(max: nat, total: nat)
    requires max < total
    ensures total <= Grown(max, total) < 2 * total && 2 * max <= Grown(max, total)
    ensures Grown(max, total) == total || Grown(max, total) == 2 * max
    ensures total < INT_END && max * 2 < INT_END ==> Grown(max, total) < INT_END
  {
  }

  predicate MustGrow(f: File, pos: nat, sz: nat) {
    pos + sz > |f.data|
  }

  /** No int of write overflows: not the written end, nor the doubled size where it is computed. */
  predicate FitsInt(f: File, pos: nat, sz: nat) {
    pos + sz < INT_END && (MustGrow(f, pos, sz) ==> |f.data| * 2 < INT_END)
  }

  /** How much realloc adds. */
  function Growth(f: File, pos: nat, sz: nat): nat {
    if MustGrow(f, pos, sz) then Grown(|f.data|, pos + sz) - |f.data| else 0
  }

  /** realloc: the old bytes, then whatever the memory held. */
  function Resized(f: File, junk: seq<byte>): File {
    if junk == [] then f else f.(data := f.data + junk, copied := f.copied + |f.data|)
  }

  /** The bytes put into the buffer, and the size after them. */
  function Stored(f: File, pos: nat, bytes: seq<byte>): File
    requires pos + |bytes| <= |f.data|
  {
    var end := pos + |bytes|;
    f.(data := f.data[..pos] + bytes + f.data[end..], size := if end > f.size then end else f.size)
  }

  /** write, when it gets its memory. */
  function Written(f: File, pos: nat, bytes: seq<byte>, junk: seq<byte>): (g: File)
    requires |junk| == Growth(f, pos, |bytes|)
    ensures |g.data| == |f.data| + |junk| && pos + |bytes| <= |g.data|
    ensures forall i | 0 <= i < |g.data| :: g.data[i]
              == if pos <= i < pos + |bytes| then bytes[i - pos]
                 else if i < |f.data| then f.data[i]
                 else junk[i - |f.data|]
  {
    Stored(Resized(f, junk), pos, bytes)
  }

  /** How many bytes read copies, as the code computes it. */
  function ReadLength(f: File, pos: nat, sz: nat): int {
    if sz > f.size - pos then f.size - pos else sz
  }

  /** It is a length exactly when the position is not past the end; then the read stops only at the end or when it has
      all that was asked for. */
  lemma ReadLengthExactly(f: File, pos: nat, sz: nat)
    ensures ReadLength(f, pos, sz) >= 0 <==> pos <= f.size
    ensures pos <= f.size ==> pos + ReadLength(f, pos, sz) <= f.size && ReadLength(f, pos, sz) <= sz
    ensures pos <= f.size ==> ReadLength(f, pos, sz) == sz || pos + ReadLength(f, pos, sz) == f.size
  {
  }

  datatype Whence = Set | Cur | End

  /** The sum that seek forms. */
  function Sum(f: File, pos: nat, offs: int, whence: Whence): int {
    match whence
    case Set => offs
    case Cur => pos + offs
    case End => f.size + offs
  }

  function Clamp(pos: int): nat { if pos < 0 then 0 else pos }

  /** The new position: the sum in a long, 0 if it is negative there. */
  function Target(f: File, pos: nat, offs: int, whence: Whence): (t: nat)
    ensures t < INT_END
  {
    Clamp(Wrap(Sum(f, pos, offs, whence)))
  }

  /** It is the clamped sum exactly while the sum does not overflow, and otherwise 0. */
  lemma TargetExactly(f: File, pos: nat, offs: int, whence: Whence)
    requires pos < INT_END && f.size < INT_END && -INT_END <= offs < INT_END
    ensures Target(f, pos, offs, whence) == Clamp(Sum(f, pos, offs, whence)) <==> Sum(f, pos, offs, whence) < INT_END
    ensures Sum(f, pos, offs, whence) >= INT_END ==> Target(f, pos, offs, whence) == 0
  {
  }

  /** While nothing overflows a seek moves by the offset from the start, the position or the end, but not before the
      start. */
  lemma SeekMoves(f: File, pos: nat, offs: int)
    requires pos < INT_END && f.size < INT_END && -INT_END <= offs < INT_END
    ensures Target(f, pos, offs, Set) == if offs < 0 then 0 else offs
    ensures pos + offs < INT_END ==> Target(f, pos, offs, Cur) == if pos + offs < 0 then 0 else pos + offs
    ensures f.size + offs < INT_END ==> Target(f, pos, offs, End) == if f.size + offs < 0 then 0 else f.size + offs
  {
  }

  /** One further than the largest position is the start. */
  lemma SeekWraps(f: File)
    requires f.size < INT_END
    ensures Target(f, Target(f, 0, INT_END - 1, Set), 1, Cur) == 0
  {
    TargetExactly(f, 0, INT_END - 1, Set);
    TargetExactly(f, INT_END - 1, 1, Cur);
  }

  /* The history of a file */

  datatype Entry = Entry(pos: nat, bytes: seq<byte>) {
    function End(): nat { pos + |bytes| }

    predicate Covers(i: nat) { pos <= i < End() }
  }

  /** The end of the furthest write. */
  function MaxEnd(log: seq<Entry>): nat {
    if log == [] then 0
    else if log[|log| - 1].End() > MaxEnd(log[..|log| - 1]) then log[|log| - 1].End()
    else MaxEnd(log[..|log| - 1])
  }

  predicate Covered(log: seq<Entry>, i: nat) {
    exists k | 0 <= k < |log| :: log[k].Covers(i)
  }

  /** The byte that the last of the writes covering i left there. */
  function Last(log: seq<Entry>, i: nat): (b: byte)
    requires Covered(log, i)
  {
    var e := log[|log| - 1];
    if e.Covers(i) then e.bytes[i - e.pos] else Last(log[..|log| - 1], i)
  }

  /** Growth keeps within its bounds, and every byte ever written is the one last written. */
  ghost predicate Inv(f: File, log: seq<Entry>) {
    && f.Ok() && f.size == MaxEnd(log)
    && (f.data == [] || |f.data| < 2 * f.size) && f.copied <= |f.data|
    && forall i: nat | i < f.size && Covered(log, i) :: f.data[i] == Last(log, i)
  }

  lemma WriteKeepsInv(f: File, log: seq<Entry>, pos: nat, bytes: seq<byte>, junk: seq<byte>)
    requires Inv(f, log) && |junk| == Growth(f, pos, |bytes|)
    ensures Inv(Written(f, pos, bytes, junk), log + [Entry(pos, bytes)])
  {
    var e := Entry(pos, bytes);
    var g := Written(f, pos, bytes, junk);
    assert (log + [e])[..|log|] == log;
    if MustGrow(f, pos, |bytes|) { GrownBounds(|f.data|, pos + |bytes|); }
    forall i: nat | i < g.size && Covered(log + [e], i)
      ensures g.data[i] == Last(log + [e], i)
    {
      LastOf(log, e, i);
      if !e.Covers(i) { EndBound(log, i); }
    }
  }

  lemma LastOf(log: seq<Entry>, e: Entry, i: nat)
    requires Covered(log + [e], i)
    ensures e.Covers(i) ==> Last(log + [e], i) == e.bytes[i - e.pos]
    ensures !e.Covers(i) ==> Covered(log, i) && Last(log + [e], i) == Last(log, i)
  {
    assert (log + [e])[..|log|] == log;
    var k :| 0 <= k < |log + [e]| && (log + [e])[k].Covers(i);
    if k < |log| { assert log[k].Covers(i); }
  }

  lemma {:induction false} EndBound(log: seq<Entry>, i: nat)
    requires Covered(log, i)
    ensures i < MaxEnd(log)
  {
    var k :| 0 <= k < |log| && log[k].Covers(i);
    var before := log[..|log| - 1];
    if k < |log| - 1 {
      assert before[k].Covers(i);
      EndBound(before, i);
    }
  }

  /** Without a write past the end there are no holes. */
  lemma {:induction false} Dense(log: seq<Entry>, i: nat)
    requires forall k | 0 <= k < |log| :: log[k].pos <= MaxEnd(log[..k])
    requires i < MaxEnd(log)
    ensures Covered(log, i)
  {
    var n := |log| - 1;
    var before := log[..n];
    assert log[n].pos <= MaxEnd(log[..n]);
    if i < MaxEnd(before) {
      forall k | 0 <= k < |before| ensures before[k].pos <= MaxEnd(before[..k]) {
        assert before[..k] == log[..k];
        assert log[k].pos <= MaxEnd(log[..k]);
      }
      Dense(before, i);
      var k :| 0 <= k < |before| && before[k].Covers(i);
      assert log[k].Covers(i);
    } else {
      assert log[n].Covers(i);
    }
  }

  /** Every byte of the file has been written, at every time, exactly when no write starts past the end: the bytes that
      such a write skips are those that realloc found, and reads return them. */
  lemma DenseExactly(log: seq<Entry>)
    ensures (forall n: nat | n <= |log| :: AllCovered(log[..n]))
      <==> (forall k: nat | k < |log| :: log[k].pos <= MaxEnd(log[..k]))
  {
    if k: nat :| k < |log| && log[k].pos > MaxEnd(log[..k]) {
      HoleIsOpen(log, k);
      assert !AllCovered(log[..k + 1]);
    } else {
      forall n: nat | n <= |log| ensures AllCovered(log[..n]) {
        assert forall k: nat | k < n :: log[..n][..k] == log[..k];
        forall i: nat | i < MaxEnd(log[..n]) { Dense(log[..n], i); }
      }
    }
  }

  ghost predicate AllCovered(log: seq<Entry>) {
    forall i: nat | i < MaxEnd(log) :: Covered(log, i)
  }

  /** The byte at the end is not covered after a write past it. */
  lemma HoleIsOpen(log: seq<Entry>, k: nat)
    requires k < |log| && log[k].pos > MaxEnd(log[..k])
    ensures var i := MaxEnd(log[..k]); i < MaxEnd(log[..k + 1]) && !Covered(log[..k + 1], i)
  {
    var i, more := MaxEnd(log[..k]), log[..k + 1];
    assert more[..k] == log[..k];
    if Covered(more, i) {
      var m :| 0 <= m < |more| && more[m].Covers(i);
      assert m < k && log[..k][m].Covers(i);
      EndBound(log[..k], i);
    }
  }

  /* Runs of operations on several handles */

  datatype Op =
    | Open
    | Read(h: nat, sz: nat)
    | Write(h: nat, bytes: seq<byte>, granted: bool, junk: seq<byte>)
    | Seek(h: nat, offs: int, whence: Whence)

  datatype State = State(f: File, pos: seq<nat>)

  predicate Fails(s: State, op: Op)
    requires op.Write? && op.h < |s.pos|
  {
    MustGrow(s.f, s.pos[op.h], |op.bytes|) && !op.granted
  }

  /** A read starts inside the file, a write overflows no int, and the memory for it has the right length. */
  predicate Allowed(s: State, op: Op) {
    op.Open? || (op.h < |s.pos| &&
                 match op
                 case Read(h, sz) => s.pos[h] <= s.f.size
                 case Write(h, bytes, granted, junk) =>
                   FitsInt(s.f, s.pos[h], |bytes|) && (Fails(s, op) || |junk| == Growth(s.f, s.pos[h], |bytes|))
                 case _ => true)
  }

  function Output(s: State, op: Op): seq<byte>
    requires s.f.Ok() && Allowed(s, op)
  {
    if op.Read? then s.f.data[s.pos[op.h]..s.pos[op.h] + ReadLength(s.f, s.pos[op.h], op.sz)] else []
  }

  function After(s: State, op: Op): State
    requires s.f.Ok() && Allowed(s, op)
  {
    match op
    case Open => s.(pos := s.pos + [0])
    case Read(h, sz) => s.(pos := s.pos[h := s.pos[h] + ReadLength(s.f, s.pos[h], sz)])
    case Seek(h, offs, whence) => s.(pos := s.pos[h := Target(s.f, s.pos[h], offs, whence)])
    case Write(h, bytes, granted, junk) =>
      if Fails(s, op) then s
      else State(Written(s.f, s.pos[h], bytes, junk), s.pos[h := s.pos[h] + |bytes|])
  }

  function LogAfter(s: State, op: Op, log: seq<Entry>): seq<Entry>
    requires s.f.Ok() && Allowed(s, op)
  {
    if op.Write? && !Fails(s, op) then log + [Entry(s.pos[op.h], op.bytes)] else log
  }

  lemma StepKeepsInv(s: State, op: Op, log: seq<Entry>)
    requires Inv(s.f, log) && Allowed(s, op)
    ensures Inv(After(s, op).f, LogAfter(s, op, log))
  {
    if op.Write? && !Fails(s, op) { WriteKeepsInv(s.f, log, s.pos[op.h], op.bytes, op.junk); }
  }

  ghost predicate AllAllowed(s: State, ops: seq<Op>)
    requires s.f.Ok()
    decreases |ops|
  {
    ops == [] || (Allowed(s, ops[0]) && After(s, ops[0]).f.Ok() && AllAllowed(After(s, ops[0]), ops[1..]))
  }

  ghost function RunAll(s: State, ops: seq<Op>): State
    requires s.f.Ok() && AllAllowed(s, ops)
    decreases |ops|
  {
    if ops == [] then s else RunAll(After(s, ops[0]), ops[1..])
  }

  ghost function LogOf(s: State, ops: seq<Op>, log: seq<Entry>): seq<Entry>
    requires s.f.Ok() && AllAllowed(s, ops)
    decreases |ops|
  {
    if ops == [] then log else LogOf(After(s, ops[0]), ops[1..], LogAfter(s, ops[0], log))
  }

  /** Over every interleaving of the handles: the size is the furthest written end, the buffer stays below twice the
      size, all growth together copied no more than the buffer holds, and every byte is the last one written there. */
  lemma {:induction false} RunsKeepInv(s: State, ops: seq<Op>, log: seq<Entry>)
    requires Inv(s.f, log) && AllAllowed(s, ops)
    ensures Inv(RunAll(s, ops).f, LogOf(s, ops, log))
    decreases |ops|
  {
    if ops != [] {
      StepKeepsInv(s, ops[0], log);
      RunsKeepInv(After(s, ops[0]), ops[1..], LogAfter(s, ops[0], log));
    }
  }

  /** Every int of the state is one. */
  ghost predicate InInts(s: State) {
    s.f.Ok() && |s.f.data| < INT_END && forall h | 0 <= h < |s.pos| :: s.pos[h] < INT_END
  }

  lemma StepStaysInInts(s: State, op: Op)
    requires InInts(s) && Allowed(s, op)
    ensures InInts(After(s, op))
  {
    if op.Write? && !Fails(s, op) && MustGrow(s.f, s.pos[op.h], |op.bytes|) {
      GrownBounds(|s.f.data|, s.pos[op.h] + |op.bytes|);
    }
  }

  /** Over every such run sizes and positions stay ints, so that TargetExactly applies to every seek. */
  lemma {:induction false} RunsStayInInts(s: State, ops: seq<Op>)
    requires InInts(s) && AllAllowed(s, ops)
    ensures InInts(RunAll(s, ops))
    decreases |ops|
  {
    if ops != [] {
      StepStaysInInts(s, ops[0]);
      RunsStayInInts(After(s, ops[0]), ops[1..]);
    }
  }

  const EMPTY := State(File([], 0, 0), [])

  /** A read at the end of a run from the empty file, through any handle, yields as many bytes as were asked for or are
      left up to the furthest written end, whichever is less, and each is the one last written. */
  lemma ReadsLastWritten(ops: seq<Op>, h: nat, sz: nat)
    requires AllAllowed(EMPTY, ops)
    requires var s := RunAll(EMPTY, ops); s.f.Ok() && Allowed(s, Read(h, sz))
    ensures var s, log := RunAll(EMPTY, ops), LogOf(EMPTY, ops, []); var out := Output(s, Read(h, sz));
      && s.pos[h] <= MaxEnd(log)
      && |out| == (if sz < MaxEnd(log) - s.pos[h] then sz else MaxEnd(log) - s.pos[h])
      && forall k: nat | k < |out| && Covered(log, s.pos[h] + k) :: out[k] == Last(log, s.pos[h] + k)
  {
    RunsKeepInv(EMPTY, ops, []);
  }
}
