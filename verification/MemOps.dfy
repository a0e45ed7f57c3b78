/** memmove and memcmp of src/libc/string.c, over a memory whose indices are the addresses. */
module MemOps {
  import Words

  type byte = x: int | 0 <= x < 256

  /* memmove */

  /** What memmove is for: dest gets what src held, nothing else changes. */
  function Moved(m: seq<byte>, dest: nat, src: nat, n: nat): (r: seq<byte>)
    requires dest + n <= |m| && src + n <= |m|
    ensures |r| == |m|
  {
    m[..dest] + m[src..src + n] + m[dest + n..]
  }

  /** Copying byte by byte from the first on. */
  function Forward(m: seq<byte>, dest: nat, src: nat, n: nat): (r: seq<byte>)
    requires dest + n <= |m| && src + n <= |m|
    ensures |r| == |m|
    decreases n
  {
    if n == 0 then m else Forward(m[dest := m[src]], dest + 1, src + 1, n - 1)
  }

  /** Copying byte by byte from the last on. */
  function Backward(m: seq<byte>, dest: nat, src: nat, n: nat): (r: seq<byte>)
    requires dest + n <= |m| && src + n <= |m|
    ensures |r| == |m|
    decreases n
  {
    if n == 0 then m else Backward(m[dest + n - 1 := m[src + n - 1]], dest, src, n - 1)
  }

  /** The forward copy changes only dest; a byte of dest is the one that src held, or that the copy put there before. */
  lemma {:induction false} ForwardAt(m: seq<byte>, dest: nat, src: nat, n: nat, i: nat)
    requires dest + n <= |m| && src + n <= |m| && i < |m|
    ensures !(dest <= i < dest + n) ==> Forward(m, dest, src, n)[i] == m[i]
    ensures dest <= i < dest + n && (dest <= src || i - dest < dest - src)
      ==> Forward(m, dest, src, n)[i] == m[src + (i - dest)]
    ensures src < dest && dest <= i < dest + n && i - dest >= dest - src
      ==> Forward(m, dest, src, n)[i] == Forward(m, dest, src, n)[src + (i - dest)]
    decreases n
  {
    if n > 0 {
      var k := m[dest := m[src]];
      ForwardAt(k, dest + 1, src + 1, n - 1, i);
      ForwardAt(k, dest + 1, src + 1, n - 1, dest);
    }
  }

  /** The backward copy, when it does not start below src. */
  lemma {:induction false} BackwardAt(m: seq<byte>, dest: nat, src: nat, n: nat, i: nat)
    requires dest + n <= |m| && src + n <= |m| && i < |m| && src <= dest
    ensures Backward(m, dest, src, n)[i] == if dest <= i < dest + n then m[src + (i - dest)] else m[i]
    decreases n
  {
    if n > 0 { BackwardAt(m[dest + n - 1 := m[src + n - 1]], dest, src, n - 1, i); }
  }

  lemma ForwardMoves(m: seq<byte>, dest: nat, src: nat, n: nat)
    requires dest + n <= |m| && src + n <= |m| && (dest <= src || src + n <= dest)
    ensures Forward(m, dest, src, n) == Moved(m, dest, src, n)
  {
    forall i: nat | i < |m| ensures Forward(m, dest, src, n)[i] == Moved(m, dest, src, n)[i] {
      ForwardAt(m, dest, src, n, i);
    }
  }

  lemma BackwardMoves(m: seq<byte>, dest: nat, src: nat, n: nat)
    requires dest + n <= |m| && src + n <= |m| && src <= dest
    ensures Backward(m, dest, src, n) == Moved(m, dest, src, n)
  {
    forall i: nat | i < |m| ensures Backward(m, dest, src, n)[i] == Moved(m, dest, src, n)[i] {
      BackwardAt(m, dest, src, n, i);
    }
  }

  /** The direction is needed: the forward copy moves every memory right exactly when dest does not start inside src. */
  lemma ForwardExactly(len: nat, dest: nat, src: nat, n: nat)
    requires dest + n <= len && src + n <= len
    ensures (forall m: seq<byte> :: |m| == len ==> Forward(m, dest, src, n) == Moved(m, dest, src, n))
      <==> dest <= src || src + n <= dest
  {
    if dest <= src || src + n <= dest {
      forall m: seq<byte> | |m| == len ensures Forward(m, dest, src, n) == Moved(m, dest, src, n) {
        ForwardMoves(m, dest, src, n);
      }
    } else {
      var m := Marked(len, src);
      ForwardSmears(m, dest, src, n);
    }
  }

  /** A memory with one byte that stands out. */
  ghost function Marked(len: nat, at: nat): (m: seq<byte>)
    ensures |m| == len && forall i | 0 <= i < len :: m[i] == if i == at then 1 else 0
  {
    seq(len, i => if i == at then 1 else 0)
  }

  /** The forward copy into a dest inside src repeats the first byte. */
  lemma ForwardSmears(m: seq<byte>, dest: nat, src: nat, n: nat)
    requires dest + n <= |m| && src + n <= |m| && src < dest < src + n && m[src] != m[dest]
    ensures Forward(m, dest, src, n) != Moved(m, dest, src, n)
  {
    hide Forward;
    var far := dest + (dest - src);
    ForwardAt(m, dest, src, n, far);
    ForwardAt(m, dest, src, n, dest);
    assert Moved(m, dest, src, n)[far] == m[src..src + n][far - dest] == m[dest];
  }

  method MemMove(mem: array<byte>, dest: nat, src: nat, n: nat)
    requires dest + n <= mem.Length && src + n <= mem.Length
    modifies mem
    ensures mem[..] == Moved(old(mem[..]), dest, src, n)
  {
    var i := 0;
    ghost var m := mem[..];
    if dest <= src {
      ForwardMoves(m, dest, src, n);
      while i < n
        invariant i <= n && Forward(mem[..], dest + i, src + i, n - i) == Moved(m, dest, src, n)
      {
        ghost var before := mem[..];
        mem[dest + i] := mem[src + i];
        assert mem[..] == before[dest + i := before[src + i]];
        i := i + 1;
      }
    } else {
      BackwardMoves(m, dest, src, n);
      while i < n
        invariant i <= n && Backward(mem[..], dest, src, n - i) == Moved(m, dest, src, n)
      {
        ghost var before := mem[..];
        mem[dest + n - 1 - i] := mem[src + n - 1 - i];
        assert mem[..] == before[dest + n - 1 - i := before[src + n - 1 - i]];
        i := i + 1;
      }
    }
  }

  /* memcmp */

  function At(m: seq<byte>, i: nat): (r: int)
    requires i < |m|
    ensures 0 <= r < 256
  {
    m[i]
  }

  /** The difference of the first two bytes that differ. */
  function Compare(m: seq<byte>, a: nat, b: nat, n: nat): int
    requires a + n <= |m| && b + n <= |m|
    decreases n
  {
    if n == 0 then 0
    else if m[a] != m[b] then At(m, a) - At(m, b)
    else Compare(m, a + 1, b + 1, n - 1)
  }

  /** It is 0 exactly for equal bytes. */
  lemma {:induction false} CompareExactly(m: seq<byte>, a: nat, b: nat, n: nat)
    requires a + n <= |m| && b + n <= |m|
    ensures Compare(m, a, b, n) == 0 <==> m[a..a + n] == m[b..b + n]
    decreases n
  {
    if n > 0 {
      FirstByte(m, a, b, n);
      CompareExactly(m, a + 1, b + 1, n - 1);
    }
  }

  /** Otherwise it is the first difference. */
  lemma {:induction false} FirstDifference(m: seq<byte>, a: nat, b: nat, n: nat, k: nat)
    requires a + n <= |m| && b + n <= |m| && k < n && m[a..a + k] == m[b..b + k] && m[a + k] != m[b + k]
    ensures Compare(m, a, b, n) == At(m, a + k) - At(m, b + k)
    decreases n
  {
    if k > 0 {
      FirstByte(m, a, b, k);
      FirstDifference(m, a + 1, b + 1, n - 1, k - 1);
    }
  }

  lemma FirstByte(m: seq<byte>, a: nat, b: nat, n: nat)
    requires a + n <= |m| && b + n <= |m| && n > 0
    ensures m[a..a + n] == m[b..b + n] <==> m[a] == m[b] && m[a + 1..a + 1 + (n - 1)] == m[b + 1..b + 1 + (n - 1)]
  {
    assert m[a..a + n] == [m[a]] + m[a + 1..a + n];
    assert m[b..b + n] == [m[b]] + m[b + 1..b + n];
    assert ([m[a]] + m[a + 1..a + n])[1..] == m[a + 1..a + n];
    assert ([m[b]] + m[b + 1..b + n])[1..] == m[b + 1..b + n];
  }

  /** The 32-bit word at an address. */
  function Word(m: seq<byte>, p: nat): nat
    requires p + 4 <= |m|
  {
    At(m, p) + 0x100 * At(m, p + 1) + 0x1_0000 * At(m, p + 2) + 0x100_0000 * At(m, p + 3)
  }

  lemma EqualBytes(p0: int, p1: int, p2: int, p3: int, q0: int, q1: int, q2: int, q3: int)
    requires 0 <= p0 < 0x100 && 0 <= p1 < 0x100 && 0 <= p2 < 0x100 && 0 <= q0 < 0x100 && 0 <= q1 < 0x100
      && 0 <= q2 < 0x100
    requires p0 + 0x100 * p1 + 0x1_0000 * p2 + 0x100_0000 * p3 == q0 + 0x100 * q1 + 0x1_0000 * q2 + 0x100_0000 * q3
    ensures p0 == q0 && p1 == q1 && p2 == q2 && p3 == q3
  {
    LowByte(p0, p1 + 0x100 * p2 + 0x1_0000 * p3, q0, q1 + 0x100 * q2 + 0x1_0000 * q3);
    LowByte(p1, p2 + 0x100 * p3, q1, q2 + 0x100 * q3);
    LowByte(p2, p3, q2, q3);
  }

  lemma LowByte(p: int, r: int, q: int, s: int)
    requires 0 <= p < 0x100 && 0 <= q < 0x100 && p + 0x100 * r == q + 0x100 * s
    ensures p == q && r == s
  {
  }

  lemma SkipByte(m: seq<byte>, a: nat, b: nat, n: nat)
    requires a + n <= |m| && b + n <= |m| && n > 0 && At(m, a) == At(m, b)
    ensures Compare(m, a, b, n) == Compare(m, a + 1, b + 1, n - 1)
  {
  }

  lemma EqualWords(m: seq<byte>, a: nat, b: nat, n: nat)
    requires a + n <= |m| && b + n <= |m| && n >= 4 && Word(m, a) == Word(m, b)
    ensures Compare(m, a, b, n) == Compare(m, a + 4, b + 4, n - 4)
  {
    hide Compare, At;
    EqualBytes(At(m, a), At(m, a + 1), At(m, a + 2), At(m, a + 3), At(m, b), At(m, b + 1), At(m, b + 2), At(m, b + 3));
    SkipByte(m, a, b, n);
    SkipByte(m, a + 1, b + 1, n - 1);
    SkipByte(m, a + 2, b + 2, n - 2);
    SkipByte(m, a + 3, b + 3, n - 3);
  }

  /** (p + 3) & ~3. */
  function AlignUp(p: nat): (r: nat)
    ensures p <= r < p + 4 && r % 4 == 0
  {
    (p + 3) / 4 * 4
  }

  /** The length that memcmp compares: the catch-up loop decrements n before it looks whether it was 0. */
  function Compared(a: nat, b: nat, n: nat): nat {
    if n == 0 && a % 4 == b % 4 != 0 then Words.WORD_END else n
  }

  /** So memcmp is the comparison of n bytes, whatever memory holds, exactly unless n is 0 and two different addresses
      are misaligned in the same way. */
  lemma NothingExactly(len: nat, a: nat, b: nat, n: nat)
    requires n < Words.WORD_END && a + Compared(a, b, n) <= len && b + Compared(a, b, n) <= len
    ensures (forall m: seq<byte> :: |m| == len ==> Compare(m, a, b, Compared(a, b, n)) == Compare(m, a, b, n))
      <==> n > 0 || a % 4 != b % 4 || a % 4 == 0 || a == b
  {
    var e := Compared(a, b, n);
    if e != n {
      if a == b {
        forall m: seq<byte> | |m| == len ensures Compare(m, a, b, e) == 0 { CompareExactly(m, a, b, e); }
      } else {
        var m := Marked(len, a);
        DiffersHere(m, a, b, e);
        assert Compare(m, a, b, n) == 0;
      }
    }
  }

  lemma DiffersHere(m: seq<byte>, a: nat, b: nat, n: nat)
    requires a + n <= |m| && b + n <= |m|
    ensures n == 0 ==> Compare(m, a, b, n) == 0
    ensures n > 0 && At(m, a) != At(m, b) ==> Compare(m, a, b, n) == At(m, a) - At(m, b)
  {
  }

  /** The first x of e bytes decide the comparison of all of them: they are all, or they differ somewhere. */
  predicate Decides(m: seq<byte>, a: nat, b: nat, x: nat, e: nat) {
    a + x <= |m| && b + x <= |m| && x <= e && (x == e || Compare(m, a, b, x) != 0)
  }

  /** Whatever memory holds behind bytes that decide. */
  lemma {:induction false} DecidesAll(m: seq<byte>, far: seq<byte>, a: nat, b: nat, x: nat, e: nat)
    requires Decides(m, a, b, x, e) && a + e <= |far| && b + e <= |far|
    requires forall i | 0 <= i < |m| && i < |far| :: far[i] == m[i]
    ensures Compare(far, a, b, e) == Compare(m, a, b, x)
    decreases x
  {
    if x > 0 {
      if m[a] == m[b] { DecidesAll(m, far, a + 1, b + 1, x - 1, e - 1); }
    } else {
      assert e == 0;
    }
  }

  /** The catch-up to the alignment; n is 0 on entry only when e is the whole of size_t. */
  method CatchUp(m: seq<byte>, a: nat, b: nat, n: nat, startoffs: nat, ghost x: nat, ghost e: nat)
    returns (done: bool, diff: int, left: nat)
    requires n == e || (n == 0 && e == Words.WORD_END && startoffs > 0)
    requires n < Words.WORD_END && Decides(m, a, b, x, e) && startoffs < 4 && (startoffs > 0 ==> e > 0)
    ensures done ==> diff == Compare(m, a, b, x)
    ensures !done ==> startoffs + left == e && startoffs <= x
    ensures !done ==> Decides(m, a + startoffs, b + startoffs, x - startoffs, left)
    ensures !done ==> Compare(m, a + startoffs, b + startoffs, x - startoffs) == Compare(m, a, b, x)
  {
    hide Compare, At;
    var i := 0;
    left := n;
    while i < startoffs
      invariant 0 <= i <= startoffs && i <= x && (i < startoffs ==> i < e)
      invariant left == if i == 0 then n else e - i
      invariant Compare(m, a + i, b + i, x - i) == Compare(m, a, b, x)
    {
      DiffersHere(m, a + i, b + i, x - i);
      diff := At(m, a + i) - At(m, b + i);
      if diff != 0 { return true, diff, left; }
      SkipByte(m, a + i, b + i, x - i);
      left := if left == 0 then Words.WORD_END - 1 else left - 1;
      i := i + 1;
      DiffersHere(m, a + i, b + i, x - i);
      if left <= 0 { return true, diff, left; }
    }
    return false, 0, left;
  }

  /** The word loop: how far it gets, a multiple of 4. */
  method SkipWords(m: seq<byte>, a32: nat, b32: nat, n: nat, ghost x: nat) returns (skipped: nat)
    requires Decides(m, a32, b32, x, n) && (x == n || x % 4 == 0)
    ensures skipped <= x && Decides(m, a32 + skipped, b32 + skipped, x - skipped, n - skipped)
    ensures Compare(m, a32 + skipped, b32 + skipped, x - skipped) == Compare(m, a32, b32, x)
  {
    hide Compare, Word;
    skipped := 0;
    while n - skipped >= 4
      invariant skipped <= x && skipped % 4 == 0
      invariant Compare(m, a32 + skipped, b32 + skipped, x - skipped) == Compare(m, a32, b32, x)
    {
      DiffersHere(m, a32 + skipped, b32 + skipped, x - skipped);
      if Word(m, a32 + skipped) != Word(m, b32 + skipped) { break; }
      EqualWords(m, a32 + skipped, b32 + skipped, x - skipped);
      skipped := skipped + 4;
    }
  }

  /** The tail loop. */
  method CompareBytes(m: seq<byte>, a: nat, b: nat, n: nat, ghost x: nat) returns (diff: int)
    requires Decides(m, a, b, x, n)
    ensures diff == Compare(m, a, b, x)
  {
    hide Compare, At;
    var i := 0;
    while i < n
      invariant 0 <= i <= x && Compare(m, a + i, b + i, x - i) == Compare(m, a, b, x)
    {
      DiffersHere(m, a + i, b + i, x - i);
      diff := At(m, a + i) - At(m, b + i);
      if diff != 0 { return; }
      SkipByte(m, a + i, b + i, x - i);
      i := i + 1;
    }
    DiffersHere(m, a + i, b + i, 0);
    return 0;
  }

  lemma Misalignment(a: nat, b: nat, n: nat)
    requires n < Words.WORD_END
    ensures var e, offs := Compared(a, b, n), AlignUp(a) - a;
      && (e == n || (offs == AlignUp(b) - b && n == 0 && e == Words.WORD_END && offs > 0))
      && (offs == AlignUp(b) - b && offs > 0 ==> e > 0)
  {
  }

  /** The memory that memcmp reads: x bytes that decide, up to the end of a word if it reads words. */
  predicate Readable(m: seq<byte>, a: nat, b: nat, x: nat, e: nat) {
    Decides(m, a, b, x, e) && (x == e || a % 4 != b % 4 || (x % 4 == (AlignUp(a) - a) % 4 && x >= AlignUp(a) - a))
  }

  /** Only the bytes up to the first difference need be there; by DecidesAll they are the comparison of all. */
  method MemCmp(m: seq<byte>, a: nat, b: nat, n: nat, ghost x: nat) returns (diff: int)
    requires n < Words.WORD_END && Readable(m, a, b, x, Compared(a, b, n))
    ensures diff == Compare(m, a, b, x)
  {
    hide Compare, AlignUp, Compared;
    Misalignment(a, b, n);
    var y, z, left := a, b, n;
    ghost var rest := x;
    var startoffs := AlignUp(a) - a;
    if startoffs == AlignUp(b) - b {
      SameAlignment(a, b);
      var done;
      done, diff, left := CatchUp(m, a, b, n, startoffs, x, Compared(a, b, n));
      if done { return; }
      WholeWords(x, startoffs);
      var skipped := SkipWords(m, a + startoffs, b + startoffs, left, x - startoffs);
      y, z, left := a + startoffs + skipped, b + startoffs + skipped, left - skipped;
      rest := x - startoffs - skipped;
    }
    diff := CompareBytes(m, y, z, left, rest);
  }

  lemma SameAlignment(a: nat, b: nat)
    ensures AlignUp(a) - a == AlignUp(b) - b <==> a % 4 == b % 4
  {
  }

  lemma WholeWords(x: nat, offs: nat)
    requires offs < 4
    ensures x % 4 == offs % 4 && x >= offs ==> (x - offs) % 4 == 0
  {
  }
}
