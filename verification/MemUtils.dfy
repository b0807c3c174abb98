/**
  The core's memory copy and fill, which use 32-bit words where alignment allows, against their
  byte-by-byte forms. An address is an index of memory.
*/
module MemUtils {
  import opened Words

  const WORD: nat := 4

  // ---------------------------------------------------------------- little-endian words

  function WordAt(m: seq<byte>, a: nat): nat
    requires a + WORD <= |m|
  {
    var b0: int, b1: int, b2: int, b3: int := m[a], m[a + 1], m[a + 2], m[a + 3];
    b0 + 0x100 * b1 + 0x1_0000 * b2 + 0x100_0000 * b3
  }

  function WordByte(w: nat, k: nat): byte
    requires k < WORD
  {
    if k == 0 then w % 0x100 else if k == 1 then w / 0x100 % 0x100 else if k == 2 then w / 0x1_0000 % 0x100 else w / 0x100_0000 % 0x100
  }

  lemma BytesOfWord(b0: byte, b1: byte, b2: byte, b3: byte)
    ensures var w: int := b0 + (0x100 as int) * b1 + (0x1_0000 as int) * b2 + (0x100_0000 as int) * b3;
            w >= 0 && WordByte(w, 0) == b0 && WordByte(w, 1) == b1 && WordByte(w, 2) == b2 && WordByte(w, 3) == b3
  {
    var w: int := b0 + (0x100 as int) * b1 + (0x1_0000 as int) * b2 + (0x100_0000 as int) * b3;
    assert w / 0x100 == b1 + (0x100 as int) * b2 + (0x1_0000 as int) * b3;
    assert w / 0x1_0000 == b2 + (0x100 as int) * b3;
    assert w / 0x100_0000 == b3;
  }

  // A word read from memory consists of the four bytes there.
  lemma WordAtBytes(m: seq<byte>, a: nat, k: nat)
    requires a + WORD <= |m| && k < WORD
    ensures WordByte(WordAt(m, a), k) == m[a + k]
  {
    BytesOfWord(m[a], m[a + 1], m[a + 2], m[a + 3]);
  }

  function PutWord(m: seq<byte>, a: nat, w: nat): seq<byte>
    requires a + WORD <= |m|
  {
    m[a := WordByte(w, 0)][a + 1 := WordByte(w, 1)][a + 2 := WordByte(w, 2)][a + 3 := WordByte(w, 3)]
  }

  method StoreWord(mem: array<byte>, a: nat, w: nat)
    requires a + WORD <= mem.Length
    modifies mem
    ensures mem[..] == PutWord(old(mem[..]), a, w)
  {
    mem[a] := WordByte(w, 0);
    mem[a + 1] := WordByte(w, 1);
    mem[a + 2] := WordByte(w, 2);
    mem[a + 3] := WordByte(w, 3);
  }

  // ---------------------------------------------------------------- copy

  // Copying one byte after the other, upwards
  function ByteCopy(m: seq<byte>, d: nat, s: nat, n: nat): (r: seq<byte>)
    requires d + n <= |m| && s + n <= |m|
    ensures |r| == |m|
    decreases n
  {
    if n == 0 then m else ByteCopy(m[d := m[s]], d + 1, s + 1, n - 1)
  }

  // Four bytes at once are four single bytes when the two addresses are at least a word apart.
  lemma WordStep(m: seq<byte>, d: nat, s: nat, n: nat)
    requires WORD <= n && d + n <= |m| && s + n <= |m| && (d + WORD <= s || s + WORD <= d)
    ensures ByteCopy(m, d, s, n) == ByteCopy(PutWord(m, d, WordAt(m, s)), d + WORD, s + WORD, n - WORD)
  {
    var m1 := m[d := m[s]];
    var m2 := m1[d + 1 := m1[s + 1]];
    var m3 := m2[d + 2 := m2[s + 2]];
    var m4 := m3[d + 3 := m3[s + 3]];
    ByteCopyFour(m, m1, m2, m3, m4, d, s, n);
    WordAtBytes(m, s, 0);
    WordAtBytes(m, s, 1);
    WordAtBytes(m, s, 2);
    WordAtBytes(m, s, 3);
    assert m4 == PutWord(m, d, WordAt(m, s));
  }

  lemma ByteCopyFour(m: seq<byte>, m1: seq<byte>, m2: seq<byte>, m3: seq<byte>, m4: seq<byte>, d: nat, s: nat, n: nat)
    requires WORD <= n && d + n <= |m| && s + n <= |m|
    requires m1 == m[d := m[s]] && m2 == m1[d + 1 := m1[s + 1]] && m3 == m2[d + 2 := m2[s + 2]] && m4 == m3[d + 3 := m3[s + 3]]
    ensures ByteCopy(m, d, s, n) == ByteCopy(m4, d + WORD, s + WORD, n - WORD)
  {
    assert ByteCopy(m, d, s, n) == ByteCopy(m1, d + 1, s + 1, n - 1);
    assert ByteCopy(m1, d + 1, s + 1, n - 1) == ByteCopy(m2, d + 2, s + 2, n - 2);
    assert ByteCopy(m2, d + 2, s + 2, n - 2) == ByteCopy(m3, d + 3, s + 3, n - 3);
  }

  // The word-copy part of the function: unaligned bytes first, then whole words; n bytes are left.
  method CopyAligned(mem: array<byte>, dest: nat, src: nat, len: nat) returns (n: nat)
    requires (dest + WORD <= src || src + WORD <= dest) && dest + len <= mem.Length && src + len <= mem.Length
    modifies mem
    ensures n <= len
    ensures ByteCopy(mem[..], dest + len - n, src + len - n, n) == ByteCopy(old(mem[..]), dest, src, len)
  {
    var d, s := dest, src;
    n := len;
    while n > 0 && d % WORD != 0
      invariant n <= len && d == dest + len - n && s == src + len - n
      invariant ByteCopy(mem[..], d, s, n) == ByteCopy(old(mem[..]), dest, src, len)
    {
      CopyByte(mem, d, s, n);
      d, s, n := d + 1, s + 1, n - 1;
    }
    while n >= WORD
      invariant n <= len && d == dest + len - n && s == src + len - n
      invariant ByteCopy(mem[..], d, s, n) == ByteCopy(old(mem[..]), dest, src, len)
    {
      CopyWord(mem, d, s, n);
      d, s, n := d + WORD, s + WORD, n - WORD;
    }
  }

  /** tfm_core_util_memcpy equals the byte-by-byte copy for every length and every two distinct addresses,
      overlapping or not. */
  method MemCpy(mem: array<byte>, dest: nat, src: nat, len: nat) returns (r: nat)
    requires dest != src && dest + len <= mem.Length && src + len <= mem.Length
    modifies mem
    ensures r == dest && mem[..] == ByteCopy(old(mem[..]), dest, src, len)
  {
    var n := len;
    if dest % WORD == src % WORD {
      n := CopyAligned(mem, dest, src, len);
    }
    var d, s := dest + len - n, src + len - n;
    while n > 0
      invariant 0 <= n <= len && d == dest + len - n && s == src + len - n
      invariant ByteCopy(mem[..], d, s, n) == ByteCopy(old(mem[..]), dest, src, len)
    {
      CopyByte(mem, d, s, n);
      d, s, n := d + 1, s + 1, n - 1;
    }
    return dest;
  }

  method CopyByte(mem: array<byte>, d: nat, s: nat, ghost n: nat)
    requires 0 < n && d + n <= mem.Length && s + n <= mem.Length
    modifies mem
    ensures ByteCopy(mem[..], d + 1, s + 1, n - 1) == ByteCopy(old(mem[..]), d, s, n)
  {
    mem[d] := mem[s];
    assert mem[..] == old(mem[..])[d := old(mem[..])[s]];
  }

  method CopyWord(mem: array<byte>, d: nat, s: nat, ghost n: nat)
    requires WORD <= n && d + n <= mem.Length && s + n <= mem.Length && (d + WORD <= s || s + WORD <= d)
    modifies mem
    ensures ByteCopy(mem[..], d + WORD, s + WORD, n - WORD) == ByteCopy(old(mem[..]), d, s, n)
  {
    WordStep(mem[..], d, s, n);
    StoreWord(mem, d, WordAt(mem[..], s));
  }

  // r is m with the n bytes at s moved to d, and nothing else changed.
  ghost predicate Moved(m: seq<byte>, r: seq<byte>, d: nat, s: nat, n: nat) {
    && |r| == |m| && d + n <= |m| && s + n <= |m|
    && (forall i :: d <= i < d + n ==> r[i] == m[i - d + s])
    && (forall i :: 0 <= i < |m| && !(d <= i < d + n) ==> r[i] == m[i])
  }

  lemma {:induction false} CopyMoves(m: seq<byte>, d: nat, s: nat, n: nat)
    requires d + n <= |m| && s + n <= |m| && (d < s || s + n <= d)
    ensures Moved(m, ByteCopy(m, d, s, n), d, s, n)
    decreases n
  {
    if n > 0 {
      var m', r := m[d := m[s]], ByteCopy(m, d, s, n);
      CopyMoves(m', d + 1, s + 1, n - 1);
      forall i | d <= i < d + n ensures r[i] == m[i - d + s] {
        if i > d {
          assert r[i] == m'[i - (d + 1) + (s + 1)];
        }
      }
    }
  }

  // Outside the destination nothing changes, and a byte copied from inside it is a byte copied before.
  lemma {:induction false} CopyOverlaps(m: seq<byte>, d: nat, s: nat, n: nat, i: nat)
    requires d + n <= |m| && s + n <= |m| && s < d && i < |m|
    ensures !(d <= i < d + n) ==> ByteCopy(m, d, s, n)[i] == m[i]
    ensures d <= i < d + n ==> ByteCopy(m, d, s, n)[i] == ByteCopy(m, d, s, n)[i - (d - s)]
    decreases n
  {
    if n > 0 {
      var m' := m[d := m[s]];
      CopyOverlaps(m', d + 1, s + 1, n - 1, i);
      if i == d {
        CopyOverlaps(m', d + 1, s + 1, n - 1, s);
      }
    }
  }

  /** The copy moves the bytes, whatever they are, exactly if the destination does not start inside the
      source above its first byte. */
  lemma CopyMovesExactly(size: nat, d: nat, s: nat, n: nat)
    requires d + n <= size && s + n <= size && d != s
    ensures (forall m: seq<byte> :: |m| == size ==> Moved(m, ByteCopy(m, d, s, n), d, s, n)) <==> !(s < d < s + n)
  {
    if s < d < s + n {
      var p := d - s;
      var m: seq<byte> := seq(size, i => if i == s then 1 else 0);
      var r := ByteCopy(m, d, s, n);
      CopyOverlaps(m, d, s, n, s);
      CopyOverlaps(m, d, s, n, d);
      CopyOverlaps(m, d, s, n, d + p);
      assert r[d + p] == 1 && m[s + p] == 0;
      assert !Moved(m, r, d, s, n);
    } else {
      forall m: seq<byte> | |m| == size ensures Moved(m, ByteCopy(m, d, s, n), d, s, n) {
        CopyMoves(m, d, s, n);
      }
    }
  }

  // ---------------------------------------------------------------- fill

  ghost predicate AllBytes(w: nat, c: byte) {
    forall k :: 0 <= k < WORD ==> WordByte(w, k) == c
  }

  // The pattern of a word: each of its bytes is the fill byte.
  method QuadPattern(c: byte) returns (quad: nat)
    ensures AllBytes(quad, c)
  {
    var b: int := c;
    BytesOfWord(c, c, c, c);
    quad := b * 0x100_0000 + b * 0x1_0000 + b * 0x100 + b;
  }

  method FillWord(mem: array<byte>, a: nat, quad: nat, c: byte)
    requires a + WORD <= mem.Length && AllBytes(quad, c)
    modifies mem
    ensures forall i :: 0 <= i < mem.Length ==> mem[i] == if a <= i < a + WORD then c else old(mem[i])
  {
    ghost var before := mem[..];
    StoreWord(mem, a, quad);
    assert forall i :: 0 <= i < mem.Length ==> mem[i] == PutWord(before, a, quad)[i];
  }

  // Exactly the bytes from start to end - 1 are c.
  twostate predicate Filled(mem: array<byte>, start: nat, end: nat, c: byte)
    reads mem
  {
    forall i :: 0 <= i < mem.Length ==> mem[i] == if start <= i < end then c else old(mem[i])
  }

  // Bytes up to a word boundary; n bytes are left
  method FillUnaligned(mem: array<byte>, start: nat, len: nat, c: byte) returns (p: nat, n: nat)
    requires start + len <= mem.Length
    modifies mem
    ensures n <= len && p == start + (len - n) && Filled(mem, start, p, c)
  {
    p, n := start, len;
    while n > 0 && p % WORD != 0
      invariant 0 <= n <= len && p == start + (len - n) && Filled(mem, start, p, c)
    {
      mem[p] := c;
      p, n := p + 1, n - 1;
    }
  }

  // Whole words
  method FillWords(mem: array<byte>, start: nat, len: nat, quad: nat, c: byte) returns (p: nat, n: nat)
    requires start + len <= mem.Length && AllBytes(quad, c)
    modifies mem
    ensures n <= len && p == start + (len - n) && Filled(mem, start, p, c)
  {
    p, n := start, len;
    while n >= WORD
      invariant 0 <= n <= len && p == start + (len - n) && Filled(mem, start, p, c)
    {
      FillWord(mem, p, quad, c);
      p, n := p + WORD, n - WORD;
    }
  }

  // The remaining bytes
  method FillBytes(mem: array<byte>, start: nat, len: nat, c: byte)
    requires start + len <= mem.Length
    modifies mem
    ensures Filled(mem, start, start + len, c)
  {
    var p, n := start, len;
    while n > 0
      invariant 0 <= n <= len && p == start + (len - n) && Filled(mem, start, p, c)
    {
      mem[p] := c;
      p, n := p + 1, n - 1;
    }
  }

  /** tfm_core_util_memset fills exactly the bytes asked for with the low byte of the value. */
  method MemSet(mem: array<byte>, start: nat, value: int, len: nat) returns (r: nat)
    requires start + len <= mem.Length
    modifies mem
    ensures r == start
    ensures forall i :: 0 <= i < mem.Length ==> mem[i] == if start <= i < start + len then value % 256 else old(mem[i])
  {
    var c: byte := value % 256;
    var quad := QuadPattern(c);
    var p, n := FillUnaligned(mem, start, len, c);
    p, n := FillWords(mem, p, n, quad, c);
    FillBytes(mem, p, n, c);
    return start;
  }
}
