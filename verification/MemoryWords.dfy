/**
  `memcpy` and `memset` of `software/syscalls.c`: the path that works a word at a time leaves memory
  exactly as the path that works a byte at a time. Memory is one array of bytes indexed by address,
  and words are little-endian.
 */
module MemoryWords {

  const WORD: nat := 8

  // ---------- words ----------

  function ByteAt(word: bv64, k: nat): bv8
    requires k < 8
  {
    match k
    case 0 => (word & 0xFF) as bv8
    case 1 => ((word >> 8) & 0xFF) as bv8
    case 2 => ((word >> 16) & 0xFF) as bv8
    case 3 => ((word >> 24) & 0xFF) as bv8
    case 4 => ((word >> 32) & 0xFF) as bv8
    case 5 => ((word >> 40) & 0xFF) as bv8
    case 6 => ((word >> 48) & 0xFF) as bv8
    case 7 => ((word >> 56) & 0xFF) as bv8
  }

  /** The bytes a word occupies in memory. */
  function BytesOf(word: bv64): (bytes: seq<bv8>)
    ensures |bytes| == 8
  {
    seq(8, k requires 0 <= k < 8 => ByteAt(word, k))
  }

  /** The word that eight bytes in memory make. */
  function WordOf(b: seq<bv8>): bv64
    requires |b| == 8
  {
    Packed(b[0], b[1], b[2], b[3], b[4], b[5], b[6], b[7])
  }

  function Packed(b0: bv8, b1: bv8, b2: bv8, b3: bv8, b4: bv8, b5: bv8, b6: bv8, b7: bv8): bv64 {
    (b0 as bv64) | ((b1 as bv64) << 8) | ((b2 as bv64) << 16) | ((b3 as bv64) << 24)
    | ((b4 as bv64) << 32) | ((b5 as bv64) << 40) | ((b6 as bv64) << 48) | ((b7 as bv64) << 56)
  }

  lemma Unpacked(b0: bv8, b1: bv8, b2: bv8, b3: bv8, b4: bv8, b5: bv8, b6: bv8, b7: bv8)
    ensures var w := Packed(b0, b1, b2, b3, b4, b5, b6, b7);
      && ByteAt(w, 0) == b0 && ByteAt(w, 1) == b1 && ByteAt(w, 2) == b2 && ByteAt(w, 3) == b3
      && ByteAt(w, 4) == b4 && ByteAt(w, 5) == b5 && ByteAt(w, 6) == b6 && ByteAt(w, 7) == b7
  {
  }

  /** Loading a word and storing it keeps its bytes. */
  lemma WordRoundTrip(b: seq<bv8>)
    requires |b| == 8
    ensures BytesOf(WordOf(b)) == b
  {
    Unpacked(b[0], b[1], b[2], b[3], b[4], b[5], b[6], b[7]);
  }

  /** The word that `memset` builds by shifting and or-ing. */
  function Replicated(byte: bv32): bv64 {
    var w0 := (byte & 0xFF) as bv64;
    var w1 := w0 | (w0 << 8);
    var w2 := w1 | (w1 << 16);
    w2 | ((w2 << 16) << 16)
  }

  /** What storing an int through a `char*` keeps. */
  function LowByte(byte: bv32): bv8 {
    (byte & 0xFF) as bv8
  }

  lemma ReplicatedBytes(byte: bv32, k: nat)
    requires k < 8
    ensures ByteAt(Replicated(byte), k) == LowByte(byte)
  {
  }

  // ---------- memory ----------

  /** Memory with `bytes` written at address p. */
  function Written(m: seq<bv8>, p: nat, bytes: seq<bv8>): (w: seq<bv8>)
    requires p + |bytes| <= |m|
    ensures |w| == |m|
    ensures forall i {:trigger w[i]} | 0 <= i < |m| :: w[i] == if p <= i < p + |bytes| then bytes[i - p] else m[i]
  {
    m[..p] + bytes + m[p + |bytes|..]
  }

  method StoreWord(mem: array<bv8>, p: nat, word: bv64)
    requires p + WORD <= mem.Length
    modifies mem
    ensures mem[..] == Written(old(mem[..]), p, BytesOf(word))
  {
    for k := 0 to WORD
      invariant mem[..] == Written(old(mem[..]), p, BytesOf(word)[..k])
    {
      mem[p + k] := ByteAt(word, k);
    }
  }

  // ---------- memset ----------

  /** Setting n bytes one after the other. */
  function Filled(m: seq<bv8>, p: nat, n: nat, b: bv8): (f: seq<bv8>)
    requires p + n <= |m|
    ensures |f| == |m|
    decreases n
  {
    if n == 0 then m else Filled(m, p, n - 1, b)[p + (n - 1) := b]
  }

  /** Exactly the given range holds the byte. */
  lemma {:induction false} FilledAt(m: seq<bv8>, p: nat, n: nat, b: bv8, i: nat)
    requires p + n <= |m| && i < |m|
    ensures Filled(m, p, n, b)[i] == if p <= i < p + n then b else m[i]
    decreases n
  {
    if n > 0 {
      FilledAt(m, p, n - 1, b, i);
    }
  }

  lemma FillWord(m: seq<bv8>, p: nat, n: nat, byte: bv32)
    requires p + n + WORD <= |m|
    ensures Written(Filled(m, p, n, LowByte(byte)), p + n, BytesOf(Replicated(byte)))
         == Filled(m, p, n + WORD, LowByte(byte))
  {
    var b, bytes := LowByte(byte), BytesOf(Replicated(byte));
    var left, right := Written(Filled(m, p, n, b), p + n, bytes), Filled(m, p, n + WORD, b);
    forall i: nat | i < |m| ensures left[i] == right[i] {
      FilledAt(m, p, n, b, i);
      FilledAt(m, p, n + WORD, b, i);
      if p + n <= i < p + n + WORD {
        ReplicatedBytes(byte, i - (p + n));
      }
    }
  }

  method SetWord(mem: array<bv8>, ghost m: seq<bv8>, dest: nat, byte: bv32, n: nat)
    requires dest + n + WORD <= |m| == mem.Length && mem[..] == Filled(m, dest, n, LowByte(byte))
    modifies mem
    ensures mem[..] == Filled(m, dest, n + WORD, LowByte(byte))
  {
    FillWord(m, dest, n, byte);
    StoreWord(mem, dest + n, Replicated(byte));
  }

  lemma AlignedApart(a: nat, b: nat)
    requires a % WORD == 0 && b % WORD == 0 && a < b
    ensures b - a >= WORD
  {
  }

  /** Whichever path runs, the result is that of setting the low byte of the argument byte by byte. */
  method Memset(mem: array<bv8>, dest: nat, byte: bv32, len: nat)
    requires dest + len <= mem.Length
    modifies mem
    ensures mem[..] == Filled(old(mem[..]), dest, len, LowByte(byte))
  {
    ghost var m := mem[..];
    var n := 0;
    if dest % WORD == 0 && len % WORD == 0 {
      while n < len
        invariant 0 <= n <= len && n % WORD == 0
        invariant mem[..] == Filled(m, dest, n, LowByte(byte))
      {
        AlignedApart(n, len);
        SetWord(mem, m, dest, byte, n);
        n := n + WORD;
      }
    } else {
      while n < len
        invariant 0 <= n <= len
        invariant mem[..] == Filled(m, dest, n, LowByte(byte))
      {
        mem[dest + n] := LowByte(byte);
        n := n + 1;
      }
    }
  }

  // ---------- memcpy ----------

  /** Copying n bytes one after the other, forwards. */
  function Copied(m: seq<bv8>, d: nat, s: nat, n: nat): (c: seq<bv8>)
    requires d + n <= |m| && s + n <= |m|
    ensures |c| == |m|
    decreases n
  {
    if n == 0 then m
    else
      var c := Copied(m, d, s, n - 1);
      c[d + (n - 1) := c[s + (n - 1)]]
  }

  /** Where the k-th byte comes from: copying forwards over its own source repeats the gap between them. */
  function Origin(d: nat, s: nat, k: nat): (i: nat)
    ensures s <= i <= s + k
    decreases k
  {
    if s < d <= s + k then Origin(d, s, k - (d - s)) else s + k
  }

  /** What forward copying leaves, byte by byte. */
  lemma {:induction false} CopiedAt(m: seq<bv8>, d: nat, s: nat, n: nat, i: nat)
    requires d + n <= |m| && s + n <= |m| && i < |m|
    ensures Copied(m, d, s, n)[i] == if d <= i < d + n then m[Origin(d, s, i - d)] else m[i]
    decreases n
  {
    if n > 0 {
      CopiedAt(m, d, s, n - 1, if i == d + (n - 1) then s + (n - 1) else i);
    }
  }

  /** Up to the distance by which the destination is ahead, reading everything first makes no difference. */
  lemma CopyMore(m: seq<bv8>, d: nat, s: nat, n: nat, k: nat)
    requires d + n + k <= |m| && s + n + k <= |m| && (d <= s || d - s >= k)
    ensures Written(Copied(m, d, s, n), d + n, Copied(m, d, s, n)[s + n..s + n + k]) == Copied(m, d, s, n + k)
  {
    var c := Copied(m, d, s, n);
    var left, right := Written(c, d + n, c[s + n..s + n + k]), Copied(m, d, s, n + k);
    forall i: nat | i < |m| ensures left[i] == right[i] {
      CopiedAt(m, d, s, n + k, i);
      CopiedAt(m, d, s, n, if d + n <= i < d + n + k then s + (i - d) else i);
    }
  }

  method CopyWord(mem: array<bv8>, p: nat, q: nat)
    requires p + WORD <= mem.Length && q + WORD <= mem.Length
    modifies mem
    ensures mem[..] == Written(old(mem[..]), p, old(mem[..])[q..q + WORD])
  {
    var bytes := mem[q..q + WORD];
    assert bytes == mem[..][q..q + WORD];
    WordRoundTrip(bytes);
    StoreWord(mem, p, WordOf(bytes));
  }

  method CopyNext(mem: array<bv8>, ghost m: seq<bv8>, d: nat, s: nat, n: nat)
    requires d + n + WORD <= |m| == mem.Length && s + n + WORD <= |m| && (d <= s || d - s >= WORD)
    requires mem[..] == Copied(m, d, s, n)
    modifies mem
    ensures mem[..] == Copied(m, d, s, n + WORD)
  {
    CopyMore(m, d, s, n, WORD);
    CopyWord(mem, d + n, s + n);
  }

  method MemcpyWords(mem: array<bv8>, dest: nat, src: nat, len: nat)
    requires dest + len <= mem.Length && src + len <= mem.Length
    requires dest % WORD == 0 && src % WORD == 0 && len % WORD == 0
    modifies mem
    ensures mem[..] == Copied(old(mem[..]), dest, src, len)
  {
    ghost var m := mem[..];
    var n := 0;
    while n < len
      invariant 0 <= n <= len && n % WORD == 0
      invariant mem[..] == Copied(m, dest, src, n)
    {
      AlignedApart(n, len);
      if src < dest {
        AlignedApart(src, dest);
      }
      CopyNext(mem, m, dest, src, n);
      n := n + WORD;
    }
  }

  method MemcpyBytes(mem: array<bv8>, dest: nat, src: nat, len: nat)
    requires dest + len <= mem.Length && src + len <= mem.Length
    modifies mem
    ensures mem[..] == Copied(old(mem[..]), dest, src, len)
  {
    ghost var m := mem[..];
    var n := 0;
    while n < len
      invariant 0 <= n <= len
      invariant mem[..] == Copied(m, dest, src, n)
    {
      mem[dest + n] := mem[src + n];
      n := n + 1;
    }
  }

  /** Whichever path runs, and even where the regions overlap, the result is that of copying byte by byte. */
  method Memcpy(mem: array<bv8>, dest: nat, src: nat, len: nat)
    requires dest + len <= mem.Length && src + len <= mem.Length
    modifies mem
    ensures mem[..] == Copied(old(mem[..]), dest, src, len)
  {
    if dest % WORD == 0 && src % WORD == 0 && len % WORD == 0 {
      MemcpyWords(mem, dest, src, len);
    } else {
      MemcpyBytes(mem, dest, src, len);
    }
  }

  ghost predicate Arrives(m: seq<bv8>, d: nat, s: nat, n: nat)
    requires d + n <= |m| && s + n <= |m|
  {
    forall i | d <= i < d + n :: Copied(m, d, s, n)[i] == m[s + i - d]
  }

  /** The destination ends as the source began, for all contents, exactly unless it starts inside the source. */
  lemma CopiesExactly(d: nat, s: nat, n: nat, size: nat)
    requires d + n <= size && s + n <= size
    ensures (forall m: seq<bv8> | |m| == size :: Arrives(m, d, s, n)) <==> d <= s || d >= s + n
  {
    if s < d < s + n {
      var m := seq(size, i => if i == d then 1 as bv8 else 0);
      var i := d + (d - s);
      assert Origin(d, s, d - s) == s;
      CopiedAt(m, d, s, n, i);
      assert Copied(m, d, s, n)[i] != m[s + i - d];
      assert !Arrives(m, d, s, n);
    } else {
      forall m: seq<bv8> | |m| == size ensures Arrives(m, d, s, n) {
        forall i | d <= i < d + n ensures Copied(m, d, s, n)[i] == m[s + i - d] {
          CopiedAt(m, d, s, n, i);
        }
      }
    }
  }
}
