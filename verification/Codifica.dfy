/**
 BlowFishEncode and BlowFishDecode of c6/codifica.c: a byte buffer enciphered in
 place, eight bytes at a time, on a machine whose unsigned long has any width of
 at least 32 bits.
 */
module Codifica {
  import opened Words
  import opened Blowfish
  import opened Numbers

  const TWO31 := 0x8000_0000

  /** Four bytes, the first one highest. */
  function Word(b: Bytes): (v: nat)
    requires |b| == 4
    ensures v < TWO32
  {
    ((b[0] as nat * 0x100 + b[1]) * 0x100 + b[2]) * 0x100 + b[3]
  }

  /** The same four bytes combined in an int and widened: a set top bit is spread upwards. */
  function Loaded(v: nat, m: nat): (x: nat)
    requires v < TWO32 && Wide(m)
  {
    WideEnough(m);
    if v >= TWO31 then m - TWO32 + v else v
  }

  lemma LoadedLow(v: nat, m: nat)
    requires v < TWO32 && Wide(m)
    ensures Low(Loaded(v, m)) == v
  {
    WideEnough(m);
    var k := m / TWO32;
    assert m == TWO32 * k;
    if v >= TWO31 {
      assert Loaded(v, m) == v + TWO32 * (k - 1);
      LowOfSum(v, k - 1);
    }
  }

  lemma WordOfBytes(x: nat)
    ensures Word(Bytes4(x)) == Low(x)
  {
    BytesOfLow(x);
    var r := Low(x);
    var b := Bytes4(r);
    assert r / 0x100 == r / 0x100 / 0x100 * 0x100 + b[2];
    assert r / 0x1_0000 == r / 0x100_0000 * 0x100 + b[1];
    assert b[0] == r / 0x100_0000;
    Shifted(r);
  }

  lemma BytesOfWord(b: Bytes)
    requires |b| == 4
    ensures Bytes4(Word(b)) == b
  {
    var v := Word(b);
    var v1 := (b[0] as nat * 0x100 + b[1]) * 0x100 + b[2];
    var v2 := b[0] as nat * 0x100 + b[1];
    assert v / 0x100 == v1 && v % 0x100 == b[3];
    assert v1 / 0x100 == v2 && v1 % 0x100 == b[2];
    assert v2 / 0x100 == b[0] && v2 % 0x100 == b[1];
    Shifted(v);
    assert Bytes4(v)[0] == b[0] && Bytes4(v)[1] == b[1] && Bytes4(v)[2] == b[2] && Bytes4(v)[3] == b[3];
  }

  // ----- the 32-bit reference -----

  ghost predicate Narrow(t: Tables) {
    t.Valid() && LowTables(t) == t
  }

  datatype Direction = Encode | Decode

  /** One block of eight bytes. */
  ghost function Coded(t: Tables, b: Bytes, d: Direction): (c: Bytes)
    requires t.Valid() && |b| == 8
    ensures |c| == 8
  {
    var l, r := Word(b[..4]), Word(b[4..]);
    var x := if d == Encode then Encrypted(t, l, r, TWO32) else Decrypted(t, l, r, TWO32);
    Bytes4(x.0) + Bytes4(x.1)
  }

  /** The two words of a block stand in it highest byte first, before and after. */
  lemma CodedWords(t: Tables, b: Bytes, d: Direction, l: nat, r: nat, x: (nat, nat))
    requires t.Valid() && |b| == 8
    requires l == b[0] as nat * 0x100_0000 + b[1] as nat * 0x1_0000 + b[2] as nat * 0x100 + b[3]
    requires r == b[4] as nat * 0x100_0000 + b[5] as nat * 0x1_0000 + b[6] as nat * 0x100 + b[7]
    requires d == Encode ==> x == Encrypted(t, l, r, 0x1_0000_0000)
    requires d == Decode ==> x == Decrypted(t, l, r, 0x1_0000_0000)
    ensures Coded(t, b, d) ==
            [x.0 / 0x100_0000 % 0x100, x.0 / 0x1_0000 % 0x100, x.0 / 0x100 % 0x100, x.0 % 0x100,
             x.1 / 0x100_0000 % 0x100, x.1 / 0x1_0000 % 0x100, x.1 / 0x100 % 0x100, x.1 % 0x100]
  {
    assert l == Word(b[..4]) && r == Word(b[4..]);
  }

  ghost function Block(b: Bytes, k: nat): (c: Bytes)
    requires 8 * k + 8 <= |b|
    ensures |c| == 8 && forall i :: 0 <= i < 8 ==> c[i] == b[8 * k + i]
  {
    b[8 * k..8 * k + 8]
  }

  /** The block at place k coded, the rest as it was. */
  ghost function CodedAt(t: Tables, b: Bytes, k: nat, d: Direction): (c: Bytes)
    requires t.Valid() && 8 * k + 8 <= |b|
    ensures |c| == |b|
  {
    b[..8 * k] + Coded(t, Block(b, k), d) + b[8 * k + 8..]
  }

  /** The first n blocks coded, the rest as it was. */
  ghost function CodedBuffer(t: Tables, b: Bytes, n: nat, d: Direction): (c: Bytes)
    requires t.Valid() && 8 * n <= |b|
    ensures |c| == |b|
    decreases n
  {
    if n == 0 then b else CodedAt(t, CodedBuffer(t, b, n - 1, d), n - 1, d)
  }

  lemma {:induction false} CodedBlocks(t: Tables, b: Bytes, n: nat, d: Direction)
    requires t.Valid() && 8 * n <= |b|
    ensures forall k :: 0 <= k < n ==> Block(CodedBuffer(t, b, n, d), k) == Coded(t, Block(b, k), d)
    ensures CodedBuffer(t, b, n, d)[8 * n..] == b[8 * n..]
    decreases n
  {
    if n > 0 {
      CodedBlocks(t, b, n - 1, d);
      CodedNext(t, b, CodedBuffer(t, b, n - 1, d), CodedBuffer(t, b, n, d), n - 1, d);
    }
  }

  lemma CodedNext(t: Tables, b: Bytes, c: Bytes, now: Bytes, n: nat, d: Direction)
    requires t.Valid() && 8 * n + 8 <= |c| == |b| == |now| && c[8 * n..] == b[8 * n..]
    requires forall k :: 0 <= k < n ==> Block(c, k) == Coded(t, Block(b, k), d)
    requires now == c[..8 * n] + Coded(t, Block(c, n), d) + c[8 * (n + 1)..]
    ensures forall k :: 0 <= k <= n ==> Block(now, k) == Coded(t, Block(b, k), d)
    ensures now[8 * (n + 1)..] == b[8 * (n + 1)..]
  {
    SameTail(c, b, n);
    BlockChanged(c, n, Coded(t, Block(c, n), d), now);
  }

  /** Buffers alike from block k on. */
  lemma SameTail(a: Bytes, b: Bytes, k: nat)
    requires 8 * k + 8 <= |a| == |b| && a[8 * k..] == b[8 * k..]
    ensures Block(a, k) == Block(b, k) && a[8 * (k + 1)..] == b[8 * (k + 1)..]
  {
    assert Block(a, k) == a[8 * k..][..8] && Block(b, k) == b[8 * k..][..8];
    assert a[8 * (k + 1)..] == a[8 * k..][8..] && b[8 * (k + 1)..] == b[8 * k..][8..];
  }

  /** Block n of c is replaced. */
  lemma BlockChanged(c: Bytes, n: nat, block: Bytes, now: Bytes)
    requires 8 * n + 8 <= |c| && |block| == 8 && now == c[..8 * n] + block + c[8 * (n + 1)..]
    ensures |now| == |c| && Block(now, n) == block && now[8 * (n + 1)..] == c[8 * (n + 1)..]
    ensures forall k :: 0 <= k < n ==> Block(now, k) == Block(c, k)
  {
  }

  lemma DecodeWords(t: Tables, l: nat, r: nat)
    requires Narrow(t) && l < TWO32 && r < TWO32
    ensures var e := Encrypted(t, l, r, TWO32);
            var x := Decrypted(t, Low(e.0), Low(e.1), TWO32);
            x == (l, r)
  {
    var e := Encrypted(t, l, r, TWO32);
    DecryptEncrypt(t, l, r, TWO32);
    LowInverse(t, e.0, e.1, l, r);
  }

  lemma LowInverse(t: Tables, x: nat, y: nat, l: nat, r: nat)
    requires Narrow(t) && l < TWO32 && r < TWO32 && Decrypted(t, x, y, TWO32) == (l, r)
    ensures Decrypted(t, Low(x), Low(y), TWO32) == (l, r)
  {
    DecryptedLow(t, x, y, TWO32);
    assert Low(l) == l && Low(r) == r;
  }

  lemma DecodeBlock(t: Tables, b: Bytes)
    requires Narrow(t) && |b| == 8
    ensures Coded(t, Coded(t, b, Encode), Decode) == b
  {
    var l, r := Word(b[..4]), Word(b[4..]);
    var e := Encrypted(t, l, r, TWO32);
    var c := Bytes4(e.0) + Bytes4(e.1);
    assert Coded(t, b, Encode) == c;
    assert c[..4] == Bytes4(e.0) && c[4..] == Bytes4(e.1);
    WordOfBytes(e.0);
    WordOfBytes(e.1);
    DecodeWords(t, l, r);
    BytesOfWord(b[..4]);
    BytesOfWord(b[4..]);
    assert b == b[..4] + b[4..];
  }

  lemma SameBlocks(b: Bytes, c: Bytes, n: nat)
    requires |b| == |c| && 8 * n <= |b| && b[8 * n..] == c[8 * n..]
    requires forall k :: 0 <= k < n ==> Block(b, k) == Block(c, k)
    ensures b == c
  {
    forall i | 0 <= i < |b| ensures b[i] == c[i] {
      if i < 8 * n {
        assert Block(b, i / 8)[i % 8] == Block(c, i / 8)[i % 8];
      } else {
        assert b[8 * n..][i - 8 * n] == c[8 * n..][i - 8 * n];
      }
    }
  }

  /** Decoding undoes encoding on every buffer, the tail of fewer than eight bytes included. */
  lemma DecodeEncode(t: Tables, b: Bytes, n: nat)
    requires Narrow(t) && 8 * n <= |b|
    ensures CodedBuffer(t, CodedBuffer(t, b, n, Encode), n, Decode) == b
  {
    var c := CodedBuffer(t, b, n, Encode);
    CodedBlocks(t, b, n, Encode);
    CodedBlocks(t, c, n, Decode);
    forall k | 0 <= k < n ensures Block(CodedBuffer(t, c, n, Decode), k) == Block(b, k) {
      DecodeBlock(t, Block(b, k));
    }
    SameBlocks(CodedBuffer(t, c, n, Decode), b, n);
  }

  /** The tables of a 32-bit machine. */
  ghost function Reference(orig: Tables, key: Bytes): (t: Tables)
    requires orig.Valid() && key != []
    ensures t.Valid()
  {
    Schedule(LowTables(orig), key, TWO32)
  }

  /** They are the low halves of the tables of any machine. */
  lemma ReferenceLow(orig: Tables, key: Bytes, m: nat)
    requires orig.Valid() && key != [] && Wide(m)
    ensures var t := Schedule(orig, key, m);
            && (forall i :: 0 <= i < 18 ==> Reference(orig, key).p[i] == t.p[i] % 0x1_0000_0000)
            && forall i :: 0 <= i < 1024 ==> Reference(orig, key).s[i] == t.s[i] % 0x1_0000_0000
  {
    ScheduleLow(orig, key, m);
  }

  lemma ReferenceNarrow(orig: Tables, key: Bytes)
    requires orig.Valid() && key != []
    ensures Narrow(Reference(orig, key))
  {
    var low := LowTables(orig);
    assert Wide(TWO32);
    assert forall i :: 0 <= i < |low.p| ==> Low(low.p[i]) == low.p[i];
    assert LowTables(low).p == low.p && LowTables(low).s == low.s;
    ScheduleLow(low, key, TWO32);
  }

  // ----- the program -----

  /** WORD_WRITE twice: the low 32 bits of a word, highest byte first. */
  method WriteWord(source: array<byte>, at: nat, value: nat)
    requires at + 4 <= source.Length
    modifies source
    ensures source[..] == old(source[..at]) + Bytes4(value) + old(source[at + 4..])
  {
    var high, low := value / 0x1_0000, value % 0x1_0000;
    LowHalf(value);
    source[at] := high / 0x100 % 0x100;
    source[at + 1] := high % 0x100;
    source[at + 2] := low / 0x100 % 0x100;
    source[at + 3] := low % 0x100;
  }

  lemma LowHalf(x: nat)
    ensures x / 0x1_0000 / 0x100 == x / 0x100_0000
    ensures x % 0x1_0000 / 0x100 % 0x100 == x / 0x100 % 0x100 && x % 0x1_0000 % 0x100 == x % 0x100
  {
    Halves(x, x / 0x1_0000, x % 0x1_0000 / 0x100, x % 0x1_0000 % 0x100);
  }

  lemma Halves(x: nat, high: nat, b: byte, c: byte)
    requires x == 0x1_0000 * high + 0x100 * b + c
    ensures x / 0x100 % 0x100 == b && x % 0x100 == c && x / 0x100_0000 == high / 0x100
  {
    DivisionUnique(x, 0x100, 0x100 * high + b, c);
    DivisionUnique(0x100 * high + b, 0x100, high, b);
    Shifted(x);
  }

  /** The body of both loops: one block loaded, ciphered and written back. */
  method CodeBlock(ctx: Context, source: array<byte>, i: nat, d: Direction)
    requires ctx.Valid() && Wide(ctx.m) && 8 * i + 8 <= source.Length
    modifies source
    ensures source[..] == CodedAt(LowTables(ctx.Contents()), old(source[..]), i, d)
  {
    var at := 8 * i;
    var block := source[at..at + 8];
    var l, r := CodeWords(ctx, Word(block[..4]), Word(block[4..]), d);
    ghost var before := source[..];
    WriteWord(source, at, l);
    ghost var between := source[..];
    WriteWord(source, at + 4, r);
    TwoWords(before, between, source[..], at, Bytes4(l), Bytes4(r));
  }

  lemma TwoWords(before: Bytes, between: Bytes, now: Bytes, at: nat, a: Bytes, b: Bytes)
    requires at + 8 <= |before| && |a| == 4 && |b| == 4
    requires between == before[..at] + a + before[at + 4..] && now == between[..at + 4] + b + between[at + 8..]
    ensures now == before[..at] + (a + b) + before[at + 8..]
  {
    assert between[..at + 4] == before[..at] + a && between[at + 8..] == before[at + 8..];
  }

  /** The words are widened as they are loaded; only their low halves count. */
  method CodeWords(ctx: Context, v: nat, w: nat, d: Direction) returns (l: nat, r: nat)
    requires ctx.Valid() && Wide(ctx.m) && v < TWO32 && w < TWO32
    ensures var t := LowTables(ctx.Contents());
            var x := if d == Encode then Encrypted(t, v, w, TWO32) else Decrypted(t, v, w, TWO32);
            Bytes4(l) == Bytes4(x.0) && Bytes4(r) == Bytes4(x.1)
  {
    ghost var t := ctx.Contents();
    l, r := Loaded(v, ctx.m), Loaded(w, ctx.m);
    LoadedLow(v, ctx.m);
    LoadedLow(w, ctx.m);
    if d == Encode {
      EncryptedLow(t, l, r, ctx.m);
      l, r := ctx.Encrypt(l, r);
    } else {
      DecryptedLow(t, l, r, ctx.m);
      l, r := ctx.Decrypt(l, r);
    }
    BytesOfLow(l);
    BytesOfLow(r);
  }

  /** BlowFishEncode, or BlowFishDecode: every width gives the bytes of the 32-bit reference. */
  method Code(m: nat, orig: Tables, len: nat, source: array<byte>, key: Bytes, d: Direction)
    requires Wide(m) && orig.Valid() && key != [] && len <= source.Length
    modifies source
    ensures source[..] == CodedBuffer(Reference(orig, key), old(source[..]), len / 8, d)
  {
    ghost var t := Reference(orig, key);
    var ctx := new Context(m, orig, key);
    ScheduleLow(orig, key, m);
    CodeAll(ctx, len / 8, source, t, d);
  }

  /** The loop over whole blocks. */
  method CodeAll(ctx: Context, n: nat, source: array<byte>, ghost t: Tables, d: Direction)
    requires ctx.Valid() && Wide(ctx.m) && t.Valid() && LowTables(ctx.Contents()) == t
    requires 8 * n <= source.Length && ctx.p as object != source && ctx.s as object != source
    modifies source
    ensures source[..] == CodedBuffer(t, old(source[..]), n, d)
  {
    ghost var was := source[..];
    for i := 0 to n
      invariant LowTables(ctx.Contents()) == t
      invariant source[..] == CodedBuffer(t, was, i, d)
    {
      CodeNext(ctx, i, source, t, was, d);
    }
  }

  /** One turn of it. */
  method CodeNext(ctx: Context, i: nat, source: array<byte>, ghost t: Tables, ghost was: Bytes, d: Direction)
    requires ctx.Valid() && Wide(ctx.m) && t.Valid() && LowTables(ctx.Contents()) == t
    requires ctx.p as object != source && ctx.s as object != source
    requires 8 * i + 8 <= |was| == source.Length && source[..] == CodedBuffer(t, was, i, d)
    modifies source
    ensures LowTables(ctx.Contents()) == t && source[..] == CodedBuffer(t, was, i + 1, d)
  {
    CodeBlock(ctx, source, i, d);
  }

  /** A buffer encoded on one machine and decoded on another comes back, whatever their widths. */
  method Exchange(m: nat, m': nat, orig: Tables, len: nat, source: array<byte>, key: Bytes)
    requires Wide(m) && Wide(m') && orig.Valid() && key != [] && len <= source.Length
    modifies source
    ensures source[..] == old(source[..])
  {
    ReferenceNarrow(orig, key);
    DecodeEncode(Reference(orig, key), source[..], len / 8);
    Code(m, orig, len, source, key, Encode);
    Code(m', orig, len, source, key, Decode);
  }
}
