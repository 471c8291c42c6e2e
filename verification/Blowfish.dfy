/**
 missing/blowfish.c for an unsigned long of any width of at least 32 bits.

 A word is a natural number; M is 2 to the width.  Additions wrap at M, exclusive
 or cannot overflow.  The constant tables are parameters.
 */
module Blowfish {
  import opened Words
  import opened Numbers

  const N := 16

  /** Bitwise exclusive or. */
  function Xor(a: nat, b: nat): nat {
    if a == 0 && b == 0 then 0 else (if a % 2 == b % 2 then 0 else 1) + 2 * Xor(a / 2, b / 2)
  }

  // ----- exclusive or -----

  /** The last bit and the others. */
  lemma XorStep(a: nat, b: nat)
    ensures Xor(a, b) % 2 == (if a % 2 == b % 2 then 0 else 1) && Xor(a, b) / 2 == Xor(a / 2, b / 2)
  {
    var bit := if a % 2 == b % 2 then 0 else 1;
    var rest := Xor(a / 2, b / 2);
    Doubled(bit, rest);
    if a != 0 || b != 0 {
      assert Xor(a, b) == bit + 2 * rest;
    }
  }

  lemma Doubled(bit: nat, rest: nat)
    requires bit < 2
    ensures (bit + 2 * rest) % 2 == bit && (bit + 2 * rest) / 2 == rest
  {
  }

  lemma {:induction false} XorSymmetric(a: nat, b: nat)
    ensures Xor(a, b) == Xor(b, a)
    decreases a + b
  {
    if a != 0 || b != 0 {
      XorSymmetric(a / 2, b / 2);
    }
  }

  lemma {:induction false} XorTwice(a: nat, b: nat)
    ensures Xor(Xor(a, b), b) == a
    decreases a + b
  {
    if a != 0 || b != 0 {
      XorTwice(a / 2, b / 2);
      XorStep(a, b);
      XorStep(Xor(a, b), b);
    }
  }

  lemma XorBack(a: nat, b: nat)
    ensures Xor(a, Xor(a, b)) == b
  {
    XorSymmetric(a, b);
    XorSymmetric(a, Xor(a, b));
    XorTwice(b, a);
  }

  /** Exclusive or of the low k bits is the low k bits of the exclusive or. */
  lemma {:induction false} XorLow(a: nat, b: nat, k: nat)
    ensures Xor(a, b) % Pow2(k) == Xor(a % Pow2(k), b % Pow2(k))
    decreases k
  {
    if k > 0 {
      XorLow(a / 2, b / 2, k - 1);
      HalfLow(a, k);
      HalfLow(b, k);
      HalfLow(Xor(a, b), k);
      XorStep(a, b);
      XorStep(a % Pow2(k), b % Pow2(k));
      var x, y := Xor(a, b) % Pow2(k), Xor(a % Pow2(k), b % Pow2(k));
      assert x / 2 == y / 2 && x % 2 == y % 2;
    } else {
      assert Pow2(0) == 1 && a % 1 == 0 && b % 1 == 0 && Xor(a, b) % 1 == 0;
    }
  }

  /** Halving the low k bits leaves the low k - 1 bits of the half. */
  lemma HalfLow(a: nat, k: nat)
    requires k > 0
    ensures Pow2(k) == 2 * Pow2(k - 1)
    ensures a % Pow2(k) / 2 == a / 2 % Pow2(k - 1) && a % Pow2(k) % 2 == a % 2
  {
    var m := Pow2(k - 1);
    var q, r := a / 2 / m, a / 2 % m;
    assert a / 2 == m * q + r;
    MulAssociative(2, m, q);
    DivisionUnique(a, 2 * m, q, 2 * r + a % 2);
    Doubled(a % 2, r);
  }

  // ----- the low 32 bits -----

  lemma XorLow32(a: nat, b: nat)
    ensures Low(Xor(a, b)) == Xor(Low(a), Low(b))
  {
    Pow2Of32();
    XorLow(a, b, 32);
  }

  // ----- the cipher -----

  /** BLOWFISH_CTX; entry 256 * i + j of s is S[i][j]. */
  datatype Tables = Tables(p: seq<nat>, s: seq<nat>) {
    predicate Valid() {
      |p| == N + 2 && |s| == 1024
    }
  }

  function Feistel(t: Tables, x: nat, m: nat): nat
    requires t.Valid() && m > 0
  {
    var b := Bytes4(x);
    (Xor((t.s[b[0]] + t.s[256 + b[1]]) % m, t.s[512 + b[2]]) + t.s[768 + b[3]]) % m
  }

  function Round(t: Tables, k: nat, l: nat, r: nat, m: nat): (nat, nat)
    requires t.Valid() && m > 0 && k < N + 2
  {
    var x := Xor(l, t.p[k]);
    (Xor(Feistel(t, x, m), r), x)
  }

  ghost function EncryptRounds(t: Tables, l: nat, r: nat, m: nat, n: nat): (nat, nat)
    requires t.Valid() && m > 0 && n <= N
  {
    if n == 0 then (l, r) else
      var x := EncryptRounds(t, l, r, m, n - 1);
      Round(t, n - 1, x.0, x.1, m)
  }

  ghost function Encrypted(t: Tables, l: nat, r: nat, m: nat): (nat, nat)
    requires t.Valid() && m > 0
  {
    var x := EncryptRounds(t, l, r, m, N);
    (Xor(x.1, t.p[N + 1]), Xor(x.0, t.p[N]))
  }

  ghost function DecryptRounds(t: Tables, l: nat, r: nat, m: nat, n: nat): (nat, nat)
    requires t.Valid() && m > 0 && n <= N
  {
    if n == 0 then (l, r) else
      var x := DecryptRounds(t, l, r, m, n - 1);
      Round(t, N + 2 - n, x.0, x.1, m)
  }

  ghost function Decrypted(t: Tables, l: nat, r: nat, m: nat): (nat, nat)
    requires t.Valid() && m > 0
  {
    var x := DecryptRounds(t, l, r, m, N);
    (Xor(x.1, t.p[0]), Xor(x.0, t.p[1]))
  }

  /** One decryption round takes one encryption round back, whatever F is. */
  lemma RoundBack(t: Tables, k: nat, l: nat, r: nat, m: nat)
    requires t.Valid() && m > 0 && k < N
    ensures var x := Round(t, k, l, r, m);
            Round(t, k + 2, Xor(x.1, t.p[k + 2]), Xor(x.0, t.p[k + 1]), m) == (Xor(r, t.p[k + 1]), Xor(l, t.p[k]))
  {
    var x := Xor(l, t.p[k]);
    var f := Feistel(t, x, m);
    XorTwice(x, t.p[k + 2]);
    XorThree(f, r, t.p[k + 1]);
  }

  lemma XorThree(f: nat, r: nat, p: nat)
    ensures Xor(f, Xor(Xor(f, r), p)) == Xor(r, p)
  {
    XorAssociative(f, r, p);
    XorBack(f, Xor(r, p));
  }

  lemma {:induction false} XorAssociative(a: nat, b: nat, c: nat)
    ensures Xor(Xor(a, b), c) == Xor(a, Xor(b, c))
    decreases a + b + c
  {
    if a + b + c > 0 {
      XorAssociative(a / 2, b / 2, c / 2);
      XorStep(a, b);
      XorStep(b, c);
      XorStep(Xor(a, b), c);
      XorStep(a, Xor(b, c));
    }
  }

  lemma {:induction false} RoundsBack(t: Tables, l: nat, r: nat, m: nat, n: nat)
    requires t.Valid() && m > 0 && n <= N
    ensures var e := Encrypted(t, l, r, m);
            var x := EncryptRounds(t, l, r, m, N - n);
            DecryptRounds(t, e.0, e.1, m, n) == (Xor(x.1, t.p[N + 1 - n]), Xor(x.0, t.p[N - n]))
    decreases n
  {
    if n > 0 {
      RoundsBack(t, l, r, m, n - 1);
      var x := EncryptRounds(t, l, r, m, N - n);
      RoundBack(t, N - n, x.0, x.1, m);
    }
  }

  /** The Feistel inverse: decryption undoes encryption, for all tables, words and widths. */
  lemma DecryptEncrypt(t: Tables, l: nat, r: nat, m: nat)
    requires t.Valid() && m > 0
    ensures var e := Encrypted(t, l, r, m); Decrypted(t, e.0, e.1, m) == (l, r)
  {
    RoundsBack(t, l, r, m, N);
    XorTwice(l, t.p[0]);
    XorTwice(r, t.p[1]);
  }

  // ----- width independence -----

  ghost function LowAll(s: seq<nat>): seq<nat> {
    seq(|s|, i requires 0 <= i < |s| => Low(s[i]))
  }

  ghost function LowTables(t: Tables): Tables {
    Tables(LowAll(t.p), LowAll(t.s))
  }

  /** The four bytes that F looks at. */
  function Bytes4(x: nat): Bytes {
    [x / 0x100_0000 % 0x100, x / 0x1_0000 % 0x100, x / 0x100 % 0x100, x % 0x100]
  }

  lemma ByteByByte(x: nat, a: byte, b: byte, c: byte, d: byte)
    requires d == x % 0x100 && c == x / 0x100 % 0x100 && b == x / 0x100 / 0x100 % 0x100
    requires a == x / 0x100 / 0x100 / 0x100 % 0x100
    ensures Bytes4(x) == [a, b, c, d]
  {
    Shifted(x);
  }

  /** The first half of F: the bytes of the low half of a word. */
  method Shift(x0: nat) returns (a: byte, b: byte, c: byte, d: byte)
    ensures Bytes4(x0) == [a, b, c, d]
  {
    var x := x0;
    d := x % 0x100;
    x := x / 0x100;
    c := x % 0x100;
    x := x / 0x100;
    b := x % 0x100;
    x := x / 0x100;
    a := x % 0x100;
    ByteByByte(x0, a, b, c, d);
  }

  lemma FeistelOf(t: Tables, x: nat, m: nat, a: byte, b: byte, c: byte, d: byte)
    requires t.Valid() && m > 0 && Bytes4(x) == [a, b, c, d]
    ensures Feistel(t, x, m) == (Xor((t.s[a] + t.s[256 + b]) % m, t.s[512 + c]) + t.s[768 + d]) % m
  {
  }

  /** The second half, on the four table entries. */
  method Combine(a: nat, b: nat, c: nat, d: nat, m: nat) returns (y: nat)
    requires m > 0
    ensures y == (Xor((a + b) % m, c) + d) % m
  {
    y := (a + b) % m;
    y := Xor(y, c);
    y := (y + d) % m;
  }

  lemma BytesOfLow(x: nat)
    ensures Bytes4(Low(x)) == Bytes4(x)
  {
    var q, r := x / TWO32, Low(x);
    assert x == TWO32 * q + r;
    ByteOfLow(q, r, 0x100_0000, 0x100);
    ByteOfLow(q, r, 0x1_0000, 0x1_0000);
    ByteOfLow(q, r, 0x100, 0x100_0000);
    ByteOfLow(q, r, 1, TWO32);
  }

  lemma ByteOfLow(q: nat, r: nat, c: nat, d: nat)
    requires c > 0 && c * d == TWO32 && d % 0x100 == 0
    ensures (TWO32 * q + r) / c % 0x100 == r / c % 0x100
  {
    MulAssociative(c, d, q);
    ShiftSum(c, d * q, r);
    var k := d / 0x100;
    assert d == 0x100 * k;
    MulAssociative(0x100, k, q);
    var y := r / c;
    assert y == 0x100 * (y / 0x100) + y % 0x100;
    DivisionUnique(0x100 * (k * q) + y, 0x100, k * q + y / 0x100, y % 0x100);
  }

  lemma FLow(t: Tables, x: nat, m: nat)
    requires t.Valid() && Wide(m)
    ensures Low(Feistel(t, x, m)) == Feistel(LowTables(t), Low(x), TWO32)
  {
    var b := Bytes4(x);
    BytesOfLow(x);
    var y := (t.s[b[0]] + t.s[256 + b[1]]) % m;
    AddLow(t.s[b[0]], t.s[256 + b[1]], m);
    XorLow32(y, t.s[512 + b[2]]);
    AddLow(Xor(y, t.s[512 + b[2]]), t.s[768 + b[3]], m);
  }

  lemma RoundLow(t: Tables, k: nat, l: nat, r: nat, m: nat)
    requires t.Valid() && Wide(m) && k < N + 2
    ensures var x := Round(t, k, l, r, m);
            Round(LowTables(t), k, Low(l), Low(r), TWO32) == (Low(x.0), Low(x.1))
  {
    var x := Xor(l, t.p[k]);
    XorLow32(l, t.p[k]);
    FLow(t, x, m);
    XorLow32(Feistel(t, x, m), r);
  }

  lemma {:induction false} EncryptRoundsLow(t: Tables, l: nat, r: nat, m: nat, n: nat)
    requires t.Valid() && Wide(m) && n <= N
    ensures var x := EncryptRounds(t, l, r, m, n);
            EncryptRounds(LowTables(t), Low(l), Low(r), TWO32, n) == (Low(x.0), Low(x.1))
    decreases n
  {
    if n > 0 {
      EncryptRoundsLow(t, l, r, m, n - 1);
      var x := EncryptRounds(t, l, r, m, n - 1);
      RoundLow(t, n - 1, x.0, x.1, m);
    }
  }

  lemma {:induction false} DecryptRoundsLow(t: Tables, l: nat, r: nat, m: nat, n: nat)
    requires t.Valid() && Wide(m) && n <= N
    ensures var x := DecryptRounds(t, l, r, m, n);
            DecryptRounds(LowTables(t), Low(l), Low(r), TWO32, n) == (Low(x.0), Low(x.1))
    decreases n
  {
    if n > 0 {
      DecryptRoundsLow(t, l, r, m, n - 1);
      var x := DecryptRounds(t, l, r, m, n - 1);
      RoundLow(t, N + 2 - n, x.0, x.1, m);
    }
  }

  /** The low halves of the output depend on the low halves of tables and input alone. */
  lemma EncryptedLow(t: Tables, l: nat, r: nat, m: nat)
    requires t.Valid() && Wide(m)
    ensures var x := Encrypted(t, l, r, m);
            Encrypted(LowTables(t), Low(l), Low(r), TWO32) == (Low(x.0), Low(x.1))
  {
    EncryptRoundsLow(t, l, r, m, N);
    var x := EncryptRounds(t, l, r, m, N);
    XorLow32(x.1, t.p[N + 1]);
    XorLow32(x.0, t.p[N]);
  }

  lemma DecryptedLow(t: Tables, l: nat, r: nat, m: nat)
    requires t.Valid() && Wide(m)
    ensures var x := Decrypted(t, l, r, m);
            Decrypted(LowTables(t), Low(l), Low(r), TWO32) == (Low(x.0), Low(x.1))
  {
    DecryptRoundsLow(t, l, r, m, N);
    var x := DecryptRounds(t, l, r, m, N);
    XorLow32(x.1, t.p[0]);
    XorLow32(x.0, t.p[1]);
  }

  // ----- the key schedule -----

  /** n key bytes from place i on, the key repeated without end. */
  ghost function KeyPart(key: Bytes, i: nat, n: nat): nat
    requires key != []
  {
    if n == 0 then 0 else KeyPart(key, i, n - 1) * 0x100 + key[(i + n - 1) % |key|]
  }

  /** Four key bytes from place i on, the key repeated without end. */
  ghost function KeyWord(key: Bytes, i: nat): nat
    requires key != []
  {
    KeyPart(key, i, 4)
  }

  ghost function Keyed(orig: Tables, key: Bytes): Tables
    requires orig.Valid() && key != []
  {
    orig.(p := seq(N + 2, i requires 0 <= i < N + 2 => Xor(orig.p[i], KeyWord(key, 4 * i))))
  }

  /** Pair k of the tables, counting through P and then through S. */
  function Store(t: Tables, k: nat, l: nat, r: nat): (t': Tables)
    requires t.Valid() && k < 521
    ensures t'.Valid()
  {
    if k < 9 then t.(p := t.p[2 * k := l][2 * k + 1 := r])
    else t.(s := t.s[2 * (k - 9) := l][2 * (k - 9) + 1 := r])
  }

  datatype Progress = Progress(t: Tables, l: nat, r: nat)

  /** The first n chained encryptions of the key schedule. */
  ghost function Chained(t: Tables, m: nat, n: nat): (x: Progress)
    requires t.Valid() && m > 0 && n <= 521
    ensures x.t.Valid()
  {
    if n == 0 then Progress(t, 0, 0) else
      var x := Chained(t, m, n - 1);
      var e := Encrypted(x.t, x.l, x.r, m);
      Progress(Store(x.t, n - 1, e.0, e.1), e.0, e.1)
  }

  ghost function Schedule(orig: Tables, key: Bytes, m: nat): (t: Tables)
    requires orig.Valid() && key != [] && m > 0
    ensures t.Valid()
  {
    Chained(Keyed(orig, key), m, 521).t
  }

  lemma StoreLow(t: Tables, k: nat, l: nat, r: nat)
    requires t.Valid() && k < 521
    ensures LowTables(Store(t, k, l, r)) == Store(LowTables(t), k, Low(l), Low(r))
  {
    var a, b := LowTables(Store(t, k, l, r)), Store(LowTables(t), k, Low(l), Low(r));
    assert a.p == b.p;
    assert a.s == b.s;
  }

  lemma {:induction false} ChainedLow(t: Tables, m: nat, n: nat)
    requires t.Valid() && Wide(m) && n <= 521
    ensures var x := Chained(t, m, n);
            Chained(LowTables(t), TWO32, n) == Progress(LowTables(x.t), Low(x.l), Low(x.r))
    decreases n
  {
    if n > 0 {
      ChainedLow(t, m, n - 1);
      var x := Chained(t, m, n - 1);
      var e := Encrypted(x.t, x.l, x.r, m);
      EncryptedLow(x.t, x.l, x.r, m);
      StoreLow(x.t, n - 1, e.0, e.1);
    } else {
      assert Low(0) == 0;
    }
  }

  lemma KeyWordLow(key: Bytes, i: nat)
    requires key != []
    ensures KeyWord(key, i) < TWO32 && Low(KeyWord(key, i)) == KeyWord(key, i)
  {
    assert KeyPart(key, i, 1) < 0x100;
    assert KeyPart(key, i, 2) < 0x1_0000;
    assert KeyPart(key, i, 3) < 0x100_0000;
  }

  lemma KeyedLow(orig: Tables, key: Bytes)
    requires orig.Valid() && key != []
    ensures LowTables(Keyed(orig, key)) == Keyed(LowTables(orig), key)
  {
    forall i | 0 <= i < N + 2
      ensures Low(Keyed(orig, key).p[i]) == Keyed(LowTables(orig), key).p[i]
    {
      KeyWordLow(key, 4 * i);
      XorLow32(orig.p[i], KeyWord(key, 4 * i));
    }
    assert LowTables(Keyed(orig, key)).p == Keyed(LowTables(orig), key).p;
  }

  /** All of the key schedule, 521 chained encryptions long, is the 32-bit one in its low halves. */
  lemma ScheduleLow(orig: Tables, key: Bytes, m: nat)
    requires orig.Valid() && key != [] && Wide(m)
    ensures LowTables(Schedule(orig, key, m)) == Schedule(LowTables(orig), key, TWO32)
  {
    KeyedLow(orig, key);
    ChainedLow(Keyed(orig, key), m, 521);
  }

  // ----- the cipher word by word -----

  /** Exclusive or, bit by bit. */
  lemma {:induction false} XorBit(a: nat, b: nat, k: nat)
    ensures Xor(a, b) / Pow2(k) % 2 == (a / Pow2(k) + b / Pow2(k)) % 2
    decreases k
  {
    if k == 0 {
      XorParity(a, b);
    } else {
      XorParity(a, b);
      XorBit(a / 2, b / 2, k - 1);
      HalfFirst(a, Pow2(k - 1));
      HalfFirst(b, Pow2(k - 1));
      HalfFirst(Xor(a, b), Pow2(k - 1));
    }
  }

  lemma XorParity(a: nat, b: nat)
    ensures Xor(a, b) % 2 == (a + b) % 2 && Xor(a, b) / 2 == Xor(a / 2, b / 2)
  {
  }

  lemma HalfFirst(a: nat, p: nat)
    requires p > 0
    ensures a / (2 * p) == a / 2 / p
  {
    var h := a / 2;
    var q, r := h / p, h % p;
    assert h == p * q + r && a == 2 * h + a % 2;
    assert a == (2 * p) * q + (2 * r + a % 2);
    DivisionUnique(a, 2 * p, q, 2 * r + a % 2);
  }

  /** The round function, spelt out from the four tables. */
  lemma FeistelWord(t: Tables, x: nat, m: nat)
    requires t.Valid() && m > 0
    ensures Feistel(t, x, m) ==
            (Xor((t.s[x / 0x100_0000 % 0x100] + t.s[256 + x / 0x1_0000 % 0x100]) % m, t.s[512 + x / 0x100 % 0x100])
             + t.s[768 + x % 0x100]) % m
  {
    FeistelOf(t, x, m, x / 0x100_0000 % 0x100, x / 0x1_0000 % 0x100, x / 0x100 % 0x100, x % 0x100);
  }

  lemma {:induction false} EncryptedSoFar(t: Tables, l: nat, r: nat, m: nat, a: seq<nat>, n: nat)
    requires t.Valid() && m > 0 && |a| == 17 && 1 <= n <= 16
    requires a[0] == Xor(l, t.p[0]) && a[1] == Xor(Xor(Feistel(t, a[0], m), r), t.p[1])
    requires forall i :: 1 <= i < 16 ==> a[i + 1] == Xor(Xor(Feistel(t, a[i], m), a[i - 1]), t.p[i + 1])
    ensures EncryptRounds(t, l, r, m, n) == (Xor(Feistel(t, a[n - 1], m), if n == 1 then r else a[n - 2]), a[n - 1])
    decreases n
  {
    if n == 1 {
      assert EncryptRounds(t, l, r, m, 0) == (l, r);
    } else {
      EncryptedSoFar(t, l, r, m, a, n - 1);
    }
  }

  /**
   Encryption as seventeen words, each the round function of the one before, exclusive or the one before that and
   a table entry; the last two make the result.
   */
  lemma EncryptedWords(t: Tables, l: nat, r: nat, m: nat, a: seq<nat>)
    requires t.Valid() && m > 0 && |a| == 17
    requires a[0] == Xor(l, t.p[0]) && a[1] == Xor(Xor(Feistel(t, a[0], m), r), t.p[1])
    requires forall i :: 1 <= i < 16 ==> a[i + 1] == Xor(Xor(Feistel(t, a[i], m), a[i - 1]), t.p[i + 1])
    ensures Encrypted(t, l, r, m) == (Xor(a[15], t.p[17]), a[16])
  {
    EncryptedSoFar(t, l, r, m, a, 16);
  }

  lemma {:induction false} DecryptedSoFar(t: Tables, l: nat, r: nat, m: nat, a: seq<nat>, n: nat)
    requires t.Valid() && m > 0 && |a| == 17 && 1 <= n <= 16
    requires a[0] == Xor(l, t.p[17]) && a[1] == Xor(Xor(Feistel(t, a[0], m), r), t.p[16])
    requires forall i :: 1 <= i < 16 ==> a[i + 1] == Xor(Xor(Feistel(t, a[i], m), a[i - 1]), t.p[16 - i])
    ensures DecryptRounds(t, l, r, m, n) == (Xor(Feistel(t, a[n - 1], m), if n == 1 then r else a[n - 2]), a[n - 1])
    decreases n
  {
    if n == 1 {
      assert DecryptRounds(t, l, r, m, 0) == (l, r);
    } else {
      DecryptedSoFar(t, l, r, m, a, n - 1);
    }
  }

  /** Decryption is the same with the table entries in reverse. */
  lemma DecryptedWords(t: Tables, l: nat, r: nat, m: nat, a: seq<nat>)
    requires t.Valid() && m > 0 && |a| == 17
    requires a[0] == Xor(l, t.p[17]) && a[1] == Xor(Xor(Feistel(t, a[0], m), r), t.p[16])
    requires forall i :: 1 <= i < 16 ==> a[i + 1] == Xor(Xor(Feistel(t, a[i], m), a[i - 1]), t.p[16 - i])
    ensures Decrypted(t, l, r, m) == (Xor(a[15], t.p[0]), a[16])
  {
    DecryptedSoFar(t, l, r, m, a, 16);
  }

  /** The key goes into P four bytes an entry, highest first, starting over at its end; S is as it was. */
  lemma KeyedWords(orig: Tables, key: Bytes, i: nat)
    requires orig.Valid() && key != [] && i < 18
    ensures Keyed(orig, key).s == orig.s
    ensures Keyed(orig, key).p[i] ==
            Xor(orig.p[i],
                ((key[4 * i % |key|] as nat * 0x100 + key[(4 * i + 1) % |key|]) * 0x100
                 + key[(4 * i + 2) % |key|]) * 0x100 + key[(4 * i + 3) % |key|])
  {
    assert KeyPart(key, 4 * i, 1) == key[4 * i % |key|];
    assert KeyPart(key, 4 * i, 2) == KeyPart(key, 4 * i, 1) * 0x100 + key[(4 * i + 1) % |key|];
    assert KeyPart(key, 4 * i, 3) == KeyPart(key, 4 * i, 2) * 0x100 + key[(4 * i + 2) % |key|];
  }

  /**
   The key schedule: from the keyed tables and the words (0, 0), 521 encryptions, each of the words before it
   under the tables before it, each replacing the next two entries of P and then of S.
   */
  lemma ScheduleSteps(orig: Tables, key: Bytes, m: nat, ts: seq<Tables>, ls: seq<nat>, rs: seq<nat>)
    requires orig.Valid() && key != [] && m > 0 && |ts| == |ls| == |rs| == 522
    requires ts[0] == Keyed(orig, key) && ls[0] == 0 && rs[0] == 0
    requires forall k :: 0 <= k < 522 ==> |ts[k].p| == 18 && |ts[k].s| == 1024
    requires forall k :: 0 <= k < 521 ==> (ls[k + 1], rs[k + 1]) == Encrypted(ts[k], ls[k], rs[k], m)
    requires forall k :: 0 <= k < 9 ==>
               ts[k + 1] == Tables(ts[k].p[2 * k := ls[k + 1]][2 * k + 1 := rs[k + 1]], ts[k].s)
    requires forall k :: 9 <= k < 521 ==>
               ts[k + 1] == Tables(ts[k].p, ts[k].s[2 * k - 18 := ls[k + 1]][2 * k - 17 := rs[k + 1]])
    ensures Schedule(orig, key, m) == ts[521]
  {
    ChainedSoFar(ts, ls, rs, m, 521);
  }

  lemma {:induction false} ChainedSoFar(ts: seq<Tables>, ls: seq<nat>, rs: seq<nat>, m: nat, n: nat)
    requires m > 0 && |ts| == |ls| == |rs| == 522 && n <= 521
    requires ls[0] == 0 && rs[0] == 0
    requires forall k :: 0 <= k < 522 ==> |ts[k].p| == 18 && |ts[k].s| == 1024
    requires forall k :: 0 <= k < 521 ==> (ls[k + 1], rs[k + 1]) == Encrypted(ts[k], ls[k], rs[k], m)
    requires forall k :: 0 <= k < 9 ==>
               ts[k + 1] == Tables(ts[k].p[2 * k := ls[k + 1]][2 * k + 1 := rs[k + 1]], ts[k].s)
    requires forall k :: 9 <= k < 521 ==>
               ts[k + 1] == Tables(ts[k].p, ts[k].s[2 * k - 18 := ls[k + 1]][2 * k - 17 := rs[k + 1]])
    ensures Chained(ts[0], m, n) == Progress(ts[n], ls[n], rs[n])
    decreases n
  {
    if n > 0 {
      ChainedSoFar(ts, ls, rs, m, n - 1);
    }
  }

  // ----- the program -----

  /** BLOWFISH_CTX in memory. */
  class Context {
    const m: nat
    const p: array<nat>
    const s: array<nat>

    ghost predicate Valid()
      reads this
    {
      m > 0 && p.Length == N + 2 && s.Length == 1024 && p != s
    }

    ghost function Contents(): (t: Tables)
      requires Valid()
      reads this, p, s
      ensures t.Valid()
    {
      Tables(p[..], s[..])
    }

    method F(x0: nat) returns (y: nat)
      requires Valid()
      ensures y == Feistel(Contents(), x0, m)
    {
      ghost var t := Contents();
      var a, b, c, d := Shift(x0);
      y := Combine(s[a], s[256 + b], s[512 + c], s[768 + d], m);
      FeistelOf(t, x0, m, a, b, c, d);
    }

    /** Blowfish_Encrypt. */
    method Encrypt(xl: nat, xr: nat) returns (l: nat, r: nat)
      requires Valid()
      ensures (l, r) == Encrypted(Contents(), xl, xr, m)
    {
      l, r := xl, xr;
      for i := 0 to N
        invariant (l, r) == EncryptRounds(Contents(), xl, xr, m, i)
      {
        l := Xor(l, p[i]);
        var f := F(l);
        r := Xor(f, r);
        l, r := r, l;
      }
      l, r := r, l;
      r := Xor(r, p[N]);
      l := Xor(l, p[N + 1]);
    }

    /** Blowfish_Decrypt. */
    method Decrypt(xl: nat, xr: nat) returns (l: nat, r: nat)
      requires Valid()
      ensures (l, r) == Decrypted(Contents(), xl, xr, m)
    {
      l, r := xl, xr;
      var i := N + 1;
      while i > 1
        invariant 1 <= i <= N + 1 && (l, r) == DecryptRounds(Contents(), xl, xr, m, N + 1 - i)
      {
        l := Xor(l, p[i]);
        var f := F(l);
        r := Xor(f, r);
        l, r := r, l;
        i := i - 1;
      }
      l, r := r, l;
      r := Xor(r, p[1]);
      l := Xor(l, p[0]);
    }

    /** Blowfish_Init. */
    constructor (m: nat, orig: Tables, key: Bytes)
      requires m > 0 && orig.Valid() && key != []
      ensures Valid() && this.m == m && fresh(p) && fresh(s)
      ensures Contents() == Schedule(orig, key, m)
    {
      this.m := m;
      p := new nat[N + 2];
      s := new nat[1024];
      new;
      forall i | 0 <= i < 1024 {
        s[i] := orig.s[i];
      }
      SetKey(orig, key);
      Mix();
    }

    /** The key is mixed into P, four bytes an entry, starting over at its end. */
    method SetKey(orig: Tables, key: Bytes)
      requires Valid() && orig.Valid() && key != [] && s[..] == orig.s
      modifies p
      ensures Contents() == Keyed(orig, key)
    {
      var j := 0;
      for i := 0 to N + 2
        invariant j == 4 * i % |key|
        invariant forall k :: 0 <= k < i ==> p[k] == Xor(orig.p[k], KeyWord(key, 4 * k))
      {
        var data;
        data, j := KeyData(key, j, 4 * i);
        p[i] := Xor(orig.p[i], data);
      }
      assert p[..] == Keyed(orig, key).p;
    }

    static method KeyData(key: Bytes, j0: nat, ghost i: nat) returns (data: nat, j: nat)
      requires key != [] && j0 == i % |key|
      ensures data == KeyWord(key, i) && j == (i + 4) % |key|
    {
      data, j := 0, j0;
      for k := 0 to 4
        invariant j == (i + k) % |key| && data == KeyPart(key, i, k)
      {
        data := data * 0x100 + key[j];
        NextModulo(i + k, |key|);
        j := j + 1;
        if j >= |key| {
          j := 0;
        }
      }
    }

    /** The chained encryptions that fill P and S. */
    method Mix()
      requires Valid()
      modifies p, s
      ensures Contents() == Chained(old(Contents()), m, 521).t
    {
      ghost var t := Contents();
      var datal, datar := MixP();
      MixS(datal, datar, t);
    }

    method MixP() returns (datal: nat, datar: nat)
      requires Valid()
      modifies p
      ensures Chained(old(Contents()), m, 9) == Progress(Contents(), datal, datar)
    {
      ghost var t, n := Contents(), 0;
      datal, datar := 0, 0;
      var i := 0;
      while i < N + 2
        invariant 0 <= i <= N + 2 && i == 2 * n
        invariant Chained(t, m, n) == Progress(Contents(), datal, datar)
        decreases N + 2 - i
      {
        datal, datar := Encrypt(datal, datar);
        ghost var was := Contents();
        p[i] := datal;
        p[i + 1] := datar;
        assert Contents().p == Store(was, n, datal, datar).p;
        i := i + 2;
        n := n + 1;
      }
    }

    method MixS(datal0: nat, datar0: nat, ghost t: Tables)
      requires Valid() && t.Valid() && Chained(t, m, 9) == Progress(Contents(), datal0, datar0)
      modifies s
      ensures Contents() == Chained(t, m, 521).t
    {
      var datal, datar := datal0, datar0;
      ghost var n := 9;
      var i := 0;
      while i < 4
        invariant 0 <= i <= 4 && n == 9 + 128 * i
        invariant Chained(t, m, n) == Progress(Contents(), datal, datar)
      {
        datal, datar, n := MixRow(i, datal, datar, t, n);
        i := i + 1;
      }
    }

    method StorePair(k: nat, datal: nat, datar: nat, ghost n: nat)
      requires Valid() && 9 <= n < 521 && k == 2 * (n - 9)
      modifies s
      ensures Contents() == Store(old(Contents()), n, datal, datar)
    {
      s[k] := datal;
      s[k + 1] := datar;
    }

    method MixRow(i: nat, datal0: nat, datar0: nat, ghost t: Tables, ghost n0: nat)
      returns (datal: nat, datar: nat, ghost n: nat)
      requires Valid() && t.Valid() && i < 4 && n0 == 9 + 128 * i
      requires Chained(t, m, n0) == Progress(Contents(), datal0, datar0)
      modifies s
      ensures n == n0 + 128 && Chained(t, m, n) == Progress(Contents(), datal, datar)
    {
      datal, datar, n := datal0, datar0, n0;
      var j := 0;
      ghost var done: nat := 0;
      while j < 256
        invariant j == 2 * done && done <= 128 && n == n0 + done
        invariant Chained(t, m, n) == Progress(Contents(), datal, datar)
        decreases 256 - j
      {
        datal, datar := Encrypt(datal, datar);
        StorePair(256 * i + j, datal, datar, n);
        j := j + 2;
        n, done := n + 1, done + 1;
      }
    }
  }

  lemma NextModulo(a: nat, n: nat)
    requires n > 0
    ensures (a + 1) % n == if a % n + 1 >= n then 0 else a % n + 1
  {
    var q, r := a / n, a % n;
    assert a == n * q + r;
    if r + 1 >= n {
      assert a + 1 == n * (q + 1);
      DivisionUnique(a + 1, n, q + 1, 0);
    } else {
      DivisionUnique(a + 1, n, q, r + 1);
    }
  }
}
