/**
 The streaming side of missing/md5.c: md5_starts, md5_update and md5_finish
 around an arbitrary block compression function.

 A word is a natural number below M, which is 2 to a width of at least 32 bits: the
 sources call the type uint32, but it is an unsigned long.
 */
module Md5 {
  import opened Words
  import opened Numbers

  datatype State = State(a: nat, b: nat, c: nat, d: nat)

  const INIT := State(0x67452301, 0xEFCDAB89, 0x98BADCFE, 0x10325476)

  const TWO29 := 0x2000_0000
  const TWO64 := 0x1_0000_0000_0000_0000

  /** md5_process on a state and a 64-byte block. */
  type Compression = (State, Bytes) -> State

  // ----- the one-shot definition, sections 3.1 to 3.5 of RFC 1321 -----

  ghost function Fold(process: Compression, s: State, data: Bytes): State
    decreases |data|
  {
    if |data| < 64 then s else Fold(process, process(s, data[..64]), data[64..])
  }

  ghost function Zeros(n: nat): Bytes {
    seq(n, i => 0)
  }

  /** Section 3.1: a one bit, then zero bits until the length is 56 modulo 64 bytes. */
  ghost function PaddingLength(n: nat): nat {
    if n % 64 < 56 then 56 - n % 64 else 120 - n % 64
  }

  /** Then a length in bits, modulo 2^64. */
  ghost function PaddedWith(message: Bytes, bits: nat): Bytes {
    message + ([0x80] + Zeros(PaddingLength(|message|) - 1)) + LittleEndian(bits % TWO64, 8)
  }

  /** Section 3.2: the right length. */
  ghost function Padded(message: Bytes): Bytes {
    PaddedWith(message, 8 * |message|)
  }

  ghost function Output(s: State): Bytes {
    LittleEndian(s.a, 4) + LittleEndian(s.b, 4) + LittleEndian(s.c, 4) + LittleEndian(s.d, 4)
  }

  ghost function OneShot(process: Compression, message: Bytes): Bytes {
    Output(Fold(process, INIT, Padded(message)))
  }

  ghost function OneShotWith(process: Compression, message: Bytes, bits: nat): Bytes {
    Output(Fold(process, INIT, PaddedWith(message, bits)))
  }

  /** Whole blocks result. */
  lemma PaddedWhole(message: Bytes, bits: nat)
    ensures |PaddedWith(message, bits)| % 64 == 0
  {
    var n := |message|;
    PaddingFits(n);
    assert |PaddedWith(message, bits)| == n + PaddingLength(n) + 8;
  }

  lemma {:induction false} LittleEndianInjective(a: nat, b: nat, k: nat)
    requires a < Power(k) && b < Power(k)
    ensures LittleEndian(a, k) == LittleEndian(b, k) <==> a == b
    decreases k
  {
    if k > 0 {
      LittleEndianInjective(a / 0x100, b / 0x100, k - 1);
      assert LittleEndian(a, k)[0] == a % 0x100 && LittleEndian(b, k)[0] == b % 0x100;
      assert LittleEndian(a, k)[1..] == LittleEndian(a / 0x100, k - 1);
      assert LittleEndian(b, k)[1..] == LittleEndian(b / 0x100, k - 1);
    }
  }

  lemma SamePrefix(a: Bytes, b: Bytes, c: Bytes)
    ensures a + b == a + c <==> b == c
  {
    if a + b == a + c {
      assert b == (a + b)[|a|..] && c == (a + c)[|a|..];
    }
  }

  /** A count that is off by k words of 2^32 pads right exactly if k is a multiple of 2^32. */
  lemma LengthRight(message: Bytes, k: nat)
    ensures PaddedWith(message, 8 * |message| + TWO32 * k) == Padded(message) <==> k % TWO32 == 0
  {
    var n := 8 * |message|;
    var a, b := (n + TWO32 * k) % TWO64, n % TWO64;
    SamePrefix(message + ([0x80] + Zeros(PaddingLength(|message|) - 1)), LittleEndian(a, 8), LittleEndian(b, 8));
    PowerEight();
    LittleEndianInjective(a, b, 8);
    OffByWords(n, k);
  }

  lemma OffByWords(n: nat, k: nat)
    ensures (n + TWO32 * k) % TWO64 == n % TWO64 <==> k % TWO32 == 0
  {
    var q, r := k / TWO32, k % TWO32;
    assert k == TWO32 * q + r;
    var b, d := n % TWO64, n / TWO64;
    assert n == TWO64 * d + b;
    assert n + TWO32 * k == TWO64 * (d + q) + (b + TWO32 * r);
    if b + TWO32 * r < TWO64 {
      ModuloUnique(n + TWO32 * k, b + TWO32 * r, d + q);
    } else {
      ModuloUnique(n + TWO32 * k, b + TWO32 * r - TWO64, d + q + 1);
    }
  }

  /** Behind n bytes and k of padding there is room for the length and nothing else. */
  ghost predicate Closes(n: nat, k: nat) {
    (n + k) % 64 == 56
  }

  /** The padding reaches 56 modulo 64, and no shorter one does. */
  lemma PaddingFits(n: nat)
    ensures 1 <= PaddingLength(n) <= 64 && Closes(n, PaddingLength(n)) && (n + PaddingLength(n) + 8) % 64 == 0
    ensures forall k :: 1 <= k < PaddingLength(n) ==> !Closes(n, k)
  {
    var q, r := n / 64, n % 64;
    assert n == 64 * q + r;
    if r < 56 {
      assert n + PaddingLength(n) == 64 * q + 56;
    } else {
      assert n + PaddingLength(n) == 64 * (q + 1) + 56;
    }
    forall k | 1 <= k < PaddingLength(n) ensures !Closes(n, k) {
      assert n + k == if r + k < 64 then 64 * q + (r + k) else 64 * (q + 1) + (r + k - 64);
    }
  }

  lemma {:induction false} FoldAppend(process: Compression, s: State, a: Bytes, b: Bytes)
    requires |a| % 64 == 0
    ensures Fold(process, s, a + b) == Fold(process, Fold(process, s, a), b)
    decreases |a|
  {
    if a == [] {
      assert a + b == b;
    } else {
      assert (a + b)[..64] == a[..64] && (a + b)[64..] == a[64..] + b;
      FoldAppend(process, process(s, a[..64]), a[64..], b);
    }
  }

  lemma Remainder(n: nat, whole: nat, rest: nat)
    requires n == whole + rest && whole % 64 == 0 && rest < 64
    ensures n % 64 == rest
  {
  }

  // ----- the two-word bit counter -----

  /** The carry test of md5_update fires without a carry: the shifted length was not cut off at 32 bits. */
  ghost predicate Miscarries(t0: uint32, length: nat, m: nat)
    requires m > 0
  {
    t0 + Low(8 * length) < TWO32 && t0 + Low(8 * length) < 8 * length % m
  }

  /** That never happens with words of 32 bits, nor to calls below 2^29 bytes. */
  lemma Carries(t0: uint32, length: nat, m: nat)
    requires Wide(m) && (m == TWO32 || length < TWO29)
    ensures !Miscarries(t0, length, m)
  {
    if m != TWO32 {
      assert 8 * length < TWO32;
    }
  }

  /** The test fires exactly if there is a carry, or if it miscarries. */
  lemma CarryTest(t0: uint32, length: nat, m: nat, u0: uint32)
    requires Wide(m) && u0 == Low((t0 + 8 * length % m) % m)
    ensures u0 == (t0 + Low(8 * length)) % TWO32
    ensures u0 < 8 * length % m <==> t0 + Low(8 * length) >= TWO32 || Miscarries(t0, length, m)
  {
    var low, shifted := Low(8 * length), 8 * length % m;
    AddWrapped(t0, 8 * length, m, low, shifted);
    Fires(t0, shifted, low, u0);
  }

  lemma AddWrapped(t0: uint32, a: nat, m: nat, low: uint32, b: nat)
    requires Wide(m) && low == Low(a) && b == a % m
    ensures Low((t0 + b) % m) == (t0 + low) % TWO32 && low <= b
  {
    LowOfWrapped(a, m);
    AddLow(t0, b, m);
    LowAtMost(b);
    LowIs(t0, 0, t0);
  }

  lemma LowAtMost(a: nat)
    ensures Low(a) <= a
  {
  }

  lemma Fires(t0: uint32, shifted: nat, low: uint32, u0: uint32)
    requires low <= shifted && u0 == (t0 + low) % TWO32
    ensures u0 < shifted <==> t0 + low >= TWO32 || t0 + low < shifted
  {
    Carried(t0, low, u0);
  }

  /** The high word takes in the shifted-out bits and the carry. */
  lemma HighWord(t1: nat, high: nat, c: nat, m: nat, u1: nat)
    requires Wide(m) && c <= 1 && u1 == ((t1 + high) % m + c) % m
    ensures Low(u1) == (Low(t1) + high + c) % TWO32
  {
    var b := (t1 + high) % m;
    LowOfWrapped(b + c, m);
    LowOfWrapped(t1 + high, m);
    LowChain(t1, high, c, b);
  }

  lemma LowChain(t1: nat, high: nat, c: nat, b: nat)
    requires Low(b) == Low(t1 + high)
    ensures Low(b + c) == (Low(t1) + high + c) % TWO32
  {
    var a := t1 + high;
    assert a == TWO32 * (a / TWO32) + Low(a) && b == TWO32 * (b / TWO32) + Low(b);
    assert t1 == TWO32 * (t1 / TWO32) + Low(t1);
    LowOfSum(Low(a) + c, b / TWO32);
    LowOfSum(Low(a) + c, a / TWO32);
    LowOfSum(Low(t1) + high + c, t1 / TWO32);
  }

  lemma ShiftedBits(length: nat)
    ensures 8 * length == Low(8 * length) + TWO32 * (length / TWO29)
  {
    var q, r := length / TWO29, length % TWO29;
    assert length == TWO29 * q + r && 8 * r < TWO32;
    DivisionUnique(8 * length, TWO32, q, 8 * r);
  }

  lemma Carried(t0: uint32, low: uint32, u0: uint32)
    requires u0 == (t0 + low) % TWO32
    ensures t0 + low == u0 + TWO32 * if t0 + low >= TWO32 then 1 else 0
  {
  }

  /** The two words with their carry count the bits, but for the miscarriages. */
  lemma CounterStep(t0: uint32, t1: nat, bits: nat, length: nat, m: nat, u0: uint32, c: nat, u1: nat)
    requires Wide(m) && t0 + TWO32 * Low(t1) == bits % TWO64
    requires u0 == Low((t0 + 8 * length % m) % m) && c == if u0 < 8 * length % m then 1 else 0
    requires u1 == ((t1 + length / TWO29) % m + c) % m
    ensures u0 + TWO32 * Low(u1) == (bits + 8 * length + if Miscarries(t0, length, m) then TWO32 else 0) % TWO64
  {
    CarryTest(t0, length, m, u0);
    var low, high := Low(8 * length), length / TWO29;
    ShiftedBits(length);
    Carried(t0, low, u0);
    var carry := if t0 + low >= TWO32 then 1 else 0;
    var extra := if Miscarries(t0, length, m) then 1 else 0;
    HighWord(t1, high, c, m, u1);
    CountWords(t0, Low(t1), low, high, carry, extra, u0, Low(t1) + high + c, Low(u1), bits);
  }

  lemma CountWords(t0: uint32, t1: uint32, low: uint32, high: nat, carry: nat, extra: nat, u0: uint32, sum: nat,
                    u1: uint32, bits: nat)
    requires t0 + TWO32 * t1 == bits % TWO64 && t0 + low == u0 + TWO32 * carry && sum == t1 + high + carry + extra
    requires u1 == sum % TWO32
    ensures u0 + TWO32 * u1 == (bits + (low + TWO32 * high) + TWO32 * extra) % TWO64
  {
    var q, k := sum / TWO32, bits / TWO64;
    assert sum == TWO32 * q + u1 && bits == TWO64 * k + bits % TWO64;
    ModuloUnique(bits + (low + TWO32 * high) + TWO32 * extra, u0 + TWO32 * u1, q + k);
  }

  lemma ModuloUnique(x: int, r: int, q: int)
    requires 0 <= r < TWO64 && x == r + TWO64 * q
    ensures x % TWO64 == r
  {
  }

  lemma Regrouped(n: nat, e: nat, length: nat)
    ensures 8 * n + TWO32 * e + 8 * length == 8 * (n + length) + TWO32 * e
  {
  }

  /** The low word alone tells the place in the block. */
  lemma Residue(t0: uint32, t1: uint32, n: nat, extra: nat)
    requires t0 + TWO32 * t1 == (8 * n + TWO32 * extra) % TWO64
    ensures t0 / 8 % 64 == n % 64 && t0 == Low(8 * n)
  {
    var q := (8 * n + TWO32 * extra) / TWO64;
    assert 8 * n + TWO32 * extra == t0 + TWO32 * t1 + TWO64 * q;
    var k := 0x80_0000 * t1 + 0x80_0000_0000_0000 * q - 0x80_0000 * extra;
    assert 8 * n == t0 + 512 * k;
    assert t0 == 8 * (n - 64 * k);
    Remainder64(n, t0 / 8, k);
    assert 8 * n == TWO32 * (t1 + TWO32 * q - extra) + t0;
    LowIs(8 * n, t1 + TWO32 * q - extra, t0);
  }

  lemma LowIs(a: nat, q: int, r: uint32)
    requires a == TWO32 * q + r
    ensures Low(a) == r
  {
  }

  lemma Remainder64(n: int, r: int, k: int)
    requires n == r + 64 * k
    ensures n % 64 == r % 64
  {
    var q := r / 64;
    assert r == 64 * q + r % 64;
    assert n == 64 * (q + k) + r % 64;
  }

  lemma PowerFour()
    ensures Power(4) == TWO32
  {
    assert Power(1) == 0x100;
    assert Power(2) == 0x1_0000;
    assert Power(3) == 0x100_0000;
  }

  lemma PowerEight()
    ensures Power(8) == TWO64
  {
    PowerFour();
    assert Power(5) == 0x100_0000_0000;
    assert Power(6) == 0x1_0000_0000_0000;
    assert Power(7) == 0x100_0000_0000_0000;
  }

  lemma CounterBytes(lo: uint32, hi: uint32)
    ensures LittleEndian(lo, 4) + LittleEndian(hi, 4) == LittleEndian(lo + TWO32 * hi, 8)
  {
    PowerFour();
    LittleEndianAppend(lo, hi, lo + TWO32 * hi, TWO32, 4, 4, 8);
  }

  lemma ByteShifted(lo: nat, hi: nat, p: nat, q: nat)
    requires p == 0x100 * q
    ensures (lo + p * hi) % 0x100 == lo % 0x100 && (lo + p * hi) / 0x100 == lo / 0x100 + q * hi
    ensures lo < p ==> lo / 0x100 < q
  {
    assert p * hi == 0x100 * (q * hi);
  }

  lemma {:induction false} LittleEndianAppend(lo: nat, hi: nat, whole: nat, p: nat, j: nat, k: nat, n: nat)
    requires p == Power(j) && lo < p && whole == lo + p * hi && n == j + k
    ensures LittleEndian(lo, j) + LittleEndian(hi, k) == LittleEndian(whole, n)
    decreases j
  {
    if j > 0 {
      var q := Power(j - 1);
      ByteShifted(lo, hi, p, q);
      LittleEndianAppend(lo / 0x100, hi, whole / 0x100, q, j - 1, k, n - 1);
    }
  }

  lemma {:induction false} LowBytesOf(q: nat, r: nat, p: nat, k: nat)
    requires p == Power(k)
    ensures LittleEndian(r + p * q, k) == LittleEndian(r, k)
    decreases k
  {
    if k > 0 {
      var p' := Power(k - 1);
      ByteShifted(r, q, p, p');
      LowBytesOf(q, r / 0x100, p', k - 1);
    }
  }

  lemma LowBytes(n: nat)
    ensures LittleEndian(Low(n), 4) == LittleEndian(n, 4)
  {
    var q := n / TWO32;
    assert n == Low(n) + TWO32 * q;
    PowerFour();
    LowBytesOf(q, Low(n), TWO32, 4);
  }

  lemma FourBytes(n: nat)
    ensures LittleEndian(n, 4) ==
            [n % 0x100, n / 0x100 % 0x100, n / 0x100 / 0x100 % 0x100, n / 0x100 / 0x100 / 0x100 % 0x100]
  {
    assert LittleEndian(n / 0x100 / 0x100, 2) ==
           [n / 0x100 / 0x100 % 0x100] + LittleEndian(n / 0x100 / 0x100 / 0x100, 1);
    assert LittleEndian(n / 0x100, 3) == [n / 0x100 % 0x100] + LittleEndian(n / 0x100 / 0x100, 2);
  }

  /** PUT_UINT32: the low 32 bits. */
  function PutUint32(n: nat): (b: Bytes)
    ensures b == LittleEndian(n, 4) && b == LittleEndian(Low(n), 4)
  {
    LowBytes(n);
    FourBytes(n);
    Shifted(n);
    [n % 0x100, n / 0x100 % 0x100, n / 0x1_0000 % 0x100, n / 0x100_0000 % 0x100]
  }

  // ----- the digest byte by byte, as RFC 1321 words it -----

  lemma OneWord(n: nat)
    ensures LittleEndian(n, 4) == [n % 0x100, n / 0x100 % 0x100, n / 0x1_0000 % 0x100, n / 0x100_0000 % 0x100]
  {
    FourBytes(n);
    Shifted(n);
  }

  lemma EightBytes(n: nat)
    requires n < TWO64
    ensures LittleEndian(n, 8) ==
            [n % 0x100, n / 0x100 % 0x100, n / 0x1_0000 % 0x100, n / 0x100_0000 % 0x100,
             n / 0x1_0000_0000 % 0x100, n / 0x100_0000_0000 % 0x100,
             n / 0x1_0000_0000_0000 % 0x100, n / 0x100_0000_0000_0000 % 0x100]
  {
    var lo, hi := n % TWO32, n / TWO32;
    assert n == lo + TWO32 * hi && hi < TWO32;
    CounterBytes(lo, hi);
    OneWord(lo);
    OneWord(hi);
    LowPlace(lo, hi, 0x100, 0x100_0000);
    LowPlace(lo, hi, 0x1_0000, 0x1_0000);
    LowPlace(lo, hi, 0x100_0000, 0x100);
    HighPlace(n, 0x100);
    HighPlace(n, 0x1_0000);
    HighPlace(n, 0x100_0000);
  }

  /** A byte of the low word. */
  lemma LowPlace(lo: uint32, hi: nat, p: nat, q: nat)
    requires p == 0x100 || p == 0x1_0000 || p == 0x100_0000
    requires p * q == TWO32 && q % 0x100 == 0
    ensures (lo + TWO32 * hi) / p % 0x100 == lo / p % 0x100
  {
    var a := lo / p;
    if p == 0x100 {
      assert (lo + TWO32 * hi) / 0x100 == a + 0x100 * (0x1_0000 * hi);
      SameLowByte(a, 0x1_0000 * hi);
    } else if p == 0x1_0000 {
      assert (lo + TWO32 * hi) / 0x1_0000 == a + 0x100 * (0x100 * hi);
      SameLowByte(a, 0x100 * hi);
    } else {
      assert (lo + TWO32 * hi) / 0x100_0000 == a + 0x100 * hi;
      SameLowByte(a, hi);
    }
  }

  lemma SameLowByte(a: nat, b: nat)
    ensures (a + 0x100 * b) % 0x100 == a % 0x100
  {
  }

  /** A byte of the high word. */
  lemma HighPlace(n: nat, p: nat)
    requires p == 0x100 || p == 0x1_0000 || p == 0x100_0000
    ensures n / TWO32 / p == n / (TWO32 * p)
  {
  }

  lemma {:induction false} FoldBlocksOf(process: Compression, bs: seq<Bytes>, ss: seq<State>)
    requires |ss| == |bs| + 1 && forall i :: 0 <= i < |bs| ==> |bs[i]| == 64 && ss[i + 1] == process(ss[i], bs[i])
    ensures Fold(process, ss[0], Join(bs)) == ss[|bs|] && |Join(bs)| % 64 == 0
    decreases |bs|
  {
    if bs != [] {
      var b, later := bs[0], Join(bs[1..]);
      FoldBlocksOf(process, bs[1..], ss[1..]);
      assert Join(bs)[..64] == b && Join(bs)[64..] == later;
    }
  }

  /** The padding is the one that fits. */
  lemma PaddedIs(message: Bytes, bits: nat, zeros: Bytes, length: Bytes)
    requires |zeros| < 64 && (|message| + 1 + |zeros| + 8) % 64 == 0
    requires (forall i :: 0 <= i < |zeros| ==> zeros[i] == 0) && length == LittleEndian(bits % TWO64, 8)
    ensures PaddedWith(message, bits) == message + [0x80] + zeros + length
  {
    var n, k := |message|, |zeros| + 1;
    PaddingFits(n);
    assert Closes(n, k) && Closes(n, PaddingLength(n));
    assert PaddingLength(n) == k;
    assert zeros == Zeros(k - 1);
    assert message + ([0x80] + zeros) == message + [0x80] + zeros;
  }

  /**
   The digest, from the message and the compression alone: a 0x80 byte, the fewest zero bytes and eight length
   bytes behind the message, 64 bytes at a time from the fixed initial state, and the four words of the last
   state, lowest byte first.
   */
  lemma DigestBytes(process: Compression, message: Bytes, bits: nat, zeros: Bytes, n: nat, bs: seq<Bytes>,
                    ss: seq<State>)
    requires |zeros| < 64 && (|message| + 1 + |zeros| + 8) % 64 == 0 && forall i :: 0 <= i < |zeros| ==> zeros[i] == 0
    requires n == bits % 0x1_0000_0000_0000_0000
    requires Join(bs) == message + [0x80] + zeros
                         + [n % 0x100, n / 0x100 % 0x100, n / 0x1_0000 % 0x100, n / 0x100_0000 % 0x100,
                            n / 0x1_0000_0000 % 0x100, n / 0x100_0000_0000 % 0x100,
                            n / 0x1_0000_0000_0000 % 0x100, n / 0x100_0000_0000_0000 % 0x100]
    requires |ss| == |bs| + 1 && ss[0] == State(0x67452301, 0xEFCDAB89, 0x98BADCFE, 0x10325476)
    requires forall i :: 0 <= i < |bs| ==> |bs[i]| == 64 && ss[i + 1] == process(ss[i], bs[i])
    ensures bits == 8 * |message| ==> OneShot(process, message) == OneShotWith(process, message, bits)
    ensures var s := ss[|bs|];
            OneShotWith(process, message, bits) ==
            [s.a % 0x100, s.a / 0x100 % 0x100, s.a / 0x1_0000 % 0x100, s.a / 0x100_0000 % 0x100,
             s.b % 0x100, s.b / 0x100 % 0x100, s.b / 0x1_0000 % 0x100, s.b / 0x100_0000 % 0x100,
             s.c % 0x100, s.c / 0x100 % 0x100, s.c / 0x1_0000 % 0x100, s.c / 0x100_0000 % 0x100,
             s.d % 0x100, s.d / 0x100 % 0x100, s.d / 0x1_0000 % 0x100, s.d / 0x100_0000 % 0x100]
  {
    EightBytes(n);
    PaddedIs(message, bits, zeros, LittleEndian(n, 8));
    FoldBlocksOf(process, bs, ss);
    OutputBytes(ss[|bs|]);
  }

  lemma OutputBytes(s: State)
    ensures Output(s) ==
            [s.a % 0x100, s.a / 0x100 % 0x100, s.a / 0x1_0000 % 0x100, s.a / 0x100_0000 % 0x100,
             s.b % 0x100, s.b / 0x100 % 0x100, s.b / 0x1_0000 % 0x100, s.b / 0x100_0000 % 0x100,
             s.c % 0x100, s.c / 0x100 % 0x100, s.c / 0x1_0000 % 0x100, s.c / 0x100_0000 % 0x100,
             s.d % 0x100, s.d / 0x100 % 0x100, s.d / 0x1_0000 % 0x100, s.d / 0x100_0000 % 0x100]
  {
    OneWord(s.a);
    OneWord(s.b);
    OneWord(s.c);
    OneWord(s.d);
  }

  /** A compression that keeps the state leaves the bytes the words start with, in the order of section 3.3. */
  lemma KeptDigest(process: Compression, message: Bytes, bits: nat)
    requires forall s, b :: process(s, b) == s
    ensures OneShotWith(process, message, bits) ==
            [0x01, 0x23, 0x45, 0x67, 0x89, 0xAB, 0xCD, 0xEF, 0xFE, 0xDC, 0xBA, 0x98, 0x76, 0x54, 0x32, 0x10]
  {
    KeptFold(process, INIT, PaddedWith(message, bits));
    InitialBytes(INIT);
  }

  lemma InitialBytes(s: State)
    requires s == INIT
    ensures Output(s) ==
            [0x01, 0x23, 0x45, 0x67, 0x89, 0xAB, 0xCD, 0xEF, 0xFE, 0xDC, 0xBA, 0x98, 0x76, 0x54, 0x32, 0x10]
  {
    var digest: Bytes :=
      [0x01, 0x23, 0x45, 0x67, 0x89, 0xAB, 0xCD, 0xEF, 0xFE, 0xDC, 0xBA, 0x98, 0x76, 0x54, 0x32, 0x10];
    FourWords(s, digest[..4], digest[4..8], digest[8..12], digest[12..]);
    FourParts(digest);
  }

  lemma FourParts(b: Bytes)
    requires |b| == 16
    ensures b[..4] + b[4..8] + b[8..12] + b[12..] == b
  {
  }

  /** The value of four bytes, lowest first. */
  ghost predicate Spells(b: Bytes, v: nat) {
    |b| == 4 && v == b[0] + 0x100 * (b[1] as nat + 0x100 * (b[2] as nat + 0x100 * b[3] as nat))
  }

  lemma FourWords(s: State, a: Bytes, b: Bytes, c: Bytes, d: Bytes)
    requires Spells(a, s.a) && Spells(b, s.b) && Spells(c, s.c) && Spells(d, s.d)
    ensures Output(s) == a + b + c + d
  {
    WordBytes(s.a, a);
    WordBytes(s.b, b);
    WordBytes(s.c, c);
    WordBytes(s.d, d);
  }

  lemma WordBytes(v: nat, b: Bytes)
    requires Spells(b, v)
    ensures LittleEndian(v, 4) == b
  {
    var v3: nat := b[3];
    var v2 := b[2] + 0x100 * v3;
    var v1 := b[1] + 0x100 * v2;
    NextByte(b[3], 0, v3, 0);
    NextByte(b[2], v3, v2, 1);
    NextByte(b[1], v2, v1, 2);
    NextByte(b[0], v1, v, 3);
    assert LittleEndian(0, 0) == [];
  }

  lemma NextByte(a: byte, v: nat, w: nat, k: nat)
    requires w == a + 0x100 * v
    ensures LittleEndian(w, k + 1) == [a] + LittleEndian(v, k)
  {
    DivisionUnique(w, 0x100, v, a);
  }

  lemma {:induction false} KeptFold(process: Compression, s: State, data: Bytes)
    requires forall s, b :: process(s, b) == s
    ensures Fold(process, s, data) == s
    decreases |data|
  {
    if |data| >= 64 {
      KeptFold(process, s, data[64..]);
    }
  }

  /** md5_padding. */
  function Padding(n: nat): (b: Bytes)
    requires 1 <= n <= 64
    ensures b == [0x80] + Zeros(n - 1)
  {
    [0x80] + seq(n - 1, i => 0)
  }

  lemma PaddedParts(message: Bytes, padn: nat, msglen: Bytes, bits: nat)
    requires padn == PaddingLength(|message|) && 1 <= padn <= 64 && msglen == LittleEndian(bits % TWO64, 8)
    ensures message + Padding(padn) + msglen == PaddedWith(message, bits)
  {
  }

  /** The bytes of input stand in the stream from place at on, to its end. */
  ghost predicate Stands(whole: Bytes, at: nat, input: Bytes) {
    true == (at + |input| == |whole| && forall i :: 0 <= i < |input| ==> input[i] == whole[at + i])
  }

  /** The stream after a call: what was folded, what was buffered, what is new. */
  lemma Cuts(m: Bytes, x: Bytes, pos: nat, left: nat, whole: Bytes)
    requires pos + left == |m| && whole == m + x
    ensures whole[..pos] == m[..pos] && whole[pos..pos + left] == m[pos..] && Stands(whole, pos + left, x)
  {
  }

  lemma FirstBlock(whole: Bytes, pos: nat, left: nat, input: Bytes)
    requires Stands(whole, pos + left, input) && left < 64 <= left + |input|
    ensures whole[pos..pos + left] + input[..64 - left] == whole[pos..pos + 64]
    ensures Stands(whole, pos + 64, input[64 - left..])
  {
  }

  lemma EndStands(whole: Bytes, pos: nat, left: nat, input: Bytes)
    requires Stands(whole, pos + left, input)
    ensures whole[pos..pos + left] + input == whole[pos..]
  {
  }

  lemma {:induction false} NextBlock(process: Compression, data: Bytes, pos: nat, next: nat, block: Bytes)
    requires pos % 64 == 0 && next == pos + 64 <= |data| && block == data[pos..next]
    ensures Fold(process, INIT, data[..next]) == process(Fold(process, INIT, data[..pos]), block)
  {
    assert data[..pos] + block == data[..next];
    FoldAppend(process, INIT, data[..pos], block);
    assert block[..64] == block;
  }

  class Context {
    const process: Compression
    const m: nat
    var total0: uint32
    var total1: nat
    var state: State
    const buffer: array<byte>
    ghost var message: Bytes
    ghost var folded: nat
    ghost var extra: nat

    /** What has been fed so far: whole blocks folded, the ragged end buffered, its bits and miscarriages counted. */
    ghost predicate Valid()
      reads this, buffer
    {
      true == (
        && buffer.Length == 64 && Wide(m)
        && total0 + TWO32 * Low(total1) == (8 * |message| + TWO32 * extra) % TWO64
        && folded % 64 == 0 && folded <= |message| < folded + 64
        && state == Fold(process, INIT, message[..folded])
        && buffer[..|message| - folded] == message[folded..])
    }

    /** md5_starts. */
    constructor (process: Compression, m: nat)
      requires Wide(m)
      ensures Valid() && message == [] && extra == 0 && this.process == process && this.m == m && fresh(buffer)
    {
      this.process, this.m := process, m;
      total0, total1, state, message, folded, extra := 0, 0, INIT, [], 0, 0;
      buffer := new byte[64](i => 0);
    }

    /** The counter takes in the bits of length more bytes. */
    method Count(length: nat) returns (left: nat)
      requires Valid() && length < m
      modifies this`total0, this`total1, this`extra
      ensures total0 + TWO32 * Low(total1) == (8 * (|message| + length) + TWO32 * extra) % TWO64
      ensures extra == old(extra) + if Miscarries(Low(8 * |message|), length, m) then 1 else 0
      ensures left == |message| - folded
    {
      Residue(total0, Low(total1), |message|, extra);
      Remainder(|message|, folded, |message| - folded);
      left := total0 / 8 % 64;
      AddBits(length, |message|, extra);
      extra := extra + if Miscarries(Low(8 * |message|), length, m) then 1 else 0;
    }

    /** The two words after n bytes with e miscarriages take in length more. */
    method AddBits(length: nat, ghost n: nat, ghost e: nat)
      requires Wide(m) && total0 == Low(8 * n) && total0 + TWO32 * Low(total1) == (8 * n + TWO32 * e) % TWO64
      modifies this`total0, this`total1
      ensures var more := if Miscarries(Low(8 * n), length, m) then 1 else 0;
              total0 + TWO32 * Low(total1) == (8 * (n + length) + TWO32 * (e + more)) % TWO64
    {
      ghost var t0, t1 := total0, total1;
      var shifted := 8 * length % m;
      total0 := Low((total0 + shifted) % m);
      var carry := if total0 < shifted then 1 else 0;
      total1 := ((total1 + length / TWO29) % m + carry) % m;
      CounterStep(t0, t1, 8 * n + TWO32 * e, length, m, total0, carry, total1);
      Regrouped(n, e, length);
    }

    /** md5_update. */
    method Update(input0: Bytes)
      requires Valid() && |input0| < m
      modifies this, buffer
      ensures Valid() && message == old(message) + input0
      ensures extra == old(extra) + if Miscarries(Low(8 * |old(message)|), |input0|, m) then 1 else 0
    {
      if |input0| == 0 {
        assert message + input0 == message;
        return;
      }
      ghost var was, at := message, folded;
      var left := Count(|input0|);
      Cuts(was, input0, at, left, was + input0);
      Absorb(input0, left, was + input0, at);
    }

    /** The bytes of md5_update, behind the counting. */
    method Absorb(input0: Bytes, left0: nat, ghost whole: Bytes, ghost pos0: nat)
      requires buffer.Length == 64 && Wide(m) && pos0 % 64 == 0 && left0 < 64
      requires total0 + TWO32 * Low(total1) == (8 * |whole| + TWO32 * extra) % TWO64
      requires Stands(whole, pos0 + left0, input0) && buffer[..left0] == whole[pos0..pos0 + left0]
      requires state == Fold(process, INIT, whole[..pos0])
      modifies this, buffer
      ensures Valid() && message == whole && extra == old(extra)
    {
      var input, left := input0, left0;
      ghost var pos := pos0;
      if left != 0 && |input| >= 64 - left {
        input, pos := FillBlock(input, left, whole, pos);
        left := 0;
      }
      input, pos := FoldBlocks(input, left, whole, pos);
      EndStands(whole, pos, left, input);
      Keep(input, left);
      assert buffer[..|whole| - pos] == whole[pos..];
      message, folded := whole, pos;
    }

    /** memcpy into the buffer behind its first left bytes. */
    method Keep(input: Bytes, left: nat)
      requires buffer.Length == 64 && left + |input| <= 64
      modifies buffer
      ensures buffer[..left + |input|] == old(buffer[..left]) + input
    {
      forall i | 0 <= i < |input| {
        buffer[left + i] := input[i];
      }
    }

    /** The first branch of md5_update: the buffered end becomes a whole block. */
    method FillBlock(input0: Bytes, left: nat, ghost whole: Bytes, ghost pos0: nat)
      returns (input: Bytes, ghost pos: nat)
      requires buffer.Length == 64 && left < 64 <= left + |input0| && pos0 % 64 == 0
      requires Stands(whole, pos0 + left, input0) && buffer[..left] == whole[pos0..pos0 + left]
      requires state == Fold(process, INIT, whole[..pos0])
      modifies this`state, buffer
      ensures pos == pos0 + 64 && state == Fold(process, INIT, whole[..pos]) && Stands(whole, pos, input)
    {
      pos := pos0 + 64;
      FirstBlock(whole, pos0, left, input0);
      Keep(input0[..64 - left], left);
      assert buffer[..] == buffer[..64] == whole[pos0..pos];
      NextBlock(process, whole, pos0, pos, buffer[..]);
      state := process(state, buffer[..]);
      input := input0[64 - left..];
    }

    /** The loop of md5_update over the whole blocks of the input. */
    method FoldBlocks(input0: Bytes, left: nat, ghost whole: Bytes, ghost pos0: nat)
      returns (input: Bytes, ghost pos: nat)
      requires pos0 % 64 == 0 && Stands(whole, pos0 + left, input0)
      requires state == Fold(process, INIT, whole[..pos0]) && (left != 0 ==> left + |input0| < 64)
      modifies this`state
      ensures pos % 64 == 0 && |whole| < pos + 64 && Stands(whole, pos + left, input)
      ensures state == Fold(process, INIT, whole[..pos]) && (left != 0 ==> pos == pos0)
    {
      input, pos := input0, pos0;
      while |input| >= 64
        invariant pos % 64 == 0 && Stands(whole, pos + left, input)
        invariant state == Fold(process, INIT, whole[..pos])
        invariant left != 0 ==> pos == pos0 && |input| < 64
        decreases |input|
      {
        assert left == 0;
        ghost var next := pos + 64;
        var block := input[..64];
        FirstBlock(whole, pos, 0, input);
        assert block == whole[pos..next];
        NextBlock(process, whole, pos, next, block);
        state := process(state, block);
        input := input[64..];
        pos := next;
      }
    }

    /** md5_finish. */
    method Finish() returns (digest: Bytes)
      requires Valid()
      modifies this, buffer
      ensures digest == OneShotWith(process, old(message), old(8 * |message| + TWO32 * extra))
    {
      ghost var text, bits := message, 8 * |message| + TWO32 * extra;
      CounterBytes(total0, Low(total1));
      var msglen := PutUint32(total0) + PutUint32(total1);
      Residue(total0, Low(total1), |message|, extra);
      var last := total0 / 8 % 64;
      var padn := if last < 56 then 56 - last else 120 - last;
      PaddedParts(text, padn, msglen, bits);
      PaddedWhole(text, bits);
      assert Wide(m) && padn < TWO32 <= m by {
        WideEnough(m);
      }
      Update(Padding(padn));
      Update(msglen);
      Remainder(|message|, folded, |message| - folded);
      assert message[..folded] == message == PaddedWith(text, bits);
      digest := PutUint32(state.a) + PutUint32(state.b) + PutUint32(state.c) + PutUint32(state.d);
    }
  }

  /** How often the carry test fires without a carry, over a run of updates. */
  ghost function Extra(pieces: seq<Bytes>, m: nat): nat
    requires m > 0
  {
    if pieces == [] then 0 else
      var before, last := pieces[..|pieces| - 1], pieces[|pieces| - 1];
      Extra(before, m) + if Miscarries(Low(8 * |Join(before)|), |last|, m) then 1 else 0
  }

  /** Never with words of 32 bits, nor where every update is below 2^29 bytes. */
  lemma {:induction false} NoneExtra(pieces: seq<Bytes>, m: nat)
    requires Wide(m) && (m == TWO32 || forall i :: 0 <= i < |pieces| ==> |pieces[i]| < TWO29)
    ensures Extra(pieces, m) == 0
    decreases |pieces|
  {
    if pieces != [] {
      var before, last := pieces[..|pieces| - 1], pieces[|pieces| - 1];
      NoneExtra(before, m);
      Carries(Low(8 * |Join(before)|), |last|, m);
    }
  }

  /** A message of 2^29 bytes in one update, with words of 64 bits, is miscounted. */
  lemma LongUpdate(piece: Bytes)
    requires |piece| == TWO29
    ensures Extra([piece], TWO64) == 1
  {
    assert [piece][..0] == [];
    assert 8 * |piece| == TWO32;
  }

  lemma RightDigest(process: Compression, message: Bytes, k: nat, digest: Bytes)
    requires digest == OneShotWith(process, message, 8 * |message| + TWO32 * k)
    ensures k % TWO32 == 0 ==> digest == OneShot(process, message)
  {
    LengthRight(message, k);
  }

  /** Every way of cutting a message into updates gives the digest, but for the length after miscarriages. */
  method Digest(process: Compression, m: nat, pieces: seq<Bytes>) returns (digest: Bytes)
    requires Wide(m) && forall i :: 0 <= i < |pieces| ==> |pieces[i]| < m
    ensures digest == OneShotWith(process, Join(pieces), 8 * |Join(pieces)| + TWO32 * Extra(pieces, m))
    ensures Extra(pieces, m) % TWO32 == 0 ==> digest == OneShot(process, Join(pieces))
    ensures (forall s, b :: process(s, b) == s) ==>
              digest == [0x01, 0x23, 0x45, 0x67, 0x89, 0xAB, 0xCD, 0xEF, 0xFE, 0xDC, 0xBA, 0x98, 0x76, 0x54, 0x32, 0x10]
  {
    var context := Fed(process, m, pieces);
    digest := context.Finish();
    RightDigest(process, Join(pieces), Extra(pieces, m), digest);
    if forall s, b :: process(s, b) == s {
      KeptDigest(process, Join(pieces), 8 * |Join(pieces)| + TWO32 * Extra(pieces, m));
    }
  }

  method Fed(process: Compression, m: nat, pieces: seq<Bytes>) returns (context: Context)
    requires Wide(m) && forall i :: 0 <= i < |pieces| ==> |pieces[i]| < m
    ensures context.Valid() && context.process == process && fresh(context) && fresh(context.buffer)
    ensures context.message == Join(pieces) && context.extra == Extra(pieces, m)
  {
    context := new Context(process, m);
    for i := 0 to |pieces|
      invariant context.Valid() && context.process == process && context.m == m
      invariant fresh(context) && fresh(context.buffer)
      invariant context.message == Join(pieces[..i]) && context.extra == Extra(pieces[..i], m)
    {
      JoinLast(pieces[..i + 1]);
      assert pieces[..i + 1][..i] == pieces[..i];
      context.Update(pieces[i]);
    }
    assert pieces[..|pieces|] == pieces;
  }
}
