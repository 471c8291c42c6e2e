/**
 Room names of irc/room.c: C6 rooms may hold any byte, IRC channel names may not,
 so everything but letters and digits is written as %XX behind a leading #.
 */
module RoomName {
  import opened Words

  const HASH: byte := 35
  const PERCENT: byte := 37

  /** isalnum in the C locale. */
  predicate IsAlnum(c: byte) {
    48 <= c <= 57 || 65 <= c <= 90 || 97 <= c <= 122
  }

  /** A digit of the format %.02X. */
  function HexDigit(n: int): (c: byte)
    requires 0 <= n < 16
  {
    if n < 10 then 48 + n else 55 + n
  }

  /** The hex table of decoding takes both cases. */
  predicate IsHex(c: byte) {
    48 <= c <= 57 || 65 <= c <= 70 || 97 <= c <= 102
  }

  function HexValue(c: byte): (n: nat)
    requires IsHex(c)
    ensures n < 16
  {
    if c <= 57 then c - 48 else if c <= 70 then c - 55 else c - 87
  }

  function EncodedByte(c: byte): (s: Bytes)
    ensures 1 <= |s| <= 3
  {
    if IsAlnum(c) then [c] else [PERCENT, HexDigit(c / 16), HexDigit(c % 16)]
  }

  ghost function EncodedBody(room: Bytes): (s: Bytes)
    ensures |room| <= |s| <= 3 * |room|
  {
    if room == [] then [] else EncodedByte(room[0]) + EncodedBody(room[1..])
  }

  ghost function Encoded(room: Bytes): Bytes {
    if room == [] then [] else [HASH] + EncodedBody(room)
  }

  /** A percent sign and two hex digits at the front. */
  predicate EscapeAt(s: Bytes, i: nat) {
    i + 2 < |s| && s[i] == PERCENT && IsHex(s[i + 1]) && IsHex(s[i + 2])
  }

  ghost function DecodedBody(s: Bytes): (r: Bytes)
    ensures |r| <= |s|
    decreases |s|
  {
    if s == [] then []
    else if EscapeAt(s, 0) then [(16 * HexValue(s[1]) + HexValue(s[2])) as byte] + DecodedBody(s[3..])
    else [s[0]] + DecodedBody(s[1..])
  }

  /** The leading # is dropped where it stands. */
  ghost function Body(s: Bytes): Bytes {
    if s != [] && s[0] == HASH then s[1..] else s
  }

  ghost function Decoded(s: Bytes): Bytes {
    DecodedBody(Body(s))
  }

  // ----- the codec laws -----

  lemma HexBack(c: byte)
    ensures IsHex(HexDigit(c / 16)) && IsHex(HexDigit(c % 16))
    ensures 16 * HexValue(HexDigit(c / 16)) + HexValue(HexDigit(c % 16)) == c
  {
  }

  lemma {:induction false} DecodeEncodeBody(room: Bytes)
    ensures DecodedBody(EncodedBody(room)) == room
  {
    if room != [] {
      var c, e, rest := room[0], EncodedByte(room[0]), EncodedBody(room[1..]);
      var s := e + rest;
      DecodeEncodeBody(room[1..]);
      HexBack(c);
      assert s[|e|..] == rest;
      assert IsAlnum(c) ==> s[0] == c && !EscapeAt(s, 0);
      assert !IsAlnum(c) ==> EscapeAt(s, 0) && s[1] == HexDigit(c / 16) && s[2] == HexDigit(c % 16);
      assert room == [c] + room[1..];
    }
  }

  /** Decoding undoes encoding, for every name. */
  lemma DecodeEncode(room: Bytes)
    ensures Decoded(Encoded(room)) == room
  {
    DecodeEncodeBody(room);
    if room != [] {
      assert Encoded(room)[1..] == EncodedBody(room);
    }
  }

  /** Different rooms keep different channel names. */
  lemma EncodeInjective(a: Bytes, b: Bytes)
    requires Encoded(a) == Encoded(b)
    ensures a == b
  {
    DecodeEncode(a);
    DecodeEncode(b);
  }

  /** Letters, digits and %XX triplets only. */
  ghost predicate Escaped(s: Bytes)
    decreases |s|
  {
    s != [] ==>
      || (IsAlnum(s[0]) && Escaped(s[1..]))
      || (EscapeAt(s, 0) && Escaped(s[3..]))
  }

  lemma {:induction false} EncodedAlphabet(room: Bytes)
    ensures Escaped(EncodedBody(room))
  {
    if room != [] {
      EncodedAlphabet(room[1..]);
      HexBack(room[0]);
      var e, rest := EncodedByte(room[0]), EncodedBody(room[1..]);
      assert (e + rest)[|e|..] == rest;
    }
  }

  lemma {:induction false} EscapedBytes(s: Bytes)
    requires Escaped(s)
    ensures forall i :: 0 <= i < |s| ==> IsAlnum(s[i]) || s[i] == PERCENT
    decreases |s|
  {
    if s != [] {
      if IsAlnum(s[0]) {
        EscapedBytes(s[1..]);
        assert forall i :: 1 <= i < |s| ==> s[i] == s[1..][i - 1];
      } else {
        EscapedBytes(s[3..]);
        assert forall i :: 3 <= i < |s| ==> s[i] == s[3..][i - 3];
      }
    }
  }

  /** A channel name holds no zero byte, space, comma or control G (section 1.3 of RFC 1459). */
  lemma ChannelName(room: Bytes)
    requires room != []
    ensures Encoded(room)[0] == HASH && Escaped(Encoded(room)[1..])
    ensures forall c :: c in Encoded(room) ==> c != 0 && c != 7 && c != 32 && c != 44
    ensures |Encoded(room)| + 1 <= 3 * |room| + 2
  {
    EncodedAlphabet(room);
    EscapedBytes(EncodedBody(room));
    assert Encoded(room)[1..] == EncodedBody(room);
  }

  // ----- byte by byte -----

  lemma {:induction false} EncodedBodyMore(a: Bytes, c: byte)
    ensures EncodedBody(a + [c]) == EncodedBody(a) + EncodedByte(c)
  {
    if a == [] {
      assert EncodedBody([c]) == EncodedByte(c) + EncodedBody([c][1..]);
    } else {
      assert (a + [c])[1..] == a[1..] + [c];
      EncodedBodyMore(a[1..], c);
    }
  }

  /** Digits and letters stay; any other byte becomes a percent sign and two digits of 0 to 9 and A to F. */
  lemma EncodedMore(room: Bytes, c: byte, hex: Bytes)
    requires hex == [48, 49, 50, 51, 52, 53, 54, 55, 56, 57, 65, 66, 67, 68, 69, 70]
    ensures Encoded([]) == []
    ensures Encoded(room + [c]) ==
            (if room == [] then [35] else Encoded(room))
            + (if 48 <= c <= 57 || 65 <= c <= 90 || 97 <= c <= 122 then [c] else [37, hex[c / 16], hex[c % 16]])
  {
    EncodedBodyMore(room, c);
    HexDigitIs(c / 16, hex);
    HexDigitIs(c % 16, hex);
  }

  lemma HexDigitIs(n: int, hex: Bytes)
    requires 0 <= n < 16 && hex == [48, 49, 50, 51, 52, 53, 54, 55, 56, 57, 65, 66, 67, 68, 69, 70]
    ensures HexDigit(n) == hex[n]
  {
  }

  /** A leading hash sign is dropped. */
  lemma DecodedFirst(s: Bytes)
    ensures Decoded([35]) == [] && Decoded([]) == [] && (s == [] || s[0] != 35 ==> Decoded(s) == Decoded([35] + s))
  {
    assert [35 as byte][1..] == [] && ([35] + s)[1..] == s;
  }

  /** Behind it any byte but a percent sign stays. */
  lemma ByteKept(s: Bytes, c: byte)
    requires c != 37
    ensures Decoded([35, c] + s) == [c] + Decoded([35] + s)
  {
    assert ([35] + s)[1..] == s && ([35, c] + s)[1..] == [c] + s && ([c] + s)[1..] == s;
  }

  /** A percent sign and two hex digits of either case become the byte of that value. */
  lemma EscapeDecoded(s: Bytes, i: nat, j: nat, h: byte, l: byte)
    requires i < 16 && j < 16
    requires h == (if i < 10 then 48 + i else 55 + i) || (i >= 10 && h == 87 + i)
    requires l == (if j < 10 then 48 + j else 55 + j) || (j >= 10 && l == 87 + j)
    ensures Decoded([35, 37, h, l] + s) == [16 * i + j] + Decoded([35] + s)
  {
    assert HexValue(h) == i && HexValue(l) == j;
    assert ([35] + s)[1..] == s;
    assert ([35, 37, h, l] + s)[1..] == [37, h, l] + s;
    EscapeFirst([37, h, l] + s, s);
  }

  lemma EscapeFirst(t: Bytes, s: Bytes)
    requires EscapeAt(t, 0) && t[3..] == s
    ensures DecodedBody(t) == [16 * HexValue(t[1]) + HexValue(t[2])] + DecodedBody(s)
  {
  }

  /** A percent sign without two hex digits behind it stays. */
  lemma PercentKept(s: Bytes)
    requires |s| >= 2 ==> (s[0] < 48 || 57 < s[0] < 65 || 70 < s[0] < 97 || 102 < s[0])
                          || (s[1] < 48 || 57 < s[1] < 65 || 70 < s[1] < 97 || 102 < s[1])
    ensures Decoded([35, 37] + s) == [37] + Decoded([35] + s)
  {
    assert ([35] + s)[1..] == s && ([35, 37] + s)[1..] == [37] + s && ([37] + s)[1..] == s;
  }

  // ----- the room that decoding gets -----

  ghost predicate HasEscape(s: Bytes) {
    exists i :: 0 <= i < |s| && EscapeAt(s, i)
  }

  /** Decoding allocates strlen bytes and needs one for each byte out and one more. */
  ghost predicate DecodeFits(s: Bytes) {
    |Decoded(s)| + 1 <= |s|
  }

  lemma {:induction false} DecodeShrinks(s: Bytes)
    ensures |DecodedBody(s)| < |s| <==> HasEscape(s)
    decreases |s|
  {
    if s != [] {
      if EscapeAt(s, 0) {
        DecodeShrinks(s[3..]);
      } else {
        DecodeShrinks(s[1..]);
        if HasEscape(s[1..]) {
          var i :| 0 <= i < |s[1..]| && EscapeAt(s[1..], i);
          assert EscapeAt(s, i + 1);
        }
        if HasEscape(s) {
          var i :| 0 <= i < |s| && EscapeAt(s, i);
          assert EscapeAt(s[1..], i - 1);
        }
      }
    }
  }

  /** The bytes suffice exactly behind a leading # or where an escape shrinks the name. */
  lemma DecodeFitsIff(s: Bytes)
    ensures DecodeFits(s) <==> (s != [] && s[0] == HASH) || HasEscape(s)
  {
    DecodeShrinks(s);
    DecodeShrinks(Body(s));
  }

  // ----- the program -----

  /** The bytes before place p are written; the rest follows. */
  ghost predicate Encoding(room: Bytes, p: nat, done: Bytes) {
    true == (p <= |room| && Encoded(room) == done + EncodedBody(room[p..]))
  }

  lemma EncodeNext(room: Bytes, p: nat, done: Bytes)
    requires Encoding(room, p, done) && p < |room|
    ensures Encoding(room, p + 1, done + EncodedByte(room[p]))
  {
    assert room[p..][1..] == room[p + 1..];
  }

  ghost predicate Decoding(room: Bytes, p: nat, done: Bytes) {
    true == (p <= |room| && Decoded(room) == done + DecodedBody(room[p..]))
  }

  lemma Written(s: Bytes, done: Bytes, b: byte)
    requires |s| == |done| + 1 && s[|done|] == b && forall i :: 0 <= i < |done| ==> s[i] == done[i]
    ensures s == done + [b]
  {
  }

  lemma DecodeNext(room: Bytes, p: nat, done: Bytes)
    requires Decoding(room, p, done) && p < |room|
    ensures |done| < |Decoded(room)|
    ensures EscapeAt(room, p) ==>
              Decoding(room, p + 3, done + [(16 * HexValue(room[p + 1]) + HexValue(room[p + 2])) as byte])
    ensures !EscapeAt(room, p) ==> Decoding(room, p + 1, done + [room[p]])
  {
    var s := room[p..];
    assert s[1..] == room[p + 1..];
    assert EscapeAt(room, p) <==> EscapeAt(s, 0);
    if EscapeAt(room, p) {
      assert s[3..] == room[p + 3..];
    }
  }

  /** irc_room_encode: at most three bytes a byte, the # and the zero byte at the end. */
  method Encode(room: Bytes) returns (ret: array<byte>, len: nat)
    requires 0 !in room
    ensures len < ret.Length && ret[..len] == Encoded(room) && ret[len] == 0
    ensures fresh(ret) && ret.Length <= 3 * |room| + 2
  {
    if room == [] {
      ret := new byte[1](i => 0);
      return ret, 0;
    }
    ret := new byte[3 * |room| + 2](i => 0);
    ret[0] := HASH;
    var q := 1;
    for p := 0 to |room|
      invariant 1 <= q <= 3 * p + 1 && Encoding(room, p, ret[..q])
    {
      EncodeNext(room, p, ret[..q]);
      q := PutByte(ret, q, room[p]);
    }
    assert ret[..q] + [] == ret[..q];
    ret[q] := 0;
    len := q;
  }

  method PutByte(ret: array<byte>, q0: nat, c: byte) returns (q: nat)
    requires q0 + 3 < ret.Length
    modifies ret
    ensures q == q0 + |EncodedByte(c)| && ret[..q] == old(ret[..q0]) + EncodedByte(c)
  {
    q := q0;
    if !IsAlnum(c) {
      ret[q], ret[q + 1], ret[q + 2] := PERCENT, HexDigit(c / 16), HexDigit(c % 16);
      q := q + 3;
    } else {
      ret[q] := c;
      q := q + 1;
    }
  }

  /** One turn of the loop of irc_room_decode. */
  method DecodeByte(room: Bytes, p: nat, ret: array<byte>, q: nat) returns (next: nat)
    requires p < |room| && q < ret.Length && Decoding(room, p, ret[..q])
    modifies ret
    ensures p < next <= |room| && Decoding(room, next, ret[..q + 1])
  {
    ghost var done := ret[..q];
    DecodeNext(room, p, done);
    next := p + 1;
    if EscapeAt(room, p) {
      ret[q] := 16 * HexValue(room[p + 1]) + HexValue(room[p + 2]);
      next := p + 3;
    } else {
      ret[q] := room[p];
    }
    Written(ret[..q + 1], done, ret[q]);
  }

  /** irc_room_decode; the source writes the zero byte even where it is behind the buffer. */
  method Decode(room: Bytes) returns (ret: array<byte>, len: nat, overrun: bool)
    requires 0 !in room
    ensures fresh(ret) && ret.Length == |room| && (overrun <==> !DecodeFits(room))
    ensures !overrun ==> len < ret.Length && ret[..len] == Decoded(room) && ret[len] == 0
  {
    ret := new byte[|room|](i => 0);
    var p := if room != [] && room[0] == HASH then 1 else 0;
    var q := 0;
    assert ret[..q] == [] && room[p..] == Body(room);
    while p < |room|
      invariant 0 <= p <= |room| && 0 <= q <= p && Decoding(room, p, ret[..q])
      decreases |room| - p
    {
      p := DecodeByte(room, p, ret, q);
      q := q + 1;
    }
    assert ret[..q] + [] == ret[..q];
    len, overrun := q, q == ret.Length;
    if !overrun {
      ret[q] := 0;
    }
  }
}
