/**
 The formats that c6/server.c and c6/client.c hand to the two interpreters of lib/buffer.c, and the bytes they
 stand for: each conversion in use, on the wire.
 */
module C6Formats {
  import opened Words
  import opened Numbers
  import opened PackCodec

  // ----- numbers on the wire -----

  /** Highest byte first for ^, else lowest first. */
  lemma NumberBytes(v: nat, big: bool)
    ensures IntBytes(v, 1, big) == [v % 0x100]
    ensures IntBytes(v, 2, big) == if big then [v / 0x100 % 0x100, v % 0x100] else [v % 0x100, v / 0x100 % 0x100]
    ensures IntBytes(v, 4, big) ==
            if big then [v / 0x100_0000 % 0x100, v / 0x1_0000 % 0x100, v / 0x100 % 0x100, v % 0x100]
            else [v % 0x100, v / 0x100 % 0x100, v / 0x1_0000 % 0x100, v / 0x100_0000 % 0x100]
  {
    Thirds(v);
    LastByte(v);
    LittleBytes(v);
    BackTwo(v % 0x100, v / 0x100 % 0x100);
    BackFour(v % 0x100, v / 0x100 % 0x100, v / 0x1_0000 % 0x100, v / 0x100_0000 % 0x100);
  }

  lemma LittleBytes(v: nat)
    ensures LittleEndian(v, 2) == [v % 0x100, v / 0x100 % 0x100]
    ensures LittleEndian(v, 4) ==
            [v % 0x100, v / 0x100 % 0x100, v / 0x100 / 0x100 % 0x100, v / 0x100 / 0x100 / 0x100 % 0x100]
  {
    LastByte(v / 0x100);
    LastByte(v / 0x100 / 0x100 / 0x100);
    assert LittleEndian(v / 0x100, 3) == [v / 0x100 % 0x100] + LittleEndian(v / 0x100 / 0x100, 2);
    assert LittleEndian(v / 0x100 / 0x100, 2) ==
           [v / 0x100 / 0x100 % 0x100] + LittleEndian(v / 0x100 / 0x100 / 0x100, 1);
  }

  lemma Thirds(v: nat)
    ensures v / 0x100 / 0x100 == v / 0x1_0000 && v / 0x100 / 0x100 / 0x100 == v / 0x100_0000
  {
  }

  lemma LastByte(v: nat)
    ensures LittleEndian(v, 1) == [v % 0x100] && Reversed(LittleEndian(v, 1)) == [v % 0x100]
  {
    assert LittleEndian(v / 0x100, 0) == [];
    var b: Bytes := [v % 0x100];
    assert b[1..] == [] && Reversed(b) == Reversed(b[1..]) + [b[0]];
  }

  lemma BackTwo(a: byte, b: byte)
    ensures Reversed([a, b]) == [b, a]
  {
    assert [a, b][1..] == [b] && [b][1..] == [];
    assert Reversed([b]) == Reversed([]) + [b] == [b];
  }

  lemma BackFour(a: byte, b: byte, c: byte, d: byte)
    ensures Reversed([a, b, c, d]) == [d, c, b, a]
  {
    ReversedAppend([a, b], [c, d]);
    BackTwo(a, b);
    BackTwo(c, d);
    assert [a, b] + [c, d] == [a, b, c, d];
  }

  /** A number read from two bytes. */
  lemma TwoBytesRead(a: byte, b: byte)
    ensures IntValue([a, b], true) == a as nat * 0x100 + b && IntValue([a, b], false) == a + b as nat * 0x100
  {
    BackTwo(a, b);
    TwoLittle(a, b);
    TwoLittle(b, a);
  }

  lemma TwoLittle(a: byte, b: byte)
    ensures LittleValue([a, b]) == a + 0x100 * b as nat
  {
    assert [a, b][1..] == [b] && [b][1..] == [];
    assert LittleValue([b]) == b + 0x100 * LittleValue([]);
  }

  // ----- lists of fields -----

  /** A field in front of a list, in every respect. */
  lemma InFront(f: Field, fs: seq<Field>)
    ensures UnpackFormats([f] + fs) == UnpackFormat(f) + UnpackFormats(fs)
    ensures PackFormats([f] + fs) == PackFormat(f) + PackFormats(fs)
    ensures AllArgs([f] + fs) == PackArgs(f) + AllArgs(fs)
    ensures AllValues([f] + fs) == Values(f) + AllValues(fs)
    ensures Encodings([f] + fs) == Encoding(f) + Encodings(fs)
    ensures AllValid([f] + fs) <==> ValidField(f) && AllValid(fs)
    ensures NoneEmpty([f] + fs) <==> NonEmptyText(f) && NoneEmpty(fs)
  {
    assert ([f] + fs)[1..] == fs;
  }

  lemma NoFields()
    ensures UnpackFormats([]) == [] && PackFormats([]) == [] && AllArgs([]) == [] && AllValues([]) == []
    ensures Encodings([]) == [] && AllValid([]) && NoneEmpty([])
  {
  }

  // ----- formats in letters -----

  lemma OneDigit(n: nat)
    requires n < 10
    ensures Decimal(n) == [('0' as int + n) as char]
  {
  }

  lemma FixedFormat(form: Form, b: Bytes)
    requires |b| < 10
    ensures UnpackFormat(Fixed(form, b)) == ['%', ('0' as int + |b|) as char, FormChar(form)]
  {
    OneDigit(|b|);
  }

  lemma NumberFormat(k: nat, big: bool, v: nat)
    requires IsIntSize(k)
    ensures var f := PackFormat(Number(k, big, false, v));
            && UnpackFormat(Number(k, big, false, v)) == f
            && (k == 1 && !big ==> f == "%bu") && (k == 2 && !big ==> f == "%hu")
            && (k == 2 && big ==> f == "%^hu") && (k == 4 && big ==> f == "%^u")
  {
  }

  // ----- what comes from the server -----

  ghost function RedirectFields(): seq<Field> {
    [Fixed(AsData, [0, 0, 0, 0])] + ([Fixed(Skipped, [0, 0])] + ([Number(2, false, false, 0)] + []))
  }

  lemma RedirectFormat()
    ensures UnpackFormats(RedirectFields()) == "%4p%2k%hu" && AllValid(RedirectFields())
  {
    var ip, skip, port := Fixed(AsData, [0, 0, 0, 0]), Fixed(Skipped, [0, 0]), Number(2, false, false, 0);
    NoFields();
    InFront(port, []);
    InFront(skip, [port] + []);
    InFront(ip, [skip] + ([port] + []));
    FixedFormat(AsData, [0, 0, 0, 0]);
    FixedFormat(Skipped, [0, 0]);
    NumberFormat(2, false, 0);
    assert Power(2) > 0;
  }

  lemma ReadInFront(f: Field, fs: seq<Field>, data: Bytes, offs: nat)
    requires offs <= |data|
    ensures ReadAll([f] + fs, data, offs) ==
            var x := ReadField(f, data, offs);
            if !x.Unpacked? then x else
              var y := ReadAll(fs, data, offs + x.offs);
              if !y.Unpacked? then y else Unpacked(y.offs, x.args + y.args)
  {
    assert ([f] + fs)[1..] == fs;
  }

  lemma PortRead(data: Bytes, offs: nat)
    requires offs <= |data|
    ensures ReadAll([Number(2, false, false, 0)] + [], data, offs) ==
            if |data| < offs + 2 then Rejected
            else Unpacked(offs + 2, [Num(data[offs] as nat + data[offs + 1] as nat * 0x100)])
  {
    ReadInFront(Number(2, false, false, 0), [], data, offs);
    if offs + 2 <= |data| {
      assert data[offs..offs + 2] == [data[offs], data[offs + 1]];
      TwoBytesRead(data[offs], data[offs + 1]);
    }
  }

  /** A run of bytes that is not text, and the fields behind it. */
  lemma RunInFront(form: Form, b: Bytes, fs: seq<Field>, data: Bytes, offs: nat, y: Unpacking)
    requires offs <= |data| && !form.AsText?
    requires offs + |b| <= |data| ==> y == ReadAll(fs, data, offs + |b|)
    ensures ReadAll([Fixed(form, b)] + fs, data, offs) ==
            if offs + |b| > |data| then Rejected
            else if !y.Unpacked? then y
            else Unpacked(y.offs, RunValue(form, data[offs..offs + |b|]) + y.args)
  {
    ReadInFront(Fixed(form, b), fs, data, offs);
  }

  lemma RedirectSecond(data: Bytes)
    requires |data| >= 4
    ensures ReadAll([Fixed(Skipped, [0, 0])] + ([Number(2, false, false, 0)] + []), data, 4) ==
            if |data| < 8 then Rejected else Unpacked(8, [Num(data[6] as nat + data[7] as nat * 0x100)])
  {
    var port := [Number(2, false, false, 0)] + [];
    var y := Rejected;
    if |data| >= 6 {
      PortRead(data, 6);
      y := ReadAll(port, data, 6);
    }
    RunInFront(Skipped, [0, 0], port, data, 4, y);
  }

  lemma RedirectRead(data: Bytes)
    ensures ReadAll(RedirectFields(), data, 0) ==
            if |data| < 8 then Rejected
            else Unpacked(8, [Data(data[..4]), Num(data[6] as nat + data[7] as nat * 0x100)])
  {
    var fs := [Fixed(Skipped, [0, 0])] + ([Number(2, false, false, 0)] + []);
    var x := Rejected;
    if |data| >= 4 {
      RedirectSecond(data);
      x := ReadAll(fs, data, 4);
    }
    RedirectFirst(data, fs, x);
  }

  lemma RedirectFirst(data: Bytes, fs: seq<Field>, x: Unpacking)
    requires if |data| < 4 then x == Rejected else x == ReadAll(fs, data, 4)
    ensures ReadAll([Fixed(AsData, [0, 0, 0, 0])] + fs, data, 0) ==
            if x.Unpacked? then Unpacked(x.offs, [Data(data[..4])] + x.args) else x
  {
    RunInFront(AsData, [0, 0, 0, 0], fs, data, 0, x);
    assert |data| >= 4 ==> data[0..4] == data[..4];
  }

  /** Unpacking by a format is reading its fields. */
  lemma ByFields(fmt: string, fs: seq<Field>, data: Bytes, x: Unpacking)
    requires fmt == UnpackFormats(fs) && AllValid(fs) && x == ReadAll(fs, data, 0)
    ensures Unpack(fmt, data, UnpackStart(0, [])) == x
  {
    UnpackFields(fs, data, 0, []);
    assert x.Unpacked? ==> [] + x.args == x.args;
  }

  /** "%4p%2k%hu", from server.c: an address, two bytes of no interest, and a port, lowest byte first. */
  lemma Redirect(data: Bytes)
    ensures Unpack("%4p%2k%hu", data, UnpackStart(0, [])) ==
            if |data| < 8 then Rejected
            else Unpacked(8, [Data(data[..4]), Num(data[6] as nat + data[7] as nat * 0x100)])
  {
    RedirectFormat();
    RedirectRead(data);
    ByFields("%4p%2k%hu", RedirectFields(), data, ReadAll(RedirectFields(), data, 0));
  }

  lemma BlobField(data: Bytes)
    ensures ReadCounted(AsBuffer, 2, true, data, 0) ==
            if |data| < 2 then Rejected else
              var n := data[0] as nat * 0x100 + data[1];
              if |data| < 2 + n then Rejected else Unpacked(2 + n, [Buffer(data[2..2 + n])])
  {
    if |data| >= 2 {
      assert data[0..2] == [data[0], data[1]];
      TwoBytesRead(data[0], data[1]);
    }
  }

  lemma BlobRead(data: Bytes, x: Unpacking)
    requires x == ReadCounted(AsBuffer, 2, true, data, 0)
    ensures ReadAll([Counted(AsBuffer, 2, true, [])] + [], data, 0) == x
  {
    ReadInFront(Counted(AsBuffer, 2, true, []), [], data, 0);
    assert x.Unpacked? ==> x.args + [] == x.args;
  }

  lemma BlobFormat()
    ensures UnpackFormats([Counted(AsBuffer, 2, true, [])] + []) == "%^h$%r"
    ensures AllValid([Counted(AsBuffer, 2, true, [])] + [])
  {
    NoFields();
    InFront(Counted(AsBuffer, 2, true, []), []);
    assert Power(2) > 0;
  }

  /** "%^h$%r", from server.c: two bytes of length, highest first, and a buffer of that many bytes. */
  lemma Blob(data: Bytes)
    ensures Unpack("%^h$%r", data, UnpackStart(0, [])) ==
            if |data| < 2 then Rejected else
              var n := data[0] as nat * 0x100 + data[1];
              if |data| < 2 + n then Rejected else Unpacked(2 + n, [Buffer(data[2..2 + n])])
  {
    var x := ReadCounted(AsBuffer, 2, true, data, 0);
    BlobFormat();
    BlobField(data);
    BlobRead(data, x);
    ByFields("%^h$%r", [Counted(AsBuffer, 2, true, [])] + [], data, x);
  }

  lemma Powers()
    ensures Power(1) == 0x100 && Power(2) == 0x1_0000 && Power(4) == 0x1_0000_0000
  {
    assert Power(0) == 1;
    assert Power(3) == 0x100_0000;
  }

  /** A field list, the format that unpacks it, its values and its bytes. */
  ghost predicate Unpacks(fs: seq<Field>, fmt: string, values: seq<Arg>, wire: Bytes) {
    true == (
      && AllValid(fs) && NoneEmpty(fs) && UnpackFormats(fs) == fmt && AllValues(fs) == values
      && Encodings(fs) == wire)
  }

  lemma UnpacksMore(f: Field, fs: seq<Field>, fmt: string, values: seq<Arg>, wire: Bytes)
    requires Unpacks(fs, fmt, values, wire) && ValidField(f) && NonEmptyText(f)
    ensures Unpacks([f] + fs, UnpackFormat(f) + fmt, Values(f) + values, Encoding(f) + wire)
  {
    InFront(f, fs);
  }

  /** Reading back what fields stand for. */
  lemma FromWire(fmt: string, fs: seq<Field>, wire: Bytes, tail: Bytes, values: seq<Arg>)
    requires Unpacks(fs, fmt, values, wire)
    ensures Unpack(fmt, wire + tail, UnpackStart(0, [])) == Unpacked(|wire|, values)
  {
    RoundTrip(fs, tail);
  }

  lemma SmallByte(n: nat)
    requires n < 0x100
    ensures IntBytes(n, 1, false) == [n] && n < Power(1)
  {
    NumberBytes(n, false);
    Powers();
  }

  lemma SmallWord(n: nat)
    requires n < 0x1_0000
    ensures IntBytes(n, 2, true) == [n / 0x100, n % 0x100] && n < Power(2)
  {
    NumberBytes(n, true);
    Powers();
  }

  /** A text behind a length byte. */
  lemma ShortText(chars: Bytes)
    requires 1 <= |chars| <= 255 && 0 !in chars
    ensures var f := Counted(AsText, 1, false, chars);
            && UnpackFormat(f) == "%b$%s" && Values(f) == [Text(chars)] && Encoding(f) == [|chars|] + chars
            && ValidField(f) && NonEmptyText(f)
  {
    SmallByte(|chars|);
  }

  /** A buffer behind two length bytes. */
  lemma LongBuffer(b: Bytes)
    requires |b| <= 65535
    ensures var f := Counted(AsBuffer, 2, true, b);
            && UnpackFormat(f) == "%^h$%r" && Values(f) == [Buffer(b)] && ValidField(f) && NonEmptyText(f)
            && Encoding(f) == [|b| / 0x100, |b| % 0x100] + b
  {
    SmallWord(|b|);
  }

  /** "%b$%s%b$%s%^h$%r", from server.c: two texts behind a length byte each, and a buffer behind two. */
  lemma Message(from: Bytes, to: Bytes, blob: Bytes, tail: Bytes)
    requires 1 <= |from| <= 255 && 1 <= |to| <= 255 && |blob| <= 65535 && 0 !in from && 0 !in to
    ensures var wire := [|from|] + from + ([|to|] + to + ([|blob| / 0x100, |blob| % 0x100] + blob));
            Unpack("%b$%s%b$%s%^h$%r", wire + tail, UnpackStart(0, [])) ==
            Unpacked(|wire|, [Text(from), Text(to), Buffer(blob)])
  {
    var b, t, f := Counted(AsBuffer, 2, true, blob), Counted(AsText, 1, false, to), Counted(AsText, 1, false, from);
    var wb := [|blob| / 0x100, |blob| % 0x100] + blob;
    var wt := [|to|] + to + wb;
    LongBuffer(blob);
    ShortText(to);
    ShortText(from);
    Nothing();
    UnpacksMore(b, [], "", [], []);
    AndNothing("%^h$%r", [Buffer(blob)], wb);
    UnpacksMore(t, [b] + [], "%^h$%r", [Buffer(blob)], wb);
    UnpacksMore(f, [t] + ([b] + []), "%b$%s" + "%^h$%r", [Text(to)] + [Buffer(blob)], wt);
    MessageFormat();
    assert [Text(from)] + ([Text(to)] + [Buffer(blob)]) == [Text(from), Text(to), Buffer(blob)];
    FromWire("%b$%s%b$%s%^h$%r", [f] + ([t] + ([b] + [])), [|from|] + from + wt, tail,
             [Text(from), Text(to), Buffer(blob)]);
  }

  lemma MessageFormat()
    ensures "%b$%s" + ("%b$%s" + "%^h$%r") == "%b$%s%b$%s%^h$%r"
  {
  }

  lemma Nothing()
    ensures Unpacks([], "", [], [])
  {
    NoFields();
  }

  lemma AndNothing<T, U, V>(a: seq<T>, b: seq<U>, c: seq<V>)
    ensures a + [] == a && b + [] == b && c + [] == c
  {
  }

  /** "%b$%s%^u%4p%bu%^hu", from server.c: a text, a number of four bytes, an address, a byte and a count. */
  lemma Profile(nick: Bytes, time: uint32, ip: Bytes, status: byte, entries: uint16, tail: Bytes)
    requires 1 <= |nick| <= 255 && 0 !in nick && |ip| == 4
    ensures var wire := [|nick|] + nick
                        + ([time / 0x100_0000, time / 0x1_0000 % 0x100, time / 0x100 % 0x100, time % 0x100]
                           + (ip + ([status] + [entries / 0x100, entries % 0x100])));
            Unpack("%b$%s%^u%4p%bu%^hu", wire + tail, UnpackStart(0, [])) ==
            Unpacked(|wire|, [Text(nick), Num(time), Data(ip), Num(status), Num(entries)])
  {
    var n, c, a := Counted(AsText, 1, false, nick), Number(4, true, false, time), Fixed(AsData, ip);
    var b, e := Number(1, false, false, status), Number(2, true, false, entries);
    var we := [entries / 0x100, entries % 0x100];
    var wa := ip + ([status] + we);
    var wc := [time / 0x100_0000, time / 0x1_0000 % 0x100, time / 0x100 % 0x100, time % 0x100];
    ShortText(nick);
    BigLong(time);
    FixedFormat(AsData, ip);
    SmallByte(status);
    SmallWord(entries);
    NumberFormats(time, status, entries);
    Nothing();
    UnpacksMore(e, [], "", [], []);
    AndNothing("%^hu", [Num(entries)], we);
    UnpacksMore(b, [e] + [], "%^hu", [Num(entries)], we);
    UnpacksMore(a, [b] + ([e] + []), "%bu" + "%^hu", [Num(status)] + [Num(entries)], [status] + we);
    UnpacksMore(c, [a] + ([b] + ([e] + [])), "%4p" + ("%bu" + "%^hu"),
                [Data(ip)] + ([Num(status)] + [Num(entries)]), wa);
    UnpacksMore(n, [c] + ([a] + ([b] + ([e] + []))), "%^u" + ("%4p" + ("%bu" + "%^hu")),
                [Num(time)] + ([Data(ip)] + ([Num(status)] + [Num(entries)])), wc + wa);
    ProfileFormat();
    ProfileValues(Text(nick), Num(time), Data(ip), Num(status), Num(entries));
    FromWire("%b$%s%^u%4p%bu%^hu", [n] + ([c] + ([a] + ([b] + ([e] + [])))), [|nick|] + nick + (wc + wa), tail,
             [Text(nick), Num(time), Data(ip), Num(status), Num(entries)]);
  }

  lemma BigLong(v: uint32)
    ensures IntBytes(v, 4, true) == [v / 0x100_0000, v / 0x1_0000 % 0x100, v / 0x100 % 0x100, v % 0x100] && v < Power(4)
  {
    NumberBytes(v, true);
    Powers();
    assert v / 0x100_0000 < 0x100;
  }

  lemma NumberFormats(a: nat, b: nat, c: nat)
    ensures UnpackFormat(Number(4, true, false, a)) == "%^u" && UnpackFormat(Number(1, false, false, b)) == "%bu"
    ensures UnpackFormat(Number(2, true, false, c)) == "%^hu"
  {
    NumberFormat(4, true, a);
    NumberFormat(1, false, b);
    NumberFormat(2, true, c);
  }

  lemma ProfileFormat()
    ensures "%b$%s" + ("%^u" + ("%4p" + ("%bu" + "%^hu"))) == "%b$%s%^u%4p%bu%^hu"
  {
  }

  lemma ProfileValues<T>(a: T, b: T, c: T, d: T, e: T)
    ensures [a] + ([b] + ([c] + ([d] + [e]))) == [a, b, c, d, e]
  {
  }

  lemma HelloFormat()
    ensures UnpackFormat(Zero) == "%Z" && UnpackFormat(Byte(2)) == [2 as char] && UnpackFormat(Byte(8)) == [8 as char]
    ensures "%Z" + ([2 as char] + ([8 as char] + "%8p")) == "%Z" + [2 as char, 8 as char] + "%8p"
  {
  }

  lemma HelloWire(key: Bytes)
    ensures [0] + ([2] + ([8] + key)) == [0, 2, 8] + key
  {
  }

  /** "%Z\x02\x08%8p", from server.c: three bytes that must be there, and a key of eight. */
  lemma Hello(key: Bytes, tail: Bytes)
    requires |key| == 8
    ensures Unpack("%Z" + [2 as char, 8 as char] + "%8p", [0, 2, 8] + key + tail, UnpackStart(0, [])) ==
            Unpacked(11, [Data(key)])
  {
    var k := Fixed(AsData, key);
    FixedFormat(AsData, key);
    HelloFormat();
    HelloWire(key);
    Nothing();
    UnpacksMore(k, [], "", [], []);
    AndNothing("%8p", [Data(key)], key);
    UnpacksMore(Byte(8), [k] + [], "%8p", [Data(key)], key);
    AndNothing("", [Data(key)], key);
    UnpacksMore(Byte(2), [Byte(8)] + ([k] + []), [8 as char] + "%8p", [Data(key)], [8] + key);
    UnpacksMore(Zero, [Byte(2)] + ([Byte(8)] + ([k] + [])), [2 as char] + ([8 as char] + "%8p"), [Data(key)],
                [2] + ([8] + key));
    FromWire("%Z" + [2 as char, 8 as char] + "%8p", [Zero] + ([Byte(2)] + ([Byte(8)] + ([k] + []))), [0, 2, 8] + key,
             tail, [Data(key)]);
  }

  /** "%s" alone: text up to a zero byte. */
  lemma EndedText(chars: Bytes, tail: Bytes)
    requires 0 !in chars
    ensures Unpack("%s", chars + [0] + tail, UnpackStart(0, [])) == Unpacked(|chars| + 1, [Text(chars)])
  {
    Nothing();
    UnpacksMore(Ended(chars), [], "", [], []);
    AndNothing("%s", [Text(chars)], chars + [0]);
    FromWire("%s", [Ended(chars)] + [], chars + [0], tail, [Text(chars)]);
  }

  // ----- what goes to the server -----

  /** A field list, the format that packs it, its arguments and its bytes. */
  ghost predicate Packs(fs: seq<Field>, fmt: string, args: seq<Arg>, wire: Bytes) {
    true == (AllValid(fs) && PackFormats(fs) == fmt && AllArgs(fs) == args && Encodings(fs) == wire)
  }

  lemma PacksMore(f: Field, fs: seq<Field>, fmt: string, args: seq<Arg>, wire: Bytes)
    requires Packs(fs, fmt, args, wire) && ValidField(f)
    ensures Packs([f] + fs, PackFormat(f) + fmt, PackArgs(f) + args, Encoding(f) + wire)
  {
    InFront(f, fs);
  }

  lemma ToWire(fmt: string, fs: seq<Field>, args: seq<Arg>, wire: Bytes)
    requires Packs(fs, fmt, args, wire)
    ensures var p := Pack(fmt, PackStart(args)); p.Packed? && Join(p.pieces) == wire
  {
    PackAll(fs);
  }

  lemma NothingPacked()
    ensures Packs([], "", [], [])
  {
    NoFields();
  }

  lemma TwoDigits()
    ensures Decimal(10) == "10" && Decimal(8) == "8"
  {
    assert Decimal(1) == "1";
  }

  /** "%8p%10p%Z", from server.c: eight bytes, ten bytes and a zero byte. */
  lemma SessionKey(a: Bytes, b: Bytes)
    requires |a| == 8 && |b| == 10
    ensures var p := Pack("%8p%10p%Z", PackStart([Data(a), Data(b)])); p.Packed? && Join(p.pieces) == a + b + [0]
  {
    var fa, fb := Fixed(AsData, a), Fixed(AsData, b);
    TwoDigits();
    NothingPacked();
    PacksMore(Zero, [], "", [], []);
    AndNothing("%Z", [Data(b)], [0 as byte]);
    PacksMore(fb, [Zero] + [], "%Z", [], [0]);
    PacksMore(fa, [fb] + ([Zero] + []), "%10p" + "%Z", [Data(b)], b + [0]);
    SessionKeyFormat(a, b);
    ToWire("%8p%10p%Z", [fa] + ([fb] + ([Zero] + [])), [Data(a), Data(b)], a + b + [0]);
  }

  lemma SessionKeyFormat(a: Bytes, b: Bytes)
    ensures "%8p" + ("%10p" + "%Z") == "%8p%10p%Z" && a + (b + [0]) == a + b + [0]
    ensures [Data(a)] + [Data(b)] == [Data(a), Data(b)]
  {
  }

  lemma PackedText(chars: Bytes)
    requires |chars| <= 255 && 0 !in chars
    ensures var f := Counted(AsText, 1, false, chars);
            && PackFormat(f) == "%bu%s" && PackArgs(f) == [Num(|chars|), Text(chars)] && ValidField(f)
            && Encoding(f) == [|chars|] + chars
  {
    SmallByte(|chars|);
  }

  lemma PackedBuffer(b: Bytes)
    requires |b| <= 65535
    ensures var f := Counted(AsBuffer, 2, true, b);
            && PackFormat(f) == "%^hu%r" && PackArgs(f) == [Num(|b|), Buffer(b)] && ValidField(f)
            && Encoding(f) == [|b| / 0x100, |b| % 0x100] + b
  {
    SmallWord(|b|);
  }

  /** Two numbers, a text behind its length and a buffer behind its length. */
  lemma UsernameBody(id: uint16, zero: uint16, nick: Bytes, blob: Bytes, fs: seq<Field>)
    returns (all: seq<Field>, wire: Bytes)
    requires |nick| <= 255 && 0 !in nick && |blob| <= 65535
    requires Packs(fs, [2 as char] + ([45 as char] + ""), [], [2] + ([45] + []))
    ensures Packs(all, "%^hu" + ("%^hu" + ("%bu%s" + ("%^hu%r" + ([2 as char] + ([45 as char] + ""))))),
                  [Num(id)] + ([Num(zero)] + ([Num(|nick|), Text(nick)] + ([Num(|blob|), Buffer(blob)] + []))), wire)
    ensures wire == [id / 0x100, id % 0x100] + ([zero / 0x100, zero % 0x100] + ([|nick|] + nick
                    + ([|blob| / 0x100, |blob| % 0x100] + blob + ([2] + ([45] + [])))))
  {
    var a, b := Number(2, true, false, id), Number(2, true, false, zero);
    var n, r := Counted(AsText, 1, false, nick), Counted(AsBuffer, 2, true, blob);
    var end: Bytes := [2] + ([45] + []);
    var fmt := [2 as char] + ([45 as char] + "");
    SmallWord(id);
    SmallWord(zero);
    PackedText(nick);
    PackedBuffer(blob);
    NumberFormat(2, true, id);
    NumberFormat(2, true, zero);
    var wr := [|blob| / 0x100, |blob| % 0x100] + blob + end;
    var wn := [|nick|] + nick + wr;
    PacksMore(r, fs, fmt, [], end);
    PacksMore(n, [r] + fs, "%^hu%r" + fmt, [Num(|blob|), Buffer(blob)] + [], wr);
    PacksMore(b, [n] + ([r] + fs), "%bu%s" + ("%^hu%r" + fmt),
              [Num(|nick|), Text(nick)] + ([Num(|blob|), Buffer(blob)] + []), wn);
    PacksMore(a, [b] + ([n] + ([r] + fs)), "%^hu" + ("%bu%s" + ("%^hu%r" + fmt)),
              [Num(zero)] + ([Num(|nick|), Text(nick)] + ([Num(|blob|), Buffer(blob)] + [])),
              [zero / 0x100, zero % 0x100] + wn);
    all, wire := [a] + ([b] + ([n] + ([r] + fs))), [id / 0x100, id % 0x100] + ([zero / 0x100, zero % 0x100] + wn);
  }

  lemma UsernameEnd() returns (fs: seq<Field>)
    ensures Packs(fs, [2 as char] + ([45 as char] + ""), [], [2] + ([45] + []))
  {
    NothingPacked();
    PacksMore(Byte(45), [], "", [], []);
    AndNothing([45 as char], [45 as byte], [0]);
    PacksMore(Byte(2), [Byte(45)] + [], [45 as char] + "", [], [45] + []);
    fs := [Byte(2)] + ([Byte(45)] + []);
  }

  /** "\x10\x31%^hu%^hu%bu%s%^hu%r\x02\x2d", from client.c. */
  lemma Username(id: uint16, zero: uint16, nick: Bytes, blob: Bytes)
    requires |nick| <= 255 && 0 !in nick && |blob| <= 65535
    ensures var p := Pack([16 as char, 49 as char] + "%^hu%^hu%bu%s%^hu%r" + [2 as char, 45 as char],
                          PackStart([Num(id), Num(zero), Num(|nick|), Text(nick), Num(|blob|), Buffer(blob)]));
            && p.Packed?
            && Join(p.pieces) == [16, 49, id / 0x100, id % 0x100, zero / 0x100, zero % 0x100, |nick|] + nick
                                 + [|blob| / 0x100, |blob| % 0x100] + blob + [2, 45]
  {
    var end := UsernameEnd();
    var fs, wire := UsernameBody(id, zero, nick, blob, end);
    var fmt := "%^hu" + ("%^hu" + ("%bu%s" + ("%^hu%r" + ([2 as char] + ([45 as char] + "")))));
    var args := [Num(id)] + ([Num(zero)] + ([Num(|nick|), Text(nick)] + ([Num(|blob|), Buffer(blob)] + [])));
    PacksMore(Byte(49), fs, fmt, args, wire);
    PacksMore(Byte(16), [Byte(49)] + fs, [49 as char] + fmt, [] + args, [49] + wire);
    var all := [Byte(16)] + ([Byte(49)] + fs);
    SixInOrder(Num(id), Num(zero), Num(|nick|), Text(nick), Num(|blob|), Buffer(blob));
    UsernameFormat(fmt);
    UsernameWire(id, zero, nick, blob, wire);
    ToWire([16 as char, 49 as char] + "%^hu%^hu%bu%s%^hu%r" + [2 as char, 45 as char], all, args,
           [16, 49, id / 0x100, id % 0x100, zero / 0x100, zero % 0x100, |nick|] + nick
           + [|blob| / 0x100, |blob| % 0x100] + blob + [2, 45]);
  }

  lemma UsernameFormat(fmt: string)
    requires fmt == "%^hu" + ("%^hu" + ("%bu%s" + ("%^hu%r" + ([2 as char] + ([45 as char] + "")))))
    ensures [16 as char] + ([49 as char] + fmt) ==
            [16 as char, 49 as char] + "%^hu%^hu%bu%s%^hu%r" + [2 as char, 45 as char]
  {
  }

  lemma UsernameWire(id: uint16, zero: uint16, nick: Bytes, blob: Bytes, wire: Bytes)
    requires |nick| <= 255 && |blob| <= 65535
    requires wire == [id / 0x100, id % 0x100] + ([zero / 0x100, zero % 0x100] + ([|nick|] + nick
                     + ([|blob| / 0x100, |blob| % 0x100] + blob + ([2] + ([45] + [])))))
    ensures [16] + ([49] + wire) ==
            [16, 49, id / 0x100, id % 0x100, zero / 0x100, zero % 0x100, |nick|] + nick
            + [|blob| / 0x100, |blob| % 0x100] + blob + [2, 45]
  {
  }

  lemma SixInOrder<T>(a: T, b: T, c: T, d: T, e: T, f: T)
    ensures [a] + ([b] + ([c, d] + ([e, f] + []))) == [a, b, c, d, e, f]
  {
  }

  // ----- what the interpreters refuse, and what they pass over -----

  /** A number of another size than one, two or four bytes. */
  lemma OtherSizes(n: nat, v: nat, data: Bytes)
    requires n != 0 && n != 1 && n != 2 && n != 4
    ensures Pack("%" + Decimal(n) + ['u'], PackStart([Num(v)])) == Refused
    ensures Unpack("%" + Decimal(n) + ['u'], data, UnpackStart(0, [])) == Rejected
  {
    var s, t := PackStart([Num(v)]), UnpackStart(0, []);
    AndNothing("%" + Decimal(n) + ['u'], [v], [n]);
    AndNothing(['u'], [v], [n]);
    PackSized('u', n, "", s);
    UnpackSized('u', n, data);
  }

  lemma UnpackSized(c: char, n: nat, data: Bytes)
    requires c == 'u'
    ensures Unpack("%" + Decimal(n) + [c], data, UnpackStart(0, [])) ==
            Unpack([c], data, UnpackStart(0, []).(percent := true, size := n))
  {
    var t := UnpackStart(0, []);
    var fmt := Decimal(n) + ([c] + "");
    AndNothing([c], [n], [n]);
    assert "%" + Decimal(n) + [c] == ['%'] + fmt;
    UnpackStep('%', fmt, data, t);
    UnpackDigits(n, c, "", data, t.(percent := true));
  }

  /** A size in front of %r cuts a longer buffer off. */
  lemma SizedBuffer(n: nat, b: Bytes)
    ensures Pack("%" + Decimal(n) + ['r'], PackStart([Buffer(b)])) ==
            Packed(if b == [] then [] else if n == 0 || n > |b| then [b] else [b[..n]])
  {
    AndNothing("%" + Decimal(n) + ['r'], [n], [n]);
    AndNothing(['r'], [n], [n]);
    PackSized('r', n, "", PackStart([Buffer(b)]));
    PackStep('r', "", PackStart([Buffer(b)]).(percent := true, size := n));
  }

  /** No pointer, or a pointer without a size, packs nothing. */
  lemma NoData(b: Bytes)
    ensures Pack("%p", PackStart([Null])) == Packed([]) && Pack("%p", PackStart([Data(b)])) == Packed([])
    ensures Pack("%r", PackStart([Null])) == Packed([])
  {
  }

  /** "%%%i": a percent sign, and a number of four bytes as the machine has it. */
  lemma PercentAndNumber(v: uint32, tail: Bytes)
    ensures var p := Pack("%%%i", PackStart([Num(v)]));
            p.Packed? && Join(p.pieces) == [37, v % 0x100, v / 0x100 % 0x100, v / 0x1_0000 % 0x100, v / 0x100_0000]
    ensures Unpack("%%%i", [37, v % 0x100, v / 0x100 % 0x100, v / 0x1_0000 % 0x100, v / 0x100_0000] + tail,
                   UnpackStart(0, [])) == Unpacked(5, [Num(v)])
  {
    var n := Number(4, false, true, v);
    var w: Bytes := [v % 0x100, v / 0x100 % 0x100, v / 0x1_0000 % 0x100, v / 0x100_0000];
    LittleLong(v);
    NothingPacked();
    Nothing();
    PacksMore(n, [], "", [], []);
    UnpacksMore(n, [], "", [], []);
    AndNothing("%i", [Num(v)], w);
    PacksMore(Byte(37), [n] + [], "%i", [Num(v)], w);
    UnpacksMore(Byte(37), [n] + [], "%i", [Num(v)], w);
    AndNothing("%%%i", [Num(v)], w);
    assert "%%" + "%i" == "%%%i";
    assert [37] + w == [37, v % 0x100, v / 0x100 % 0x100, v / 0x1_0000 % 0x100, v / 0x100_0000];
    ToWire("%%%i", [Byte(37)] + ([n] + []), [Num(v)], [37] + w);
    FromWire("%%%i", [Byte(37)] + ([n] + []), [37] + w, tail, [Num(v)]);
  }

  lemma LittleLong(v: uint32)
    ensures IntBytes(v, 4, false) == [v % 0x100, v / 0x100 % 0x100, v / 0x1_0000 % 0x100, v / 0x100_0000]
    ensures v < Power(4)
  {
    NumberBytes(v, false);
    Powers();
    assert v / 0x100_0000 < 0x100;
  }

  /** One field, on any data. */
  lemma OneField(f: Field, data: Bytes, x: Unpacking)
    requires ValidField(f) && x == ReadField(f, data, 0)
    ensures Unpack(UnpackFormat(f), data, UnpackStart(0, [])) == x
  {
    NoFields();
    InFront(f, []);
    AndNothing(UnpackFormat(f), [f], [f]);
    ReadInFront(f, [], data, 0);
    assert x.Unpacked? ==> x.args + [] == x.args;
    ByFields(UnpackFormat(f), [f] + [], data, x);
  }

  /** A byte of the format must be there, and be the same. */
  lemma OneByte(c: byte, data: Bytes)
    requires c != 0 && c != 37
    ensures Unpack([c as char], data, UnpackStart(0, [])) ==
            if data == [] then Beyond else if data[0] != c then Rejected else Unpacked(1, [])
  {
    OneField(Byte(c), data, ReadField(Byte(c), data, 0));
  }

  lemma OneZero(data: Bytes)
    ensures Unpack("%Z", data, UnpackStart(0, [])) ==
            if data == [] then Beyond else if data[0] != 0 then Rejected else Unpacked(1, [])
  {
    OneField(Zero, data, ReadField(Zero, data, 0));
  }

  /** Text whose end does not come is read on behind the data. */
  lemma NeverEnds(data: Bytes)
    requires 0 !in data
    ensures Unpack("%s", data, UnpackStart(0, [])) == Beyond
  {
    NoZero(data, 0);
    OneField(Ended([]), data, Beyond);
  }

  lemma {:induction false} NoZero(data: Bytes, i: nat)
    requires i <= |data| && 0 !in data
    ensures ZeroFrom(data, i) == |data|
    decreases |data| - i
  {
    if i < |data| {
      NoZero(data, i + 1);
    }
  }

  /** A number in fewer bytes than it takes: refused where its size is spelt out, else read on behind the data. */
  lemma ShortNumbers(data: Bytes)
    ensures |data| < 4 ==> Unpack("%u", data, UnpackStart(0, [])) == Beyond
    ensures |data| < 2 ==> Unpack("%hu", data, UnpackStart(0, [])) == Rejected
    ensures |data| < 1 ==> Unpack("%bu", data, UnpackStart(0, [])) == Rejected
  {
    Powers();
    var a, b, c := Number(4, false, false, 0), Number(2, false, false, 0), Number(1, false, false, 0);
    assert UnpackFormat(a) == "%u";
    assert UnpackFormat(b) == "%hu";
    assert UnpackFormat(c) == "%bu";
    OneField(a, data, ReadField(a, data, 0));
    OneField(b, data, ReadField(b, data, 0));
    OneField(c, data, ReadField(c, data, 0));
  }
}
