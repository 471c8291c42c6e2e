/**
 The format interpreters of lib/buffer.c: _build_pack_queue and _dequeue_pack pack a
 list of arguments into bytes, _unpack_data reads them back.

 The machine is little-endian with 8-byte longs.  A read behind the end of an argument
 or of the data is an outcome of its own, Undefined.
 */
module PackCodec {
  import opened Words
  import opened Numbers
  import opened Sequences

  /** Arguments of a call, and what an unpacking call hands back. */
  datatype Arg =
    | Num(v: nat)
    | Data(bytes: Bytes)
    | Text(chars: Bytes)
    | Buffer(content: Bytes)
    | Null

  function Code(c: char): byte {
    c as int % 0x100
  }

  predicate IsDigit(c: char) {
    '0' <= c <= '9'
  }

  function Digit(c: char): (n: nat)
    requires IsDigit(c)
  {
    c as int - '0' as int
  }

  /** The size that l, h and b stand for. */
  function SizeOf(c: char): nat {
    if c == 'l' then 8 else if c == 'h' then 2 else 1
  }

  predicate IsSizeChar(c: char) {
    c == 'l' || c == 'h' || c == 'b'
  }

  /** sizeof(int), sizeof(short) and sizeof(char). */
  predicate IsIntSize(k: nat) {
    k == 4 || k == 2 || k == 1
  }

  // ----- numbers -----

  function LittleValue(b: Bytes): nat {
    if b == [] then 0 else b[0] + 0x100 * LittleValue(b[1..])
  }

  function Reversed(b: Bytes): (r: Bytes)
    ensures |r| == |b|
  {
    if b == [] then [] else Reversed(b[1..]) + [b[0]]
  }

  /** A number of k bytes in memory: htonl or htons first if it is to be big-endian. */
  function IntBytes(v: nat, k: nat, big: bool): (b: Bytes)
    ensures |b| == k
  {
    if big then Reversed(LittleEndian(v, k)) else LittleEndian(v, k)
  }

  function IntValue(b: Bytes, big: bool): nat {
    LittleValue(if big then Reversed(b) else b)
  }

  lemma {:induction false} ReversedAppend(a: Bytes, b: Bytes)
    ensures Reversed(a + b) == Reversed(b) + Reversed(a)
    decreases |a|
  {
    if a == [] {
      assert a + b == b;
    } else {
      assert (a + b)[1..] == a[1..] + b;
      ReversedAppend(a[1..], b);
    }
  }

  lemma {:induction false} ReversedTwice(b: Bytes)
    ensures Reversed(Reversed(b)) == b
    decreases |b|
  {
    if b != [] {
      ReversedAppend(Reversed(b[1..]), [b[0]]);
      ReversedTwice(b[1..]);
    }
  }

  lemma {:induction false} LittleBack(v: nat, k: nat)
    requires v < Power(k)
    ensures LittleValue(LittleEndian(v, k)) == v
    decreases k
  {
    if k > 0 {
      LittleBack(v / 0x100, k - 1);
      assert LittleEndian(v, k)[1..] == LittleEndian(v / 0x100, k - 1);
    }
  }

  /** Numbers come back in either byte order. */
  lemma IntBack(v: nat, k: nat, big: bool)
    requires v < Power(k)
    ensures IntValue(IntBytes(v, k, big), big) == v
  {
    ReversedTwice(LittleEndian(v, k));
    LittleBack(v, k);
  }

  // ----- the packing interpreter -----

  datatype Packing = Packed(pieces: seq<Bytes>) | Refused | Undefined

  /** The run of digits at the front of a format. */
  function DigitsEnd(fmt: string): (n: nat)
    ensures n <= |fmt| && (n < |fmt| ==> !IsDigit(fmt[n]))
  {
    if fmt == [] || !IsDigit(fmt[0]) then 0 else 1 + DigitsEnd(fmt[1..])
  }

  function DigitsValue(fmt: string, acc: nat): nat {
    if fmt == [] || !IsDigit(fmt[0]) then acc else DigitsValue(fmt[1..], 10 * acc + Digit(fmt[0]))
  }

  /** QUEUE_ADD: empty pieces are not queued. */
  function Queued(out: seq<Bytes>, piece: Bytes): seq<Bytes> {
    if piece == [] then out else out + [piece]
  }

  datatype PackState = PackState(percent: bool, size: nat, big: bool, args: seq<Arg>, out: seq<Bytes>) {
    function Add(piece: Bytes): PackState {
      PackState(false, 0, false, args, Queued(out, piece))
    }

    function Take(piece: Bytes): PackState
      requires args != []
    {
      PackState(false, 0, false, args[1..], Queued(out, piece))
    }
  }

  /** The conversions: one character that takes an argument. */
  function Convert(c: char, s: PackState): (r: (Packing, PackState))
    requires c == 'p' || c == 's' || c == 'r' || c == 'u' || c == 'i'
    ensures r.0 == Undefined || r.0 == Refused || r.0 == Packed([])
  {
    if s.args == [] then (Undefined, s) else
      var a := s.args[0];
      if c == 'p' then
        if a == Null || (a.Data? && s.size == 0) then (Packed([]), s.Take([]))
        else if a.Data? && s.size <= |a.bytes| then (Packed([]), s.Take(a.bytes[..s.size]))
        else (Undefined, s)
      else if c == 's' then
        if a.Text? then (Packed([]), s.Take(a.chars)) else (Undefined, s)
      else if c == 'r' then
        if a == Null then (Packed([]), s.Take([]))
        else if a.Buffer? then
          (Packed([]), s.Take(if s.size == 0 || s.size > |a.content| then a.content else a.content[..s.size]))
        else (Undefined, s)
      else
        var k := if s.size == 0 then 4 else s.size;
        if !IsIntSize(k) then (Refused, s)
        else if a.Num? then (Packed([]), s.Take(IntBytes(a.v, k, s.big)))
        else (Undefined, s)
  }

  predicate Converts(c: char) {
    c == 'p' || c == 's' || c == 'r' || c == 'u' || c == 'i'
  }

  /** _build_pack_queue on the format that is left. */
  function Pack(fmt: string, s: PackState): Packing
    decreases |fmt|
  {
    if fmt == [] then Packed(s.out)
    else
      var c, rest := fmt[0], fmt[1..];
      if c == '%' then
        if s.percent then Pack(rest, s.Add([Code(c)])) else Pack(rest, s.(percent := true))
      else if !s.percent then Pack(rest, s.Add([Code(c)]))
      else if Converts(c) then
        var x := Convert(c, s);
        if x.0.Packed? then Pack(rest, x.1) else x.0
      else if c == 'Z' then Pack(rest, s.Add([0]))
      else if s.size != 0 then Refused
      else if c == '^' then Pack(rest, s.(big := true))
      else if IsDigit(c) then Pack(fmt[DigitsEnd(fmt)..], s.(size := DigitsValue(fmt, 0)))
      else if IsSizeChar(c) then Pack(rest, s.(size := SizeOf(c)))
      else Pack(rest, s.Add([Code(c)]))
  }

  function PackStart(args: seq<Arg>): PackState {
    PackState(false, 0, false, args, [])
  }

  // ----- the unpacking interpreter -----

  datatype Unpacking = Unpacked(offs: nat, args: seq<Arg>) | Rejected | Beyond | Positional

  datatype UnpackState = UnpackState(percent: bool, size: nat, position: nat, big: bool,
                                     queue: seq<nat>, offs: nat, out: seq<Arg>) {
    /** RESET_VAR, with the offset and the results moved on. */
    function Got(n: nat, args: seq<Arg>): UnpackState {
      UnpackState(false, 0, 0, false, queue, offs + n, out + args)
    }
  }

  /** The first zero byte from a place on, or the end of the data. */
  function ZeroFrom(data: Bytes, i: nat): (j: nat)
    requires i <= |data|
    ensures i <= j <= |data|
    decreases |data| - i
  {
    if i == |data| || data[i] == 0 then i else ZeroFrom(data, i + 1)
  }

  /** CHECK_CHAR, also for the zero byte of Z. */
  function Check(data: Bytes, b: byte, s: UnpackState): (Unpacking, UnpackState) {
    if s.offs >= |data| then (Beyond, s)
    else if data[s.offs] != b then (Rejected, s)
    else (Unpacked(0, []), s.Got(1, []))
  }

  predicate Reads(c: char) {
    c == 'r' || c == 'p' || c == 's' || c == 'u' || c == 'i' || c == '$' || c == 'k' || c == 'Z'
  }

  /** The conversions: one character that reads data. */
  function Read(data: Bytes, c: char, s: UnpackState): (Unpacking, UnpackState)
    requires Reads(c) && s.offs + s.size <= |data|
  {
    var here := data[s.offs..s.offs + s.size];
    if c == 'r' then (Unpacked(0, []), s.Got(s.size, [Buffer(here)]))
    else if c == 'p' then (Unpacked(0, []), s.Got(s.size, [Data(here)]))
    else if c == 's' then
      if s.size != 0 then (Unpacked(0, []), s.Got(s.size, [Text(here)]))
      else
        var j := ZeroFrom(data, s.offs);
        if j == |data| then (Beyond, s) else (Unpacked(0, []), s.Got(j + 1 - s.offs, [Text(data[s.offs..j])]))
    else if c == 'k' then (Unpacked(0, []), s.Got(s.size, []))
    else if c == 'Z' then Check(data, 0, s)
    else
      var k := if s.size == 0 then 4 else s.size;
      if !IsIntSize(k) then (Rejected, s)
      else if s.offs + k > |data| then (Beyond, s)
      else
        var v := IntValue(data[s.offs..s.offs + k], s.big);
        if c != '$' then (Unpacked(0, []), s.Got(k, [Num(v)]))
        else if s.position != 0 then (Positional, s)
        else (Unpacked(0, []), s.Got(k, []).(queue := [v] + s.queue))
  }

  /** The length prefix of a position: digits, at most one size character, and a dollar sign. */
  predicate DollarFollows(rest: string) {
    || (rest != [] && rest[0] == '$')
    || (|rest| > 1 && IsSizeChar(rest[0]) && rest[1] == '$')
  }

  /** One turn of the loop: n format characters used, or the end of it all. */
  datatype Turn = Next(n: nat, s: UnpackState) | Halt(r: Unpacking)

  function After(x: (Unpacking, UnpackState)): Turn {
    if x.0.Unpacked? then Next(1, x.1) else Halt(x.0)
  }

  function Act(fmt: string, data: Bytes, s: UnpackState): (t: Turn)
    requires fmt != []
    ensures t.Next? ==> 1 <= t.n <= |fmt|
  {
    var c := fmt[0];
    if s.offs + s.size > |data| then Halt(Rejected)
    else if c == '%' && !s.percent then
      Next(1, if s.queue == [] then s.(percent := true)
              else s.(percent := true, size := s.queue[0], queue := s.queue[1..]))
    else if c == '%' || !s.percent then After(Check(data, Code(c), s))
    else if Reads(c) then After(Read(data, c, s))
    else if s.size != 0 then Halt(Rejected)
    else if c == '^' then Next(1, s.(big := true))
    else if IsDigit(c) then
      var n, end := DigitsValue(fmt, 0), DigitsEnd(fmt);
      if end == |fmt| then Halt(Rejected)
      else Next(end, if DollarFollows(fmt[end..]) then s.(position := n) else s.(size := n))
    else if IsSizeChar(c) then Next(1, s.(size := SizeOf(c)))
    else After(Check(data, Code(c), s))
  }

  /** _unpack_data on the format that is left. */
  function Unpack(fmt: string, data: Bytes, s: UnpackState): Unpacking
    decreases |fmt|
  {
    if fmt == [] then Unpacked(s.offs, s.out) else
      var t := Act(fmt, data, s);
      if t.Halt? then t.r else Unpack(fmt[t.n..], data, t.s)
  }

  function UnpackStart(offs: nat, out: seq<Arg>): UnpackState {
    UnpackState(false, 0, 0, false, [], offs, out)
  }

  // ----- field lists -----

  /** How a run of bytes is converted: %p, %s, %r, and %k, which skips what was packed as data. */
  datatype Form = AsData | AsText | AsBuffer | Skipped

  function FormChar(form: Form): char {
    match form
    case AsData => 'p'
    case AsText => 's'
    case AsBuffer => 'r'
    case Skipped => 'k'
  }

  /** What a packet format is made of. */
  datatype Field =
    | Byte(c: byte)
    | Zero
    | Fixed(form: Form, bytes: Bytes)
    | Number(k: nat, big: bool, signed: bool, v: nat)
    | Counted(form: Form, k: nat, big: bool, bytes: Bytes)
    | Ended(chars: Bytes)

  ghost predicate ValidField(f: Field) {
    match f
    case Byte(c) => c != 0
    case Zero => true
    case Fixed(form, b) => b != [] && (form.AsText? ==> 0 !in b)
    case Number(k, big, signed, v) => IsIntSize(k) && v < Power(k)
    case Counted(form, k, big, b) => IsIntSize(k) && |b| < Power(k) && !form.Skipped? && (form.AsText? ==> 0 !in b)
    case Ended(s) => 0 !in s
  }

  ghost function Decimal(n: nat): string {
    (if n < 10 then [] else Decimal(n / 10)) + [('0' as int + n % 10) as char]
  }

  ghost function SizePrefix(k: nat, big: bool): string {
    (if big then "^" else "") + (if k == 1 then "b" else if k == 2 then "h" else "")
  }

  ghost function RunFormat(form: Form, n: nat): string {
    match form
    case AsText => "%s"
    case AsBuffer => "%r"
    case _ => "%" + Decimal(n) + "p"
  }

  function RunArg(form: Form, b: Bytes): Arg {
    match form
    case AsText => Text(b)
    case AsBuffer => Buffer(b)
    case _ => Data(b)
  }

  function RunValue(form: Form, b: Bytes): seq<Arg> {
    if form.Skipped? then [] else [RunArg(form, b)]
  }

  function NumberChar(signed: bool): char {
    if signed then 'i' else 'u'
  }

  ghost function PackFormat(f: Field): string {
    match f
    case Byte(c) => if c == Code('%') then "%%" else [c as char]
    case Zero => "%Z"
    case Fixed(form, b) => RunFormat(form, |b|)
    case Number(k, big, signed, v) => "%" + SizePrefix(k, big) + [NumberChar(signed)]
    case Counted(form, k, big, b) => "%" + SizePrefix(k, big) + ['u'] + RunFormat(form, |b|)
    case Ended(s) => "%s" + "%Z"
  }

  ghost function UnpackFormat(f: Field): string {
    match f
    case Fixed(form, b) => "%" + Decimal(|b|) + [FormChar(form)]
    case Counted(form, k, big, b) => "%" + SizePrefix(k, big) + ['$'] + ("%" + [FormChar(form)])
    case Ended(s) => "%s"
    case _ => PackFormat(f)
  }

  ghost function PackArgs(f: Field): seq<Arg> {
    match f
    case Byte(c) => []
    case Zero => []
    case Fixed(form, b) => [RunArg(form, b)]
    case Number(k, big, signed, v) => [Num(v)]
    case Counted(form, k, big, b) => [Num(|b|), RunArg(form, b)]
    case Ended(s) => [Text(s)]
  }

  ghost function Values(f: Field): seq<Arg> {
    match f
    case Fixed(form, b) => RunValue(form, b)
    case Counted(form, k, big, b) => RunValue(form, b)
    case _ => PackArgs(f)
  }

  ghost function Encoding(f: Field): Bytes {
    match f
    case Byte(c) => [c]
    case Zero => [0]
    case Fixed(form, b) => b
    case Number(k, big, signed, v) => IntBytes(v, k, big)
    case Counted(form, k, big, b) => IntBytes(|b|, k, big) + b
    case Ended(s) => s + [0]
  }

  ghost function Pieces(f: Field): seq<Bytes> {
    match f
    case Counted(form, k, big, b) => Queued([IntBytes(|b|, k, big)], b)
    case Ended(s) => Queued([], s) + [[0]]
    case _ => [Encoding(f)]
  }

  ghost function PackFormats(fs: seq<Field>): string {
    if fs == [] then [] else PackFormat(fs[0]) + PackFormats(fs[1..])
  }

  ghost function UnpackFormats(fs: seq<Field>): string {
    if fs == [] then [] else UnpackFormat(fs[0]) + UnpackFormats(fs[1..])
  }

  ghost function AllArgs(fs: seq<Field>): seq<Arg> {
    if fs == [] then [] else PackArgs(fs[0]) + AllArgs(fs[1..])
  }

  ghost function AllValues(fs: seq<Field>): seq<Arg> {
    if fs == [] then [] else Values(fs[0]) + AllValues(fs[1..])
  }

  ghost function AllPieces(fs: seq<Field>): seq<Bytes> {
    if fs == [] then [] else Pieces(fs[0]) + AllPieces(fs[1..])
  }

  ghost function Encodings(fs: seq<Field>): Bytes {
    if fs == [] then [] else Encoding(fs[0]) + Encodings(fs[1..])
  }

  ghost predicate AllValid(fs: seq<Field>) {
    true == (fs != [] ==> ValidField(fs[0]) && AllValid(fs[1..]))
  }

  ghost predicate NoneEmpty(fs: seq<Field>) {
    true == (fs != [] ==> NonEmptyText(fs[0]) && NoneEmpty(fs[1..]))
  }

  /** The length of a counted text is not zero. */
  ghost predicate NonEmptyText(f: Field) {
    f.Counted? && f.form.AsText? ==> f.bytes != []
  }

  // ----- decimal sizes -----

  lemma {:induction false} DigitsThrough(a: string, b: string, acc: nat)
    requires forall i :: 0 <= i < |a| ==> IsDigit(a[i])
    ensures DigitsEnd(a + b) == |a| + DigitsEnd(b)
    ensures DigitsValue(a + b, acc) == DigitsValue(b, DigitsValue(a, acc))
    decreases |a|
  {
    if a == [] {
      assert a + b == b;
    } else {
      assert (a + b)[1..] == a[1..] + b;
      DigitsThrough(a[1..], b, 10 * acc + Digit(a[0]));
    }
  }

  lemma {:induction false} DecimalDigits(n: nat)
    ensures forall i :: 0 <= i < |Decimal(n)| ==> IsDigit(Decimal(n)[i])
    ensures |Decimal(n)| > 0 && DigitsValue(Decimal(n), 0) == n
    decreases n
  {
    var last: string := [('0' as int + n % 10) as char];
    assert Digit(last[0]) == n % 10 && last[1..] == [];
    assert DigitsValue(last[1..], n) == n;
    if n < 10 {
      assert Decimal(n) == [] + last == last;
    } else {
      DecimalDigits(n / 10);
      DigitsThrough(Decimal(n / 10), last, 0);
    }
  }

  lemma DecimalRun(n: nat, rest: string)
    requires rest != [] && !IsDigit(rest[0])
    ensures var fmt := Decimal(n) + rest;
            IsDigit(fmt[0]) && DigitsValue(fmt, 0) == n && fmt[DigitsEnd(fmt)..] == rest
  {
    DecimalDigits(n);
    DigitsThrough(Decimal(n), rest, 0);
  }

  // ----- packing a field list -----

  lemma PackStep(c: char, rest: string, s: PackState)
    ensures c == '%' && !s.percent ==> Pack([c] + rest, s) == Pack(rest, s.(percent := true))
    ensures (c == '%') == s.percent && (c == '%' || !s.percent) ==>
              Pack([c] + rest, s) == Pack(rest, s.Add([Code(c)]))
    ensures s.percent && c == 'Z' ==> Pack([c] + rest, s) == Pack(rest, s.Add([0]))
    ensures s.percent && c == '^' && s.size == 0 ==> Pack([c] + rest, s) == Pack(rest, s.(big := true))
    ensures s.percent && IsSizeChar(c) && s.size == 0 ==> Pack([c] + rest, s) == Pack(rest, s.(size := SizeOf(c)))
    ensures s.percent && Converts(c) && Convert(c, s).0.Packed? ==> Pack([c] + rest, s) == Pack(rest, Convert(c, s).1)
  {
    assert ([c] + rest)[1..] == rest;
  }

  function SizeField(k: nat): nat {
    if k == 4 then 0 else k
  }

  lemma PackPrefix(k: nat, big: bool, rest: string, s: PackState)
    requires IsIntSize(k) && s.percent && s.size == 0 && !s.big
    ensures Pack(SizePrefix(k, big) + rest, s) == Pack(rest, s.(big := big, size := SizeField(k)))
  {
    var size := if k == 1 then "b" else if k == 2 then "h" else "";
    var s' := s.(big := big);
    if big {
      assert SizePrefix(k, big) + rest == ['^'] + (size + rest);
      PackStep('^', size + rest, s);
    } else {
      assert SizePrefix(k, big) + rest == size + rest;
    }
    if k == 4 {
      assert size + rest == rest;
    } else {
      PackStep(size[0], rest, s');
      assert size + rest == [size[0]] + rest;
    }
  }

  ghost function Between(args: seq<Arg>, out: seq<Bytes>): PackState {
    PackState(false, 0, false, args, out)
  }

  lemma PackNumber(k: nat, big: bool, c: char, v: nat, rest: string, more: seq<Arg>, out: seq<Bytes>)
    requires IsIntSize(k) && (c == 'u' || c == 'i')
    ensures Pack("%" + SizePrefix(k, big) + [c] + rest, Between([Num(v)] + more, out))
         == Pack(rest, Between(more, out + [IntBytes(v, k, big)]))
  {
    var s := Between([Num(v)] + more, out);
    var fmt := SizePrefix(k, big) + ([c] + rest);
    assert "%" + SizePrefix(k, big) + [c] + rest == ['%'] + fmt;
    PackStep('%', fmt, s);
    PackPrefix(k, big, [c] + rest, s.(percent := true));
    var s' := s.(percent := true).(big := big, size := SizeField(k));
    PackStep(c, rest, s');
    assert ([Num(v)] + more)[1..] == more;
  }

  lemma PackText(chars: Bytes, rest: string, more: seq<Arg>, out: seq<Bytes>)
    ensures Pack("%s" + rest, Between([Text(chars)] + more, out)) == Pack(rest, Between(more, Queued(out, chars)))
  {
    var s := Between([Text(chars)] + more, out);
    assert "%s" + rest == ['%'] + (['s'] + rest);
    PackStep('%', ['s'] + rest, s);
    PackStep('s', rest, s.(percent := true));
    assert ([Text(chars)] + more)[1..] == more;
  }

  lemma PackBuffer(b: Bytes, rest: string, more: seq<Arg>, out: seq<Bytes>)
    ensures Pack("%r" + rest, Between([Buffer(b)] + more, out)) == Pack(rest, Between(more, Queued(out, b)))
  {
    var s := Between([Buffer(b)] + more, out);
    assert "%r" + rest == ['%'] + (['r'] + rest);
    PackStep('%', ['r'] + rest, s);
    PackStep('r', rest, s.(percent := true));
    assert ([Buffer(b)] + more)[1..] == more;
  }

  lemma PackData(b: Bytes, rest: string, more: seq<Arg>, out: seq<Bytes>)
    ensures Pack("%" + Decimal(|b|) + "p" + rest, Between([Data(b)] + more, out))
         == Pack(rest, Between(more, Queued(out, b)))
  {
    var s := Between([Data(b)] + more, out);
    PackSized('p', |b|, rest, s);
    PackStep('p', rest, s.(percent := true, size := |b|));
    assert ([Data(b)] + more)[1..] == more && b[..|b|] == b;
  }

  /** A size in digits. */
  lemma PackSized(c: char, n: nat, rest: string, s: PackState)
    requires !IsDigit(c) && !s.percent && s.size == 0
    ensures Pack("%" + Decimal(n) + [c] + rest, s) == Pack([c] + rest, s.(percent := true, size := n))
  {
    var fmt := Decimal(n) + ([c] + rest);
    assert "%" + Decimal(n) + [c] + rest == ['%'] + fmt;
    PackStep('%', fmt, s);
    PackDigits(c, n, rest, fmt, s.(percent := true));
  }

  lemma PackDigits(c: char, n: nat, rest: string, fmt: string, s: PackState)
    requires !IsDigit(c) && s.percent && s.size == 0 && fmt == Decimal(n) + ([c] + rest)
    ensures Pack(fmt, s) == Pack([c] + rest, s.(size := n))
  {
    DecimalRun(n, [c] + rest);
    assert !Converts(fmt[0]) && fmt[0] != '%' && fmt[0] != 'Z' && fmt[0] != '^';
  }

  lemma PackRun(form: Form, b: Bytes, rest: string, more: seq<Arg>, out: seq<Bytes>)
    ensures Pack(RunFormat(form, |b|) + rest, Between([RunArg(form, b)] + more, out))
         == Pack(rest, Between(more, Queued(out, b)))
  {
    match form
    case AsText => PackText(b, rest, more, out);
    case AsBuffer => PackBuffer(b, rest, more, out);
    case _ => PackData(b, rest, more, out);
  }

  lemma PackByte(c: byte, rest: string, more: seq<Arg>, out: seq<Bytes>)
    requires c != 0
    ensures Pack(PackFormat(Byte(c)) + rest, Between(more, out)) == Pack(rest, Between(more, out + [[c]]))
  {
    if c == Code('%') {
      assert "%%" + rest == ['%'] + (['%'] + rest);
      PackStep('%', ['%'] + rest, Between(more, out));
      PackStep('%', rest, Between(more, out).(percent := true));
    } else {
      PackStep(c as char, rest, Between(more, out));
    }
  }

  lemma PackZero(rest: string, more: seq<Arg>, out: seq<Bytes>)
    ensures Pack("%Z" + rest, Between(more, out)) == Pack(rest, Between(more, out + [[0]]))
  {
    assert "%Z" + rest == ['%'] + (['Z'] + rest);
    PackStep('%', ['Z'] + rest, Between(more, out));
    PackStep('Z', rest, Between(more, out).(percent := true));
  }

  lemma PackCounted(form: Form, k: nat, big: bool, b: Bytes, rest: string, more: seq<Arg>, out: seq<Bytes>)
    requires IsIntSize(k)
    ensures Pack("%" + SizePrefix(k, big) + ['u'] + RunFormat(form, |b|) + rest,
                 Between([Num(|b|), RunArg(form, b)] + more, out))
         == Pack(rest, Between(more, out + Queued([IntBytes(|b|, k, big)], b)))
  {
    var run, n := RunFormat(form, |b|), IntBytes(|b|, k, big);
    assert [Num(|b|), RunArg(form, b)] + more == [Num(|b|)] + ([RunArg(form, b)] + more);
    Reassociate("%" + SizePrefix(k, big) + ['u'], run, rest);
    PackNumber(k, big, 'u', |b|, run + rest, [RunArg(form, b)] + more, out);
    PackRun(form, b, rest, more, out + [n]);
    assert Queued(out + [n], b) == out + Queued([n], b);
  }

  lemma PackEnded(chars: Bytes, rest: string, more: seq<Arg>, out: seq<Bytes>)
    ensures Pack("%s" + "%Z" + rest, Between([Text(chars)] + more, out))
         == Pack(rest, Between(more, out + (Queued([], chars) + [[0]])))
  {
    Reassociate("%s", "%Z", rest);
    PackText(chars, "%Z" + rest, more, out);
    PackZero(rest, more, Queued(out, chars));
    assert Queued(out, chars) + [[0]] == out + (Queued([], chars) + [[0]]);
  }

  lemma PackField(f: Field, rest: string, more: seq<Arg>, out: seq<Bytes>)
    requires ValidField(f)
    ensures Pack(PackFormat(f) + rest, Between(PackArgs(f) + more, out)) == Pack(rest, Between(more, out + Pieces(f)))
  {
    match f
    case Byte(c) =>
      assert PackArgs(f) + more == more;
      PackByte(c, rest, more, out);
    case Zero =>
      assert PackArgs(f) + more == more;
      PackZero(rest, more, out);
    case Fixed(form, b) =>
      PackRun(form, b, rest, more, out);
    case Number(k, big, signed, v) =>
      PackNumber(k, big, NumberChar(signed), v, rest, more, out);
    case Counted(form, k, big, b) =>
      PackCounted(form, k, big, b, rest, more, out);
    case Ended(s) =>
      PackEnded(s, rest, more, out);
  }

  /** Packing a field list queues exactly the encodings of its fields. */
  lemma {:induction false} PackFields(fs: seq<Field>, out: seq<Bytes>)
    requires AllValid(fs)
    ensures Pack(PackFormats(fs), Between(AllArgs(fs), out)) == Packed(out + AllPieces(fs))
    decreases |fs|
  {
    if fs == [] {
      assert out + [] == out;
    } else {
      var rest, more, a, b := PackFormats(fs[1..]), AllArgs(fs[1..]), Pieces(fs[0]), AllPieces(fs[1..]);
      PackField(fs[0], rest, more, out);
      PackFields(fs[1..], out + a);
      Reassociate(out, a, b);
      assert PackFormats(fs) == PackFormat(fs[0]) + rest && AllArgs(fs) == PackArgs(fs[0]) + more;
      assert AllPieces(fs) == a + b;
    }
  }

  lemma {:induction false} JoinAppend(a: seq<Bytes>, b: seq<Bytes>)
    ensures Join(a + b) == Join(a) + Join(b)
    decreases |a|
  {
    if a == [] {
      assert a + b == b;
    } else {
      assert (a + b)[1..] == a[1..] + b;
      JoinAppend(a[1..], b);
    }
  }

  lemma {:induction false} PiecesJoin(fs: seq<Field>)
    ensures Join(AllPieces(fs)) == Encodings(fs)
    decreases |fs|
  {
    if fs != [] {
      PiecesJoin(fs[1..]);
      JoinAppend(Pieces(fs[0]), AllPieces(fs[1..]));
      FieldJoin(fs[0]);
    }
  }

  lemma FieldJoin(f: Field)
    ensures Join(Pieces(f)) == Encoding(f)
  {
    match f
    case Counted(form, k, big, b) =>
      QueuedJoin([IntBytes(|b|, k, big)], b);
      JoinOne(IntBytes(|b|, k, big));
    case Ended(s) =>
      QueuedJoin([], s);
      JoinAppend(Queued([], s), [[0]]);
      JoinOne([0]);
    case _ =>
      JoinOne(Encoding(f));
  }

  lemma QueuedJoin(out: seq<Bytes>, b: Bytes)
    ensures Join(Queued(out, b)) == Join(out) + b
  {
    JoinAppend(out, [b]);
    JoinOne(b);
  }

  lemma JoinOne(piece: Bytes)
    ensures Join([piece]) == piece
  {
    assert [piece][1..] == [];
  }

  // ----- unpacking a field list -----

  lemma UnpackStep(c: char, rest: string, data: Bytes, s: UnpackState)
    requires s.offs + s.size <= |data|
    ensures c == '%' && !s.percent && s.queue == [] ==>
              Unpack([c] + rest, data, s) == Unpack(rest, data, s.(percent := true))
    ensures c == '%' && !s.percent && s.queue != [] ==>
              (Unpack([c] + rest, data, s)
               == Unpack(rest, data, s.(percent := true, size := s.queue[0], queue := s.queue[1..])))
    ensures (c == '%') == s.percent && (c == '%' || !s.percent) ==>
              var x := Check(data, Code(c), s);
              Unpack([c] + rest, data, s) == if x.0.Unpacked? then Unpack(rest, data, x.1) else x.0
    ensures s.percent && Reads(c) ==>
              var x := Read(data, c, s);
              Unpack([c] + rest, data, s) == if x.0.Unpacked? then Unpack(rest, data, x.1) else x.0
    ensures s.percent && c == '^' && s.size == 0 ==> Unpack([c] + rest, data, s) == Unpack(rest, data, s.(big := true))
    ensures s.percent && IsSizeChar(c) && s.size == 0 ==>
              Unpack([c] + rest, data, s) == Unpack(rest, data, s.(size := SizeOf(c)))
  {
    assert ([c] + rest)[1..] == rest;
  }

  lemma UnpackPrefix(k: nat, big: bool, rest: string, data: Bytes, s: UnpackState)
    requires IsIntSize(k) && s.percent && s.size == 0 && !s.big && s.offs <= |data|
    ensures Unpack(SizePrefix(k, big) + rest, data, s) == Unpack(rest, data, s.(big := big, size := SizeField(k)))
  {
    var size := if k == 1 then "b" else if k == 2 then "h" else "";
    var s' := s.(big := big);
    if big {
      assert SizePrefix(k, big) + rest == ['^'] + (size + rest);
      UnpackStep('^', size + rest, data, s);
    } else {
      assert SizePrefix(k, big) + rest == size + rest;
    }
    if k == 4 {
      assert size + rest == rest;
    } else {
      UnpackStep(size[0], rest, data, s');
      assert size + rest == [size[0]] + rest;
    }
  }

  /** A number that does not fit the data is rejected if its size is spelt out, else read beyond the end. */
  ghost function ReadNumber(k: nat, big: bool, data: Bytes, offs: nat): Unpacking {
    if offs + k <= |data| then Unpacked(k, [Num(IntValue(data[offs..offs + k], big))])
    else if k == 4 then Beyond else Rejected
  }

  /** Text up to a zero byte. */
  ghost function ReadEnded(data: Bytes, offs: nat): Unpacking
    requires offs <= |data|
  {
    var j := ZeroFrom(data, offs);
    if j == |data| then Beyond else Unpacked(j + 1 - offs, [Text(data[offs..j])])
  }

  /** A run of n bytes; no bytes of text are text up to a zero byte. */
  ghost function ReadRun(form: Form, n: nat, data: Bytes, offs: nat): Unpacking
    requires offs <= |data|
  {
    if offs + n > |data| then Rejected
    else if form.AsText? && n == 0 then ReadEnded(data, offs)
    else Unpacked(n, RunValue(form, data[offs..offs + n]))
  }

  ghost function ReadByte(c: byte, data: Bytes, offs: nat): Unpacking {
    if offs >= |data| then Beyond else if data[offs] != c then Rejected else Unpacked(1, [])
  }

  /** What unpacking one field does, whatever the data. */
  ghost function ReadField(f: Field, data: Bytes, offs: nat): (x: Unpacking)
    requires offs <= |data|
    ensures x.Unpacked? ==> offs + x.offs <= |data| && |x.args| == |Values(f)|
  {
    match f
    case Byte(c) => ReadByte(c, data, offs)
    case Zero => ReadByte(0, data, offs)
    case Fixed(form, b) => ReadRun(form, |b|, data, offs)
    case Number(k, big, signed, v) => ReadNumber(k, big, data, offs)
    case Counted(form, k, big, b) => ReadCounted(form, k, big, data, offs)
    case Ended(s) => ReadEnded(data, offs)
  }

  ghost function ReadCounted(form: Form, k: nat, big: bool, data: Bytes, offs: nat): Unpacking
    requires offs <= |data|
  {
    var x := ReadNumber(k, big, data, offs);
    if !x.Unpacked? then x else
      var y := ReadRun(form, x.args[0].v, data, offs + k);
      if !y.Unpacked? then y else Unpacked(k + y.offs, y.args)
  }

  /** Go on behind a field, or stop with it. */
  ghost function Continue(x: Unpacking, rest: string, data: Bytes, offs: nat, out: seq<Arg>): Unpacking {
    if x.Unpacked? then Unpack(rest, data, UnpackStart(offs + x.offs, out + x.args)) else x
  }

  ghost function NumberState(k: nat, big: bool, offs: nat, out: seq<Arg>): UnpackState {
    UnpackStart(offs, out).(percent := true, big := big, size := SizeField(k))
  }

  lemma UnpackNumberHead(k: nat, big: bool, rest: string, data: Bytes, offs: nat, out: seq<Arg>)
    requires IsIntSize(k) && offs <= |data|
    ensures Unpack("%" + SizePrefix(k, big) + rest, data, UnpackStart(offs, out))
         == Unpack(rest, data, NumberState(k, big, offs, out))
  {
    var s := UnpackStart(offs, out);
    assert "%" + SizePrefix(k, big) + rest == ['%'] + (SizePrefix(k, big) + rest);
    UnpackStep('%', SizePrefix(k, big) + rest, data, s);
    UnpackPrefix(k, big, rest, data, s.(percent := true));
  }

  lemma NoneAfter<T>(out: seq<T>, v: T)
    ensures out + [] == out && [v] + [] == [v]
  {
  }

  /** What the conversion does to the state. */
  lemma ReadsNumber(k: nat, big: bool, c: char, data: Bytes, offs: nat, out: seq<Arg>)
    requires IsIntSize(k) && (c == 'u' || c == 'i' || c == '$') && offs + SizeField(k) <= |data|
    ensures Read(data, c, NumberState(k, big, offs, out)) ==
            var x := ReadNumber(k, big, data, offs);
            if !x.Unpacked? then (x, NumberState(k, big, offs, out))
            else (Unpacked(0, []),
                  if c != '$' then UnpackStart(offs + k, out + x.args)
                  else UnpackStart(offs + k, out).(queue := [x.args[0].v]))
  {
    if offs + k <= |data| {
      var v := IntValue(data[offs..offs + k], big);
      NoneAfter(out, Num(v));
      NoneAfter([], v);
    }
  }

  lemma UnpackNumberTail(k: nat, big: bool, c: char, rest: string, data: Bytes, offs: nat, out: seq<Arg>)
    requires IsIntSize(k) && (c == 'u' || c == 'i' || c == '$') && offs <= |data|
    ensures Unpack([c] + rest, data, NumberState(k, big, offs, out))
         == ContinueNumber(ReadNumber(k, big, data, offs), c, k, rest, data, offs, out)
  {
    var s := NumberState(k, big, offs, out);
    if s.offs + s.size <= |data| {
      ReadsNumber(k, big, c, data, offs, out);
      UnpackStep(c, rest, data, s);
    } else {
      UnpackStop(c, rest, data, s);
    }
  }

  /** The number is a value, or a length kept for the next field. */
  ghost function ContinueNumber(x: Unpacking, c: char, k: nat, rest: string, data: Bytes, offs: nat, out: seq<Arg>)
    : Unpacking
    requires x.Unpacked? ==> |x.args| == 1 && x.args[0].Num?
  {
    if !x.Unpacked? then x
    else if c != '$' then Unpack(rest, data, UnpackStart(offs + k, out + x.args))
    else Unpack(rest, data, UnpackStart(offs + k, out).(queue := [x.args[0].v]))
  }

  lemma UnpackNumber(k: nat, big: bool, c: char, rest: string, data: Bytes, offs: nat, out: seq<Arg>)
    requires IsIntSize(k) && (c == 'u' || c == 'i' || c == '$') && offs <= |data|
    ensures Unpack("%" + SizePrefix(k, big) + [c] + rest, data, UnpackStart(offs, out))
         == ContinueNumber(ReadNumber(k, big, data, offs), c, k, rest, data, offs, out)
  {
    assert "%" + SizePrefix(k, big) + [c] + rest == "%" + SizePrefix(k, big) + ([c] + rest);
    UnpackNumberHead(k, big, [c] + rest, data, offs, out);
    UnpackNumberTail(k, big, c, rest, data, offs, out);
  }

  ghost function RunState(n: nat, offs: nat, out: seq<Arg>): UnpackState {
    UnpackStart(offs, out).(percent := true, size := n)
  }

  lemma ReadsRun(form: Form, n: nat, data: Bytes, offs: nat, out: seq<Arg>)
    requires offs + n <= |data|
    ensures Read(data, FormChar(form), RunState(n, offs, out)) ==
            var x := ReadRun(form, n, data, offs);
            if !x.Unpacked? then (x, RunState(n, offs, out))
            else (Unpacked(0, []), UnpackStart(offs + x.offs, out + x.args))
  {
  }

  lemma UnpackRun(form: Form, n: nat, rest: string, data: Bytes, offs: nat, out: seq<Arg>)
    requires offs <= |data|
    ensures Unpack([FormChar(form)] + rest, data, RunState(n, offs, out))
         == Continue(ReadRun(form, n, data, offs), rest, data, offs, out)
  {
    if offs + n <= |data| {
      ReadsRun(form, n, data, offs, out);
      UnpackStep(FormChar(form), rest, data, RunState(n, offs, out));
    } else {
      UnpackStop(FormChar(form), rest, data, RunState(n, offs, out));
    }
  }

  lemma UnpackQueued(form: Form, n: nat, rest: string, data: Bytes, offs: nat, out: seq<Arg>)
    requires offs <= |data|
    ensures Unpack("%" + [FormChar(form)] + rest, data, UnpackStart(offs, out).(queue := [n]))
         == Continue(ReadRun(form, n, data, offs), rest, data, offs, out)
  {
    var s, c := UnpackStart(offs, out).(queue := [n]), FormChar(form);
    assert "%" + [c] + rest == ['%'] + ([c] + rest) && [n][1..] == [];
    UnpackStep('%', [c] + rest, data, s);
    UnpackRun(form, n, rest, data, offs, out);
  }

  lemma UnpackEnded(rest: string, data: Bytes, offs: nat, out: seq<Arg>)
    requires offs <= |data|
    ensures Unpack("%s" + rest, data, UnpackStart(offs, out)) == Continue(ReadEnded(data, offs), rest, data, offs, out)
  {
    assert "%s" + rest == ['%'] + (['s'] + rest);
    UnpackStep('%', ['s'] + rest, data, UnpackStart(offs, out));
    UnpackRun(AsText, 0, rest, data, offs, out);
  }

  lemma UnpackStop(c: char, rest: string, data: Bytes, s: UnpackState)
    requires s.offs + s.size > |data|
    ensures Unpack([c] + rest, data, s) == Rejected
  {
  }

  lemma UnpackDigits(n: nat, c: char, rest: string, data: Bytes, s: UnpackState)
    requires s.percent && s.size == 0 && s.offs <= |data|
    requires !IsDigit(c) && c != '$' && !IsSizeChar(c)
    ensures Unpack(Decimal(n) + ([c] + rest), data, s) == Unpack([c] + rest, data, s.(size := n))
  {
    DecimalRun(n, [c] + rest);
    assert ([c] + rest)[0] == c;
    var fmt := Decimal(n) + ([c] + rest);
    assert !Reads(fmt[0]) && fmt[0] != '%' && fmt[0] != '^';
    assert Act(fmt, data, s) == Next(DigitsEnd(fmt), s.(size := n));
  }

  lemma UnpackFixed(form: Form, n: nat, rest: string, data: Bytes, offs: nat, out: seq<Arg>)
    requires offs <= |data|
    ensures Unpack("%" + Decimal(n) + [FormChar(form)] + rest, data, UnpackStart(offs, out))
         == Continue(ReadRun(form, n, data, offs), rest, data, offs, out)
  {
    var s, c := UnpackStart(offs, out), FormChar(form);
    var fmt := Decimal(n) + ([c] + rest);
    assert "%" + Decimal(n) + [c] + rest == ['%'] + fmt;
    UnpackStep('%', fmt, data, s);
    UnpackDigits(n, c, rest, data, s.(percent := true));
    UnpackRun(form, n, rest, data, offs, out);
  }

  lemma UnpackByte(c: byte, rest: string, data: Bytes, offs: nat, out: seq<Arg>)
    requires c != 0 && offs <= |data|
    ensures Unpack(PackFormat(Byte(c)) + rest, data, UnpackStart(offs, out))
         == Continue(ReadByte(c, data, offs), rest, data, offs, out)
  {
    var s := UnpackStart(offs, out);
    if c == Code('%') {
      assert "%%" + rest == ['%'] + (['%'] + rest);
      UnpackStep('%', ['%'] + rest, data, s);
      UnpackChar('%', rest, data, offs, out, s.(percent := true));
    } else {
      UnpackChar(c as char, rest, data, offs, out, s);
    }
  }

  lemma UnpackChar(c: char, rest: string, data: Bytes, offs: nat, out: seq<Arg>, s: UnpackState)
    requires offs <= |data| && s == UnpackStart(offs, out).(percent := c == '%')
    ensures Unpack([c] + rest, data, s) == Continue(ReadByte(Code(c), data, offs), rest, data, offs, out)
  {
    UnpackStep(c, rest, data, s);
    assert out + [] == out;
  }

  lemma UnpackZero(rest: string, data: Bytes, offs: nat, out: seq<Arg>)
    requires offs <= |data|
    ensures Unpack("%Z" + rest, data, UnpackStart(offs, out))
         == Continue(ReadByte(0, data, offs), rest, data, offs, out)
  {
    var s := UnpackStart(offs, out);
    assert "%Z" + rest == ['%'] + (['Z'] + rest);
    UnpackStep('%', ['Z'] + rest, data, s);
    UnpackStep('Z', rest, data, s.(percent := true));
    assert out + [] == out;
  }

  lemma UnpackCounted(form: Form, k: nat, big: bool, rest: string, data: Bytes, offs: nat, out: seq<Arg>)
    requires IsIntSize(k) && offs <= |data|
    ensures Unpack("%" + SizePrefix(k, big) + ['$'] + ("%" + [FormChar(form)] + rest), data, UnpackStart(offs, out))
         == Continue(ReadCounted(form, k, big, data, offs), rest, data, offs, out)
  {
    UnpackNumber(k, big, '$', "%" + [FormChar(form)] + rest, data, offs, out);
    var x := ReadNumber(k, big, data, offs);
    if x.Unpacked? {
      UnpackQueued(form, x.args[0].v, rest, data, offs + k, out);
      ContinueCounted(form, k, big, rest, data, offs, out);
    }
  }

  lemma ContinueCounted(form: Form, k: nat, big: bool, rest: string, data: Bytes, offs: nat, out: seq<Arg>)
    requires offs <= |data| && ReadNumber(k, big, data, offs).Unpacked?
    ensures Continue(ReadCounted(form, k, big, data, offs), rest, data, offs, out)
         == Continue(ReadRun(form, ReadNumber(k, big, data, offs).args[0].v, data, offs + k), rest, data, offs + k, out)
  {
  }

  lemma UnpackCountedField(f: Field, rest: string, data: Bytes, offs: nat, out: seq<Arg>)
    requires ValidField(f) && offs <= |data| && f.Counted?
    ensures Unpack(UnpackFormat(f) + rest, data, UnpackStart(offs, out))
         == Continue(ReadField(f, data, offs), rest, data, offs, out)
  {
    Reassociate("%" + SizePrefix(f.k, f.big) + ['$'], "%" + [FormChar(f.form)], rest);
    UnpackCounted(f.form, f.k, f.big, rest, data, offs, out);
  }

  lemma UnpackNumberField(f: Field, rest: string, data: Bytes, offs: nat, out: seq<Arg>)
    requires ValidField(f) && offs <= |data| && f.Number?
    ensures Unpack(UnpackFormat(f) + rest, data, UnpackStart(offs, out))
         == Continue(ReadField(f, data, offs), rest, data, offs, out)
  {
    UnpackNumber(f.k, f.big, NumberChar(f.signed), rest, data, offs, out);
  }

  lemma UnpackSimpleField(f: Field, rest: string, data: Bytes, offs: nat, out: seq<Arg>)
    requires ValidField(f) && offs <= |data| && !f.Number? && !f.Counted?
    ensures Unpack(UnpackFormat(f) + rest, data, UnpackStart(offs, out))
         == Continue(ReadField(f, data, offs), rest, data, offs, out)
  {
    match f
    case Byte(c) =>
      UnpackByte(c, rest, data, offs, out);
    case Zero =>
      UnpackZero(rest, data, offs, out);
    case Fixed(form, b) =>
      UnpackFixed(form, |b|, rest, data, offs, out);
    case Ended(s) =>
      UnpackEnded(rest, data, offs, out);
  }

  lemma UnpackField(f: Field, rest: string, data: Bytes, offs: nat, out: seq<Arg>)
    requires ValidField(f) && offs <= |data|
    ensures Unpack(UnpackFormat(f) + rest, data, UnpackStart(offs, out))
         == Continue(ReadField(f, data, offs), rest, data, offs, out)
  {
    if f.Counted? {
      UnpackCountedField(f, rest, data, offs, out);
    } else if f.Number? {
      UnpackNumberField(f, rest, data, offs, out);
    } else {
      UnpackSimpleField(f, rest, data, offs, out);
    }
  }

  // ----- the round trip -----

  lemma Middle(pre: Bytes, e: Bytes, tail: Bytes)
    ensures (pre + e + tail)[|pre|..|pre| + |e|] == e
  {
  }

  lemma ReadNumberBack(k: nat, big: bool, v: nat, pre: Bytes, tail: Bytes)
    requires v < Power(k)
    ensures ReadNumber(k, big, pre + IntBytes(v, k, big) + tail, |pre|) == Unpacked(k, [Num(v)])
  {
    Middle(pre, IntBytes(v, k, big), tail);
    IntBack(v, k, big);
  }

  lemma ReadRunBack(form: Form, b: Bytes, pre: Bytes, tail: Bytes)
    requires form.AsText? ==> b != []
    ensures ReadRun(form, |b|, pre + b + tail, |pre|) == Unpacked(|b|, RunValue(form, b))
  {
    Middle(pre, b, tail);
  }

  lemma ReadCountedBack(form: Form, k: nat, big: bool, b: Bytes, pre: Bytes, tail: Bytes)
    requires |b| < Power(k) && (form.AsText? ==> b != [])
    ensures ReadCounted(form, k, big, pre + (IntBytes(|b|, k, big) + b) + tail, |pre|)
         == Unpacked(k + |b|, RunValue(form, b))
  {
    var n := IntBytes(|b|, k, big);
    Regroup(pre, n, b, tail);
    ReadNumberBack(k, big, |b|, pre, b + tail);
    ReadRunBack(form, b, pre + n, tail);
  }

  lemma {:induction false} ZeroFound(data: Bytes, i: nat, j: nat)
    requires i <= j < |data| && data[j] == 0 && forall k :: i <= k < j ==> data[k] != 0
    ensures ZeroFrom(data, i) == j
    decreases j - i
  {
    if i < j {
      ZeroFound(data, i + 1, j);
    }
  }

  lemma ReadEndedBack(chars: Bytes, pre: Bytes, tail: Bytes)
    requires 0 !in chars
    ensures ReadEnded(pre + (chars + [0]) + tail, |pre|) == Unpacked(|chars| + 1, [Text(chars)])
  {
    var data := pre + (chars + [0]) + tail;
    assert forall k :: 0 <= k < |chars| ==> data[|pre| + k] == chars[k];
    ZeroFound(data, |pre|, |pre| + |chars|);
    assert data[|pre|..|pre| + |chars|] == chars;
  }

  lemma ReadBack(f: Field, pre: Bytes, tail: Bytes)
    requires ValidField(f) && NonEmptyText(f)
    ensures ReadField(f, pre + Encoding(f) + tail, |pre|) == Unpacked(|Encoding(f)|, Values(f))
  {
    match f
    case Byte(c) =>
    case Zero =>
    case Fixed(form, b) =>
      ReadRunBack(form, b, pre, tail);
    case Number(k, big, signed, v) =>
      ReadNumberBack(k, big, v, pre, tail);
    case Counted(form, k, big, b) =>
      ReadCountedBack(form, k, big, b, pre, tail);
    case Ended(s) =>
      ReadEndedBack(s, pre, tail);
  }

  /** Unpacking a field list field by field: the end offset and the values. */
  ghost function ReadAll(fs: seq<Field>, data: Bytes, offs: nat): Unpacking
    requires offs <= |data|
    decreases |fs|
  {
    if fs == [] then Unpacked(offs, []) else
      var x := ReadField(fs[0], data, offs);
      if !x.Unpacked? then x else
        var y := ReadAll(fs[1..], data, offs + x.offs);
        if !y.Unpacked? then y else Unpacked(y.offs, x.args + y.args)
  }

  lemma ReadAllFirst(fs: seq<Field>, data: Bytes, offs: nat, x: Unpacking, next: nat, y: Unpacking)
    requires fs != [] && offs <= |data| && x == ReadField(fs[0], data, offs) && x.Unpacked?
    requires next == offs + x.offs <= |data| && y == ReadAll(fs[1..], data, next)
    ensures ReadAll(fs, data, offs) == if y.Unpacked? then Unpacked(y.offs, x.args + y.args) else y
    ensures AllValues(fs) == Values(fs[0]) + AllValues(fs[1..])
    ensures |Encodings(fs)| == |Encoding(fs[0])| + |Encodings(fs[1..])|
    ensures Costs(fs) == Cost(fs[0]) + Costs(fs[1..])
  {
  }

  ghost function Prefixed(out: seq<Arg>, x: Unpacking): Unpacking {
    if x.Unpacked? then Unpacked(x.offs, out + x.args) else x
  }

  lemma UnpackFields(fs: seq<Field>, data: Bytes, offs: nat, out: seq<Arg>)
    requires AllValid(fs) && offs <= |data|
    ensures Unpack(UnpackFormats(fs), data, UnpackStart(offs, out)) == Prefixed(out, ReadAll(fs, data, offs))
  {
    UnpackRest(fs, data, offs, out, Unpack(UnpackFormats(fs), data, UnpackStart(offs, out)), ReadAll(fs, data, offs));
  }

  lemma {:induction false} UnpackRest(fs: seq<Field>, data: Bytes, offs: nat, out: seq<Arg>, got: Unpacking,
                                      all: Unpacking)
    requires AllValid(fs) && offs <= |data|
    requires got == Unpack(UnpackFormats(fs), data, UnpackStart(offs, out)) && all == ReadAll(fs, data, offs)
    ensures got == Prefixed(out, all)
    decreases |fs|
  {
    if fs == [] {
      assert out + [] == out;
    } else {
      var x := ReadField(fs[0], data, offs);
      UnpackField(fs[0], UnpackFormats(fs[1..]), data, offs, out);
      ValidRest(fs);
      if x.Unpacked? {
        var next, more := offs + x.offs, out + x.args;
        var y := ReadAll(fs[1..], data, next);
        ContinueIs(x, UnpackFormats(fs[1..]), data, offs, out, next, more);
        UnpackRest(fs[1..], data, next, more, got, y);
        ReadAllFirst(fs, data, offs, x, next, y);
        PrefixedMore(out, x.args, y);
      }
    }
  }

  lemma ValidRest(fs: seq<Field>)
    requires AllValid(fs) && fs != []
    ensures AllValid(fs[1..])
  {
  }

  lemma ContinueIs(x: Unpacking, rest: string, data: Bytes, offs: nat, out: seq<Arg>, next: nat, more: seq<Arg>)
    requires x.Unpacked? && next == offs + x.offs && more == out + x.args
    ensures Continue(x, rest, data, offs, out) == Unpack(rest, data, UnpackStart(next, more))
  {
  }

  lemma PrefixedMore(out: seq<Arg>, args: seq<Arg>, y: Unpacking)
    ensures Prefixed(out + args, y) == Prefixed(out, if y.Unpacked? then Unpacked(y.offs, args + y.args) else y)
  {
    if y.Unpacked? {
      Reassociate(out, args, y.args);
    }
  }

  lemma Regroup(pre: Bytes, e: Bytes, later: Bytes, tail: Bytes)
    ensures pre + (e + later) + tail == pre + e + (later + tail)
    ensures pre + (e + later) + tail == (pre + e) + later + tail
  {
  }

  lemma EncodingsFirst(fs: seq<Field>, data: Bytes, pre: Bytes, enc: Bytes, tail: Bytes)
    requires fs != [] && enc == Encodings(fs) && data == pre + enc + tail
    ensures |enc| == |Encoding(fs[0])| + |Encodings(fs[1..])|
    ensures data == pre + Encoding(fs[0]) + Encodings(fs[1..]) + tail
    ensures data == pre + Encoding(fs[0]) + (Encodings(fs[1..]) + tail)
  {
    Regroup(pre, Encoding(fs[0]), Encodings(fs[1..]), tail);
  }

  lemma {:induction false} ReadAllBack(fs: seq<Field>, data: Bytes, pre: Bytes, enc: Bytes, tail: Bytes, offs: nat,
                                          all: Unpacking)
    requires AllValid(fs) && NoneEmpty(fs) && offs <= |data| && all == ReadAll(fs, data, offs)
    requires enc == Encodings(fs) && data == pre + enc + tail && offs == |pre|
    ensures all == Unpacked(offs + |enc|, AllValues(fs))
    decreases |fs|
  {
    if fs != [] {
      var f, e, later := fs[0], Encoding(fs[0]), Encodings(fs[1..]);
      EncodingsFirst(fs, data, pre, enc, tail);
      ReadBack(f, pre, later + tail);
      var x := ReadField(f, data, offs);
      assert x == Unpacked(|e|, Values(f));
      var next := offs + x.offs;
      var y := ReadAll(fs[1..], data, next);
      ReadAllBack(fs[1..], data, pre + e, later, tail, next, y);
      ReadAllFirst(fs, data, offs, x, next, y);
    }
  }

  /** What a field costs to read back: an empty text takes the zero byte that ends it. */
  ghost function Cost(f: Field): nat {
    |Encoding(f)| + if NonEmptyText(f) then 0 else 1
  }

  /** A field that gives its value back uses up its cost. */
  lemma ReadLength(f: Field, data: Bytes, offs: nat)
    requires ValidField(f) && offs <= |data|
    ensures var x := ReadField(f, data, offs); x.Unpacked? && x.args == Values(f) ==> x.offs >= Cost(f)
  {
    match f
    case Counted(form, k, big, b) =>
      ReadCountedLength(form, k, big, b, data, offs);
    case _ =>
  }

  lemma ReadCountedLength(form: Form, k: nat, big: bool, b: Bytes, data: Bytes, offs: nat)
    requires offs <= |data| && !form.Skipped?
    ensures var x := ReadCounted(form, k, big, data, offs);
            x.Unpacked? && x.args == RunValue(form, b) ==> x.offs >= k + |b| + if form.AsText? && b == [] then 1 else 0
  {
    var n := ReadNumber(k, big, data, offs);
    if n.Unpacked? {
      ReadRunLength(form, n.args[0].v, b, data, offs + k);
    }
  }

  lemma ReadRunLength(form: Form, n: nat, b: Bytes, data: Bytes, offs: nat)
    requires offs <= |data| && !form.Skipped?
    ensures var y := ReadRun(form, n, data, offs);
            y.Unpacked? && y.args == RunValue(form, b) ==> y.offs >= |b| + if form.AsText? && b == [] then 1 else 0
  {
  }

  ghost function Costs(fs: seq<Field>): nat {
    if fs == [] then 0 else Cost(fs[0]) + Costs(fs[1..])
  }

  /** Whatever the data: values that come back as they were packed use up their costs. */
  lemma {:induction false} ReadCost(fs: seq<Field>, data: Bytes, offs: nat, all: Unpacking)
    requires AllValid(fs) && offs <= |data| && all == ReadAll(fs, data, offs)
    ensures all.Unpacked? && all.args == AllValues(fs) ==> all.offs >= offs + Costs(fs)
    decreases |fs|
  {
    if fs != [] {
      var x := ReadField(fs[0], data, offs);
      if x.Unpacked? {
        var y := ReadAll(fs[1..], data, offs + x.offs);
        ReadLength(fs[0], data, offs);
        ReadCost(fs[1..], data, offs + x.offs, y);
        ReadAllFirst(fs, data, offs, x, offs + x.offs, y);
        CostStep(x, y, Values(fs[0]), AllValues(fs[1..]), offs, Cost(fs[0]), Costs(fs[1..]));
      }
    }
  }

  lemma CostStep(x: Unpacking, y: Unpacking, a: seq<Arg>, b: seq<Arg>, offs: nat, m: nat, n: nat)
    requires x.Unpacked? && |x.args| == |a| && (x.args == a ==> x.offs >= m)
    requires y.Unpacked? && y.args == b ==> y.offs >= offs + x.offs + n
    ensures y.Unpacked? && x.args + y.args == a + b ==> y.offs >= offs + (m + n)
  {
    if y.Unpacked? && x.args + y.args == a + b {
      SameParts(x.args, a, y.args, b);
    }
  }

  lemma SameParts<T>(a: seq<T>, b: seq<T>, c: seq<T>, d: seq<T>)
    requires |a| == |b| && a + c == b + d
    ensures a == b && c == d
  {
    assert a == (a + c)[..|a|] && b == (b + d)[..|b|];
    assert c == (a + c)[|a|..] && d == (b + d)[|b|..];
  }

  lemma {:induction false} CostsExceed(fs: seq<Field>)
    ensures Costs(fs) >= |Encodings(fs)| && (Costs(fs) == |Encodings(fs)| <==> NoneEmpty(fs))
    decreases |fs|
  {
    if fs != [] {
      CostsExceed(fs[1..]);
    }
  }

  /** Packing a field list gives the encodings of its fields, one behind the other. */
  lemma PackAll(fs: seq<Field>)
    requires AllValid(fs)
    ensures Pack(PackFormats(fs), PackStart(AllArgs(fs))) == Packed(AllPieces(fs))
    ensures Join(AllPieces(fs)) == Encodings(fs)
  {
    PackFields(fs, []);
    assert [] + AllPieces(fs) == AllPieces(fs);
    PiecesJoin(fs);
  }

  /**
   Unpacking what was packed gives the values back and uses exactly the packed bytes,
   for exactly the field lists without an empty counted text: its zero length makes
   the reader look for a zero byte instead.
   */
  lemma RoundTrip(fs: seq<Field>, tail: Bytes)
    requires AllValid(fs)
    ensures NoneEmpty(fs) <==>
            Unpack(UnpackFormats(fs), Encodings(fs) + tail, UnpackStart(0, []))
            == Unpacked(|Encodings(fs)|, AllValues(fs))
  {
    var data := Encodings(fs) + tail;
    UnpackFields(fs, data, 0, []);
    ReadAllOnce(fs, tail, data, ReadAll(fs, data, 0));
    assert Prefixed([], ReadAll(fs, data, 0)) == ReadAll(fs, data, 0);
  }

  lemma NonePrepended(a: Bytes, b: Bytes)
    ensures [] + a + b == a + b
  {
  }

  lemma ReadAllOnce(fs: seq<Field>, tail: Bytes, data: Bytes, all: Unpacking)
    requires AllValid(fs) && data == Encodings(fs) + tail && all == ReadAll(fs, data, 0)
    ensures NoneEmpty(fs) <==> all == Unpacked(|Encodings(fs)|, AllValues(fs))
  {
    CostsExceed(fs);
    NonePrepended(Encodings(fs), tail);
    if NoneEmpty(fs) {
      ReadAllBack(fs, data, [], Encodings(fs), tail, 0, all);
    }
    ReadCost(fs, data, 0, all);
  }

  /** The shortest case: an empty text read back behind its length runs on behind the data. */
  lemma EmptyTextLost()
    ensures var f := Counted(AsText, 1, false, []);
            && Pack(PackFormats([f]), PackStart(AllArgs([f]))) == Packed([[0]])
            && Unpack(UnpackFormats([f]), [0], UnpackStart(0, [])) == Beyond
  {
    var f := Counted(AsText, 1, false, []);
    var data: Bytes := [0];
    PackAll([f]);
    assert LittleEndian(0, 1) == [0] + LittleEndian(0, 0) == [0];
    assert [f][1..] == [];
    assert AllPieces([f]) == Pieces(f) + [] == [[0]];
    UnpackFields([f], data, 0, []);
    assert data[0..1] == [0] && LittleValue([0]) == 0 + 0x100 * LittleValue(data[1..]) == 0;
    assert ReadField(f, data, 0) == Beyond;
  }

  // ----- the program -----

  lemma NextDigit(fmt: string, i: nat, acc: nat)
    requires i < |fmt| && IsDigit(fmt[i])
    ensures DigitsValue(fmt[i..], acc) == DigitsValue(fmt[i + 1..], acc * 10 + Digit(fmt[i]))
    ensures DigitsEnd(fmt[i..]) == 1 + DigitsEnd(fmt[i + 1..])
  {
    assert fmt[i..][1..] == fmt[i + 1..];
  }

  /** The loop of both interpreters over a run of digits. */
  method ReadDigits(fmt: string, i0: nat) returns (size: nat, i: nat)
    requires i0 < |fmt| && IsDigit(fmt[i0])
    ensures size == DigitsValue(fmt[i0..], 0) && i0 < i <= |fmt| && fmt[i..] == fmt[i0..][DigitsEnd(fmt[i0..])..]
  {
    size, i := 0, i0;
    ghost var all := fmt[i0..];
    while i < |fmt| && IsDigit(fmt[i])
      invariant i0 <= i <= |fmt| && DigitsValue(all, 0) == DigitsValue(fmt[i..], size)
      invariant DigitsEnd(all) == (i - i0) + DigitsEnd(fmt[i..])
    {
      NextDigit(fmt, i, size);
      size := size * 10 + Digit(fmt[i]);
      i := i + 1;
    }
    assert all[i - i0..] == fmt[i..];
  }

  /** _build_pack_queue: the pieces in order and their total size. */
  method BuildPackQueue(fmt: string, args: seq<Arg>) returns (r: Packing, totsize: nat)
    ensures r == Pack(fmt, PackStart(args))
    ensures r.Packed? ==> totsize == |Join(r.pieces)|
  {
    var s := PackStart(args);
    totsize := 0;
    var i := 0;
    assert fmt[0..] == fmt;
    while i < |fmt|
      invariant i <= |fmt| && Pack(fmt, PackStart(args)) == Pack(fmt[i..], s)
      invariant totsize == |Join(s.out)|
      decreases |fmt| - i
    {
      var c, queued := fmt[i], |s.out|;
      ghost var was := s;
      assert fmt[i..][1..] == fmt[i + 1..];
      if c == '%' {
        s := if s.percent then s.Add([Code(c)]) else s.(percent := true);
        i := i + 1;
      } else if !s.percent {
        s := s.Add([Code(c)]);
        i := i + 1;
      } else if Converts(c) {
        var x := Convert(c, s);
        if !x.0.Packed? {
          return x.0, totsize;
        }
        s := x.1;
        i := i + 1;
      } else if c == 'Z' {
        s := s.Add([0]);
        i := i + 1;
      } else if s.size != 0 {
        return Refused, totsize;
      } else if c == '^' {
        s := s.(big := true);
        i := i + 1;
      } else if IsDigit(c) {
        var size;
        size, i := ReadDigits(fmt, i);
        s := s.(size := size);
      } else if IsSizeChar(c) {
        s := s.(size := SizeOf(c));
        i := i + 1;
      } else {
        s := s.Add([Code(c)]);
        i := i + 1;
      }
      if |s.out| > queued {
        totsize := totsize + |s.out[queued]|;
        JoinAppend(was.out, [s.out[queued]]);
        JoinOne(s.out[queued]);
      }
    }
    r := Packed(s.out);
  }

  /** _dequeue_pack: the pieces copied one behind the other. */
  method DequeuePack(pieces: seq<Bytes>, data: array<byte>)
    requires data.Length == |Join(pieces)|
    modifies data
    ensures data[..] == Join(pieces)
  {
    var at := 0;
    assert pieces[0..] == pieces;
    for i := 0 to |pieces|
      invariant at <= data.Length && data[..at] + Join(pieces[i..]) == Join(pieces)
    {
      var piece := pieces[i];
      ghost var done := data[..at];
      assert pieces[i..][1..] == pieces[i + 1..];
      assert |done| + |piece| <= |Join(pieces)|;
      forall j | 0 <= j < |piece| {
        data[at + j] := piece[j];
      }
      at := at + |piece|;
      assert data[..at] == done + piece;
    }
  }

  /** buf_new_pack: no buffer for an error and none for nothing. */
  method NewPack(fmt: string, args: seq<Arg>) returns (ret: array?<byte>)
    ensures var p := Pack(fmt, PackStart(args));
            ret != null <==> p.Packed? && Join(p.pieces) != []
    ensures ret != null ==> fresh(ret) && ret[..] == Join(Pack(fmt, PackStart(args)).pieces)
  {
    var r, size := BuildPackQueue(fmt, args);
    ret := null;
    if r.Packed? && size > 0 {
      var data := new byte[size](i => 0);
      DequeuePack(r.pieces, data);
      ret := data;
    }
  }

  /** _unpack_data. */
  method UnpackData(data: Bytes, fmt: string) returns (r: Unpacking)
    ensures r == Unpack(fmt, data, UnpackStart(0, []))
  {
    var s := UnpackStart(0, []);
    ghost var meant := Unpack(fmt, data, s);
    var i := 0;
    assert fmt[0..] == fmt;
    while i < |fmt|
      invariant i <= |fmt| && meant == Unpack(fmt[i..], data, s)
      decreases |fmt| - i
    {
      if s.offs + s.size > |data| {
        return Rejected;
      }
      var c := fmt[i];
      assert fmt[i..][1..] == fmt[i + 1..];
      if c == '%' && !s.percent {
        s := s.(percent := true);
        if s.queue != [] {
          s := s.(size := s.queue[0], queue := s.queue[1..]);
        }
        i := i + 1;
      } else if s.percent && Reads(c) {
        var x := Read(data, c, s);
        if !x.0.Unpacked? {
          return x.0;
        }
        s := x.1;
        i := i + 1;
      } else if s.percent && c != '%' && s.size != 0 {
        return Rejected;
      } else if s.percent && c == '^' {
        s := s.(big := true);
        i := i + 1;
      } else if s.percent && IsDigit(c) {
        var size;
        size, i := ReadDigits(fmt, i);
        if i == |fmt| {
          return Rejected;
        }
        if DollarFollows(fmt[i..]) {
          s := s.(position := size);
        } else {
          s := s.(size := size);
        }
      } else if s.percent && IsSizeChar(c) {
        s := s.(size := SizeOf(c));
        i := i + 1;
      } else {
        var x := Check(data, Code(c), s);
        if !x.0.Unpacked? {
          return x.0;
        }
        s := x.1;
        i := i + 1;
      }
    }
    r := Unpacked(s.offs, s.out);
  }
}
