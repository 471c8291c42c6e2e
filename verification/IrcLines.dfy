/**
 Line reassembly of irc_read in irc/irc.c.  A line ends at a line feed or a zero
 byte; one carriage return before its end is dropped (section 2.3 of RFC 1459).
 */
module IrcLines {
  import opened Words
  import opened Sequences

  const SIZE := 65536
  const CR := 13
  const LF := 10
  const NUL := 0

  // ----- the stream, cut into lines -----

  predicate Ends(b: byte) {
    b == LF || b == NUL
  }

  /** No line end before place i. */
  ghost predicate OpenTo(s: Bytes, i: nat) {
    i <= |s| && forall k :: 0 <= k < i ==> !Ends(s[k])
  }

  /** The place of the first line end, or the length of s. */
  ghost function FirstEnd(s: Bytes): (i: nat)
    ensures OpenTo(s, i) && (i < |s| ==> Ends(s[i]))
  {
    if s == [] || Ends(s[0]) then 0 else FirstEnd(s[1..]) + 1
  }

  lemma FirstEndAt(s: Bytes, i: nat)
    requires OpenTo(s, i) && (i < |s| ==> Ends(s[i]))
    ensures FirstEnd(s) == i
  {
  }

  datatype Cut = Cut(lines: seq<Bytes>, rest: Bytes)

  /** The ended lines of s in order, without their ends, and the line still open. */
  ghost function Lines(s: Bytes): Cut
    decreases |s|
  {
    var i := FirstEnd(s);
    if i == |s| then Cut([], s) else
      var c := Lines(s[i + 1..]);
      Cut([s[..i]] + c.lines, c.rest)
  }

  lemma LinesAt(s: Bytes, i: nat)
    requires i < |s| && OpenTo(s, i) && Ends(s[i])
    ensures Lines(s) == var c := Lines(s[i + 1..]); Cut([s[..i]] + c.lines, c.rest)
  {
    FirstEndAt(s, i);
  }

  /** The line as it is processed. */
  ghost function Chop(line: Bytes): Bytes {
    if line != [] && line[|line| - 1] == CR then line[..|line| - 1] else line
  }

  ghost function ChopAll(lines: seq<Bytes>): seq<Bytes> {
    seq(|lines|, i requires 0 <= i < |lines| => Chop(lines[i]))
  }

  /** No line reaches the size of the buffer. */
  ghost predicate Fits(s: Bytes) {
    (forall l :: l in Lines(s).lines ==> |l| < SIZE) && |Lines(s).rest| < SIZE
  }

  /** Processed lines hold no line end, and the kept rest holds none either. */
  lemma {:induction false} LinesOpen(s: Bytes)
    ensures forall l :: l in Lines(s).lines ==> OpenTo(l, |l|)
    ensures OpenTo(Lines(s).rest, |Lines(s).rest|)
    decreases |s|
  {
    var i := FirstEnd(s);
    if i < |s| {
      LinesOpen(s[i + 1..]);
    }
  }

  ghost function Rebuilt(lines: seq<Bytes>, rest: Bytes): Bytes {
    if lines == [] then rest else lines[0] + [LF] + Rebuilt(lines[1..], rest)
  }

  /** The stream with a line feed for every zero byte: both end a line. */
  ghost function Fed(s: Bytes): Bytes {
    seq(|s|, i requires 0 <= i < |s| => if Ends(s[i]) then LF else s[i])
  }

  lemma FedParts(s: Bytes, i: nat)
    requires i < |s| && OpenTo(s, i) && Ends(s[i])
    ensures Fed(s) == s[..i] + [LF] + Fed(s[i + 1..])
  {
  }

  /** Nothing is lost: the lines, each with its line feed, and the rest are the stream. */
  lemma {:induction false} LinesRebuild(s: Bytes)
    ensures Rebuilt(Lines(s).lines, Lines(s).rest) == Fed(s)
    decreases |s|
  {
    var i := FirstEnd(s);
    if i < |s| {
      LinesRebuild(s[i + 1..]);
      FedParts(s, i);
      assert Lines(s).lines[1..] == Lines(s[i + 1..]).lines;
    } else {
      assert Fed(s) == s;
    }
  }

  /** Cutting may stop anywhere and go on with the rest, even between CR and LF. */
  lemma {:induction false} LinesAppend(a: Bytes, b: Bytes)
    ensures Lines(a + b) == var c := Lines(Lines(a).rest + b); Cut(Lines(a).lines + c.lines, c.rest)
    decreases |a|
  {
    var i := FirstEnd(a);
    if i < |a| {
      var s, t := a + b, a[i + 1..];
      assert s[..i] == a[..i] && s[i] == a[i] && s[i + 1..] == t + b;
      LinesAt(a, i);
      LinesAt(s, i);
      LinesAppend(t, b);
      Reassociate([a[..i]], Lines(t).lines, Lines(Lines(t).rest + b).lines);
    } else {
      NoneBefore(a, b);
    }
  }

  lemma NoneBefore(r: Bytes, b: Bytes)
    requires OpenTo(r, |r|)
    ensures FirstEnd(r + b) >= |r|
  {
    var s := r + b;
    assert forall k :: 0 <= k < |r| ==> s[k] == r[k];
  }

  // ----- a run of reads -----

  /** One read: a rest that fills the buffer is lost, as its length wraps to 0. */
  ghost function AfterRead(kept: Bytes, piece: Bytes): Cut {
    var c := Lines(kept + piece);
    c.(rest := if |c.rest| >= SIZE then [] else c.rest)
  }

  ghost predicate Readable(kept: Bytes, pieces: seq<Bytes>)
    decreases |pieces|
  {
    pieces != [] ==>
      && |kept| < SIZE && 1 <= |pieces[0]| <= SIZE - |kept|
      && Readable(AfterRead(kept, pieces[0]).rest, pieces[1..])
  }

  ghost function Run(kept: Bytes, pieces: seq<Bytes>): Cut
    decreases |pieces|
  {
    if pieces == [] then Cut([], kept) else
      var c := AfterRead(kept, pieces[0]);
      var next := Run(c.rest, pieces[1..]);
      Cut(c.lines + next.lines, next.rest)
  }

  lemma RunNext(kept: Bytes, pieces: seq<Bytes>, c: Cut)
    requires pieces != [] && c == AfterRead(kept, pieces[0])
    ensures var next := Run(c.rest, pieces[1..]); Run(kept, pieces) == Cut(c.lines + next.lines, next.rest)
    ensures Readable(kept, pieces) ==> Readable(c.rest, pieces[1..])
  {
  }

  /** A read, and the run from there. */
  lemma RunOn(kept: Bytes, pieces: seq<Bytes>, i: nat)
    requires i < |pieces| && Readable(kept, pieces[i..])
    ensures |kept| < SIZE && 1 <= |pieces[i]| <= SIZE - |kept|
    ensures var c := AfterRead(kept, pieces[i]);
            && Readable(c.rest, pieces[i + 1..])
            && Run(kept, pieces[i..]) == var next := Run(c.rest, pieces[i + 1..]); Cut(c.lines + next.lines, next.rest)
  {
    assert pieces[i..][1..] == pieces[i + 1..];
    RunNext(kept, pieces[i..], AfterRead(kept, pieces[i]));
  }

  // ----- what any reading gives -----

  /** The lines of s where an open line is lost, with no trace, each time it fills the buffer. */
  ghost function Wrapped(s: Bytes): Cut
    decreases |s|
  {
    var i := FirstEnd(s);
    if i >= SIZE then Wrapped(s[SIZE..])
    else if i == |s| then Cut([], s)
    else
      var c := Wrapped(s[i + 1..]);
      Cut([s[..i]] + c.lines, c.rest)
  }

  lemma WrappedAt(s: Bytes, i: nat)
    requires i < |s| && i < SIZE && OpenTo(s, i) && Ends(s[i])
    ensures Wrapped(s) == var c := Wrapped(s[i + 1..]); Cut([s[..i]] + c.lines, c.rest)
  {
    FirstEndAt(s, i);
  }

  lemma WrappedFull(s: Bytes)
    requires |s| >= SIZE && OpenTo(s, SIZE)
    ensures Wrapped(s) == Wrapped(s[SIZE..])
  {
    EndBeyond(s, SIZE);
  }

  lemma EndBeyond(s: Bytes, n: nat)
    requires n <= |s| && OpenTo(s, n)
    ensures FirstEnd(s) >= n
  {
  }

  /** A full buffer is lost at the same byte whether or not the reading goes on behind it. */
  lemma {:induction false} WrappedAppend(a: Bytes, b: Bytes)
    ensures Wrapped(a + b) == var c := Wrapped(Wrapped(a).rest + b); Cut(Wrapped(a).lines + c.lines, c.rest)
    decreases |a|
  {
    var i := FirstEnd(a);
    var s := a + b;
    if i >= SIZE {
      assert OpenTo(s, SIZE) && s[SIZE..] == a[SIZE..] + b;
      WrappedFull(s);
      WrappedAppend(a[SIZE..], b);
    } else if i < |a| {
      var t := a[i + 1..];
      assert s[..i] == a[..i] && s[i] == a[i] && s[i + 1..] == t + b;
      WrappedAt(a, i);
      WrappedAt(s, i);
      WrappedAppend(t, b);
      Reassociate([a[..i]], Wrapped(t).lines, Wrapped(Wrapped(t).rest + b).lines);
    }
  }

  /** One read of what the buffer holds. */
  lemma {:induction false} WrappedRead(t: Bytes)
    requires |t| <= SIZE
    ensures Wrapped(t) == var c := Lines(t); c.(rest := if |c.rest| >= SIZE then [] else c.rest)
    decreases |t|
  {
    var i := FirstEnd(t);
    if i >= SIZE {
      FullRead(t);
    } else if i < |t| {
      LinesAt(t, i);
      WrappedAt(t, i);
      WrappedRead(t[i + 1..]);
    }
  }

  lemma FullRead(t: Bytes)
    requires |t| == SIZE && FirstEnd(t) == |t|
    ensures Wrapped(t) == Cut([], []) && Lines(t) == Cut([], t)
  {
    assert t[SIZE..] == [];
  }

  /** Nothing delivered or kept reaches the size of the buffer, and what is kept is open. */
  lemma {:induction false} WrappedFits(s: Bytes)
    ensures forall l :: l in Wrapped(s).lines ==> |l| < SIZE
    ensures |Wrapped(s).rest| < SIZE && OpenTo(Wrapped(s).rest, |Wrapped(s).rest|)
    decreases |s|
  {
    var i := FirstEnd(s);
    if i >= SIZE {
      WrappedFits(s[SIZE..]);
    } else if i < |s| {
      WrappedFits(s[i + 1..]);
    }
  }

  lemma FitsWrapped(s: Bytes)
    ensures Fits(s) <==> Wrapped(s) == Lines(s)
  {
    WrappedFits(s);
    if Fits(s) {
      FitsSame(s);
    }
  }

  lemma {:induction false} FitsSame(s: Bytes)
    requires Fits(s)
    ensures Wrapped(s) == Lines(s)
    decreases |s|
  {
    var i := FirstEnd(s);
    if i < |s| {
      var c := Lines(s[i + 1..]);
      assert Lines(s).lines[0] == s[..i] && forall l :: l in c.lines ==> l in Lines(s).lines;
      FitsSame(s[i + 1..]);
    }
  }

  /** Any run of reads gives the lines of the stream, but for those that fill the buffer. */
  lemma {:induction false} RunIsWrapped(kept: Bytes, pieces: seq<Bytes>, s: Bytes)
    requires Readable(kept, pieces) && OpenTo(kept, |kept|) && |kept| < SIZE && s == kept + Join(pieces)
    ensures Run(kept, pieces) == Wrapped(s)
    decreases |pieces|
  {
    NoneLeft(kept, pieces, s);
    FirstEndAt(kept, |kept|);
    if pieces != [] {
      var t, later := kept + pieces[0], Join(pieces[1..]);
      Ahead(kept, pieces, s, t);
      WrappedRead(t);
      WrappedFits(t);
      WrappedAppend(t, later);
      var c := Wrapped(t);
      RunNext(kept, pieces, c);
      RunIsWrapped(c.rest, pieces[1..], c.rest + later);
    }
  }

  /** Line splitting does not depend on how the stream is cut into reads, whatever the stream. */
  lemma ChunkingIrrelevant(p: seq<Bytes>, q: seq<Bytes>)
    requires Readable([], p) && Readable([], q) && Join(p) == Join(q)
    ensures Run([], p) == Run([], q) == Wrapped(Join(p))
  {
    assert [] + Join(p) == Join(p);
    RunIsWrapped([], p, Join(p));
    RunIsWrapped([], q, Join(p));
  }

  /** No line is lost in a reading, exactly if no line reaches the size of the buffer. */
  lemma NothingLost(pieces: seq<Bytes>)
    requires Readable([], pieces)
    ensures Fits(Join(pieces)) <==> Run([], pieces) == Lines(Join(pieces))
  {
    ChunkingIrrelevant(pieces, pieces);
    FitsWrapped(Join(pieces));
  }

  // ----- lines on the wire -----

  /** A line with its end: line feed or zero byte, and perhaps a carriage return in front of it. */
  ghost predicate IsWire(w: Bytes, line: Bytes) {
    true == (
      && (forall b :: b in line ==> b != 10 && b != 0)
      && (w == line + [13, 10] || w == line + [13, 0]
          || ((w == line + [10] || w == line + [0]) && (line != [] ==> line[|line| - 1] != 13))))
  }

  lemma WireLine(w: Bytes, line: Bytes, i: nat)
    requires IsWire(w, line) && i + 1 == |w|
    ensures OpenTo(w, i) && Ends(w[i]) && Chop(w[..i]) == line
  {
    assert forall k :: 0 <= k < |line| ==> line[k] in line && w[k] == line[k];
    assert w[..i] == line || w[..i] == line + [13];
  }

  lemma WireFirst(w: Bytes, line: Bytes, later: Bytes)
    requires IsWire(w, line) && |w| <= SIZE
    ensures var c := Wrapped(later); Wrapped(w + later) == Cut([w[..|w| - 1]] + c.lines, c.rest)
  {
    var s, i := w + later, |w| - 1;
    WireLine(w, line, i);
    assert s[..i] == w[..i] && s[i] == w[i] && s[i + 1..] == later;
    WrappedAt(s, i);
  }

  lemma {:induction false} WrappedWires(lines: seq<Bytes>, ws: seq<Bytes>, open: Bytes, s: Bytes)
    requires |ws| == |lines| && OpenTo(open, |open|) && |open| < SIZE && s == Join(ws) + open
    requires forall i :: 0 <= i < |ws| ==> IsWire(ws[i], lines[i]) && |ws[i]| <= SIZE
    ensures ChopAll(Wrapped(s).lines) == lines && Wrapped(s).rest == open
    decreases |ws|
  {
    if ws == [] {
      assert s == open;
      FirstEndAt(open, |open|);
    } else {
      var w, later := ws[0], Join(ws[1..]) + open;
      WrappedWires(lines[1..], ws[1..], open, later);
      WireJoin(ws, open, s, later);
      WireFirst(w, lines[0], later);
      WireLine(w, lines[0], |w| - 1);
      ChopFirst(w[..|w| - 1], Wrapped(later).lines, lines);
    }
  }

  lemma WireJoin(ws: seq<Bytes>, open: Bytes, s: Bytes, later: Bytes)
    requires ws != [] && s == Join(ws) + open && later == Join(ws[1..]) + open
    ensures s == ws[0] + later
  {
  }

  lemma ChopFirst(raw: Bytes, more: seq<Bytes>, lines: seq<Bytes>)
    requires lines != [] && Chop(raw) == lines[0] && ChopAll(more) == lines[1..]
    ensures ChopAll([raw] + more) == lines
  {
    assert forall i :: 0 <= i < |more| ==> ChopAll(more)[i] == Chop(more[i]) == lines[i + 1];
    assert |lines| == |more| + 1;
  }

  /**
   What comes in over the wire: lines with their ends, each in at most 65536 bytes, and an open line.  Every
   reading gives exactly the lines, without ends and without the carriage return in front of an end.
   */
  lemma WiresRead(lines: seq<Bytes>, ws: seq<Bytes>, open: Bytes, pieces: seq<Bytes>)
    requires |ws| == |lines|
    requires forall i :: 0 <= i < |ws| ==> |ws[i]| <= 65536 && forall b :: b in lines[i] ==> b != 10 && b != 0
    requires forall i :: 0 <= i < |ws| ==>
               || ws[i] == lines[i] + [13, 10] || ws[i] == lines[i] + [13, 0]
               || (ws[i] in [lines[i] + [10], lines[i] + [0]] && (lines[i] != [] ==> lines[i][|lines[i]| - 1] != 13))
    requires |open| < 65536 && forall b :: b in open ==> b != 10 && b != 0
    requires Readable([], pieces) && Join(pieces) == Join(ws) + open
    ensures ChopAll(Run([], pieces).lines) == lines && Run([], pieces).rest == open
  {
    forall i | 0 <= i < |ws| ensures IsWire(ws[i], lines[i]) {
    }
    assert forall k :: 0 <= k < |open| ==> open[k] in open;
    WrappedWires(lines, ws, open, Join(pieces));
    ChunkingIrrelevant(pieces, pieces);
  }

  /** One byte at a time is a way to read any stream. */
  lemma {:induction false} ByteByByte(s: Bytes, kept: Bytes, pieces: seq<Bytes>)
    requires |kept| < 65536 && |pieces| == |s| && forall i :: 0 <= i < |s| ==> pieces[i] == [s[i]]
    ensures Readable(kept, pieces) && Join(pieces) == s
    decreases |s|
  {
    if s != [] {
      ByteByByte(s[1..], AfterRead(kept, pieces[0]).rest, pieces[1..]);
    }
  }

  /** A line that fills the buffer is dropped with the byte that fills it. */
  lemma WireDropped(s: Bytes, pieces: seq<Bytes>)
    requires |s| == 65536 && (forall b :: b in s ==> b != 10 && b != 0) && Readable([], pieces) && Join(pieces) == s
    ensures Run([], pieces) == Cut([], [])
  {
    assert forall k :: 0 <= k < |s| ==> s[k] in s;
    FirstEndAt(s, |s|);
    FullRead(s);
    ChunkingIrrelevant(pieces, pieces);
  }

  // ----- the program -----

  /** The lines before place offs are out; the rest is still to be cut. */
  ghost predicate Cutting(s: Bytes, offs: nat, out: seq<Bytes>) {
    true == (offs <= |s| && Lines(s) == var c := Lines(s[offs..]); Cut(out + c.lines, c.rest))
  }

  lemma CutNext(s: Bytes, offs: nat, sz: nat, out: seq<Bytes>)
    requires Cutting(s, offs, out) && offs + sz < |s| && Ends(s[offs + sz])
    requires forall i :: offs <= i < offs + sz ==> !Ends(s[i])
    ensures Cutting(s, offs + sz + 1, out + [s[offs..offs + sz]])
  {
    var t, u := s[offs..], s[offs + sz + 1..];
    var line := s[offs..offs + sz];
    assert t[..sz] == line && t[sz] == s[offs + sz] && t[sz + 1..] == u;
    LinesAt(t, sz);
    Reassociate(out, [line], Lines(u).lines);
  }

  /** The scan has looked at sz bytes of the line at offs. */
  ghost predicate Scanned(s: Bytes, offs: nat, sz: nat, out: seq<Bytes>) {
    true == (Cutting(s, offs, out) && offs + sz <= |s| && forall i :: offs <= i < offs + sz ==> !Ends(s[i]))
  }

  lemma ScannedNone(s: Bytes)
    ensures Scanned(s, 0, 0, [])
  {
    assert s[0..] == s;
    assert [] + Lines(s).lines == Lines(s).lines;
  }

  lemma Skipped(s: Bytes, sz: nat)
    requires sz <= |s| && OpenTo(s, sz)
    ensures Scanned(s, 0, sz, [])
  {
    ScannedNone(s);
  }

  lemma ScannedOne(s: Bytes, offs: nat, sz: nat, out: seq<Bytes>, next: nat)
    requires Scanned(s, offs, sz, out) && offs + sz < |s| && !Ends(s[offs + sz]) && next == sz + 1
    ensures Scanned(s, offs, next, out)
  {
  }

  lemma ScannedLine(s: Bytes, offs: nat, sz: nat, out: seq<Bytes>, line: Bytes)
    requires Scanned(s, offs, sz, out) && offs + sz < |s| && Ends(s[offs + sz]) && line == s[offs..offs + sz]
    ensures Scanned(s, offs + sz + 1, 0, out + [line])
  {
    CutNext(s, offs, sz, out);
  }

  lemma ScannedAll(s: Bytes, offs: nat, sz: nat, out: seq<Bytes>)
    requires Scanned(s, offs, sz, out) && offs + sz == |s|
    ensures Lines(s) == Cut(out, s[offs..]) && forall i :: offs <= i < |s| ==> !Ends(s[i])
  {
    FirstEndAt(s[offs..], |s| - offs);
    assert out + [] == out;
  }

  lemma ChopMore(first: seq<Bytes>, a: seq<Bytes>, b: seq<Bytes>)
    ensures first + ChopAll(a + b) == (first + ChopAll(a)) + ChopAll(b)
  {
    assert ChopAll(a + b) == ChopAll(a) + ChopAll(b);
  }

  lemma ChopOne(line: Bytes)
    ensures ChopAll([line]) == [Chop(line)]
  {
  }

  class Connection {
    const buf: array<byte>
    var oldLen: uint16
    var processed: seq<Bytes>

    ghost predicate Valid()
      reads this, buf
    {
      buf.Length == SIZE && forall i :: 0 <= i < oldLen ==> !Ends(buf[i])
    }

    ghost function Kept(): (r: Bytes)
      requires Valid()
      reads this, buf
      ensures |r| < SIZE
    {
      buf[..oldLen]
    }

    constructor ()
      ensures Valid() && Kept() == [] && processed == [] && fresh(buf)
    {
      buf := new byte[SIZE](i => 0);
      oldLen, processed := 0, [];
    }

    /** irc_process_input ends the line in place and hands it on. */
    method ProcessInput(offs: nat, size: nat)
      requires buf.Length == SIZE && offs + size < SIZE
      modifies this, buf
      ensures processed == old(processed) + [old(buf[offs..offs + size])] && oldLen == old(oldLen)
      ensures forall i :: 0 <= i < SIZE && i != offs + size ==> buf[i] == old(buf[i])
    {
      buf[offs + size] := NUL;
      processed := processed + [buf[offs..offs + size]];
    }

    /** The line that ends at offs + sz, less one carriage return. */
    method EndLine(offs: nat, sz: nat)
      requires buf.Length == SIZE && offs + sz < SIZE
      modifies this, buf
      ensures processed == old(processed) + [Chop(old(buf[offs..offs + sz]))] && oldLen == old(oldLen)
      ensures forall i :: offs + sz < i < SIZE ==> buf[i] == old(buf[i])
    {
      ghost var line := buf[offs..offs + sz];
      if sz > 0 && buf[sz + offs - 1] == CR {
        assert line[..sz - 1] == buf[offs..offs + (sz - 1)];
        ProcessInput(offs, sz - 1);
      } else {
        ProcessInput(offs, sz);
      }
    }

    /** The bytes of s from place offs on are still in the buffer. */
    ghost predicate Holds(s: Bytes, offs: nat)
      reads buf
    {
      true == (offs <= |s| <= SIZE == buf.Length && forall i :: offs <= i < |s| ==> buf[i] == s[i])
    }

    lemma HoldsSlice(s: Bytes, offs: nat, end: nat)
      requires Holds(s, offs) && offs <= end <= |s|
      ensures buf[offs..end] == s[offs..end]
    {
    }

    /** The branch of the scan at a line end. */
    method EndOne(offs: nat, sz: nat, ghost s: Bytes, ghost out0: seq<Bytes>, ghost first: seq<Bytes>)
      returns (next: nat, ghost out: seq<Bytes>)
      requires Holds(s, offs) && offs + sz < |s| && Ends(s[offs + sz]) && Scanned(s, offs, sz, out0)
      requires processed == first + ChopAll(out0)
      modifies this, buf
      ensures oldLen == old(oldLen) && next == offs + sz + 1 && Scanned(s, next, 0, out)
      ensures Holds(s, next) && processed == first + ChopAll(out)
    {
      ghost var line := s[offs..offs + sz];
      HoldsSlice(s, offs, offs + sz);
      ScannedLine(s, offs, sz, out0, line);
      EndLine(offs, sz);
      ChopMore(first, out0, [line]);
      ChopOne(line);
      next, out := offs + sz + 1, out0 + [line];
    }

    /** The scan of irc_read, taken up behind the kept bytes, which hold no line end. */
    method Split(res0: nat)
      requires Valid() && 1 <= res0 && oldLen + res0 <= SIZE
      modifies this, buf
      ensures Valid()
      ensures var c := old(Lines(buf[..oldLen + res0]));
              && processed == old(processed) + ChopAll(c.lines)
              && Kept() == if |c.rest| >= SIZE then [] else c.rest
    {
      var offs, res := EndLines(res0);
      Keep(offs, res);
    }

    /** The loop of the scan; the open line is left behind the ended ones. */
    method EndLines(res0: nat) returns (offs: nat, res: nat)
      requires Valid() && 1 <= res0 && oldLen + res0 <= SIZE
      modifies this, buf
      ensures oldLen == old(oldLen) && offs + res == oldLen + res0
      ensures var c := old(Lines(buf[..oldLen + res0]));
              processed == old(processed) + ChopAll(c.lines) && buf[offs..offs + res] == c.rest
      ensures forall i :: offs <= i < offs + res ==> !Ends(buf[i])
    {
      ghost var s := buf[..oldLen + res0];
      ghost var first, out := processed, [];
      Skipped(s, oldLen);
      var sz := oldLen;
      offs, res := 0, oldLen + res0;
      while sz < res
        invariant 0 <= sz <= res && offs + res == |s| && oldLen == old(oldLen)
        invariant Holds(s, offs) && Scanned(s, offs, sz, out) && processed == first + ChopAll(out)
        decreases res, res - sz
      {
        if buf[sz + offs] == LF || buf[sz + offs] == NUL {
          offs, out := EndOne(offs, sz, s, out, first);
          res := res - (sz + 1);
          sz := 0;
        } else {
          ScannedOne(s, offs, sz, out, sz + 1);
          sz := sz + 1;
        }
      }
      ScannedAll(s, offs, sz, out);
      HoldsSlice(s, offs, |s|);
    }

    /** The open line moves to the front; its length is kept in 16 bits. */
    method Keep(offs: nat, res: nat)
      requires buf.Length == SIZE && offs + res <= SIZE && forall i :: offs <= i < offs + res ==> !Ends(buf[i])
      modifies this, buf
      ensures Valid() && processed == old(processed)
      ensures Kept() == if res >= SIZE then [] else old(buf[offs..offs + res])
    {
      ghost var line := buf[offs..offs + res];
      if res > 0 {
        oldLen := res % 0x1_0000;
        forall i | 0 <= i < res {
          buf[i] := buf[offs + i];
        }
        assert res < SIZE ==> buf[..oldLen] == line;
      } else {
        oldLen := 0;
      }
    }

    /** The buffer part of irc_read. */
    method Read(piece: Bytes)
      requires Valid() && 1 <= |piece| <= SIZE - oldLen
      modifies this, buf
      ensures Valid()
      ensures var c := AfterRead(old(Kept()), piece);
              processed == old(processed) + ChopAll(c.lines) && Kept() == c.rest
    {
      ghost var kept := Kept();
      forall i | 0 <= i < |piece| {
        buf[oldLen + i] := piece[i];
      }
      assert buf[..oldLen] == kept && buf[..oldLen + |piece|] == kept + piece;
      Split(|piece|);
    }

    /** A run of reads is the run of the specification. */
    method ReadAll(pieces: seq<Bytes>)
      requires Valid() && Readable(Kept(), pieces)
      modifies this, buf
      ensures Valid()
      ensures var r := Run(old(Kept()), pieces); processed == old(processed) + ChopAll(r.lines) && Kept() == r.rest
    {
      ghost var r := Run(Kept(), pieces);
      for i := 0 to |pieces|
        invariant Valid() && Readable(Kept(), pieces[i..])
        invariant var next := Run(Kept(), pieces[i..]);
                  old(processed) + ChopAll(r.lines) == processed + ChopAll(next.lines) && r.rest == next.rest
      {
        RunOn(Kept(), pieces, i);
        ghost var c := AfterRead(Kept(), pieces[i]);
        ChopMore(processed, c.lines, Run(c.rest, pieces[i + 1..]).lines);
        Read(pieces[i]);
      }
    }
  }
}
