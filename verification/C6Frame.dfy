/**
 Packet reassembly of c6/c6.c: parse_indata and the buffer part of c6_read.

 A packet is a header of six bytes (type, command, identifier, big-endian length)
 and as many bytes as the length says.  Reads deliver arbitrary pieces of the stream.
 */
module C6Frame {
  import opened Sequences
  import opened Words

  const SIZE := 65536
  const HEAD := 6
  const TYPE := 0x20

  // ----- the stream, cut into packets -----

  /** ntohs(len) + sizeof(struct c6_pkt_head). */
  ghost function PacketLength(s: Bytes): (n: nat)
    requires |s| >= HEAD
    ensures HEAD <= n
  {
    s[4] as nat * 0x100 + s[5] + HEAD
  }

  ghost predicate Complete(s: Bytes) {
    |s| >= HEAD && PacketLength(s) <= |s|
  }

  datatype Cut = Cut(packets: seq<Bytes>, rest: Bytes, bad: bool)

  /** The whole packets of s in order, and what is left: nothing after a packet of the wrong type. */
  ghost function Frames(s: Bytes): Cut
    decreases |s|
  {
    if s == [] then Cut([], [], false)
    else if s[0] != TYPE then Cut([], [], true)
    else if !Complete(s) then Cut([], s, false)
    else
      var c := Frames(s[PacketLength(s)..]);
      Cut([s[..PacketLength(s)]] + c.packets, c.rest, c.bad)
  }

  /** The packets before place ptr are out; the rest is still to be cut. */
  ghost predicate Cutting(s: Bytes, ptr: nat, out: seq<Bytes>) {
    true == (ptr <= |s| && Frames(s) == var c := Frames(s[ptr..]); Cut(out + c.packets, c.rest, c.bad))
  }

  lemma CutNext(s: Bytes, ptr: nat, out: seq<Bytes>, end: nat)
    requires Cutting(s, ptr, out) && ptr < |s| && s[ptr] == TYPE && Complete(s[ptr..])
    requires end == ptr + PacketLength(s[ptr..])
    ensures end <= |s| && Cutting(s, end, out + [s[ptr..end]])
  {
    var n := PacketLength(s[ptr..]);
    assert s[ptr..][n..] == s[end..] && s[ptr..][..n] == s[ptr..end];
    assert s[ptr..][0] == TYPE;
  }

  lemma CutOn(s: Bytes, ptr: nat, out: seq<Bytes>, end: nat, first: seq<Bytes>, now: seq<Bytes>)
    returns (more: seq<Bytes>)
    requires Cutting(s, ptr, out) && ptr < |s| && s[ptr] == TYPE && Complete(s[ptr..])
    requires end == ptr + PacketLength(s[ptr..]) && now == first + out + [s[ptr..end]]
    ensures ptr < end <= |s| && Cutting(s, end, more) && now == first + more
  {
    CutNext(s, ptr, out, end);
    more := out + [s[ptr..end]];
    Reassociate(first, out, [s[ptr..end]]);
  }

  lemma CutLast(s: Bytes, ptr: nat, out: seq<Bytes>)
    requires Cutting(s, ptr, out)
    requires ptr < |s| ==> s[ptr] != TYPE || !Complete(s[ptr..])
    ensures Frames(s).packets == out
    ensures Frames(s).rest == if ptr < |s| && s[ptr] == TYPE then s[ptr..] else []
  {
    assert ptr < |s| ==> s[ptr..][0] == s[ptr];
  }

  /** No packet outgrows the buffer, and the unfinished one does not fill it. */
  ghost predicate Fits(s: Bytes) {
    && (forall p :: p in Frames(s).packets ==> |p| <= SIZE)
    && |Frames(s).rest| < SIZE
  }

  /** What is left over starts an unfinished packet. */
  lemma {:induction false} RestUnfinished(s: Bytes)
    ensures Frames(s).rest == [] || (Frames(s).rest[0] == TYPE && !Complete(Frames(s).rest))
    ensures |Frames(s).rest| <= |s|
    decreases |s|
  {
    if s != [] && s[0] == TYPE && Complete(s) {
      RestUnfinished(s[PacketLength(s)..]);
    }
  }

  /** Nothing is lost or reordered: packets and rest, joined, are the stream. */
  lemma {:induction false} FramesJoin(s: Bytes)
    requires !Frames(s).bad
    ensures Join(Frames(s).packets) + Frames(s).rest == s
    decreases |s|
  {
    if s != [] && Complete(s) {
      var n := PacketLength(s);
      FramesJoin(s[n..]);
      CutJoins(s, n, Frames(s[n..]));
    }
  }

  lemma CutJoins(s: Bytes, n: nat, c: Cut)
    requires n <= |s| && Join(c.packets) + c.rest == s[n..]
    ensures Join([s[..n]] + c.packets) + c.rest == s
  {
    assert ([s[..n]] + c.packets)[1..] == c.packets;
    Reassociate(s[..n], Join(c.packets), c.rest);
  }

  lemma FramesFirst(s: Bytes, n: nat, later: Bytes)
    requires s != [] && s[0] == TYPE && Complete(s) && n == PacketLength(s) && later == s[n..]
    ensures Frames(s) == var c := Frames(later); Cut([s[..n]] + c.packets, c.rest, c.bad)
  {
  }

  lemma FirstOfBoth(a: Bytes, b: Bytes)
    requires Complete(a)
    ensures Complete(a + b) && PacketLength(a + b) == PacketLength(a) && (a + b)[0] == a[0]
    ensures (a + b)[..PacketLength(a)] == a[..PacketLength(a)]
    ensures (a + b)[PacketLength(a)..] == a[PacketLength(a)..] + b
  {
  }

  /** Cutting may stop anywhere and go on with the rest. */
  lemma {:induction false} FramesAppend(a: Bytes, b: Bytes)
    requires !Frames(a).bad
    ensures Frames(a + b) == var c := Frames(Frames(a).rest + b); Cut(Frames(a).packets + c.packets, c.rest, c.bad)
    decreases |a|
  {
    if a == [] || !Complete(a) {
      assert Frames(a).rest + b == a + b;
    } else {
      var n := PacketLength(a);
      var later := a[n..];
      FirstOfBoth(a, b);
      FramesFirst(a, n, later);
      FramesFirst(a + b, n, later + b);
      FramesAppend(later, b);
    }
  }

  // ----- a run of reads -----

  /** One read: pieces arrive behind the kept bytes; a full buffer wraps the 16-bit length to 0. */
  ghost function AfterRead(kept: Bytes, piece: Bytes): Cut {
    var c := Frames(kept + piece);
    c.(rest := if |c.rest| >= SIZE then [] else c.rest)
  }

  /** A read brings at least one byte and at most what the buffer has room for. */
  ghost predicate Readable(kept: Bytes, pieces: seq<Bytes>)
    decreases |pieces|
  {
    pieces != [] ==>
      && |kept| < SIZE && 1 <= |pieces[0]| <= SIZE - |kept|
      && Readable(AfterRead(kept, pieces[0]).rest, pieces[1..])
  }

  ghost function Run(kept: Bytes, pieces: seq<Bytes>): (seq<Bytes>, Bytes)
    decreases |pieces|
  {
    if pieces == [] then ([], kept) else
      var c := AfterRead(kept, pieces[0]);
      var next := Run(c.rest, pieces[1..]);
      (c.packets + next.0, next.1)
  }

  lemma RunNext(kept: Bytes, pieces: seq<Bytes>, c: Cut)
    requires pieces != [] && c == AfterRead(kept, pieces[0])
    ensures var next := Run(c.rest, pieces[1..]); Run(kept, pieces) == (c.packets + next.0, next.1)
    ensures Readable(kept, pieces) ==> Readable(c.rest, pieces[1..])
  {
  }

  /** Whatever the reads, no delivered packet and no kept rest outgrows the buffer. */
  lemma {:induction false} RunFits(kept: Bytes, pieces: seq<Bytes>)
    requires Readable(kept, pieces) && |kept| < SIZE
    ensures forall p :: p in Run(kept, pieces).0 ==> |p| <= SIZE
    ensures |Run(kept, pieces).1| < SIZE
    decreases |pieces|
  {
    if pieces != [] {
      var c := AfterRead(kept, pieces[0]);
      PacketsFit(kept + pieces[0]);
      RunFits(c.rest, pieces[1..]);
    }
  }

  lemma {:induction false} PacketsFit(s: Bytes)
    ensures forall p :: p in Frames(s).packets ==> |p| <= |s|
    decreases |s|
  {
    if s != [] && s[0] == TYPE && Complete(s) {
      PacketsFit(s[PacketLength(s)..]);
    }
  }

  // ----- what a reading gives -----

  /** A packet that starts here fills the buffer before it is complete, and is dropped. */
  ghost predicate Dropped(u: Bytes) {
    |u| >= SIZE && PacketLength(u) > SIZE
  }

  /** The packets of s where a packet that outgrows the buffer is dropped, as much of it as fills the buffer. */
  ghost function Parsed(s: Bytes): Cut
    decreases |s|
  {
    if s == [] then Cut([], [], false)
    else if s[0] != TYPE then Cut([], [], true)
    else if Dropped(s) then Parsed(s[SIZE..])
    else if !Complete(s) then Cut([], s, false)
    else
      var c := Parsed(s[PacketLength(s)..]);
      Cut([s[..PacketLength(s)]] + c.packets, c.rest, c.bad)
  }

  /** The stream from the first wrong type byte on. */
  ghost function Tail(s: Bytes): (u: Bytes)
    ensures |u| <= |s| && (u != [] ==> u[0] != TYPE) && (u != [] <==> Parsed(s).bad)
    decreases |s|
  {
    if s == [] then []
    else if s[0] != TYPE then s
    else if Dropped(s) then Tail(s[SIZE..])
    else if !Complete(s) then []
    else Tail(s[PacketLength(s)..])
  }

  /** The place of that byte. */
  ghost function BadPlace(s: Bytes): (b: nat)
    requires Parsed(s).bad
    ensures b < |s|
  {
    |s| - |Tail(s)|
  }

  lemma ParsedFirst(s: Bytes, n: nat, later: Bytes)
    requires s != [] && s[0] == TYPE && !Dropped(s) && Complete(s) && n == PacketLength(s) && later == s[n..]
    ensures Parsed(s) == var c := Parsed(later); Cut([s[..n]] + c.packets, c.rest, c.bad)
    ensures Tail(s) == Tail(later)
  {
  }

  lemma ParsedDrop(s: Bytes, later: Bytes)
    requires s != [] && s[0] == TYPE && Dropped(s) && later == s[SIZE..]
    ensures Parsed(s) == Parsed(later) && Tail(s) == Tail(later)
  {
  }

  /** What stands behind a dropped or a whole packet changes nothing about it. */
  lemma DropOfBoth(a: Bytes, b: Bytes)
    requires Dropped(a)
    ensures Dropped(a + b) && (a + b)[0] == a[0] && (a + b)[SIZE..] == a[SIZE..] + b
  {
  }

  lemma WholeOfBoth(a: Bytes, b: Bytes)
    requires !Dropped(a) && Complete(a)
    ensures !Dropped(a + b)
  {
    FirstOfBoth(a, b);
  }

  /** The first turn, on a stream and on one that goes on. */
  lemma FirstTurn(a: Bytes, b: Bytes, n: nat, x: seq<Bytes>, later: Bytes)
    requires a != [] && a[0] == TYPE && (Dropped(a) || Complete(a))
    requires n == (if Dropped(a) then SIZE else PacketLength(a)) && later == a[n..]
    requires x == if Dropped(a) then [] else [a[..n]]
    ensures Parsed(a) == var c := Parsed(later); Cut(x + c.packets, c.rest, c.bad)
    ensures Parsed(a + b) == var c := Parsed(later + b); Cut(x + c.packets, c.rest, c.bad)
    ensures Tail(a) == Tail(later) && Tail(a + b) == Tail(later + b)
  {
    if Dropped(a) {
      DropOfBoth(a, b);
      ParsedDrop(a, later);
      ParsedDrop(a + b, later + b);
    } else {
      FirstOfBoth(a, b);
      WholeOfBoth(a, b);
      ParsedFirst(a, n, later);
      ParsedFirst(a + b, n, later + b);
    }
  }

  /** Parsing may stop anywhere and go on with the rest. */
  lemma {:induction false} ParsedAppend(a: Bytes, b: Bytes)
    requires !Parsed(a).bad
    ensures Parsed(a + b) == var c := Parsed(Parsed(a).rest + b); Cut(Parsed(a).packets + c.packets, c.rest, c.bad)
    ensures Tail(a + b) == Tail(Parsed(a).rest + b)
    decreases |a|
  {
    if a != [] && (Dropped(a) || Complete(a)) {
      var n := if Dropped(a) then SIZE else PacketLength(a);
      var x, later := if Dropped(a) then [] else [a[..n]], a[n..];
      FirstTurn(a, b, n, x, later);
      ParsedAppend(later, b);
      Reassociate(x, Parsed(later).packets, Parsed(Parsed(later).rest + b).packets);
    } else {
      NothingYet(a, b);
    }
  }

  lemma NothingYet(a: Bytes, b: Bytes)
    requires a != [] ==> a[0] == TYPE && !Dropped(a) && !Complete(a)
    ensures Parsed(a) == Cut([], a, false)
    ensures Parsed(a + b) == var c := Parsed(a + b); Cut([] + c.packets, c.rest, c.bad)
  {
  }

  /** Once a wrong byte is in, what comes later changes nothing in front of it. */
  lemma {:induction false} ParsedBad(a: Bytes, b: Bytes)
    requires Parsed(a).bad
    ensures Parsed(a + b) == Parsed(a) && Tail(a + b) == Tail(a) + b && Parsed(a).rest == []
    decreases |a|
  {
    if a[0] == TYPE {
      var n := if Dropped(a) then SIZE else PacketLength(a);
      var x, later := if Dropped(a) then [] else [a[..n]], a[n..];
      FirstTurn(a, b, n, x, later);
      ParsedBad(later, b);
    }
  }

  /** No packet and no rest outgrows the buffer; the rest is unfinished. */
  lemma {:induction false} ParsedFits(s: Bytes)
    ensures forall p :: p in Parsed(s).packets ==> |p| <= SIZE
    ensures |Parsed(s).rest| < SIZE && Parsed(Parsed(s).rest) == Cut([], Parsed(s).rest, false)
    decreases |s|
  {
    if s != [] && s[0] == TYPE && Dropped(s) {
      ParsedFits(s[SIZE..]);
    } else if s != [] && s[0] == TYPE && Complete(s) {
      ParsedFits(s[PacketLength(s)..]);
    }
  }

  /** One read of what the buffer holds. */
  lemma {:induction false} ParsedRead(t: Bytes)
    requires |t| <= SIZE
    ensures Parsed(t) == var c := Frames(t); c.(rest := if |c.rest| >= SIZE then [] else c.rest)
    decreases |t|
  {
    if t != [] && t[0] == TYPE && Dropped(t) {
      assert t[SIZE..] == [];
    } else if t != [] && t[0] == TYPE && Complete(t) {
      var n := PacketLength(t);
      FramesFirst(t, n, t[n..]);
      ParsedFirst(t, n, t[n..]);
      ParsedRead(t[n..]);
    }
  }

  /** A stream that fits loses nothing. */
  lemma FitsParsed(s: Bytes)
    ensures Fits(s) <==> (Parsed(s).packets, Parsed(s).rest) == (Frames(s).packets, Frames(s).rest)
  {
    ParsedFits(s);
    if Fits(s) {
      FitsSame(s);
    }
  }

  lemma {:induction false} FitsSame(s: Bytes)
    requires Fits(s)
    ensures Parsed(s) == Frames(s)
    decreases |s|
  {
    if s != [] && s[0] == TYPE && Complete(s) {
      var n := PacketLength(s);
      FramesFirst(s, n, s[n..]);
      assert Frames(s).packets[0] == s[..n] && s[..n] in Frames(s).packets;
      assert forall p :: p in Frames(s[n..]).packets ==> p in Frames(s).packets;
      ParsedFirst(s, n, s[n..]);
      FitsSame(s[n..]);
    }
  }

  // ----- behind a byte of the wrong type -----

  /** No read that starts in u can deliver or keep anything. */
  ghost predicate Silent(u: Bytes) {
    forall j :: 0 <= j < |u| && u[j] == TYPE ==> Dropped(u[j..])
  }

  lemma SilentLater(u: Bytes, k: nat)
    requires Silent(u) && k <= |u|
    ensures Silent(u[k..])
  {
    var v := u[k..];
    forall j | 0 <= j < |v| && v[j] == TYPE ensures Dropped(v[j..]) {
      assert v[j..] == u[k + j..] && u[k + j] == TYPE;
    }
  }

  lemma SilentStart(u: Bytes)
    requires Silent(u)
    ensures u != [] && u[0] == TYPE ==> Dropped(u)
  {
    assert u[0..] == u;
  }

  /** The start of a dropped packet, as long as it fits in the buffer, is an unfinished packet. */
  lemma StillOpen(t: Bytes, u: Bytes)
    requires t != [] && |t| <= SIZE && |t| <= |u| && u[..|t|] == t && t[0] == TYPE && Dropped(u)
    ensures Frames(t) == Cut([], t, false)
  {
    assert |t| >= HEAD ==> u[4] == t[4] && u[5] == t[5];
  }

  lemma {:induction false} RunSilent(kept: Bytes, pieces: seq<Bytes>, u: Bytes)
    requires Readable(kept, pieces) && |kept| < SIZE && u == kept + Join(pieces) && Silent(u)
    requires kept != [] ==> kept[0] == TYPE
    ensures Run(kept, pieces) == ([], [])
    decreases |pieces|
  {
    NoneLeft(kept, pieces, u);
    SilentStart(u);
    if pieces != [] {
      var t, later := kept + pieces[0], pieces[1..];
      Ahead(kept, pieces, u, t);
      var c := AfterRead(kept, pieces[0]);
      RunNext(kept, pieces, c);
      SilentRead(u, t, c, Join(later));
      RunSilent(c.rest, later, c.rest + Join(later));
    }
  }

  /** A read of a silent stream delivers nothing, and what stays is silent. */
  lemma SilentRead(u: Bytes, t: Bytes, c: Cut, v: Bytes)
    requires Silent(u) && t != [] && |t| <= SIZE && u == t + v
    requires c == var f := Frames(t); f.(rest := if |f.rest| >= SIZE then [] else f.rest)
    ensures c.packets == [] && |c.rest| < SIZE && (c.rest != [] ==> c.rest[0] == TYPE)
    ensures Silent(c.rest + v)
  {
    SilentLater(u, |t|);
    assert [] + v == v == u[|t|..];
    if t[0] == TYPE {
      SilentStart(u);
      StillOpen(t, u);
    }
  }

  /** Nothing behind the first wrong byte could pass for a packet. */
  ghost predicate Calm(s: Bytes) {
    Parsed(s).bad ==> Silent(Tail(s))
  }

  lemma CalmLater(t: Bytes, v: Bytes)
    requires Calm(t + v)
    ensures !Parsed(t).bad ==> Calm(Parsed(t).rest + v)
    ensures Parsed(t).bad ==> Silent(v)
  {
    if Parsed(t).bad {
      ParsedBad(t, v);
      SilentLater(Tail(t + v), |Tail(t)|);
      assert (Tail(t) + v)[|Tail(t)|..] == v;
    } else {
      ParsedAppend(t, v);
    }
  }

  /** Every reading of a stream that is calm behind its first wrong byte. */
  lemma {:induction false} RunParsed(kept: Bytes, pieces: seq<Bytes>, s: Bytes)
    requires Readable(kept, pieces) && |kept| < SIZE && Parsed(kept) == Cut([], kept, false)
    requires s == kept + Join(pieces) && Calm(s)
    ensures Run(kept, pieces) == (Parsed(s).packets, Parsed(s).rest)
    decreases |pieces|
  {
    NoneLeft(kept, pieces, s);
    if pieces != [] {
      var t, later := kept + pieces[0], pieces[1..];
      Ahead(kept, pieces, s, t);
      var v, c := Join(later), Parsed(t);
      ParsedRead(t);
      ParsedFits(t);
      CalmLater(t, v);
      RunNext(kept, pieces, c);
      if c.bad {
        ParsedBad(t, v);
        assert [] + v == v;
        RunSilent([], later, v);
        assert c.packets + [] == c.packets;
      } else {
        ParsedAppend(t, v);
        RunParsed(c.rest, later, c.rest + v);
      }
    }
  }

  // ----- readings that differ -----

  /** A way to read the whole stream. */
  ghost predicate Reads(pieces: seq<Bytes>, s: Bytes) {
    Readable([], pieces) && Join(pieces) == s
  }

  lemma JoinFirst(p: Bytes, later: seq<Bytes>)
    ensures Join([p] + later) == p + Join(later) && Join([p] + later) == Join([p]) + Join(later)
  {
    assert ([p] + later)[1..] == later && [p][1..] == [];
  }

  /** Byte by byte. */
  ghost function Singles(w: Bytes): (pieces: seq<Bytes>)
    ensures |pieces| == |w|
  {
    if w == [] then [] else [[w[0]]] + Singles(w[1..])
  }

  lemma {:induction false} SinglesRead(w: Bytes, kept: Bytes)
    requires |kept| < SIZE
    ensures Readable(kept, Singles(w)) && Join(Singles(w)) == w
    decreases |w|
  {
    if w != [] {
      var pieces := Singles(w);
      assert pieces[0] == [w[0]] && pieces[1..] == Singles(w[1..]);
      SinglesRead(w[1..], AfterRead(kept, pieces[0]).rest);
    }
  }

  /** What one more read in front does. */
  lemma RunFirst(p: Bytes, later: seq<Bytes>)
    requires 1 <= |p| <= SIZE && Readable(AfterRead([], p).rest, later)
    ensures Readable([], [p] + later) && Join([p] + later) == p + Join(later)
    ensures var c := AfterRead([], p);
            var next := Run(c.rest, later);
            Run([], [p] + later) == (c.packets + next.0, next.1)
  {
    assert ([p] + later)[1..] == later;
    JoinFirst(p, later);
  }

  lemma ReadsPacket(p: Bytes)
    requires |p| >= HEAD && p[0] == TYPE && PacketLength(p) == |p|
    ensures AfterRead([], p) == Cut([p], [], false)
  {
    assert [] + p == p && p[..|p|] == p;
    FramesFirst(p, |p|, []);
  }

  lemma ReadsBad(p: Bytes)
    requires p != [] && p[0] != TYPE
    ensures AfterRead([], p) == Cut([], [], true)
  {
    assert [] + p == p;
  }

  lemma ReadsOpen(v: Bytes)
    requires v != [] && v[0] == TYPE && !Complete(v) && |v| < SIZE
    ensures Readable([], [v]) && Join([v]) == v && Run([], [v]) != ([], [])
  {
    assert [] + v == v;
    RunFirst(v, []);
    assert [v] + [] == [v] && v + Join([]) == v;
  }

  lemma ReadsOn(p: Bytes, w: Bytes) returns (pieces: seq<Bytes>)
    requires HEAD <= |p| <= SIZE && p[0] == TYPE && PacketLength(p) == |p|
    ensures Readable([], pieces) && Join(pieces) == p + w && Run([], pieces) != ([], [])
  {
    ReadsPacket(p);
    SinglesRead(w, []);
    RunFirst(p, Singles(w));
    pieces := [p] + Singles(w);
  }

  /** From a type byte whose packet is not dropped: it is delivered, or kept if it is not all there. */
  lemma Loud(v: Bytes) returns (pieces: seq<Bytes>)
    requires v != [] && v[0] == TYPE && !Dropped(v)
    ensures Readable([], pieces) && Join(pieces) == v && Run([], pieces) != ([], [])
  {
    if Complete(v) {
      var n := PacketLength(v);
      assert v == v[..n] + v[n..];
      pieces := ReadsOn(v[..n], v[n..]);
    } else {
      ReadsOpen(v);
      pieces := [v];
    }
  }

  /** From a wrong byte: swallow all up to such a type byte, in reads that start with a wrong byte each. */
  lemma {:induction false} SwallowUpTo(u: Bytes, j: nat) returns (pieces: seq<Bytes>)
    requires u != [] && u[0] != TYPE && j < |u| && u[j] == TYPE && !Dropped(u[j..])
    requires forall i :: 0 <= i < j && u[i] == TYPE ==> Dropped(u[i..])
    ensures Readable([], pieces) && Join(pieces) == u && Run([], pieces) != ([], [])
    decreases |u|
  {
    var e := j;
    if j > SIZE {
      e := WrongByte(u, j);
    }
    var p, v := u[..e], u[e..];
    assert u == p + v;
    ReadsBad(p);
    var later;
    if j <= SIZE {
      later := Loud(v);
    } else {
      forall i | 0 <= i < j - e && v[i] == TYPE ensures Dropped(v[i..]) {
        assert v[i..] == u[e + i..] && u[e + i] == TYPE;
      }
      assert v[j - e..] == u[j..];
      later := SwallowUpTo(v, j - e);
    }
    RunFirst(p, later);
    pieces := [p] + later;
  }

  /** The length of a dropped packet starts with a byte that is not a type: a read can end in front of it. */
  lemma WrongByte(u: Bytes, j: nat) returns (e: nat)
    requires SIZE < j < |u| && forall i :: 0 <= i < j && u[i] == TYPE ==> Dropped(u[i..])
    ensures 0 < e <= SIZE && u[e] != TYPE
  {
    e := SIZE - 5;
    if u[e] == TYPE {
      assert Dropped(u[e..]) && u[e..][4] == u[e + 4];
      e := e + 4;
    }
  }

  /** Two ways to read the stream of which one delivers what the other does not. */
  ghost predicate Differ(p: seq<Bytes>, q: seq<Bytes>, s: Bytes) {
    Reads(p, s) && Reads(q, s) && Run([], p) != Run([], q)
  }

  /** A read that delivers nothing and keeps nothing may come first. */
  lemma Skipped(u: Bytes, e: nat, later: seq<Bytes>)
    requires u != [] && u[0] != TYPE && 1 <= e <= SIZE && e <= |u| && Reads(later, u[e..])
    ensures Reads([u[..e]] + later, u) && Run([], [u[..e]] + later) == Run([], later)
  {
    var p := u[..e];
    ReadsBad(p);
    RunFirst(p, later);
    assert p + u[e..] == u;
    assert [] + Run([], later).0 == Run([], later).0;
  }

  /** The first type byte that breaks the silence. */
  lemma FirstLoud(u: Bytes) returns (j: nat)
    requires !Silent(u)
    ensures j < |u| && u[j] == TYPE && !Dropped(u[j..])
    ensures forall i :: 0 <= i < j && u[i] == TYPE ==> Dropped(u[i..])
  {
    var k :| 0 <= k < |u| && u[k] == TYPE && !Dropped(u[k..]);
    j := 0;
    while u[j] != TYPE || Dropped(u[j..])
      invariant j <= k && forall i :: 0 <= i < j && u[i] == TYPE ==> Dropped(u[i..])
      decreases k - j
    {
      j := j + 1;
    }
  }

  /** Behind a wrong byte that is not followed by silence there are two such ways. */
  lemma {:induction false} TwoWays(u: Bytes) returns (p: seq<Bytes>, q: seq<Bytes>)
    requires u != [] && u[0] != TYPE && !Silent(u)
    ensures Differ(p, q, u)
    decreases |u|
  {
    if |u| <= SIZE {
      p := LoudWay(u);
      q := [u] + [];
      assert u[..|u|] == u && u[|u|..] == [];
      Skipped(u, |u|, []);
    } else {
      var a := 1;
      while a <= SIZE && u[a] == TYPE
        invariant 1 <= a <= SIZE + 1 && forall i :: 1 <= i < a ==> u[i] == TYPE
        decreases SIZE - a
      {
        a := a + 1;
      }
      if a > SIZE {
        p, q := AllTypes(u);
      } else if Silent(u[a..]) {
        p := LoudWay(u);
        q := SilentWay(u, a);
      } else {
        var x, y := TwoWays(u[a..]);
        Skipped(u, a, x);
        Skipped(u, a, y);
        p, q := [u[..a]] + x, [u[..a]] + y;
      }
    }
  }

  lemma LoudWay(u: Bytes) returns (p: seq<Bytes>)
    requires u != [] && u[0] != TYPE && !Silent(u)
    ensures Reads(p, u) && Run([], p) != ([], [])
  {
    var j := FirstLoud(u);
    p := SwallowUpTo(u, j);
  }

  lemma SilentWay(u: Bytes, a: nat) returns (q: seq<Bytes>)
    requires u != [] && u[0] != TYPE && 1 <= a <= SIZE && a <= |u| && Silent(u[a..])
    ensures Reads(q, u) && Run([], q) == ([], [])
  {
    var w := u[a..];
    SinglesRead(w, []);
    assert [] + w == w;
    RunSilent([], Singles(w), w);
    Skipped(u, a, Singles(w));
    q := [u[..a]] + Singles(w);
  }

  /** A buffer full of type bytes: the reading that skips one packet more delivers one packet less. */
  lemma AllTypes(u: Bytes) returns (p: seq<Bytes>, q: seq<Bytes>)
    requires |u| > SIZE && u[0] != TYPE && forall i :: 1 <= i <= SIZE ==> u[i] == TYPE
    ensures Differ(p, q, u)
  {
    var n := TYPE * 0x100 + TYPE + HEAD;
    var packet, w := u[1..n + 1], u[n + 1..];
    var later := Singles(w);
    SinglesRead(w, []);
    ReadsPacket(packet);
    RunFirst(packet, later);
    assert packet + w == u[1..];
    Skipped(u, 1, [packet] + later);
    Skipped(u, n + 1, later);
    p, q := [u[..1]] + ([packet] + later), [u[..n + 1]] + later;
    assert |Run([], p).0| == 1 + |Run([], q).0|;
  }

  /** A way to read what is in front of the first wrong byte. */
  ghost function Lead(s: Bytes): seq<Bytes>
    decreases |s|
  {
    if s == [] || s[0] != TYPE then []
    else if Dropped(s) then [s[..SIZE]] + Lead(s[SIZE..])
    else if !Complete(s) then []
    else [s[..PacketLength(s)]] + Lead(s[PacketLength(s)..])
  }

  lemma ReadsFull(p: Bytes)
    requires |p| == SIZE && p[0] == TYPE && PacketLength(p) > SIZE
    ensures AfterRead([], p) == Cut([], [], false)
  {
    assert [] + p == p;
  }

  lemma NoneInFront<T>(s: seq<T>)
    ensures [] + s == s
  {
  }

  lemma LeadOne(p: Bytes, rest: Bytes, lead: seq<Bytes>, later: seq<Bytes>, x: seq<Bytes>, all: seq<Bytes>,
                end: (seq<Bytes>, Bytes))
    requires 1 <= |p| <= SIZE && AfterRead([], p) == Cut(x, [], false)
    requires Reads(lead + later, rest) && Run([], lead + later) == (all + end.0, end.1)
    ensures Reads(([p] + lead) + later, p + rest)
    ensures Run([], ([p] + lead) + later) == ((x + all) + end.0, end.1)
  {
    Reassociate([p], lead, later);
    RunFirst(p, lead + later);
    Reassociate(x, all, end.0);
  }

  lemma {:induction false} LeadRead(s: Bytes, later: seq<Bytes>, lead: seq<Bytes>, all: seq<Bytes>,
                                    end: (seq<Bytes>, Bytes))
    requires Parsed(s).bad && Reads(later, Tail(s))
    requires lead == Lead(s) && all == Parsed(s).packets && end == Run([], later)
    ensures Reads(lead + later, s) && Run([], lead + later) == (all + end.0, end.1)
    decreases |s|
  {
    if s[0] != TYPE {
      NoneInFront(later);
      NoneInFront(end.0);
    } else {
      var n := if Dropped(s) then SIZE else PacketLength(s);
      var p, rest, x := s[..n], s[n..], if Dropped(s) then [] else [s[..n]];
      FirstTurn(s, [], n, x, rest);
      if Dropped(s) {
        ReadsFull(p);
      } else {
        ReadsPacket(p);
      }
      LeadRead(rest, later, Lead(rest), Parsed(rest).packets, end);
      LeadOne(p, rest, Lead(rest), later, x, Parsed(rest).packets, end);
      assert s == p + rest;
    }
  }

  lemma SomeReading(s: Bytes) returns (p: seq<Bytes>)
    ensures Reads(p, s)
  {
    p := Singles(s);
    SinglesRead(s, []);
  }

  // ----- the theorems -----

  /** What is delivered and kept does not depend on how the stream is cut into reads. */
  ghost predicate Independent(s: Bytes) {
    forall p, q :: Reads(p, s) && Reads(q, s) ==> Run([], p) == Run([], q)
  }

  lemma Calmly(s: Bytes, p: seq<Bytes>)
    requires Calm(s) && Reads(p, s)
    ensures Run([], p) == (Parsed(s).packets, Parsed(s).rest)
  {
    assert [] + s == s;
    RunParsed([], p, s);
  }

  /**
   Framing does not depend on the reads, for exactly the streams that have nothing behind the
   first byte of the wrong type that could pass for a packet: every later type byte announces
   a packet that fills the buffer and is dropped.
   */
  lemma ChunkingIrrelevant(s: Bytes)
    ensures Independent(s) <==> (Parsed(s).bad ==> Silent(s[BadPlace(s)..]))
    ensures Independent(s) ==> forall p :: Reads(p, s) ==> Run([], p) == (Parsed(s).packets, Parsed(s).rest)
  {
    TailAt(s);
    if Calm(s) {
      forall p | Reads(p, s) ensures Run([], p) == (Parsed(s).packets, Parsed(s).rest) {
        Calmly(s, p);
      }
    } else {
      var p, q := Differing(s);
      assert Reads(p, s) && Reads(q, s);
    }
  }

  lemma Differing(s: Bytes) returns (p: seq<Bytes>, q: seq<Bytes>)
    requires !Calm(s)
    ensures Differ(p, q, s)
  {
    var x, y := TwoWays(Tail(s));
    var lead, all := Lead(s), Parsed(s).packets;
    LeadRead(s, x, lead, all, Run([], x));
    LeadRead(s, y, lead, all, Run([], y));
    p, q := lead + x, lead + y;
    SameEnd(all, Run([], x).0, Run([], y).0);
  }

  lemma SameEnd<T>(a: seq<T>, b: seq<T>, c: seq<T>)
    ensures a + b == a + c <==> b == c
  {
    if a + b == a + c {
      assert b == (a + b)[|a|..] && c == (a + c)[|a|..];
    }
  }

  lemma {:induction false} TailAt(s: Bytes)
    ensures Parsed(s).bad ==> s[BadPlace(s)..] == Tail(s)
    decreases |s|
  {
    if s != [] && s[0] == TYPE && Dropped(s) {
      TailAt(s[SIZE..]);
    } else if s != [] && s[0] == TYPE && Complete(s) {
      TailAt(s[PacketLength(s)..]);
    }
  }

  /** Every reading delivers the packets of the stream and keeps its rest. */
  ghost predicate Intact(s: Bytes) {
    forall p :: Reads(p, s) ==> Run([], p) == (Frames(s).packets, Frames(s).rest)
  }

  /** Nothing is lost, exactly where the reads do not matter and no packet and no rest outgrows the buffer. */
  lemma NothingLost(s: Bytes)
    ensures Intact(s) <==> Fits(s) && Independent(s)
  {
    var p := SomeReading(s);
    FitsParsed(s);
    ChunkingIrrelevant(s);
    if Intact(s) {
      assert Independent(s);
      assert Run([], p) == (Parsed(s).packets, Parsed(s).rest);
    }
  }

  /** One reading of a stream whose packet types are right gives the packets exactly if the stream fits. */
  lemma OneReading(pieces: seq<Bytes>)
    requires Readable([], pieces) && !Frames(Join(pieces)).bad
    ensures Fits(Join(pieces)) <==> Run([], pieces) == (Frames(Join(pieces)).packets, Frames(Join(pieces)).rest)
  {
    var s := Join(pieces);
    RunFits([], pieces);
    if Fits(s) {
      FitsSame(s);
      Calmly(s, pieces);
    }
  }

  // ----- packets on the wire -----

  /** A packet with a header of this command and number, in bytes. */
  ghost predicate IsWire(w: Bytes, cmd: byte, id: uint16, data: Bytes) {
    |data| <= 0xFFFF && w == [0x20, cmd, id / 0x100, id % 0x100, |data| / 0x100, |data| % 0x100] + data
  }

  lemma WireIs(w: Bytes, cmd: byte, id: uint16, data: Bytes)
    requires IsWire(w, cmd, id, data)
    ensures |w| == |data| + HEAD && w[0] == TYPE && Complete(w) && PacketLength(w) == |w|
  {
  }

  lemma WireFirst(w: Bytes, later: Bytes, cmd: byte, id: uint16, data: Bytes)
    requires IsWire(w, cmd, id, data) && |data| <= 65530
    ensures Parsed(w + later) == var c := Parsed(later); Cut([w] + c.packets, c.rest, c.bad)
  {
    WireIs(w, cmd, id, data);
    FirstOfBoth(w, later);
    assert w[|w|..] + later == later && w[..|w|] == w;
    ParsedFirst(w + later, |w|, later);
  }

  /** The whole packets in front, and whatever gives no packet. */
  lemma {:induction false} ParsedWires(ps: seq<(byte, uint16, Bytes)>, ws: seq<Bytes>, part: Bytes, s: Bytes)
    requires |ws| == |ps| && Parsed(part).packets == [] && s == Join(ws) + part
    requires forall i :: 0 <= i < |ps| ==> |ps[i].2| <= 65530 && IsWire(ws[i], ps[i].0, ps[i].1, ps[i].2)
    ensures Parsed(s) == Cut(ws, Parsed(part).rest, Parsed(part).bad)
    decreases |ws|
  {
    if ws == [] {
      assert s == part;
    } else {
      var later := Join(ws[1..]) + part;
      ParsedWires(ps[1..], ws[1..], part, later);
      WireFirst(ws[0], later, ps[0].0, ps[0].1, ps[0].2);
      WireJoin(ws, part, s, later);
    }
  }

  lemma WireJoin(ws: seq<Bytes>, part: Bytes, s: Bytes, later: Bytes)
    requires ws != [] && s == Join(ws) + part && later == Join(ws[1..]) + part
    ensures s == ws[0] + later && ws == [ws[0]] + ws[1..]
  {
  }

  lemma ParsedPart(w: Bytes, cmd: byte, id: uint16, data: Bytes, n: nat)
    requires |data| <= 65530 && w == [0x20, cmd, id / 0x100, id % 0x100, |data| / 0x100, |data| % 0x100] + data
    requires n < |w|
    ensures Parsed(w[..n]) == Cut([], w[..n], false)
  {
    if n >= HEAD {
      assert w[..n][4] == w[4] && w[..n][5] == w[5];
    }
  }

  /**
   What comes in over the wire: packets of at most 65530 data bytes, and the first n bytes of one more.
   Every reading delivers exactly the packets and keeps those bytes.
   */
  lemma WiresRead(ps: seq<(byte, uint16, Bytes)>, ws: seq<Bytes>, cmd: byte, id: uint16, data: Bytes, w: Bytes, n: nat,
                  pieces: seq<Bytes>)
    requires |ws| == |ps| && forall i :: 0 <= i < |ps| ==>
               && |ps[i].2| <= 65530
               && ws[i] == [0x20, ps[i].0, ps[i].1 / 0x100, ps[i].1 % 0x100, |ps[i].2| / 0x100, |ps[i].2| % 0x100]
                           + ps[i].2
    requires |data| <= 65530 && w == [0x20, cmd, id / 0x100, id % 0x100, |data| / 0x100, |data| % 0x100] + data
    requires n < |w| && Readable([], pieces) && Join(pieces) == Join(ws) + w[..n]
    ensures Run([], pieces) == (ws, w[..n])
  {
    ParsedPart(w, cmd, id, data, n);
    forall i | 0 <= i < |ps| ensures IsWire(ws[i], ps[i].0, ps[i].1, ps[i].2) {
    }
    ParsedWires(ps, ws, w[..n], Join(pieces));
    CalmRun(Join(pieces), pieces, Cut(ws, w[..n], false));
  }

  lemma CalmRun(s: Bytes, pieces: seq<Bytes>, c: Cut)
    requires Reads(pieces, s) && Parsed(s) == c && !c.bad
    ensures Run([], pieces) == (c.packets, c.rest)
  {
    Calmly(s, pieces);
  }

  /** A packet of more data is dropped with the byte that fills the buffer. */
  lemma WireDropped(cmd: byte, id: uint16, data: Bytes, pieces: seq<Bytes>)
    requires 65530 < |data| <= 65535 && Readable([], pieces)
    requires Join(pieces) ==
             ([0x20, cmd, id / 0x100, id % 0x100, |data| / 0x100, |data| % 0x100] + data)[..65536]
    ensures Run([], pieces) == ([], [])
  {
    var s := Join(pieces);
    assert s[4] == |data| / 0x100 && s[5] == |data| % 0x100 && s[0] == 0x20;
    ParsedDrop(s, []);
    CalmRun(s, pieces, Cut([], [], false));
  }

  /**
   A byte of another type than 0x20 behind the packets of a read: the packets are delivered, the rest of the
   read is gone, and the next read starts anew.
   */
  lemma WrongType(ps: seq<(byte, uint16, Bytes)>, ws: seq<Bytes>, x: Bytes, s: Bytes, later: seq<Bytes>)
    requires |ws| == |ps| && forall i :: 0 <= i < |ps| ==>
               && |ps[i].2| <= 65530
               && ws[i] == [0x20, ps[i].0, ps[i].1 / 0x100, ps[i].1 % 0x100, |ps[i].2| / 0x100, |ps[i].2| % 0x100]
                           + ps[i].2
    requires x != [] && x[0] != 0x20 && s == Join(ws) + x && |s| <= 65536 && Readable([], later)
    ensures Readable([], [s] + later)
    ensures var next := Run([], later); Run([], [s] + later) == (ws + next.0, next.1)
  {
    forall i | 0 <= i < |ps| ensures IsWire(ws[i], ps[i].0, ps[i].1, ps[i].2) {
    }
    ParsedWires(ps, ws, x, s);
    ParsedRead(s);
    assert [] + s == s;
    RunFirst(s, later);
  }

  /** One byte at a time is a way to read any stream. */
  lemma {:induction false} ByteByByte(s: Bytes, kept: Bytes, pieces: seq<Bytes>)
    requires |kept| < 65536 && |pieces| == |s| && forall i :: 0 <= i < |s| ==> pieces[i] == [s[i]]
    ensures Readable(kept, pieces) && Join(pieces) == s
  {
    SinglesRead(s, kept);
    SinglesAre(s, pieces);
  }

  lemma {:induction false} SinglesAre(s: Bytes, pieces: seq<Bytes>)
    requires |pieces| == |s| && forall i :: 0 <= i < |s| ==> pieces[i] == [s[i]]
    ensures pieces == Singles(s)
    decreases |s|
  {
    if s != [] {
      SinglesAre(s[1..], pieces[1..]);
      assert pieces == [pieces[0]] + pieces[1..];
    }
  }

  /** A packet of 65530 data bytes or fewer leaves room for its header. */
  lemma AnnouncedLength(s: Bytes)
    requires |s| >= HEAD
    ensures PacketLength(s) <= SIZE <==> s[4] as nat * 0x100 + s[5] <= 65530
  {
  }

  /** A read, and the run from there. */
  lemma RunOn(kept: Bytes, pieces: seq<Bytes>, i: nat)
    requires i < |pieces| && Readable(kept, pieces[i..])
    ensures |kept| < SIZE && 1 <= |pieces[i]| <= SIZE - |kept|
    ensures var c := AfterRead(kept, pieces[i]);
            && Readable(c.rest, pieces[i + 1..])
            && Run(kept, pieces[i..]) == var next := Run(c.rest, pieces[i + 1..]); (c.packets + next.0, next.1)
  {
    assert pieces[i..][1..] == pieces[i + 1..];
    RunNext(kept, pieces[i..], AfterRead(kept, pieces[i]));
  }

  lemma Sixteen(n: nat)
    requires n <= SIZE
    ensures n % 0x1_0000 == if n < SIZE then n else 0
  {
  }

  // ----- the program -----

  class Connection {
    const buf: array<byte>
    var oldLen: uint16
    var delivered: seq<Bytes>

    ghost predicate Valid()
      reads this
    {
      buf.Length == SIZE
    }

    ghost function Kept(): (r: Bytes)
      requires Valid()
      reads this, buf
      ensures |r| < SIZE
    {
      buf[..oldLen]
    }

    constructor ()
      ensures Valid() && Kept() == [] && delivered == [] && fresh(buf)
    {
      buf := new byte[SIZE](i => 0);
      oldLen, delivered := 0, [];
    }

    /** A header byte; behind the end of the buffer any byte may stand. */
    method Peek(at: nat) returns (b: byte)
      requires Valid()
      ensures at < SIZE ==> b == buf[at]
    {
      if at < SIZE {
        b := buf[at];
      } else {
        b := *;
      }
    }

    /** The first byte of a packet is there; an absent length never passes for a complete packet. */
    method Header(ptr: nat, avdata: nat) returns (typ: byte, pklen: nat)
      requires Valid() && 0 < avdata && ptr + avdata <= SIZE
      ensures typ == buf[ptr]
      ensures pklen <= avdata <==> Complete(buf[ptr..ptr + avdata])
      ensures pklen <= avdata ==> pklen == PacketLength(buf[ptr..ptr + avdata])
    {
      typ := Peek(ptr);
      var high := Peek(ptr + 4);
      var low := Peek(ptr + 5);
      pklen := high as nat * 0x100 + low + HEAD;
    }

    /** A packet goes to its handler, if it is all there. */
    method Handle(ptr: nat, avdata: nat, ghost s: Bytes) returns (typ: byte, pklen: nat)
      requires 0 < avdata && ptr + avdata == |s| && Holds(s)
      modifies this`delivered
      ensures typ == s[ptr] && (pklen <= avdata <==> Complete(s[ptr..])) && 0 < pklen
      ensures pklen <= avdata ==> pklen == PacketLength(s[ptr..])
      ensures delivered == if typ == TYPE && pklen <= avdata then old(delivered) + [s[ptr..ptr + pklen]]
                           else old(delivered)
    {
      assert s[ptr..] == buf[ptr..ptr + avdata];
      typ, pklen := Header(ptr, avdata);
      if typ == TYPE && pklen <= avdata {
        assert buf[ptr..ptr + pklen] == s[ptr..ptr + pklen];
        delivered := delivered + [buf[ptr..ptr + pklen]];
      }
    }

    /** One turn of the loop of parse_indata. */
    method TakePacket(ptr: nat, avdata: nat, ghost s: Bytes, ghost out0: seq<Bytes>, ghost first: seq<Bytes>)
      returns (typ: byte, pklen: nat, ghost out: seq<Bytes>)
      requires 0 < avdata && ptr + avdata == |s| && Holds(s) && Cutting(s, ptr, out0) && delivered == first + out0
      modifies this`delivered
      ensures typ == s[ptr] && (pklen <= avdata <==> Complete(s[ptr..])) && 0 < pklen
      ensures delivered == first + out
      ensures Cutting(s, if typ == TYPE && pklen <= avdata then ptr + pklen else ptr, out)
    {
      typ, pklen := Handle(ptr, avdata, s);
      out := out0;
      if typ == TYPE && pklen <= avdata {
        out := CutOn(s, ptr, out0, ptr + pklen, first, delivered);
      }
    }

    /** parse_indata: bytes up to the new data are stale or missing length bytes when fewer than six are there. */
    method ParseIndata(res: nat)
      requires Valid() && 1 <= res && oldLen + res <= SIZE
      modifies this, buf
      ensures Valid()
      ensures var c := old(Frames(buf[..oldLen + res]));
              && delivered == old(delivered) + c.packets
              && Kept() == if |c.rest| >= SIZE then [] else c.rest
    {
      ghost var s := buf[..oldLen + res];
      var bad, ptr, avdata := TakePackets(oldLen + res, s);
      HoldsSlice(s, ptr);
      if bad || avdata == 0 {
        oldLen := 0;
      } else {
        Keep(ptr, avdata);
      }
    }

    /** The bytes of s stand in the buffer. */
    ghost predicate Holds(s: Bytes)
      reads buf
    {
      true == (|s| <= SIZE == buf.Length && forall i :: 0 <= i < |s| ==> buf[i] == s[i])
    }

    lemma HoldsSlice(s: Bytes, ptr: nat)
      requires Holds(s) && ptr <= |s|
      ensures buf[ptr..|s|] == s[ptr..]
    {
    }

    /** The loop of parse_indata: it ends behind the data, at a packet that is not all there or at a wrong type. */
    method TakePackets(len: nat, ghost s: Bytes) returns (bad: bool, ptr: nat, avdata: nat)
      requires Holds(s) && 1 <= len == |s|
      modifies this`delivered
      ensures delivered == old(delivered) + Frames(s).packets && ptr + avdata == len
      ensures Frames(s).rest == if bad then [] else s[ptr..]
    {
      ghost var first, out := delivered, [];
      bad, ptr, avdata := false, 0, len;
      while true
        invariant 0 < avdata && ptr + avdata == |s| && !bad && Holds(s)
        invariant Cutting(s, ptr, out) && delivered == first + out
        decreases avdata
      {
        var typ, pklen;
        typ, pklen, out := TakePacket(ptr, avdata, s, out, first);
        if typ != TYPE {
          bad := true;
          break;
        }
        if pklen > avdata {
          break;
        }
        avdata := avdata - pklen;
        ptr := ptr + pklen;
        if avdata == 0 {
          break;
        }
      }
      CutLast(s, ptr, out);
    }

    /** The unfinished packet moves to the front; its length is kept in 16 bits. */
    method Keep(ptr: nat, avdata: nat)
      requires Valid() && 0 < avdata && ptr + avdata <= SIZE
      modifies this, buf
      ensures delivered == old(delivered)
      ensures Kept() == if avdata >= SIZE then [] else old(buf[ptr..ptr + avdata])
    {
      ghost var rest := buf[ptr..ptr + avdata];
      Sixteen(avdata);
      oldLen := avdata % 0x1_0000;
      forall i | 0 <= i < avdata {
        buf[i] := buf[ptr + i];
      }
      assert avdata < SIZE ==> buf[..oldLen] == rest;
    }

    /** The buffer part of c6_read. */
    method Read(piece: Bytes)
      requires Valid() && 1 <= |piece| <= SIZE - oldLen
      modifies this, buf
      ensures Valid()
      ensures var c := AfterRead(old(Kept()), piece);
              delivered == old(delivered) + c.packets && Kept() == c.rest
    {
      forall i | 0 <= i < |piece| {
        buf[oldLen + i] := piece[i];
      }
      assert buf[..oldLen + |piece|] == old(Kept()) + piece;
      ParseIndata(|piece|);
    }

    /** A run of reads is the run of the specification. */
    method ReadAll(pieces: seq<Bytes>)
      requires Valid() && Readable(Kept(), pieces)
      modifies this, buf
      ensures Valid()
      ensures var r := Run(old(Kept()), pieces); delivered == old(delivered) + r.0 && Kept() == r.1
    {
      ghost var r := Run(Kept(), pieces);
      for i := 0 to |pieces|
        invariant Valid() && Readable(Kept(), pieces[i..])
        invariant var next := Run(Kept(), pieces[i..]); old(delivered) + r.0 == delivered + next.0 && r.1 == next.1
      {
        RunOn(Kept(), pieces, i);
        ghost var c := AfterRead(Kept(), pieces[i]);
        Reassociate(delivered, c.packets, Run(c.rest, pieces[i + 1..]).0);
        Read(pieces[i]);
      }
    }
  }
}
