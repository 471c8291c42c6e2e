/**
 Argument splitting and joining of lib/args_sep.c.  Strings are arrays of bytes
 closed by a zero byte; the words of a split stand in one copied buffer.
 */
module ArgsSep {
  import opened Words

  predicate IsSpace(c: byte) {
    c == 32 || c == 10 || c == 9 || c == 13
  }

  // ----- words -----

  /** The length of the run without white space at the front. */
  function Run(s: Bytes): (n: nat)
    ensures n <= |s| && (forall i :: 0 <= i < n ==> !IsSpace(s[i])) && (n < |s| ==> IsSpace(s[n]))
  {
    if s == [] || IsSpace(s[0]) then 0 else 1 + Run(s[1..])
  }

  /** The maximal runs without white space, in order. */
  function WordsOf(s: Bytes): seq<Bytes>
    decreases |s|
  {
    if s == [] then []
    else if IsSpace(s[0]) then WordsOf(s[1..])
    else [s[..Run(s)]] + WordsOf(s[Run(s)..])
  }

  ghost predicate IsWord(w: Bytes) {
    w != [] && forall i :: 0 <= i < |w| ==> !IsSpace(w[i])
  }

  lemma {:induction false} WordsAreWords(s: Bytes)
    ensures forall w :: w in WordsOf(s) ==> IsWord(w)
    decreases |s|
  {
    if s != [] {
      if IsSpace(s[0]) {
        WordsAreWords(s[1..]);
      } else {
        WordsAreWords(s[Run(s)..]);
      }
    }
  }

  lemma RunIs(s: Bytes, n: nat)
    requires n <= |s| && (forall i :: 0 <= i < n ==> !IsSpace(s[i])) && (n < |s| ==> IsSpace(s[n]))
    ensures Run(s) == n
  {
  }

  /** A word and the white space behind it, or nothing behind it. */
  lemma WordFirst(w: Bytes, rest: Bytes)
    requires IsWord(w) && (rest == [] || IsSpace(rest[0]))
    ensures WordsOf(w + rest) == [w] + WordsOf(rest)
  {
    var s := w + rest;
    RunIs(s, |w|);
    assert s[..|w|] == w && s[|w|..] == rest;
  }

  /** Bytes that are no blank, line feed, tabulator or carriage return are one word. */
  lemma OneWord(w: Bytes)
    requires w != [] && forall b :: b in w ==> b != 32 && b != 10 && b != 9 && b != 13
    ensures WordsOf(w) == [w]
  {
    assert forall i :: 0 <= i < |w| ==> w[i] in w;
    WordFirst(w, []);
    assert w + [] == w;
  }

  /** One of those four ends the words in front of it, wherever it stands. */
  lemma {:induction false} Apart(a: Bytes, c: byte, b: Bytes)
    requires c == 32 || c == 10 || c == 9 || c == 13
    ensures WordsOf(a + [c] + b) == WordsOf(a) + WordsOf(b)
    decreases |a|
  {
    if a == [] {
      assert (a + [c] + b)[1..] == b;
    } else if IsSpace(a[0]) {
      assert (a + [c] + b)[1..] == a[1..] + [c] + b;
      Apart(a[1..], c, b);
    } else {
      var n := Run(a);
      var w, rest := a[..n], a[n..];
      Apart(rest, c, b);
      WordFirst(w, rest + [c] + b);
      assert a + [c] + b == w + (rest + [c] + b);
      assert [w] + (WordsOf(rest) + WordsOf(b)) == [w] + WordsOf(rest) + WordsOf(b);
    }
  }

  /** args_join: a space between the words. */
  ghost function Joined(ws: seq<Bytes>): Bytes {
    if ws == [] then [] else if |ws| == 1 then ws[0] else ws[0] + [32] + Joined(ws[1..])
  }

  lemma JoinedMore(w: Bytes, ws: seq<Bytes>)
    ensures Joined([w]) == w && (ws != [] ==> Joined([w] + ws) == w + [32] + Joined(ws))
  {
    assert ([w] + ws)[1..] == ws;
  }

  /** Splitting a joined list gives the list back. */
  lemma {:induction false} SplitJoined(ws: seq<Bytes>)
    requires forall i :: 0 <= i < |ws| ==> IsWord(ws[i])
    ensures WordsOf(Joined(ws)) == ws
    decreases |ws|
  {
    if |ws| == 1 {
      WordFirst(ws[0], []);
      assert ws[0] + [] == ws[0];
    } else if |ws| > 1 {
      var rest: Bytes := [32] + Joined(ws[1..]);
      WordFirst(ws[0], rest);
      assert rest[1..] == Joined(ws[1..]);
      assert Joined(ws) == ws[0] + rest;
      SplitJoined(ws[1..]);
    }
  }

  // ----- the counting pass -----

  /** The words that a scan standing in or outside a word still has to count. */
  ghost function Uncounted(s: Bytes, inside: bool): seq<Bytes> {
    WordsOf(if inside then s[Run(s)..] else s)
  }

  lemma CountNext(s: Bytes, inside: bool)
    requires s != []
    ensures IsSpace(s[0]) ==> Uncounted(s, inside) == Uncounted(s[1..], false)
    ensures !IsSpace(s[0]) && inside ==> Uncounted(s, inside) == Uncounted(s[1..], true)
    ensures !IsSpace(s[0]) && !inside ==> |Uncounted(s, inside)| == 1 + |Uncounted(s[1..], true)|
  {
    var t := s[1..];
    if !IsSpace(s[0]) {
      assert Run(s) == 1 + Run(t) && s[Run(s)..] == t[Run(t)..];
    }
  }

  /** The first loop of args_sep. */
  method Count(str: Bytes) returns (argc: nat)
    ensures argc == |WordsOf(str)|
  {
    argc := 0;
    var inside := false;
    for p := 0 to |str|
      invariant argc + |Uncounted(str[p..], inside)| == |WordsOf(str)|
    {
      assert str[p..][1..] == str[p + 1..];
      CountNext(str[p..], inside);
      if IsSpace(str[p]) {
        inside := false;
      } else {
        if !inside {
          argc := argc + 1;
        }
        inside := true;
      }
    }
  }

  // ----- the separating pass -----

  /** The C string at a place of a buffer. */
  ghost predicate StringAt(buf: array<byte>, at: nat, s: Bytes)
    reads buf
  {
    at + |s| < buf.Length && (forall i :: 0 <= i < |s| ==> buf[at + i] == s[i]) && buf[at + |s|] == 0
  }

  /** Where the separation stands: done words lead in, the rest of the string follows from p. */
  ghost predicate Separating(str: Bytes, done: seq<Bytes>, rest: Bytes) {
    true == (WordsOf(str) == done + WordsOf(rest))
  }

  lemma SeparateNext(str: Bytes, done: seq<Bytes>, rest: Bytes, n: nat)
    requires Separating(str, done, rest) && n == Run(rest)
    ensures n == 0 ==> Separating(str, done, if rest == [] then [] else rest[1..])
    ensures n > 0 ==> Separating(str, done + [rest[..n]], if n == |rest| then [] else rest[n + 1..])
    ensures n > 0 ==> IsWord(rest[..n])
  {
    if n > 0 {
      var tail := rest[n..];
      assert done + ([rest[..n]] + WordsOf(tail)) == (done + [rest[..n]]) + WordsOf(tail);
      if n < |rest| {
        assert tail[1..] == rest[n + 1..];
      }
    }
  }

  /** strsep with the white space as delimiters; p is the place after the token, or the end. */
  method Strsep(buf: array<byte>, p0: nat, ghost rest: Bytes) returns (n: nat, p: nat, over: bool)
    requires StringAt(buf, p0, rest) && 0 !in rest
    modifies buf
    ensures n == Run(rest) && p == p0 + n + 1 && (over <==> n == |rest|)
    ensures StringAt(buf, p0, rest[..n])
    ensures !over ==> StringAt(buf, p, rest[n + 1..])
    ensures forall i :: 0 <= i < buf.Length && i != p0 + n ==> buf[i] == old(buf[i])
  {
    n := 0;
    while buf[p0 + n] != 0 && !IsSpace(buf[p0 + n])
      invariant n <= |rest| && forall i :: 0 <= i < n ==> !IsSpace(rest[i])
      decreases |rest| - n
    {
      n := n + 1;
    }
    assert n < |rest| ==> buf[p0 + n] == rest[n] && rest[n] in rest;
    RunIs(rest, n);
    over := buf[p0 + n] == 0;
    buf[p0 + n] := 0;
    p := p0 + n + 1;
  }

  /** The words found so far stand in the buffer, in front of place p. */
  ghost predicate Placed(buf: array<byte>, argv: seq<nat>, done: seq<Bytes>, p: nat)
    reads buf
  {
    |argv| == |done| && forall k :: 0 <= k < |done| ==> argv[k] + |done[k]| < p && StringAt(buf, argv[k], done[k])
  }

  /** strsep behind the words found so far, which it leaves alone. */
  method Token(buf: array<byte>, ghost argv: seq<nat>, p0: nat, ghost done: seq<Bytes>, ghost rest: Bytes)
    returns (n: nat, p: nat, over: bool)
    requires StringAt(buf, p0, rest) && 0 !in rest && Placed(buf, argv, done, p0)
    modifies buf
    ensures n == Run(rest) && p == p0 + n + 1 && (over <==> n == |rest|) && p <= buf.Length
    ensures StringAt(buf, p0, rest[..n]) && (!over ==> StringAt(buf, p, rest[n + 1..]))
    ensures Placed(buf, argv, done, p) && Placed(buf, argv + [p0], done + [rest[..n]], p)
  {
    n, p, over := Strsep(buf, p0, rest);
  }

  /** args_sep: the words of str; the two passes agree, so the error exit is never taken. */
  method Separate(str: Bytes) returns (ok: bool, argv: seq<nat>, buf: array<byte>)
    requires 0 !in str
    ensures ok && fresh(buf) && Placed(buf, argv, WordsOf(str), buf.Length)
  {
    var argc := Count(str);
    buf := new byte[|str| + 1](i => 0);
    forall i | 0 <= i < |str| {
      buf[i] := str[i];
    }
    argv := [];
    var p: nat := 0;
    var over := false;
    ghost var done, rest := [], str;
    while |argv| < argc
      invariant |argv| <= argc == |WordsOf(str)| && Separating(str, done, rest) && 0 !in rest
      invariant p <= buf.Length && Placed(buf, argv, done, p)
      invariant if over then rest == [] else StringAt(buf, p, rest)
      decreases |rest|, !over
    {
      if over {
        break;
      }
      var token := p;
      var n: nat;
      n, p, over := Token(buf, argv, p, done, rest);
      SeparateNext(str, done, rest, n);
      if n != 0 {
        argv := argv + [token];
        done := done + [rest[..n]];
      }
      rest := if over then [] else rest[n + 1..];
    }
    ok := argc == |argv|;
    AllFound(str, done, rest);
  }

  lemma AllFound(str: Bytes, done: seq<Bytes>, rest: Bytes)
    requires Separating(str, done, rest)
    ensures rest == [] || |done| >= |WordsOf(str)| ==> done == WordsOf(str)
  {
    assert done + [] == done;
  }

  // ----- joining -----

  /** strlen and a space for every word. */
  ghost function Total(ws: seq<Bytes>): nat {
    if ws == [] then 0 else |ws[0]| + 1 + Total(ws[1..])
  }

  /** Every word with a space behind it. */
  ghost function Spaced(ws: seq<Bytes>): (s: Bytes)
    ensures |s| == Total(ws)
  {
    if ws == [] then [] else ws[0] + [32] + Spaced(ws[1..])
  }

  lemma {:induction false} SpacedJoined(ws: seq<Bytes>)
    requires ws != []
    ensures Spaced(ws) == Joined(ws) + [32]
    decreases |ws|
  {
    if |ws| > 1 {
      SpacedJoined(ws[1..]);
    } else {
      assert Spaced(ws[1..]) == [];
    }
  }

  /** The words before place i are copied; the rest follows. */
  ghost predicate Joining(ws: seq<Bytes>, i: nat, done: Bytes) {
    true == (i <= |ws| && Spaced(ws) == done + Spaced(ws[i..]))
  }

  lemma JoinNext(ws: seq<Bytes>, i: nat, done: Bytes)
    requires Joining(ws, i, done) && i < |ws|
    ensures Joining(ws, i + 1, done + (ws[i] + [32])) && |done| + |ws[i]| + 1 <= Total(ws)
  {
    assert ws[i..][1..] == ws[i + 1..];
    assert done + (ws[i] + [32] + Spaced(ws[i + 1..])) == done + (ws[i] + [32]) + Spaced(ws[i + 1..]);
  }

  /** args_join: the last space gives way to the closing zero byte; with no word there is no place for it. */
  method Join(ws: seq<Bytes>) returns (str: array<byte>, underrun: bool)
    ensures fresh(str) && (underrun <==> ws == [])
    ensures !underrun ==> StringAt(str, 0, Joined(ws)) && str.Length == |Joined(ws)| + 1
  {
    var totlen := 0;
    assert ws[0..] == ws;
    for i := 0 to |ws|
      invariant totlen + Total(ws[i..]) == Total(ws)
    {
      assert ws[i..][1..] == ws[i + 1..];
      totlen := totlen + (|ws[i]| + 1);
    }
    if ws != [] {
      SpacedJoined(ws);
    }
    str := new byte[totlen](i => 0);
    var p: nat := 0;
    for i := 0 to |ws|
      invariant p <= totlen && Joining(ws, i, str[..p])
    {
      JoinNext(ws, i, str[..p]);
      p := Append(str, p, ws[i]);
    }
    assert str[..p] + [] == str[..p];
    underrun := totlen == 0;
    if !underrun {
      str[totlen - 1] := 0;
    }
  }

  method Append(str: array<byte>, p0: nat, w: Bytes) returns (p: nat)
    requires p0 + |w| < str.Length
    modifies str
    ensures p == p0 + |w| + 1 && str[..p] == old(str[..p0]) + (w + [32])
  {
    forall i | 0 <= i < |w| {
      str[p0 + i] := w[i];
    }
    str[p0 + |w|] := 32;
    p := p0 + |w| + 1;
  }
}
