/**
 Registration of an IRC client: irc_process_input with the commands of irc/comandi.c,
 and the end of irc_out_welcome in irc/output.c.

 Commands that need the C6 side are kept until its welcome has come and are then
 run in the order they came in.
 */
module Registration {
  import opened Sequences
  import opened Words
  import ArgsSep

  // ----- the command table of irc/cmd_list.gperf -----

  datatype Kind = Pass | Nick | User | Ping | Quit | Squit | List | Deferrable | Unknown

  function Ascii(s: string): Bytes {
    seq(|s|, i requires 0 <= i < |s| => s[i] as int % 0x100)
  }

  function Upper(name: Bytes): Bytes {
    seq(|name|, i requires 0 <= i < |name| => if 97 <= name[i] <= 122 then name[i] - 32 else name[i])
  }

  /** Names are looked up without regard to case. */
  function KindOf(name: Bytes): Kind {
    var n := Upper(name);
    if n == Ascii("PASS") then Pass
    else if n == Ascii("NICK") then Nick
    else if n == Ascii("USER") then User
    else if n == Ascii("PING") then Ping
    else if n == Ascii("QUIT") then Quit
    else if n == Ascii("SQUIT") then Squit
    else if n == Ascii("LIST") then List
    else if n in [Ascii("MODE"), Ascii("PRIVMSG"), Ascii("ISON"), Ascii("JOIN"), Ascii("PART"),
                  Ascii("WHO"), Ascii("AWAY"), Ascii("WHOIS"), Ascii("MAIL")] then Deferrable
    else Unknown
  }

  /** A line, read as a command: its kind and the number of its arguments. */
  predicate Is(line: Bytes, kind: Kind, args: nat) {
    var words := ArgsSep.WordsOf(line);
    |words| > args && KindOf(words[0]) == kind
  }

  /** strlcpy into an array of 32 bytes. */
  function Truncated(s: Bytes): Bytes {
    if |s| > 31 then s[..31] else s
  }

  /** The table in letters: 16 names in any mixture of cases, and nothing else. */
  lemma Commands(name: Bytes, up: Bytes)
    requires |up| == |name|
    requires forall i :: 0 <= i < |name| ==> up[i] == if 97 <= name[i] <= 122 then name[i] - 32 else name[i]
    ensures KindOf(name) ==
            if up == [80, 65, 83, 83] then Pass
            else if up == [78, 73, 67, 75] then Nick
            else if up == [85, 83, 69, 82] then User
            else if up == [80, 73, 78, 71] then Ping
            else if up == [81, 85, 73, 84] then Quit
            else if up == [83, 81, 85, 73, 84] then Squit
            else if up == [76, 73, 83, 84] then List
            else if up in [[77, 79, 68, 69], [80, 82, 73, 86, 77, 83, 71], [73, 83, 79, 78], [74, 79, 73, 78],
                           [80, 65, 82, 84], [87, 72, 79], [65, 87, 65, 89], [87, 72, 79, 73, 83], [77, 65, 73, 76]]
            then Deferrable
            else Unknown
  {
    assert Upper(name) == up;
    InLetters();
    MoreLetters();
  }

  lemma InLetters()
    ensures Ascii("PASS") == [80, 65, 83, 83] && Ascii("NICK") == [78, 73, 67, 75] && Ascii("USER") == [85, 83, 69, 82]
    ensures Ascii("PING") == [80, 73, 78, 71] && Ascii("QUIT") == [81, 85, 73, 84]
    ensures Ascii("SQUIT") == [83, 81, 85, 73, 84] && Ascii("LIST") == [76, 73, 83, 84]
  {
  }

  lemma MoreLetters()
    ensures Ascii("MODE") == [77, 79, 68, 69] && Ascii("PRIVMSG") == [80, 82, 73, 86, 77, 83, 71]
    ensures Ascii("ISON") == [73, 83, 79, 78] && Ascii("JOIN") == [74, 79, 73, 78] && Ascii("PART") == [80, 65, 82, 84]
    ensures Ascii("WHO") == [87, 72, 79] && Ascii("AWAY") == [65, 87, 65, 89]
    ensures Ascii("WHOIS") == [87, 72, 79, 73, 83] && Ascii("MAIL") == [77, 65, 73, 76]
  {
  }

  /** At most 31 bytes are kept, the first ones. */
  lemma Kept31(s: Bytes)
    ensures |Truncated(s)| == (if |s| < 31 then |s| else 31) && Truncated(s) <= s
  {
  }

  // ----- what happened -----

  datatype Event =
    | Ran(line: Bytes)
    | Connect(nick: Bytes, pass: Bytes, user: Bytes)
    | Replied(line: Bytes)
    | Closed

  /** The kept lines that have been run, in order. */
  ghost function Runs(trace: seq<Event>): seq<Bytes> {
    if trace == [] then [] else
      var e := trace[|trace| - 1];
      var runs := Runs(trace[..|trace| - 1]);
      if e.Ran? then runs + [e.line] else runs
  }

  ghost function Connects(trace: seq<Event>): seq<Event> {
    if trace == [] then [] else
      var e := trace[|trace| - 1];
      var connects := Connects(trace[..|trace| - 1]);
      if e.Connect? then connects + [e] else connects
  }

  lemma TraceNext(trace: seq<Event>, e: Event)
    ensures Runs(trace + [e]) == if e.Ran? then Runs(trace) + [e.line] else Runs(trace)
    ensures Connects(trace + [e]) == if e.Connect? then Connects(trace) + [e] else Connects(trace)
  {
    assert (trace + [e])[..|trace|] == trace;
  }

  // ----- what came in -----

  /** The lines among the input that wait for the C6 side. */
  ghost function Deferrables(lines: seq<Bytes>): seq<Bytes> {
    if lines == [] then [] else
      var l := lines[|lines| - 1];
      var kept := Deferrables(lines[..|lines| - 1]);
      if Is(l, Deferrable, 0) then kept + [l] else kept
  }

  /** Some line gave this command with enough arguments. */
  ghost predicate Given(lines: seq<Bytes>, kind: Kind, args: nat) {
    exists l :: l in lines && Is(l, kind, args)
  }

  ghost predicate LoginGiven(lines: seq<Bytes>) {
    Given(lines, Pass, 1) && Given(lines, Nick, 1) && Given(lines, User, 3)
  }

  /** The argument of the last such command that came before the login was complete. */
  ghost function Param(lines: seq<Bytes>, kind: Kind, args: nat): Bytes
    requires args > 0
  {
    if lines == [] then [] else
      var l, before := lines[|lines| - 1], lines[..|lines| - 1];
      if Is(l, kind, args) && !LoginGiven(before) then Truncated(ArgsSep.WordsOf(l)[1]) else Param(before, kind, args)
  }

  lemma LinesNext(lines: seq<Bytes>, l: Bytes)
    ensures forall kind, args :: args > 0 ==>
              Param(lines + [l], kind, args) ==
              if Is(l, kind, args) && !LoginGiven(lines) then Truncated(ArgsSep.WordsOf(l)[1])
              else Param(lines, kind, args)
    ensures Deferrables(lines + [l]) == if Is(l, Deferrable, 0) then Deferrables(lines) + [l] else Deferrables(lines)
    ensures forall kind, args :: Given(lines + [l], kind, args) <==> Given(lines, kind, args) || Is(l, kind, args)
  {
    assert (lines + [l])[..|lines|] == lines;
    assert forall x :: x in lines + [l] <==> x in lines || x == l;
  }

  ghost predicate NotedIn(lines: seq<Bytes>, pass: bool, nick: bool, user: bool,
                          nickName: Bytes, password: Bytes, userName: Bytes) {
    true == (
      && (pass <==> Given(lines, Pass, 1)) && (nick <==> Given(lines, Nick, 1)) && (user <==> Given(lines, User, 3))
      && (pass ==> password == Param(lines, Pass, 1))
      && (nick ==> nickName == Param(lines, Nick, 1))
      && (user ==> userName == Param(lines, User, 3)))
  }

  ghost predicate KeptIn(runs: seq<Bytes>, connects: seq<Event>, queue: seq<Bytes>, deferrables: seq<Bytes>,
                         ready: bool, loggedIn: bool, login: Event) {
    true == (
      && runs + queue == deferrables && (if ready then queue == [] && loggedIn else runs == [])
      && connects == if loggedIn then [login] else [])
  }

  class Session {
    const canSquit: bool
    var pass: bool
    var nick: bool
    var user: bool
    var ready: bool
    var nickName: Bytes
    var password: Bytes
    var userName: Bytes
    var queue: seq<Bytes>
    var open: bool
    var trace: seq<Event>
    ghost var lines: seq<Bytes>

    /** IRC_IS_LOGIN_COMPLETED. */
    predicate LoggedIn()
      reads this
    {
      pass && nick && user
    }

    /** The flags and names record what the lines gave. */
    ghost predicate Noted()
      reads this
    {
      NotedIn(lines, pass, nick, user, nickName, password, userName)
    }

    /** Runs and queue together are the deferrable lines so far; one connect marks the login. */
    ghost predicate Kept()
      reads this
    {
      KeptIn(Runs(trace), Connects(trace), queue, Deferrables(lines), ready, LoggedIn(),
             Connect(nickName, password, userName))
    }

    ghost predicate Valid()
      reads this
    {
      Kept() && Noted()
    }

    constructor (canSquit: bool)
      ensures Valid() && open && !ready && lines == [] && trace == [] && this.canSquit == canSquit
    {
      this.canSquit := canSquit;
      pass, nick, user, ready, open := false, false, false, false, true;
      nickName, password, userName := Ascii("user"), [], [];
      queue, trace, lines := [], [], [];
    }

    method Emit(e: Event)
      modifies this
      ensures trace == old(trace) + [e]
      ensures pass == old(pass) && nick == old(nick) && user == old(user) && ready == old(ready) && open == old(open)
      ensures nickName == old(nickName) && password == old(password) && userName == old(userName)
      ensures queue == old(queue) && lines == old(lines)
      ensures Runs(trace) == if e.Ran? then old(Runs(trace)) + [e.line] else old(Runs(trace))
      ensures Connects(trace) == if e.Connect? then old(Connects(trace)) + [e] else old(Connects(trace))
      ensures old(Noted()) ==> Noted()
      ensures old(Kept()) && !e.Ran? && !e.Connect? ==> Kept()
    {
      TraceNext(trace, e);
      trace := trace + [e];
    }

    /** do_login behind the parameter it is about: connect once all three are there. */
    method Login(kind: Kind, word: Bytes)
      requires (kind == Pass || kind == Nick || kind == User) && !LoggedIn() && Connects(trace) == []
      modifies this
      ensures lines == old(lines) && queue == old(queue) && ready == old(ready) && open == old(open)
      ensures pass == (old(pass) || kind == Pass) && nick == (old(nick) || kind == Nick)
      ensures user == (old(user) || kind == User)
      ensures password == if kind == Pass then Truncated(word) else old(password)
      ensures nickName == if kind == Nick then Truncated(word) else old(nickName)
      ensures userName == if kind == User then Truncated(word) else old(userName)
      ensures Runs(trace) == old(Runs(trace))
      ensures if LoggedIn() then
                var e := Connect(nickName, password, userName); trace == old(trace) + [e] && Connects(trace) == [e]
              else trace == old(trace)
    {
      if kind == Pass {
        password, pass := Truncated(word), true;
      } else if kind == Nick {
        nickName, nick := Truncated(word), true;
      } else {
        userName, user := Truncated(word), true;
      }
      if pass && nick && user {
        Emit(Connect(nickName, password, userName));
        assert [] + [Connect(nickName, password, userName)] == [Connect(nickName, password, userName)];
      }
    }

    /** The next line joins the history. */
    ghost method Note(line: Bytes)
      requires Valid()
      modifies this
      ensures lines == old(lines) + [line]
      ensures pass == old(pass) && nick == old(nick) && user == old(user) && ready == old(ready) && open == old(open)
      ensures nickName == old(nickName) && password == old(password) && userName == old(userName)
      ensures queue == old(queue) && trace == old(trace)
      ensures Deferrables(lines) ==
              if Is(line, Deferrable, 0) then old(Deferrables(lines)) + [line] else old(Deferrables(lines))
      ensures NotedBut(Pass, 1, pass, password, line) && NotedBut(Nick, 1, nick, nickName, line)
      ensures NotedBut(User, 3, user, userName, line)
    {
      LinesNext(lines, line);
      lines := lines + [line];
    }

    /** A flag and its name record the lines but for the last one. */
    ghost predicate NotedBut(kind: Kind, args: nat, given: bool, name: Bytes, line: Bytes)
      requires args > 0
      reads this
    {
      true == (
        && (Given(lines, kind, args) <==> given || Is(line, kind, args))
        && (if Is(line, kind, args) && !LoggedIn() then Param(lines, kind, args) == Truncated(ArgsSep.WordsOf(line)[1])
            else given ==> name == Param(lines, kind, args)))
    }

    /** c_pass, c_nick and c_user. */
    method Register(ghost line: Bytes, kind: Kind, words: seq<Bytes>)
      requires Kept() && open && (kind == Pass || kind == Nick || kind == User) && words == ArgsSep.WordsOf(line)
      requires words != []
      requires NotedBut(Pass, 1, pass, password, line) && NotedBut(Nick, 1, nick, nickName, line)
      requires NotedBut(User, 3, user, userName, line)
      requires forall k, n :: Is(line, k, n) <==> kind == k && |words| > n
      modifies this
      ensures Valid() && lines == old(lines) && open == old(open) && ready == old(ready)
      ensures old(LoggedIn()) || !LoggedIn() ==> Connects(trace) == old(Connects(trace))
      ensures !old(LoggedIn()) && LoggedIn() ==> trace == old(trace) + [Connect(nickName, password, userName)]
      ensures queue == old(queue)
      ensures if old(LoggedIn()) || |words| <= (if kind == User then 3 else 1)
              then trace == old(trace) + [Replied(words[0])]
              else !LoggedIn() ==> trace == old(trace)
    {
      if LoggedIn() {
        Emit(Replied(words[0]));
      } else if |words| <= (if kind == User then 3 else 1) {
        Emit(Replied(words[0]));
      } else {
        Login(kind, words[1]);
      }
    }

    /** ADD_COMMAND: kept until the connection is complete, run at once after that. */
    method Defer(line: Bytes)
      requires Noted() && open && (ready ==> queue == [] && LoggedIn()) && (!ready ==> Runs(trace) == [])
      requires Runs(trace) + queue + [line] == Deferrables(lines)
      requires Connects(trace) == if LoggedIn() then [Connect(nickName, password, userName)] else []
      modifies this
      ensures Valid() && lines == old(lines) && open == old(open) && ready == old(ready)
      ensures LoggedIn() == old(LoggedIn()) && Connects(trace) == old(Connects(trace))
      ensures if ready then trace == old(trace) + [Ran(line)] else queue == old(queue) + [line] && trace == old(trace)
    {
      if !(pass && nick && user && ready) {
        Reassociate(Runs(trace), queue, [line]);
        queue := queue + [line];
        return;
      }
      NoneKept(Runs(trace), [line]);
      Emit(Ran(line));
    }

    /** The commands that leave registration alone. */
    method Other(line: Bytes, kind: Kind)
      requires Valid() && open && kind != Pass && kind != Nick && kind != User && kind != Deferrable
      modifies this
      ensures Valid() && lines == old(lines) && ready == old(ready) && queue == old(queue)
      ensures LoggedIn() == old(LoggedIn()) && Connects(trace) == old(Connects(trace))
      ensures Runs(trace) == old(Runs(trace))
      ensures open == (kind != Quit && !(kind == Squit && canSquit))
      ensures trace == old(trace) + [if open then Replied(line) else Closed]
    {
      if kind == Quit || (kind == Squit && canSquit) {
        Emit(Closed);
        open := false;
      } else {
        Emit(Replied(line));
      }
    }

    /** What one line does: nothing, an answer, the end, or what its command asks for. */
    ghost predicate Answered(line: Bytes, was: bool, before: seq<Event>, kept: seq<Bytes>)
      reads this
    {
      true == (
        var words := ArgsSep.WordsOf(line);
        if words == [] then trace == before && queue == kept else
          match KindOf(words[0])
          case Deferrable =>
            if was && ready then trace == before + [Ran(line)] && queue == kept
            else trace == before && queue == kept + [line]
          case Pass => queue == kept && Counted(words, 1, was, before)
          case Nick => queue == kept && Counted(words, 1, was, before)
          case User => queue == kept && Counted(words, 3, was, before)
          case _ => queue == kept && trace == before + [if open then Replied(line) else Closed])
    }

    /** A parameter that comes too late or without its arguments is answered; the last of three connects. */
    ghost predicate Counted(words: seq<Bytes>, args: nat, was: bool, before: seq<Event>)
      requires words != []
      reads this
    {
      true == if was || |words| <= args then trace == before + [Replied(words[0])]
      else if LoggedIn() then trace == before + [Connect(nickName, password, userName)]
      else trace == before
    }

    /** irc_process_input for a line of the client. */
    method ProcessInput(line: Bytes)
      requires Valid() && open
      modifies this
      ensures Valid() && lines == old(lines) + [line] && ready == old(ready)
      ensures !old(LoggedIn()) && LoggedIn() ==> trace == old(trace) + [Connect(nickName, password, userName)]
      ensures old(LoggedIn()) == LoggedIn() ==> Connects(trace) == old(Connects(trace))
      ensures open == !(Is(line, Quit, 0) || (Is(line, Squit, 0) && canSquit))
      ensures Answered(line, old(LoggedIn()), old(trace), old(queue))
    {
      Note(line);
      var words := ArgsSep.WordsOf(line);
      if words == [] {
        return;
      }
      var kind := KindOf(words[0]);
      assert forall k, n :: Is(line, k, n) <==> kind == k && |words| > n;
      if kind == Pass || kind == Nick || kind == User {
        Register(line, kind, words);
      } else if kind == Deferrable {
        Defer(line);
      } else {
        Other(line, kind);
      }
    }

    /** irc_process_input for a kept line, whose guard lets it through by now. */
    method Replay(line: Bytes)
      requires LoggedIn() && ready && Is(line, Deferrable, 0)
      modifies this
      ensures trace == old(trace) + [Ran(line)] && queue == old(queue) && lines == old(lines) && open == old(open)
      ensures pass == old(pass) && nick == old(nick) && user == old(user) && ready == old(ready)
      ensures nickName == old(nickName) && password == old(password) && userName == old(userName)
      ensures Runs(trace) == old(Runs(trace)) + [line] && Connects(trace) == old(Connects(trace))
    {
      if pass && nick && user && ready {
        Emit(Ran(line));
      }
    }

    /** The end of irc_out_welcome, which comes on a connection that follows the login. */
    method Welcome()
      requires Valid() && open && LoggedIn()
      modifies this
      ensures Valid() && ready && queue == [] && open && lines == old(lines)
      ensures Runs(trace) == Deferrables(lines) && Connects(trace) == old(Connects(trace))
      ensures AllRan(old(trace), old(queue), |old(queue)|)
    {
      ghost var before := Runs(trace);
      DeferrablesAre(lines);
      assert forall i :: 0 <= i < |queue| ==> queue[i] == (before + queue)[|before| + i];
      ready := true;
      ReplayAll();
      assert Runs(trace) + [] == Runs(trace);
    }

    /** Behind what had happened, these lines have been run, and nothing else has happened. */
    ghost predicate AllRan(was: seq<Event>, lines: seq<Bytes>, n: nat)
      reads this
    {
      true == (
        && n <= |lines| && |trace| == |was| + n && was <= trace
        && forall k :: 0 <= k < n ==> trace[|was| + k] == Ran(lines[k]))
    }

    /** The loop over the kept lines; a line's successor is looked up before it is processed. */
    method ReplayAll()
      requires LoggedIn() && ready && forall i :: 0 <= i < |queue| ==> Is(queue[i], Deferrable, 0)
      modifies this
      ensures Runs(trace) == old(Runs(trace)) + old(queue) && queue == []
      ensures AllRan(old(trace), old(queue), |old(queue)|)
      ensures Connects(trace) == old(Connects(trace)) && lines == old(lines) && open == old(open)
      ensures pass == old(pass) && nick == old(nick) && user == old(user) && ready
      ensures nickName == old(nickName) && password == old(password) && userName == old(userName)
    {
      ghost var before := Runs(trace);
      var i := 0;
      while i < |queue|
        invariant i <= |queue| && queue == old(queue) && lines == old(lines) && open == old(open) && ready
        invariant Runs(trace) == before + queue[..i] && Connects(trace) == old(Connects(trace))
        invariant AllRan(old(trace), queue, i)
        invariant nickName == old(nickName) && password == old(password) && userName == old(userName)
        invariant pass == old(pass) && nick == old(nick) && user == old(user)
        decreases |queue| - i
      {
        var more := i + 1 < |queue|;
        Replay(queue[i]);
        OneMore(before, queue, i);
        i := i + 1;
        if !more {
          break;
        }
      }
      assert queue[..i] == queue;
      queue := [];
    }

    /** The lines so far and the welcome, if it has come, are these. */
    ghost predicate Played(inputs: seq<Input>)
      reads this
    {
      true == (lines == LinesOf(inputs) && (ready <==> Welcomed(inputs)))
    }

    /** A run: lines in any order, the welcome only after the login it answers, until the client leaves. */
    method Play(inputs: seq<Input>) returns (n: nat)
      requires Valid() && open && lines == [] && !ready && Orderly(inputs)
      modifies this
      ensures Valid() && n <= |inputs| && (open ==> n == |inputs|) && lines == LinesOf(inputs[..n])
      ensures ready <==> Welcomed(inputs[..n])
      ensures Runs(trace) == if Welcomed(inputs[..n]) then Deferrables(LinesOf(inputs[..n])) else []
      ensures var given := LinesOf(inputs[..n]);
              Connects(trace) == if !LoginGiven(given) then []
                                 else [Connect(Param(given, Nick, 1), Param(given, Pass, 1), Param(given, User, 3))]
    {
      n := 0;
      while n < |inputs| && open
        invariant n <= |inputs| && Valid() && Played(inputs[..n])
        decreases |inputs| - n
      {
        InputsNext(inputs, n);
        PlayOne(inputs[n], inputs[..n], inputs[..n + 1]);
        n := n + 1;
      }
      Outcome();
    }

    method PlayOne(input: Input, ghost before: seq<Input>, ghost now: seq<Input>)
      requires Valid() && open && Played(before) && (input == FromC6 ==> LoginGiven(LinesOf(before)))
      requires LinesOf(now) == if input.Line? then LinesOf(before) + [input.l] else LinesOf(before)
      requires Welcomed(now) <==> Welcomed(before) || input == FromC6
      modifies this
      ensures Valid() && Played(now)
    {
      if input.Line? {
        ProcessInput(input.l);
      } else {
        Outcome();
        Welcome();
      }
    }

    /** What a client and its server have seen. */
    lemma Outcome()
      requires Valid()
      ensures LoggedIn() <==> LoginGiven(lines)
      ensures Runs(trace) == if ready then Deferrables(lines) else []
      ensures Connects(trace) == if !LoginGiven(lines) then []
                                 else [Connect(Param(lines, Nick, 1), Param(lines, Pass, 1), Param(lines, User, 3))]
    {
      assert Runs(trace) + [] == Runs(trace);
    }
  }

  lemma NoneKept(runs: seq<Bytes>, last: seq<Bytes>)
    ensures runs + [] + last == runs + last + []
  {
  }

  lemma OneMore(before: seq<Bytes>, queue: seq<Bytes>, i: nat)
    requires i < |queue|
    ensures before + queue[..i] + [queue[i]] == before + queue[..i + 1]
  {
  }

  lemma {:induction false} DeferrablesAre(lines: seq<Bytes>)
    ensures forall l :: l in Deferrables(lines) ==> Is(l, Deferrable, 0)
    decreases |lines|
  {
    if lines != [] {
      DeferrablesAre(lines[..|lines| - 1]);
    }
  }

  // ----- runs -----

  datatype Input = Line(l: Bytes) | FromC6

  ghost function LinesOf(inputs: seq<Input>): seq<Bytes> {
    if inputs == [] then [] else
      var x, before := inputs[|inputs| - 1], LinesOf(inputs[..|inputs| - 1]);
      if x.Line? then before + [x.l] else before
  }

  ghost predicate Welcomed(inputs: seq<Input>) {
    FromC6 in inputs
  }

  ghost predicate Orderly(inputs: seq<Input>) {
    forall i :: 0 <= i < |inputs| && inputs[i] == FromC6 ==> LoginGiven(LinesOf(inputs[..i]))
  }

  lemma InputsNext(inputs: seq<Input>, n: nat)
    requires n < |inputs|
    ensures LinesOf(inputs[..n + 1]) ==
            if inputs[n].Line? then LinesOf(inputs[..n]) + [inputs[n].l] else LinesOf(inputs[..n])
    ensures Welcomed(inputs[..n + 1]) <==> Welcomed(inputs[..n]) || inputs[n] == FromC6
  {
    assert inputs[..n + 1][..n] == inputs[..n];
    assert inputs[..n + 1] == inputs[..n] + [inputs[n]];
  }
}
