/** src/server.cpp: the read loop of a connection. */
module Server {
  import opened Bytes
  import opened Resp
  import opened RespLaws
  import opened LineLaws

  /** What a connection has dispatched, what it holds back, and whether the server has dropped it
      together with its buffer. */
  datatype Session = Session(commands: seq<seq<Bytes>>, buffer: Bytes, closed: bool)

  const FRESH := Session([], [], false)

  function ToLower(b: byte): byte {
    if 65 <= b <= 90 then b + 32 else b
  }

  /** The command name "quit", in any letter case: its handler asks for the connection to be closed. */
  predicate IsQuit(args: seq<Bytes>) {
    args != [] && |args[0]| == 4
    && ToLower(args[0][0]) == 113 && ToLower(args[0][1]) == 117
    && ToLower(args[0][2]) == 105 && ToLower(args[0][3]) == 116
  }

  function Prepend(commands: seq<seq<Bytes>>, s: Session): Session {
    Session(commands + s.commands, s.buffer, s.closed)
  }

  /** Parsing and dispatching from the front of a buffer until no whole command is left. */
  function Drain(buf: Bytes): Session
    decreases |buf|
  {
    var r := Parse(buf);
    match r.status
    case Incomplete => Session([], buf, false)
    case Error => Session([], [], true)
    case Ok =>
      ParseProgress(buf);
      if IsQuit(r.args) then Session([r.args], [], true)
      else Prepend([r.args], Drain(buf[r.consumed..]))
  }

  /** The bytes of one read event have been appended to what was held back. */
  function Feed(s: Session, chunk: Bytes): Session {
    if s.closed then s else Prepend(s.commands, Drain(s.buffer + chunk))
  }

  function FeedAll(s: Session, chunks: seq<Bytes>): Session
    decreases |chunks|
  {
    if chunks == [] then s else FeedAll(Feed(s, chunks[0]), chunks[1..])
  }

  function Concat(chunks: seq<Bytes>): Bytes {
    if chunks == [] then [] else chunks[0] + Concat(chunks[1..])
  }

  /** No header line read on the way through a stream is blank. */
  predicate StreamClear(buf: Bytes)
    decreases |buf|
  {
    var r := Parse(buf);
    Clear(buf) && (r.status.Ok? && !IsQuit(r.args) ==> (ParseProgress(buf); StreamClear(buf[r.consumed..])))
  }

  // ---------- fragmentation ----------

  /** One turn of the parsing loop. */
  lemma DrainStep(buf: Bytes)
    ensures var r := Parse(buf);
      && (r.status.Ok? ==> 2 <= r.consumed <= |buf|)
      && Drain(buf) == (
        if r.status.Incomplete? then Session([], buf, false)
        else if r.status.Error? then Session([], [], true)
        else if IsQuit(r.args) then Session([r.args], [], true)
        else Prepend([r.args], Drain(buf[r.consumed..])))
  {
    if Parse(buf).status.Ok? {
      ParseProgress(buf);
    }
  }

  lemma DrainNothing()
    ensures Drain([]) == Session([], [], false)
  {
  }

  lemma PrependTwice(a: seq<seq<Bytes>>, b: seq<seq<Bytes>>, s: Session)
    ensures Prepend(a, Prepend(b, s)) == Prepend(a + b, s)
    ensures Prepend([], s) == s
  {
    assert a + (b + s.commands) == a + b + s.commands;
    assert [] + s.commands == s.commands;
  }

  lemma FeedPrepend(commands: seq<seq<Bytes>>, s: Session, t: Bytes)
    ensures Feed(Prepend(commands, s), t) == Prepend(commands, Feed(s, t))
  {
    if !s.closed {
      PrependTwice(commands, s.commands, Drain(s.buffer + t));
    }
  }

  /** One turn of `StreamClear`. */
  lemma StreamClearStep(buf: Bytes)
    ensures var r := Parse(buf);
      && (r.status.Ok? ==> 2 <= r.consumed <= |buf|)
      && (StreamClear(buf) <==> Clear(buf) && (r.status.Ok? && !IsQuit(r.args) ==> StreamClear(buf[r.consumed..])))
  {
    if Parse(buf).status.Ok? {
      ParseProgress(buf);
    }
  }

  /** A whole command at the front is the same command with more bytes behind. */
  lemma PrefixStep(buf: Bytes, t: Bytes)
    requires StreamClear(buf + t) && Parse(buf).status.Ok? && !IsQuit(Parse(buf).args)
    ensures var r := Parse(buf);
      && 2 <= r.consumed <= |buf|
      && var rest := buf[r.consumed..];
         && StreamClear(rest + t) && (StreamClear(rest) ==> StreamClear(buf))
         && Drain(buf) == Prepend([r.args], Drain(rest))
         && Drain(buf + t) == Prepend([r.args], Drain(rest + t))
  {
    hide Parse, Clear, IsQuit, Drain, StreamClear;
    StreamClearStep(buf + t);
    ClearPrefix(buf, t);
    DrainStep(buf);
    DrainStep(buf + t);
    StreamClearStep(buf);
    ParseStable(buf, t);
    assert (buf + t)[Parse(buf).consumed..] == buf[Parse(buf).consumed..] + t;
  }

  /** Nothing at the front to go past: more is needed, or the connection ends here. */
  lemma PrefixStop(buf: Bytes, t: Bytes)
    requires StreamClear(buf + t) && !(Parse(buf).status.Ok? && !IsQuit(Parse(buf).args))
    ensures StreamClear(buf) && (!Drain(buf).closed ==> Drain(buf).buffer == buf)
    ensures Drain(buf + t) == Feed(Drain(buf), t)
  {
    hide Parse, Clear, IsQuit, Drain, StreamClear;
    StreamClearStep(buf + t);
    ClearPrefix(buf, t);
    DrainStep(buf);
    DrainStep(buf + t);
    StreamClearStep(buf);
    if Parse(buf).status.Incomplete? {
      PrependTwice([], [], Drain(buf + t));
    } else {
      ParseStable(buf, t);
    }
  }

  lemma {:induction false} DrainPrefix(buf: Bytes, t: Bytes)
    requires StreamClear(buf + t)
    ensures StreamClear(buf)
    ensures !Drain(buf).closed ==> StreamClear(Drain(buf).buffer + t)
    ensures Drain(buf + t) == Feed(Drain(buf), t)
    decreases |buf|
  {
    hide Parse, IsQuit, Drain, StreamClear;
    var r := Parse(buf);
    if r.status.Ok? && !IsQuit(r.args) {
      PrefixStep(buf, t);
      var rest := buf[r.consumed..];
      DrainPrefix(rest, t);
      FeedPrepend([r.args], Drain(rest), t);
    } else {
      PrefixStop(buf, t);
    }
  }

  /** Two reads make the same session as one read of both, on a stream without blank headers. */
  lemma FeedTwice(s: Session, c1: Bytes, c2: Bytes)
    requires !s.closed ==> StreamClear(s.buffer + c1 + c2)
    ensures Feed(Feed(s, c1), c2) == Feed(s, c1 + c2)
  {
    if !s.closed {
      assert s.buffer + (c1 + c2) == s.buffer + c1 + c2;
      DrainPrefix(s.buffer + c1, c2);
      FeedPrepend(s.commands, Drain(s.buffer + c1), c2);
    }
  }

  /** However a stream is cut into reads, the session is that of a single read. */
  lemma {:induction false} FeedAllOnce(s: Session, chunks: seq<Bytes>)
    requires !s.closed ==> StreamClear(s.buffer + Concat(chunks))
    requires chunks != []
    ensures FeedAll(s, chunks) == Feed(s, Concat(chunks))
    decreases |chunks|
  {
    var c, rest := chunks[0], Concat(chunks[1..]);
    if |chunks| == 1 {
      assert c + [] == c;
    } else {
      var next := Feed(s, c);
      if !s.closed {
        assert s.buffer + (c + rest) == s.buffer + c + rest;
        DrainPrefix(s.buffer + c, rest);
      }
      FeedAllOnce(next, chunks[1..]);
      FeedTwice(s, c, rest);
    }
  }

  /** TCP fragmentation is invisible: two ways of cutting the same stream dispatch the same commands,
      hold back the same bytes and close alike. */
  lemma FragmentationInvisible(chunks: seq<Bytes>, chunks': seq<Bytes>)
    requires chunks != [] && chunks' != [] && Concat(chunks) == Concat(chunks')
    requires StreamClear(Concat(chunks))
    ensures FeedAll(FRESH, chunks) == FeedAll(FRESH, chunks')
  {
    assert [] + Concat(chunks) == Concat(chunks);
    FeedAllOnce(FRESH, chunks);
    FeedAllOnce(FRESH, chunks');
  }

  // ---------- where a stream may be cut ----------

  /** No number read on the way through a stream can still change what is dispatched or refused. */
  predicate StreamSettled(buf: Bytes)
    decreases |buf|
  {
    var r := Parse(buf);
    !r.status.Incomplete? ==>
      && Settled(buf, r.status.Error?)
      && (r.status.Ok? && !IsQuit(r.args) ==> (ParseProgress(buf); StreamSettled(buf[r.consumed..])))
  }

  lemma SettledStep(buf: Bytes)
    ensures var r := Parse(buf);
      && (r.status.Ok? ==> 2 <= r.consumed <= |buf|)
      && (StreamSettled(buf) <==>
            && (!r.status.Incomplete? ==> Settled(buf, r.status.Error?))
            && (r.status.Ok? && !IsQuit(r.args) ==> StreamSettled(buf[r.consumed..])))
  {
    if Parse(buf).status.Ok? {
      ParseProgress(buf);
    }
  }

  lemma {:induction false} SettledCut(buf: Bytes, t: Bytes)
    requires StreamSettled(buf)
    ensures Drain(buf + t) == Feed(Drain(buf), t)
    decreases |buf|
  {
    hide Parse, IsQuit, Drain, StreamSettled, Settled;
    var r := Parse(buf);
    SettledStep(buf);
    DrainStep(buf);
    DrainStep(buf + t);
    match r.status
    case Incomplete => PrependTwice([], [], Drain(buf + t));
    case Error => RefusedStays(buf, t);
    case Ok =>
      SettledFinal(buf, t);
      if !IsQuit(r.args) {
        var rest := buf[r.consumed..];
        assert (buf + t)[r.consumed..] == rest + t;
        SettledCut(rest, t);
        FeedPrepend([r.args], Drain(rest), t);
      }
  }

  lemma FirstSame(args: seq<Bytes>, a: Session, b: Session)
    requires a != b
    ensures Prepend([args], a) != Prepend([args], b)
  {
    assert ([args] + a.commands)[1..] == a.commands && ([args] + b.commands)[1..] == b.commands;
  }

  lemma AnswerShows(buf: Bytes) returns (t: Bytes)
    requires var r := Parse(buf); !r.status.Incomplete? && !Settled(buf, r.status.Error?)
    ensures Drain(buf + t) != Feed(Drain(buf), t)
  {
    hide Parse, IsQuit, Drain, Settled;
    var r := Parse(buf);
    t := UnsettledShows(buf, r.status.Error?);
    DrainStep(buf);
    DrainStep(buf + t);
    if r.status.Ok? {
      assert Feed(Drain(buf), t).commands[0] == r.args;
      assert Parse(buf + t).status.Ok? ==> Drain(buf + t).commands[0] == Parse(buf + t).args;
    }
  }

  lemma {:induction false} UnsettledCut(buf: Bytes) returns (t: Bytes)
    requires !StreamSettled(buf)
    ensures Drain(buf + t) != Feed(Drain(buf), t)
    decreases |buf|
  {
    hide Parse, IsQuit, Drain, StreamSettled, Settled;
    var r := Parse(buf);
    SettledStep(buf);
    if !r.status.Incomplete? && !Settled(buf, r.status.Error?) {
      t := AnswerShows(buf);
    } else {
      var rest := buf[r.consumed..];
      t := UnsettledCut(rest);
      SettledFinal(buf, t);
      assert (buf + t)[r.consumed..] == rest + t;
      DrainStep(buf);
      DrainStep(buf + t);
      FeedPrepend([r.args], Drain(rest), t);
      FirstSame(r.args, Drain(rest + t), Feed(Drain(rest), t));
    }
  }

  /** A cut behind these bytes never shows, whatever bytes follow, exactly when no number read on the way
      through them can still change what is dispatched or refused. */
  lemma CutExact(buf: Bytes)
    ensures (forall t :: Drain(buf + t) == Feed(Drain(buf), t)) <==> StreamSettled(buf)
  {
    hide Drain, StreamSettled, Feed;
    if StreamSettled(buf) {
      forall t
        ensures Drain(buf + t) == Feed(Drain(buf), t)
      {
        SettledCut(buf, t);
      }
    } else {
      var t := UnsettledCut(buf);
    }
  }

  lemma {:induction false} FeedAllLast(s: Session, chunks: seq<Bytes>, c: Bytes)
    ensures FeedAll(s, chunks + [c]) == Feed(FeedAll(s, chunks), c)
    decreases |chunks|
  {
    hide Feed;
    if chunks == [] {
      assert chunks + [c] == [c] && [c][1..] == [];
    } else {
      assert (chunks + [c])[1..] == chunks[1..] + [c];
      FeedAllLast(Feed(s, chunks[0]), chunks[1..], c);
    }
  }

  /** A stream cut only behind such bytes makes the session of a single read, blank headers or not. */
  lemma {:induction false} SettledCutsInvisible(chunks: seq<Bytes>)
    requires chunks != [] && forall k :: 0 < k < |chunks| ==> StreamSettled(Concat(chunks[..k]))
    ensures FeedAll(FRESH, chunks) == Drain(Concat(chunks))
    decreases |chunks|
  {
    hide Drain, StreamSettled;
    var n := |chunks| - 1;
    var front, last := chunks[..n], chunks[n];
    assert chunks == front + [last];
    FeedAllLast(FRESH, front, last);
    ConcatAppend(front, last);
    if n == 0 {
      assert FeedAll(FRESH, front) == FRESH && [] + last == last;
      PrependTwice([], [], Drain(last));
    } else {
      assert forall k :: 0 < k < n ==> front[..k] == chunks[..k];
      SettledCutsInvisible(front);
      SettledCut(Concat(front), last);
    }
  }

  // ---------- a client that sends encoded commands ----------

  function EncodeAll(commands: seq<seq<Bytes>>): Bytes {
    if commands == [] then [] else Encode(commands[0]) + EncodeAll(commands[1..])
  }

  /** What the server makes of a list of commands: all of them up to the first QUIT, which closes. */
  function Served(commands: seq<seq<Bytes>>): Session {
    if commands == [] then FRESH
    else if IsQuit(commands[0]) then Session([commands[0]], [], true)
    else Prepend([commands[0]], Served(commands[1..]))
  }

  lemma {:induction false} DrainEncoded(commands: seq<seq<Bytes>>)
    requires [] !in commands
    ensures Drain(EncodeAll(commands)) == Served(commands) && StreamClear(EncodeAll(commands))
  {
    DrainStep(EncodeAll(commands));
    StreamClearStep(EncodeAll(commands));
    hide Parse, Clear, IsQuit, Drain, StreamClear, Encode;
    if commands == [] {
      ParseNothing();
    } else {
      var first, rest := commands[0], EncodeAll(commands[1..]);
      RoundTrip(first, rest);
      assert (Encode(first) + rest)[|Encode(first)|..] == rest;
      DrainEncoded(commands[1..]);
    }
  }

  lemma ParseNothing()
    ensures Parse([]).status.Incomplete? && Clear([])
  {
  }

  /** Whatever commands a client encodes and however the network cuts their bytes, the server
      dispatches exactly those commands, in order, up to the first QUIT. */
  lemma CommandsArrive(commands: seq<seq<Bytes>>, chunks: seq<Bytes>)
    requires [] !in commands
    requires chunks != [] && Concat(chunks) == EncodeAll(commands)
    ensures FeedAll(FRESH, chunks) == Served(commands)
  {
    DrainEncoded(commands);
    assert [] + Concat(chunks) == Concat(chunks);
    FeedAllOnce(FRESH, chunks);
    PrependTwice([], [], Served(commands));
  }

  /** A buffer that parses, but no longer does with more bytes behind, shows where it was cut. */
  lemma UnstableShows(c: Bytes, c': Bytes)
    requires !Parse(c).status.Incomplete? && Parse(c + c').status.Incomplete?
    ensures FeedAll(FRESH, [c, c']) != FeedAll(FRESH, [c + c'])
  {
    hide Parse, IsQuit, Drain;
    assert [] + c == c && [] + (c + c') == c + c';
    assert [c, c'][1..] == [c'] && [c'][1..] == [] && [c + c'][1..] == [];
    DrainStep(c);
    DrainStep(c + c');
    var first := Feed(FRESH, c);
    assert FeedAll(FRESH, [c, c']) == FeedAll(first, [c']) == FeedAll(Feed(first, c'), []);
    assert FeedAll(FRESH, [c + c']) == FeedAll(Feed(FRESH, c + c'), []);
    assert first.closed || first.commands != [];
  }

  /** The condition is needed, for every blank header: there are bytes to follow it and a place to cut
      them where the cut shows. Once for count lines, once for length lines behind any strings. */
  lemma BlankHeaderVisible(items: seq<Bytes>, h: Bytes)
    requires Blank(h) && HeaderLine(STAR, h) && HeaderLine(DOLLAR, h)
    ensures var c := [STAR] + h + CRLF; FeedAll(FRESH, [c, [NINE]]) != FeedAll(FRESH, [c + [NINE]])
    ensures var c := BlankCommand(items, h); FeedAll(FRESH, [c, [NINE]]) != FeedAll(FRESH, [c + [NINE]])
  {
    BlankCountUnstable(h);
    BlankLengthUnstable(items, h);
    UnstableShows([STAR] + h + CRLF, [NINE]);
    UnstableShows(BlankCommand(items, h), [NINE]);
  }

  /** Nothing but the count line itself can be blank in a stream that begins with that line. */
  predicate ClearBehind(h: Bytes, t: Bytes) {
    var buf := [STAR] + h + CRLF + t;
    var r := Parse(buf);
    CountClear(h, t) && (r.status.Ok? && !IsQuit(r.args) ==> (ParseProgress(buf); StreamClear(buf[r.consumed..])))
  }

  lemma BlankCountShows(h: Bytes)
    requires Blank(h) && HeaderLine(STAR, h)
    ensures var x := [STAR] + h + CRLF;
      && ClearBehind(h, [NINE]) && Concat([x, [NINE]]) == x + [NINE]
      && FeedAll(FRESH, [x, [NINE]]) != FeedAll(FRESH, [x + [NINE]])
  {
    var x := [STAR] + h + CRLF;
    BlankCountUnstable(h);
    UnstableShows(x, [NINE]);
    assert ParseItem([NINE]).status.Incomplete?;
    var nine: Bytes := [NINE];
    assert [x, nine][1..] == [nine] && [nine][1..] == [];
    assert Concat([nine]) == nine + Concat([]) == nine;
    assert Concat([x, nine]) == x + Concat([nine]);
  }

  /** A stream that begins with a count line may be cut anywhere, whatever follows, exactly when that
      line is not blank. */
  lemma FragmentationExact(h: Bytes)
    requires HeaderLine(STAR, h)
    ensures (forall t, chunks :: chunks != [] && Concat(chunks) == [STAR] + h + CRLF + t && ClearBehind(h, t)
               ==> FeedAll(FRESH, chunks) == FeedAll(FRESH, [Concat(chunks)]))
       <==> !Blank(h)
  {
    if Blank(h) {
      BlankCountShows(h);
      var x := [STAR] + h + CRLF;
      assert Concat([x, [NINE]]) == [STAR] + h + CRLF + [NINE];
    } else {
      forall t, chunks | chunks != [] && Concat(chunks) == [STAR] + h + CRLF + t && ClearBehind(h, t)
        ensures FeedAll(FRESH, chunks) == FeedAll(FRESH, [Concat(chunks)])
      {
        CountLine(h, t);
        StreamClearStep(Concat(chunks));
        assert Concat([Concat(chunks)]) == Concat(chunks) + [] == Concat(chunks);
        FragmentationInvisible(chunks, [Concat(chunks)]);
      }
    }
  }

  /** Nothing but its length line can be blank in a stream that begins with these strings of a command. */
  predicate ClearBehindLength(items: seq<Bytes>, n: nat, h: Bytes, t: Bytes) {
    var buf := LengthStream(items, n, h, t);
    var r := Parse(buf);
    && LengthClear(n, h, t)
    && (r.status.Ok? && !IsQuit(r.args) ==> (ParseProgress(buf); StreamClear(buf[r.consumed..])))
  }

  lemma BlankLengthShows(items: seq<Bytes>, n: nat, h: Bytes)
    requires Blank(h) && HeaderLine(DOLLAR, h)
    ensures var x := LengthStream(items, n, h, GAP);
      && x + [NINE] == LengthStream(items, n, h, GAP + [NINE]) && ClearBehindLength(items, n, h, GAP + [NINE])
      && Concat([x, [NINE]]) == x + [NINE] && FeedAll(FRESH, [x, [NINE]]) != FeedAll(FRESH, [x + [NINE]])
  {
    hide Parse, IsQuit, Drain, LengthStream, LengthClear, FeedAll, StreamClear;
    var x, nine: Bytes := LengthStream(items, n, h, GAP), [NINE];
    LengthStreamAppend(items, n, h, GAP, nine);
    LengthUnstable(items, n, h);
    UnstableShows(x, nine);
    assert [x, nine][1..] == [nine] && [nine][1..] == [];
    assert Concat([nine]) == nine + Concat([]) == nine;
    assert Concat([x, nine]) == x + Concat([nine]);
  }

  /** The same for the length line of a string, behind any strings and before any number of them. */
  lemma LengthFragmentationExact(items: seq<Bytes>, n: nat, h: Bytes)
    requires HeaderLine(DOLLAR, h)
    ensures (forall t, chunks ::
               chunks != [] && Concat(chunks) == LengthStream(items, n, h, t) && ClearBehindLength(items, n, h, t)
               ==> FeedAll(FRESH, chunks) == FeedAll(FRESH, [Concat(chunks)]))
       <==> !Blank(h)
  {
    hide Parse, IsQuit, Drain, LengthStream, LengthClear, FeedAll, StreamClear, Clear, Blank;
    if Blank(h) {
      BlankLengthShows(items, n, h);
      var x := LengthStream(items, n, h, GAP);
      assert Concat([x, [NINE]]) == LengthStream(items, n, h, GAP + [NINE]);
    } else {
      forall t, chunks | chunks != [] && Concat(chunks) == LengthStream(items, n, h, t)
                         && ClearBehindLength(items, n, h, t)
        ensures FeedAll(FRESH, chunks) == FeedAll(FRESH, [Concat(chunks)])
      {
        LengthLine(items, n, h, t);
        StreamClearStep(Concat(chunks));
        assert Concat([Concat(chunks)]) == Concat(chunks) + [] == Concat(chunks);
        FragmentationInvisible(chunks, [Concat(chunks)]);
      }
    }
  }

  // ---------- what a session comes to ----------

  /** The command that closes a connection is `quit`, in any letter case. */
  lemma IsQuitMeans(args: seq<Bytes>)
    ensures IsQuit(args) <==>
      args != [] && |args[0]| == 4 && forall i :: 0 <= i < 4 ==>
        args[0][i] == [113, 117, 105, 116][i] || args[0][i] == [81, 85, 73, 84][i]
  {
    if args != [] && |args[0]| == 4 {
      var a := args[0];
      assert forall i :: 0 <= i < 4 ==> (a[i] == [113, 117, 105, 116][i] || a[i] == [81, 85, 73, 84][i]
        <==> ToLower(a[i]) == [113, 117, 105, 116][i]);
    }
  }

  predicate NoQuit(commands: seq<seq<Bytes>>) {
    forall c :: c in commands ==> !IsQuit(c)
  }

  /** All commands are served and the connection stays open, or all up to and including the first QUIT, and
      the connection is closed with nothing held back. */
  lemma {:induction false} ServedMeans(commands: seq<seq<Bytes>>, k: nat)
    ensures NoQuit(commands) ==> Served(commands) == Session(commands, [], false)
    ensures k < |commands| && NoQuit(commands[..k]) && IsQuit(commands[k]) ==>
      Served(commands) == Session(commands[..k + 1], [], true)
  {
    if commands != [] {
      var first, rest := commands[0], commands[1..];
      assert commands == [first] + rest;
      if k > 0 && k < |commands| {
        assert commands[..k] == [first] + rest[..k - 1] && commands[..k + 1] == [first] + rest[..k];
        ServedMeans(rest, k - 1);
      } else {
        assert k == 0 ==> commands[..1] == [first];
        ServedMeans(rest, 0);
      }
    }
  }

  /** Whole commands at the front of a buffer are dispatched, and then the rest is drained. */
  lemma {:induction false} DrainBehind(commands: seq<seq<Bytes>>, t: Bytes)
    requires [] !in commands && NoQuit(commands)
    ensures Drain(EncodeAll(commands) + t) == Prepend(commands, Drain(t))
  {
    hide Parse, Clear, IsQuit, Drain, Encode;
    if commands == [] {
      assert EncodeAll(commands) + t == t;
      PrependTwice([], [], Drain(t));
    } else {
      var first, rest := commands[0], EncodeAll(commands[1..]) + t;
      assert EncodeAll(commands) + t == Encode(first) + rest;
      RoundTrip(first, rest);
      DrainStep(Encode(first) + rest);
      assert (Encode(first) + rest)[|Encode(first)|..] == rest;
      DrainBehind(commands[1..], t);
      PrependTwice([first], commands[1..], Drain(t));
      assert [first] + commands[1..] == commands;
    }
  }

  /** A protocol error closes the connection: the commands before it are dispatched, nothing behind it is,
      and nothing that comes later is. */
  lemma ErrorCloses(commands: seq<seq<Bytes>>, bad: Bytes, later: seq<Bytes>)
    requires [] !in commands && NoQuit(commands) && Parse(bad).status.Error?
    ensures FeedAll(FRESH, [EncodeAll(commands) + bad] + later) == Session(commands, [], true)
  {
    hide Parse, IsQuit, Drain, EncodeAll;
    var c, s := EncodeAll(commands) + bad, Session(commands, [], true);
    DrainBehind(commands, bad);
    DrainStep(bad);
    assert [] + c == c && commands + [] == commands;
    PrependTwice([], [], Drain(c));
    assert ([c] + later)[1..] == later && Feed(FRESH, c) == s;
    ClosedStays(s, later);
  }

  lemma {:induction false} ClosedStays(s: Session, later: seq<Bytes>)
    requires s.closed
    ensures FeedAll(s, later) == s
  {
    if later != [] {
      ClosedStays(s, later[1..]);
    }
  }

  /** An inline command is dispatched as its words. */
  lemma InlineDispatched(words: seq<Bytes>, gaps: seq<nat>, t: Bytes)
    requires words != [] && Spaced(words, gaps) && !IsQuit(words)
    requires var line := Line(words, gaps); line != [] && line[0] != 42 && forall k: nat :: !CrlfAt(line + [13], k)
    ensures Drain(Line(words, gaps) + CRLF + t) == Prepend([words], Drain(t))
  {
    hide Parse, IsQuit, Drain, Line, CrlfAt;
    var line := Line(words, gaps);
    InlineRoundTrip(words, gaps, t);
    DrainStep(line + CRLF + t);
    assert (line + CRLF + t)[|line| + 2..] == t;
  }

  // ---------- one read event ----------

  /** How the receiving loop ended: nothing more to read for now, end of stream, or a failed read. */
  datatype Ending = Drained | EndOfStream | Failed

  /** One call of `handle_read`: an end of stream or a failure drops the connection before anything
      received in the same event is parsed. */
  function Receive(s: Session, pieces: seq<Bytes>, ending: Ending): Session {
    if s.closed then s
    else if ending.Drained? then Feed(s, Concat(pieces))
    else Session(s.commands, [], true)
  }

  /** Bytes that arrive in the same event as the end of the stream are never dispatched; they make a
      difference exactly when what was held back and they begin with a whole command. */
  lemma EndOfStreamDrops(s: Session, pieces: seq<Bytes>)
    requires !s.closed
    ensures Receive(s, pieces, EndOfStream).commands != Receive(Receive(s, pieces, Drained), [], EndOfStream).commands
       <==> Parse(s.buffer + Concat(pieces)).status.Ok?
  {
    hide Parse, IsQuit, Drain;
    DrainStep(s.buffer + Concat(pieces));
    var more := Drain(s.buffer + Concat(pieces)).commands;
    assert |s.commands + more| == |s.commands| + |more|;
  }

  /** An end of stream or a failed read closes the connection and dispatches nothing. */
  lemma EndCloses(s: Session, pieces: seq<Bytes>, ending: Ending)
    requires !s.closed && ending != Drained
    ensures var r := Receive(s, pieces, ending); r.closed && r.commands == s.commands && r.buffer == []
  {
  }

  lemma {:induction false} ConcatAppend(chunks: seq<Bytes>, c: Bytes)
    ensures Concat(chunks + [c]) == Concat(chunks) + c
  {
    if chunks == [] {
      assert chunks + [c] == [c] && [c][1..] == [];
      assert c + [] == [] + c;
    } else {
      assert (chunks + [c])[1..] == chunks[1..] + [c];
      ConcatAppend(chunks[1..], c);
    }
  }

  class Connection {
    var readBuf: Bytes
    var open: bool
    /** The argument vectors handed to `dispatch_command`, in order. */
    var dispatched: seq<seq<Bytes>>

    ghost function Value(): Session
      reads this
    {
      Session(dispatched, if open then readBuf else [], !open)
    }

    constructor ()
      ensures Value() == FRESH
    {
      readBuf, open, dispatched := [], true, [];
    }

    /** The receiving loop. */
    method ReceiveAll(pieces: seq<Bytes>)
      modifies this`readBuf
      ensures readBuf == old(readBuf) + Concat(pieces)
    {
      for i := 0 to |pieces|
        invariant readBuf == old(readBuf) + Concat(pieces[..i])
      {
        ConcatAppend(pieces[..i], pieces[i]);
        assert pieces[..i + 1] == pieces[..i] + [pieces[i]];
        readBuf := readBuf + pieces[i];
      }
      assert pieces[..|pieces|] == pieces;
    }

    /** The parsing loop: it ends because every command takes bytes off the buffer. */
    method DispatchAll()
      requires open
      modifies this
      ensures Value() == Prepend(old(dispatched), Drain(old(readBuf)))
    {
      hide Parse, IsQuit, Drain;
      DrainNothing();
      while readBuf != []
        invariant open && Prepend(old(dispatched), Drain(old(readBuf))) == Prepend(dispatched, Drain(readBuf))
        invariant readBuf == [] ==> Drain(readBuf) == Session([], [], false)
        decreases |readBuf|
      {
        DrainStep(readBuf);
        var result := RespParse(readBuf);
        if result.status.Incomplete? {
          break;
        }
        if result.status.Error? {
          open := false;
          return;
        }
        PrependTwice(dispatched, [result.args], Drain(readBuf[result.consumed..]));
        dispatched := dispatched + [result.args];
        readBuf := readBuf[result.consumed..];
        if IsQuit(result.args) {
          open := false;
          return;
        }
        DrainNothing();
      }
    }

    method HandleRead(pieces: seq<Bytes>, ending: Ending)
      requires open
      modifies this
      ensures Value() == Receive(old(Value()), pieces, ending)
    {
      ReceiveAll(pieces);
      if !ending.Drained? {
        open := false;
        return;
      }
      DispatchAll();
    }
  }
}
