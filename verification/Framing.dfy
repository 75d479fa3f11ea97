/** Cutting a stream that arrives in chunks into lines: the server's frames and the supervisor's redacted stderr. */
module Framing {
  import opened Basics
  import opened Sorting

  // ---- lines of a whole stream -----------------------------------------------------------------

  /** The complete lines of s, each with its newline. */
  function Lines<T(==)>(nl: T, s: seq<T>): seq<seq<T>>
    decreases |s|
  {
    var i := IndexOf(nl, s);
    if i < 0 then [] else [s[..i + 1]] + Lines(nl, s[i + 1..])
  }

  /** What follows the last newline. */
  function Tail<T(==)>(nl: T, s: seq<T>): seq<T>
    decreases |s|
  {
    var i := IndexOf(nl, s);
    if i < 0 then s else Tail(nl, s[i + 1..])
  }

  function Flat<T>(parts: seq<seq<T>>): seq<T> {
    if parts == [] then [] else parts[0] + Flat(parts[1..])
  }

  /** A line ends in its only newline. */
  predicate IsLine<T(==)>(nl: T, line: seq<T>) {
    line != [] && line[|line| - 1] == nl && nl !in line[..|line| - 1]
  }

  lemma IndexAt<T>(nl: T, s: seq<T>, i: nat)
    requires i < |s| && s[i] == nl && nl !in s[..i]
    ensures IndexOf(nl, s) == i
  {
    forall j | 0 <= j < i ensures s[j] != nl { assert s[..i][j] == s[j]; }
  }

  lemma FirstLine<T>(nl: T, line: seq<T>, rest: seq<T>)
    requires IsLine(nl, line)
    ensures Lines(nl, line + rest) == [line] + Lines(nl, rest) && Tail(nl, line + rest) == Tail(nl, rest)
  {
    hide IndexOf;
    var s := line + rest;
    assert s[..|line| - 1] == line[..|line| - 1];
    IndexAt(nl, s, |line| - 1);
    assert s[..|line|] == line && s[|line|..] == rest;
  }

  /** The first line and the others, or no line at all. */
  lemma {:induction false} LinesStep<T>(nl: T, s: seq<T>)
    ensures var i := IndexOf(nl, s);
      if i < 0 then Lines(nl, s) == [] && Tail(nl, s) == s
      else Lines(nl, s) == [s[..i + 1]] + Lines(nl, s[i + 1..]) && Tail(nl, s) == Tail(nl, s[i + 1..])
  {
    hide IndexOf, Lines, Tail;
    LinesUnfold(nl, s);
    TailUnfold(nl, s);
  }

  lemma {:induction false} LinesUnfold<T>(nl: T, s: seq<T>)
    ensures var i := IndexOf(nl, s);
      Lines(nl, s) == if i < 0 then [] else [s[..i + 1]] + Lines(nl, s[i + 1..])
  {
    hide IndexOf;
  }

  lemma {:induction false} TailUnfold<T>(nl: T, s: seq<T>)
    ensures var i := IndexOf(nl, s);
      Tail(nl, s) == if i < 0 then s else Tail(nl, s[i + 1..])
  {
    hide IndexOf;
  }

  lemma FlatStep<T>(first: seq<T>, rest: seq<seq<T>>)
    ensures Flat([first] + rest) == first + Flat(rest)
  {
    assert ([first] + rest)[1..] == rest;
  }

  /** The lines and the tail make up the stream, and each line is one. */
  lemma {:induction false} LinesMakeStream<T>(nl: T, s: seq<T>)
    ensures Flat(Lines(nl, s)) + Tail(nl, s) == s
    ensures forall l | l in Lines(nl, s) :: IsLine(nl, l)
    ensures nl !in Tail(nl, s)
    decreases |s|
  {
    hide IndexOf, Lines, Tail, Flat;
    LinesStep(nl, s);
    var i := IndexOf(nl, s);
    if i >= 0 {
      var line, rest := s[..i + 1], s[i + 1..];
      LinesMakeStream(nl, rest);
      FlatStep(line, Lines(nl, rest));
      assert line[..|line| - 1] == s[..i];
      assert line + (Flat(Lines(nl, rest)) + Tail(nl, rest)) == s;
    } else {
      NothingFlat<T>();
    }
  }

  lemma NothingFlat<T>()
    ensures Flat<T>([]) == []
  {
  }

  /** And nothing else does: this is the only way to cut the stream into lines and a tail without a newline. */
  lemma {:induction false} OnlyCut<T>(nl: T, lines: seq<seq<T>>, tail: seq<T>)
    requires forall l | l in lines :: IsLine(nl, l)
    requires nl !in tail
    ensures Lines(nl, Flat(lines) + tail) == lines && Tail(nl, Flat(lines) + tail) == tail
  {
    hide IndexOf, IsLine, Lines, Tail, Flat;
    if lines == [] {
      NothingFlat<T>();
      assert Flat(lines) + tail == tail;
      NoLine(nl, tail);
    } else {
      var first, rest := lines[0], lines[1..];
      assert lines == [first] + rest;
      OnlyCut(nl, rest, tail);
      FlatStep(first, rest);
      FirstLine(nl, first, Flat(rest) + tail);
      assert Flat(lines) + tail == first + (Flat(rest) + tail);
    }
  }

  lemma NoLine<T>(nl: T, s: seq<T>)
    requires nl !in s
    ensures Lines(nl, s) == [] && Tail(nl, s) == s
  {
    assert forall j | 0 <= j < |s| :: s[j] in s;
  }

  /** Later input leaves the lines already cut alone, and continues the tail. */
  lemma {:induction false} LinesContinue<T>(nl: T, a: seq<T>, b: seq<T>)
    ensures Lines(nl, a + b) == Lines(nl, a) + Lines(nl, Tail(nl, a) + b)
    ensures Tail(nl, a + b) == Tail(nl, Tail(nl, a) + b)
    decreases |a|
  {
    hide IndexOf, Lines, Tail;
    LinesStep(nl, a);
    var i := IndexOf(nl, a);
    if i >= 0 {
      LinesContinue(nl, a[i + 1..], b);
      LineInFront(nl, a, b, i);
    }
  }

  lemma LineInFront<T>(nl: T, a: seq<T>, b: seq<T>, i: nat)
    requires i < |a| && IndexOf(nl, a) == i
    ensures Lines(nl, a + b) == [a[..i + 1]] + Lines(nl, a[i + 1..] + b)
    ensures Tail(nl, a + b) == Tail(nl, a[i + 1..] + b)
  {
    hide IndexOf, Lines, Tail;
    var line, rest := a[..i + 1], a[i + 1..];
    assert line[..|line| - 1] == a[..i];
    assert a + b == line + (rest + b);
    FirstLine(nl, line, rest + b);
  }

  lemma {:induction false} FlatAppend<T>(a: seq<seq<T>>, b: seq<seq<T>>)
    ensures Flat(a + b) == Flat(a) + Flat(b)
  {
    if a == [] {
      assert a + b == b;
    } else {
      assert (a + b)[0] == a[0] && (a + b)[1..] == a[1..] + b;
      FlatAppend(a[1..], b);
    }
  }

  // ---- the server's frames ---------------------------------------------------------------------

  /** The frame on a line: what the trim leaves of it without the newline, if anything. */
  function FrameOn(trim: string -> string, line: string): seq<string> {
    var frame := trim(if line == "" then "" else line[..|line| - 1]);
    if |frame| > 0 then [frame] else []
  }

  function Frames(trim: string -> string, lines: seq<string>): seq<string> {
    if lines == [] then [] else FrameOn(trim, lines[0]) + Frames(trim, lines[1..])
  }

  lemma {:induction false} FramesAppend(trim: string -> string, a: seq<string>, b: seq<string>)
    ensures Frames(trim, a + b) == Frames(trim, a) + Frames(trim, b)
  {
    hide FrameOn;
    if a == [] {
      assert a + b == b;
    } else {
      assert (a + b)[0] == a[0] && (a + b)[1..] == a[1..] + b;
      FramesAppend(trim, a[1..], b);
    }
  }

  /** The frames of everything received so far. */
  function FramesOf(trim: string -> string, stream: string): seq<string> {
    Frames(trim, Lines('\n', stream))
  }

  datatype Reading = Reading(buffer: string, handled: seq<string>)

  function Feed(trim: string -> string, r: Reading, chunk: string): Reading {
    Reading(Tail('\n', r.buffer + chunk), r.handled + FramesOf(trim, r.buffer + chunk))
  }

  function FeedAll(trim: string -> string, chunks: seq<string>): Reading {
    if chunks == [] then Reading("", [])
    else Feed(trim, FeedAll(trim, chunks[..|chunks| - 1]), chunks[|chunks| - 1])
  }

  class FrameReader {
    const trim: string -> string
    var buffer: string
    /** The frames handed on, oldest first. */
    var handled: seq<string>

    constructor (trim: string -> string)
      ensures this.trim == trim && Now() == FeedAll(trim, [])
    {
      this.trim, buffer, handled := trim, "", [];
    }

    function Now(): Reading
      reads this
    {
      Reading(buffer, handled)
    }

    method OnData(chunk: string)
      modifies this
      ensures Now() == Feed(trim, old(Now()), chunk)
    {
      hide FramesOf, IndexOf, Tail, FrameOn;
      ghost var all, before := buffer + chunk, handled;
      buffer := buffer + chunk;
      var idx := IndexOf('\n', buffer);
      while idx >= 0
        invariant idx == IndexOf('\n', buffer)
        invariant handled + FramesOf(trim, buffer) == before + FramesOf(trim, all)
        invariant Tail('\n', buffer) == Tail('\n', all)
        decreases |buffer|
      {
        CutFrame(trim, buffer);
        var line := trim(buffer[..idx]);
        LineFrame(trim, buffer, idx);
        buffer := buffer[idx + 1..];
        if |line| > 0 { handled := handled + [line]; }
        idx := IndexOf('\n', buffer);
      }
      NoFrame(trim, buffer);
    }
  }

  lemma LineFrame(trim: string -> string, buffer: string, i: nat)
    requires i < |buffer|
    ensures FrameOn(trim, buffer[..i + 1]) == if |trim(buffer[..i])| > 0 then [trim(buffer[..i])] else []
  {
    var line := buffer[..i + 1];
    assert line[..|line| - 1] == buffer[..i];
  }

  lemma {:induction false} CutFrame(trim: string -> string, buffer: string)
    requires IndexOf('\n', buffer) >= 0
    ensures var i := IndexOf('\n', buffer);
      && FramesOf(trim, buffer) == FrameOn(trim, buffer[..i + 1]) + FramesOf(trim, buffer[i + 1..])
      && Tail('\n', buffer) == Tail('\n', buffer[i + 1..])
  {
    hide IndexOf, FrameOn, Lines, Tail;
    var i := IndexOf('\n', buffer);
    LinesStep('\n', buffer);
    assert Lines('\n', buffer)[1..] == Lines('\n', buffer[i + 1..]);
  }

  lemma NoFrame(trim: string -> string, buffer: string)
    requires IndexOf('\n', buffer) < 0
    ensures FramesOf(trim, buffer) == [] && Tail('\n', buffer) == buffer
  {
  }

  /** However the stream was cut into chunks, the frames handled are those of the whole stream. */
  lemma {:induction false} ChunksMakeFrames(trim: string -> string, chunks: seq<string>)
    ensures FeedAll(trim, chunks) == Reading(Tail('\n', Flat(chunks)), FramesOf(trim, Flat(chunks)))
  {
    hide IndexOf;
    if chunks == [] {
      NoLine('\n', "");
    } else {
      var earlier, last := chunks[..|chunks| - 1], chunks[|chunks| - 1];
      ChunksMakeFrames(trim, earlier);
      LastPart(chunks);
      var s := Flat(earlier);
      LinesContinue('\n', s, last);
      FramesAppend(trim, Lines('\n', s), Lines('\n', Tail('\n', s) + last));
    }
  }

  lemma LastPart<T>(chunks: seq<seq<T>>)
    requires chunks != []
    ensures Flat(chunks) == Flat(chunks[..|chunks| - 1]) + chunks[|chunks| - 1]
  {
    var earlier, last := chunks[..|chunks| - 1], chunks[|chunks| - 1];
    assert chunks == earlier + [last];
    FlatAppend(earlier, [last]);
    assert Flat([last]) == last + Flat<T>([]);
  }

  /**
   * What is handled of texts sent one to a line, whatever the chunks: each as the trim leaves it, in order, but
   * for those it leaves nothing of.
   */
  lemma {:induction false} TextsSentAreTrimmed(trim: string -> string, sent: seq<string>, chunks: seq<string>)
    requires forall f | f in sent :: '\n' !in f
    requires Flat(chunks) == Flat(Terminated(sent))
    ensures
      var keep := (f: string) => if trim(f) == "" then [] else [trim(f)];
      FeedAll(trim, chunks) == Reading("", Flat(Map(keep, sent)))
  {
    hide IndexOf, IsLine, Flat, Map, Frames, FeedAll, Terminated;
    var lines := Terminated(sent);
    ChunksMakeFrames(trim, chunks);
    TerminatedLines(sent);
    OnlyCut('\n', lines, "");
    assert Flat(lines) + "" == Flat(lines);
    FramesTrimmed(trim, sent);
  }

  lemma {:induction false} FramesTrimmed(trim: string -> string, sent: seq<string>)
    ensures
      Frames(trim, Terminated(sent)) == Flat(Map((f: string) => if trim(f) == "" then [] else [trim(f)], sent))
  {
    var keep := (f: string) => if trim(f) == "" then [] else [trim(f)];
    if sent != [] {
      FramesTrimmed(trim, sent[1..]);
      assert Map(keep, sent)[1..] == Map(keep, sent[1..]);
      var line := Terminated(sent)[0];
      assert line[..|line| - 1] == sent[0];
      assert FrameOn(trim, line) == keep(sent[0]);
    }
  }

  /** Frames that hold no newline, survive the trim and are not empty come back whole, whatever the chunks. */
  lemma {:induction false} FramesSentAreReceived(trim: string -> string, sent: seq<string>, chunks: seq<string>)
    requires forall f | f in sent :: '\n' !in f && f != "" && trim(f) == f
    requires Flat(chunks) == Flat(Terminated(sent))
    ensures FeedAll(trim, chunks) == Reading("", sent)
  {
    hide IndexOf;
    var lines := Terminated(sent);
    ChunksMakeFrames(trim, chunks);
    TerminatedLines(sent);
    OnlyCut('\n', lines, "");
    assert Flat(lines) + "" == Flat(lines);
    FramesOfTerminated(trim, sent);
  }

  function Terminated(sent: seq<string>): (r: seq<string>)
    ensures |r| == |sent|
    ensures forall i | 0 <= i < |r| :: r[i] == sent[i] + "\n"
  {
    if sent == [] then [] else [sent[0] + "\n"] + Terminated(sent[1..])
  }

  lemma TerminatedLines(sent: seq<string>)
    requires forall f | f in sent :: '\n' !in f
    ensures forall l | l in Terminated(sent) :: IsLine('\n', l)
  {
    var lines := Terminated(sent);
    forall l | l in lines ensures IsLine('\n', l) {
      var i :| 0 <= i < |lines| && lines[i] == l;
      assert sent[i] in sent;
      assert l[..|l| - 1] == sent[i];
    }
  }

  lemma {:induction false} FramesOfTerminated(trim: string -> string, sent: seq<string>)
    requires forall f | f in sent :: f != "" && trim(f) == f
    ensures Frames(trim, Terminated(sent)) == sent
  {
    if sent != [] {
      assert forall f | f in sent[1..] :: f in sent;
      FramesOfTerminated(trim, sent[1..]);
      var line := Terminated(sent)[0];
      assert line[..|line| - 1] == sent[0];
      assert sent[0] in sent;
    }
  }

  // ---- the supervisor's stderr -----------------------------------------------------------------

  const NEWLINE: Byte := 10

  /** Each line redacted on its own. */
  function Redacted(redact: Bytes -> Bytes, lines: seq<Bytes>): Bytes {
    if lines == [] then [] else redact(lines[0]) + Redacted(redact, lines[1..])
  }

  lemma {:induction false} RedactedAppend(redact: Bytes -> Bytes, a: seq<Bytes>, b: seq<Bytes>)
    ensures Redacted(redact, a + b) == Redacted(redact, a) + Redacted(redact, b)
  {
    if a == [] {
      assert a + b == b;
    } else {
      assert (a + b)[0] == a[0] && (a + b)[1..] == a[1..] + b;
      RedactedAppend(redact, a[1..], b);
    }
  }

  /** That is, every line is replaced by its redaction, and nothing is added between them. */
  lemma {:induction false} RedactedExactly(redact: Bytes -> Bytes, lines: seq<Bytes>)
    ensures Redacted(redact, lines) == Flat(Map(redact, lines))
  {
    if lines != [] {
      RedactedExactly(redact, lines[1..]);
      assert Map(redact, lines)[1..] == Map(redact, lines[1..]);
    }
  }

  datatype Relay = Relay(buf: Bytes, written: Bytes)

  function Read(redact: Bytes -> Bytes, r: Relay, chunk: Bytes): Relay {
    var all := r.buf + chunk;
    Relay(Tail(NEWLINE, all), r.written + Redacted(redact, Lines(NEWLINE, all)))
  }

  function ReadAll(redact: Bytes -> Bytes, chunks: seq<Bytes>): Relay {
    if chunks == [] then Relay([], [])
    else Read(redact, ReadAll(redact, chunks[..|chunks| - 1]), chunks[|chunks| - 1])
  }

  function Flushed(redact: Bytes -> Bytes, r: Relay): Bytes {
    if r.buf == [] then r.written else r.written + redact(r.buf)
  }

  method IndexNewline(b: Bytes) returns (index: int)
    ensures -1 <= index < |b|
    ensures index >= 0 ==> b[index] == NEWLINE && NEWLINE !in b[..index]
    ensures index < 0 ==> NEWLINE !in b
  {
    for i := 0 to |b|
      invariant NEWLINE !in b[..i]
    {
      if b[i] == NEWLINE { return i; }
      assert b[..i + 1] == b[..i] + [b[i]];
    }
    assert b[..|b|] == b;
    index := -1;
  }

  class StderrRelay {
    const redact: Bytes -> Bytes
    var buf: Bytes
    var written: Bytes

    constructor (redact: Bytes -> Bytes)
      ensures this.redact == redact && Now() == ReadAll(redact, [])
    {
      this.redact, buf, written := redact, [], [];
    }

    function Now(): Relay
      reads this
    {
      Relay(buf, written)
    }

    method OnRead(chunk: Bytes)
      modifies this
      ensures Now() == Read(redact, old(Now()), chunk)
    {
      hide IndexOf, Lines, Tail, Redacted;
      ghost var all, before := buf + chunk, written;
      buf := buf + chunk;
      while true
        invariant written + Redacted(redact, Lines(NEWLINE, buf)) == before + Redacted(redact, Lines(NEWLINE, all))
        invariant Tail(NEWLINE, buf) == Tail(NEWLINE, all)
        decreases |buf|
      {
        var idx := IndexNewline(buf);
        if idx < 0 { break; }
        var line := buf[..idx + 1];
        CutLine(redact, buf, idx);
        written := written + redact(line);
        buf := buf[idx + 1..];
      }
      NoLine(NEWLINE, buf);
      NothingRedacted(redact);
    }

    /** The end of the stream. */
    method Flush()
      modifies this
      ensures Now() == Relay([], Flushed(redact, old(Now())))
    {
      if |buf| == 0 { return; }
      written := written + redact(buf);
      buf := [];
    }
  }

  lemma NothingRedacted(redact: Bytes -> Bytes)
    ensures Redacted(redact, []) == []
  {
  }

  lemma CutLine(redact: Bytes -> Bytes, buf: Bytes, i: nat)
    requires i < |buf| && buf[i] == NEWLINE && NEWLINE !in buf[..i]
    ensures Redacted(redact, Lines(NEWLINE, buf))
         == redact(buf[..i + 1]) + Redacted(redact, Lines(NEWLINE, buf[i + 1..]))
    ensures Tail(NEWLINE, buf) == Tail(NEWLINE, buf[i + 1..])
  {
    hide IndexOf;
    IndexAt(NEWLINE, buf, i);
    assert Lines(NEWLINE, buf)[1..] == Lines(NEWLINE, buf[i + 1..]);
  }

  /** A line reaches the redaction whole, even when a read split it; so does what follows the last newline. */
  lemma {:induction false} ReadsMakeLines(redact: Bytes -> Bytes, chunks: seq<Bytes>)
    ensures ReadAll(redact, chunks) ==
            Relay(Tail(NEWLINE, Flat(chunks)), Redacted(redact, Lines(NEWLINE, Flat(chunks))))
  {
    hide IndexOf;
    if chunks == [] {
      NoLine(NEWLINE, []);
    } else {
      var earlier, last := chunks[..|chunks| - 1], chunks[|chunks| - 1];
      ReadsMakeLines(redact, earlier);
      LastPart(chunks);
      var s := Flat(earlier);
      LinesContinue(NEWLINE, s, last);
      RedactedAppend(redact, Lines(NEWLINE, s), Lines(NEWLINE, Tail(NEWLINE, s) + last));
    }
  }

  /** The output is the redaction of each complete line and of the final partial one, for every cutting. */
  lemma StderrRedactedByLine(redact: Bytes -> Bytes, chunks: seq<Bytes>, lines: seq<Bytes>, last: Bytes)
    requires Flat(chunks) == Flat(lines) + last
    requires (forall l | l in lines :: IsLine(NEWLINE, l)) && NEWLINE !in last
    ensures Flushed(redact, ReadAll(redact, chunks))
         == Flat(Map(redact, lines)) + (if last == [] then [] else redact(last))
  {
    hide IndexOf, IsLine, Lines, Tail, Redacted, Flat, Map;
    RedactedExactly(redact, lines);
    ReadsMakeLines(redact, chunks);
    OnlyCut(NEWLINE, lines, last);
  }
}
