/** The redacting log writer and the buffer it mirrors lines into:
    crates/rdt-logging/src/redact_writer.rs and buffer.rs.

    Chunks arrive as text and the sink never fails; the time stamp of an entry
    is not part of it. */
module LogWriter {
  import opened Basics
  import opened Text
  import opened Redact
  import opened RedactTheorems

  datatype LogEntry = LogEntry(level: string, target: string, message: string)

  /** The most recent entries, and how many older ones were discarded. */
  class LogBuffer {
    var entries: seq<LogEntry>
    const capacity: nat
    var dropped: nat

    ghost predicate Valid()
      reads this
    {
      |entries| <= capacity
    }

    constructor (capacity: nat)
      ensures Valid() && this.capacity == capacity && entries == [] && dropped == 0
    {
      this.capacity := capacity;
      entries, dropped := [], 0;
    }

    method Push(entry: LogEntry)
      requires Valid()
      modifies this
      ensures Valid() && entries == LastN(old(entries) + [entry], capacity)
      ensures dropped == if capacity == 0 then old(dropped) else old(dropped) + |old(entries)| + 1 - |entries|
    {
      if capacity == 0 {
        return;
      }
      ghost var k := 0;
      while |entries| >= capacity
        invariant k <= |old(entries)| && entries == old(entries)[k..] && dropped == old(dropped) + k
        invariant k > 0 ==> |entries| == capacity - 1
      {
        entries := entries[1..];
        dropped := dropped + 1;
        k := k + 1;
      }
      entries := entries + [entry];
    }

    method Clear()
      modifies this`entries
      ensures Valid() && entries == []
    {
      entries := [];
    }
  }

  // ----- What a text becomes -------------------------------------------------

  /** `trim_end_matches(['\n', '\r'])` */
  function TrimEol(line: string): string {
    if line != "" && (line[|line| - 1] == '\n' || line[|line| - 1] == '\r') then TrimEol(line[..|line| - 1]) else line
  }

  /** What is trimmed off is every line feed and carriage return at the end, and nothing before them. */
  lemma {:induction false} TrimmedEnd(line: string)
    ensures TrimEol(line) <= line
    ensures forall i :: |TrimEol(line)| <= i < |line| ==> line[i] == '\n' || line[i] == '\r'
    ensures TrimEol(line) != "" ==> line[|TrimEol(line)| - 1] != '\n' && line[|TrimEol(line)| - 1] != '\r'
  {
    if line != "" && (line[|line| - 1] == '\n' || line[|line| - 1] == '\r') {
      TrimmedEnd(line[..|line| - 1]);
    }
  }

  /** The lines of a text that a line feed has ended. */
  function Complete(text: string): seq<string> {
    var fields := SplitOn(text, '\n');
    fields[..|fields| - 1]
  }

  /** What follows the last line feed. */
  function Tail(text: string): (tail: string)
    ensures '\n' !in tail
  {
    var fields := SplitOn(text, '\n');
    fields[|fields| - 1]
  }

  /** What the sink receives for one line. */
  function Emitted(secrets: seq<string>, line: string): string
    requires Registered(secrets)
  {
    (if TrimEol(line) == "" then "" else RedactWith(secrets, TrimEol(line))) + "\n"
  }

  function SinkOf(secrets: seq<string>, lines: seq<string>): string
    requires Registered(secrets)
  {
    if lines == [] then "" else Emitted(secrets, lines[0]) + SinkOf(secrets, lines[1..])
  }

  /** The messages mirrored: one for each line that is not empty. */
  function Mirrored(secrets: seq<string>, lines: seq<string>): seq<string>
    requires Registered(secrets)
  {
    if lines == [] then []
    else (if TrimEol(lines[0]) == "" then [] else [RedactWith(secrets, TrimEol(lines[0]))]) + Mirrored(secrets, lines[1..])
  }

  lemma {:induction false} LinesAppend(secrets: seq<string>, a: seq<string>, line: string)
    requires Registered(secrets)
    ensures SinkOf(secrets, a + [line]) == SinkOf(secrets, a) + Emitted(secrets, line)
    ensures Mirrored(secrets, a + [line])
         == Mirrored(secrets, a) + (if TrimEol(line) == "" then [] else [RedactWith(secrets, TrimEol(line))])
    decreases |a|
  {
    hide Emitted, TrimEol, RedactWith, Registered, SinkOf, Mirrored;
    var shown := if TrimEol(line) == "" then [] else [RedactWith(secrets, TrimEol(line))];
    if a == [] {
      assert a + [line] == [line] + [];
      NoLines(secrets);
      LinesCons(secrets, line, []);
      assert Emitted(secrets, line) + "" == "" + Emitted(secrets, line) && shown + [] == [] + shown;
    } else {
      var tail := a[1..];
      assert a == [a[0]] + tail && a + [line] == [a[0]] + (tail + [line]);
      LinesAppend(secrets, tail, line);
      LinesCons(secrets, a[0], tail);
      LinesCons(secrets, a[0], tail + [line]);
      AppendAssociates(Emitted(secrets, a[0]), SinkOf(secrets, tail), Emitted(secrets, line));
      var first := if TrimEol(a[0]) == "" then [] else [RedactWith(secrets, TrimEol(a[0]))];
      AppendAssociates(first, Mirrored(secrets, tail), shown);
    }
  }

  lemma NoLines(secrets: seq<string>)
    requires Registered(secrets)
    ensures SinkOf(secrets, []) == "" && Mirrored(secrets, []) == []
  {
  }

  lemma LinesCons(secrets: seq<string>, line: string, more: seq<string>)
    requires Registered(secrets)
    ensures SinkOf(secrets, [line] + more) == Emitted(secrets, line) + SinkOf(secrets, more)
    ensures Mirrored(secrets, [line] + more)
         == (if TrimEol(line) == "" then [] else [RedactWith(secrets, TrimEol(line))]) + Mirrored(secrets, more)
  {
    hide Emitted, TrimEol, RedactWith;
    assert ([line] + more)[1..] == more;
  }

  // ----- Cutting at line feeds -----------------------------------------------

  /** One character more in front. */
  lemma CompleteCons(c: char, text: string)
    ensures var lines := Complete(text);
            && Complete([c] + text) == (if c == '\n' then [""] + lines
                                        else if lines == [] then [] else [[c] + lines[0]] + lines[1..])
            && Tail([c] + text) == (if c == '\n' || lines != [] then Tail(text) else [c] + Tail(text))
            && SplitOn(text, '\n') == lines + [Tail(text)]
  {
    hide SplitOn;
    SplitUnfolds(c, text);
    var rest := SplitOn(text, '\n');
    ChopFront("", rest);
    ChopFirst(c, rest);
  }

  lemma SplitUnfolds(c: char, text: string)
    ensures var rest := SplitOn(text, '\n');
            SplitOn([c] + text, '\n') == if c == '\n' then [""] + rest else [[c] + rest[0]] + rest[1..]
  {
    var whole := [c] + text;
    assert whole[1..] == text && whole[0] == c;
  }

  lemma ChopFront(x: string, rest: seq<string>)
    requires rest != []
    ensures var all := [x] + rest;
            all[..|all| - 1] == [x] + rest[..|rest| - 1] && all[|all| - 1] == rest[|rest| - 1]
    ensures rest == rest[..|rest| - 1] + [rest[|rest| - 1]]
  {
  }

  lemma ChopFirst(c: char, rest: seq<string>)
    requires rest != []
    ensures var all, init := [[c] + rest[0]] + rest[1..], rest[..|rest| - 1];
            && all[..|all| - 1] == (if init == [] then [] else [[c] + init[0]] + init[1..])
            && all[|all| - 1] == (if init == [] then [c] + rest[0] else rest[|rest| - 1])
  {
    var all, init := [[c] + rest[0]] + rest[1..], rest[..|rest| - 1];
    if init != [] {
      assert rest[1..][..|rest| - 2] == init[1..];
    }
  }

  lemma {:induction false} SplitAppend(a: string, b: string)
    requires Tail(a) == ""
    ensures Complete(a + b) == Complete(a) + Complete(b) && Tail(a + b) == Tail(b)
    decreases |a|
  {
    hide SplitOn, Complete, Tail;
    if a == "" {
      assert a + b == b;
      NothingComplete();
      assert [] + Complete(b) == Complete(b);
    } else {
      assert a == [a[0]] + a[1..] && a + b == [a[0]] + (a[1..] + b);
      CompleteCons(a[0], a[1..]);
      CompleteCons(a[0], a[1..] + b);
      SplitAppend(a[1..], b);
      ConsOnto(a[0], Complete(a[1..]), Complete(b));
    }
  }

  lemma NothingComplete()
    ensures Complete("") == [] && Tail("") == ""
  {
  }

  lemma ConsOnto(c: char, x: seq<string>, y: seq<string>)
    ensures [""] + (x + y) == [""] + x + y
    ensures x != [] ==> [[c] + (x + y)[0]] + (x + y)[1..] == [[c] + x[0]] + x[1..] + y
  {
  }

  /** After complete lines, one more line, or a tail. */
  lemma CompleteAppend(done: string, line: string)
    requires Tail(done) == "" && '\n' !in line
    ensures Complete(done + (line + "\n")) == Complete(done) + [line] && Tail(done + (line + "\n")) == ""
    ensures Complete(done + line) == Complete(done) && Tail(done + line) == line
  {
    OneLine(line);
    SplitAppend(done, line + "\n");
    SplitAppend(done, line);
    assert Complete(done) + [] == Complete(done);
  }

  lemma OneLine(line: string)
    requires '\n' !in line
    ensures Complete(line + "\n") == [line] && Tail(line + "\n") == ""
    ensures Complete(line) == [] && Tail(line) == line
  {
    SplitCons(line, "", '\n');
    assert line + ['\n'] + "" == line + "\n";
    assert SplitOn("", '\n') == [""];
  }

  /** The tail can be cut off again. */
  lemma {:induction false} CutTail(text: string) returns (done: string)
    ensures text == done + Tail(text) && Tail(done) == "" && Complete(done) == Complete(text)
    decreases |text|
  {
    hide SplitOn, Complete, Tail;
    NothingComplete();
    if text == "" {
      done := "";
    } else {
      var rest := CutTail(text[1..]);
      CutOne(text[0], text[1..], rest);
      done := if text[0] == '\n' || Complete(text[1..]) != [] then [text[0]] + rest else "";
      assert text == [text[0]] + text[1..];
    }
  }

  lemma CutOne(c: char, more: string, rest: string)
    requires more == rest + Tail(more) && Tail(rest) == "" && Complete(rest) == Complete(more)
    ensures if c == '\n' || Complete(more) != []
            then [c] + more == ([c] + rest) + Tail([c] + more) && Tail([c] + rest) == ""
                 && Complete([c] + rest) == Complete([c] + more)
            else Complete([c] + more) == [] && [c] + more == "" + Tail([c] + more)
  {
    hide SplitOn, Complete, Tail;
    CompleteCons(c, more);
    CompleteCons(c, rest);
    if c == '\n' || Complete(more) != [] {
      AppendAssociates([c], rest, Tail(more));
    } else {
      NoLineNoText(rest);
      assert "" + Tail(more) == Tail(more);
      assert "" + Tail([c] + more) == Tail([c] + more);
    }
  }

  lemma NoLineNoText(text: string)
    requires Tail(text) == "" && Complete(text) == []
    ensures text == ""
  {
    JoinSplit(text, '\n');
    assert SplitOn(text, '\n') == [""];
  }

  // ----- What a write and a flush make of the sink ---------------------------

  datatype Stream = Stream(sink: string, pending: string)

  /** A chunk completes lines, which go out redacted. */
  function Wrote(secrets: seq<string>, st: Stream, chunk: string): Stream
    requires Registered(secrets)
  {
    Stream(st.sink + SinkOf(secrets, Complete(st.pending + chunk)), Tail(st.pending + chunk))
  }

  /** A chunk without a line feed is only held back; one with a line feed sends out what is held and what comes before
      the first, redacted as one line, and goes on behind it. */
  lemma WriteMeaning(secrets: seq<string>, st: Stream, front: string, rest: string)
    requires Registered(secrets) && '\n' !in st.pending && '\n' !in front
    ensures Wrote(secrets, st, front) == Stream(st.sink, st.pending + front)
    ensures var line := TrimEol(st.pending + front);
            Wrote(secrets, st, front + "\n" + rest)
            == Wrote(secrets, Stream(st.sink + (if line == "" then "" else RedactWith(secrets, line)) + "\n", ""), rest)
  {
    hide Complete, Tail, Registered, Emitted, SinkOf;
    var line := st.pending + front;
    OneLine(line);
    NoLines(secrets);
    assert st.sink + "" == st.sink;
    assert st.pending + (front + "\n" + rest) == (line + "\n") + rest && "" + rest == rest;
    SplitAppend(line + "\n", rest);
    LinesCons(secrets, line, Complete(rest));
    AppendAssociates(st.sink, Emitted(secrets, line), SinkOf(secrets, Complete(rest)));
    EmittedAfter(secrets, st.sink, line);
  }

  lemma EmittedAfter(secrets: seq<string>, sink: string, line: string)
    requires Registered(secrets)
    ensures var trimmed := TrimEol(line);
            sink + Emitted(secrets, line) == sink + (if trimmed == "" then "" else RedactWith(secrets, trimmed)) + "\n"
  {
    hide RedactWith, TrimEol;
  }

  /** What a flush sends out: the pending text, redacted on its own. */
  function Residue(secrets: seq<string>, pending: string): string
    requires Registered(secrets)
  {
    if pending == "" then "" else RedactWith(secrets, TrimEol(pending))
  }

  function Flushed(secrets: seq<string>, st: Stream): Stream
    requires Registered(secrets)
  {
    Stream(st.sink + Residue(secrets, st.pending), "")
  }

  lemma {:induction false} SinkConcat(secrets: seq<string>, a: seq<string>, b: seq<string>)
    requires Registered(secrets)
    ensures SinkOf(secrets, a + b) == SinkOf(secrets, a) + SinkOf(secrets, b)
    decreases |a|
  {
    hide Emitted, Registered;
    if a == [] {
      assert a + b == b;
    } else {
      assert (a + b)[1..] == a[1..] + b;
      SinkConcat(secrets, a[1..], b);
    }
  }

  /** Writing on from a tail is writing on from the whole text. */
  lemma WriteGoesOn(secrets: seq<string>, flushed: string, written: string, chunk: string)
    requires Registered(secrets)
    ensures Wrote(secrets, Stream(flushed + SinkOf(secrets, Complete(written)), Tail(written)), chunk)
         == Stream(flushed + SinkOf(secrets, Complete(written + chunk)), Tail(written + chunk))
  {
    hide SinkOf, Complete, Tail, Registered;
    var done := CutTail(written);
    assert written + chunk == done + (Tail(written) + chunk);
    SplitAppend(done, Tail(written) + chunk);
    SinkConcat(secrets, Complete(done), Complete(Tail(written) + chunk));
  }

  // ----- The writer ----------------------------------------------------------

  class RedactingWriter {
    var sink: string
    const redactor: Redactor
    const buffer: LogBuffer
    var pending: string
    const level: Option<string>
    const target: Option<string>
    // What has been written since the last flush, the sink as it was then, and
    // every entry ever pushed.
    ghost var written: string
    ghost var flushed: string
    ghost var earlier: seq<LogEntry>

    ghost function Entries(messages: seq<string>): (r: seq<LogEntry>)
      ensures |r| == |messages|
    {
      seq(|messages|, i requires 0 <= i < |messages| => EntryFor(messages[i]))
    }

    function EntryFor(message: string): LogEntry {
      LogEntry(if level.Some? then level.value else "INFO", if target.Some? then target.value else "rdt", message)
    }

    ghost function View(): Stream
      reads this
    {
      Stream(sink, pending)
    }

    /** Every entry pushed so far, in order. */
    ghost function History(): seq<LogEntry>
      reads this, redactor
      requires Registered(redactor.secrets)
    {
      earlier + Entries(Mirrored(redactor.secrets, Complete(written)))
    }

    /** The writer has redacted line by line what was written: the sink holds
        the complete lines, `pending` the tail, the buffer the newest entries. */
    ghost predicate Valid()
      reads this, redactor, buffer
    {
      && Registered(redactor.secrets)
      && buffer.Valid()
      && sink == flushed + SinkOf(redactor.secrets, Complete(written))
      && pending == Tail(written)
      && buffer.entries == LastN(History(), buffer.capacity)
      && (buffer.capacity > 0 ==> buffer.dropped == |History()| - |buffer.entries|)
    }

    constructor (redactor: Redactor, buffer: LogBuffer, level: Option<string>, target: Option<string>)
      requires Registered(redactor.secrets) && buffer.Valid() && buffer.entries == [] && buffer.dropped == 0
      ensures Valid() && this.redactor == redactor && this.buffer == buffer
      ensures sink == "" && written == "" && flushed == ""
    {
      sink, pending := "", "";
      this.redactor, this.buffer, this.level, this.target := redactor, buffer, level, target;
      written, flushed, earlier := "", "", [];
    }

    /** Redacts a line and mirrors it. */
    method RedactLine(line: string) returns (redacted: string)
      requires Registered(redactor.secrets) && buffer.Valid()
      modifies buffer
      ensures redacted == RedactWith(redactor.secrets, line)
      ensures buffer.Valid() && buffer.entries == LastN(old(buffer.entries) + [EntryFor(redacted)], buffer.capacity)
      ensures buffer.dropped == if buffer.capacity == 0 then old(buffer.dropped)
                                else old(buffer.dropped) + |old(buffer.entries)| + 1 - |buffer.entries|
    {
      redacted := redactor.Redact(line);
      buffer.Push(EntryFor(redacted));
    }

    /** One complete line. */
    method WriteLine(line: string, ghost done: string)
      requires Registered(redactor.secrets) && buffer.Valid() && '\n' !in line && Tail(done) == ""
      requires sink == flushed + SinkOf(redactor.secrets, Complete(done))
      requires Buffered(done)
      modifies this`sink, buffer
      ensures buffer.Valid() && Tail(done + (line + "\n")) == ""
      ensures sink == flushed + SinkOf(redactor.secrets, Complete(done + (line + "\n")))
      ensures Buffered(done + (line + "\n"))
    {
      hide SinkOf, Mirrored, RedactWith, LastN, Registered, Complete, Tail, Entries;
      CompleteAppend(done, line);
      LinesAppend(redactor.secrets, Complete(done), line);
      var trimmed := TrimEol(line);
      ghost var before := Mirrored(redactor.secrets, Complete(done));
      if trimmed == "" {
        sink := sink + "\n";
        assert before + [] == before;
      } else {
        var redacted := RedactLine(trimmed);
        sink := sink + redacted + "\n";
        EntriesAppend(before, redacted);
        OneMore(earlier, Entries(before), EntryFor(redacted), buffer.capacity);
      }
    }

    lemma EntriesAppend(messages: seq<string>, m: string)
      ensures Entries(messages + [m]) == Entries(messages) + [EntryFor(m)]
    {
    }

    /** The buffer is up to date with these lines. */
    ghost predicate Buffered(text: string)
      reads this, redactor, buffer
      requires Registered(redactor.secrets)
    {
      var all := earlier + Entries(Mirrored(redactor.secrets, Complete(text)));
      && buffer.entries == LastN(all, buffer.capacity)
      && (buffer.capacity > 0 ==> buffer.dropped == |all| - |buffer.entries|)
    }

    method Write(chunk: string)
      requires Valid()
      modifies this, buffer
      ensures Valid() && written == old(written) + chunk && flushed == old(flushed) && earlier == old(earlier)
      ensures View() == Wrote(redactor.secrets, old(View()), chunk)
    {
      hide SinkOf, Mirrored, Registered, LastN, Complete, Tail, Entries;
      ghost var done := CutTail(written);
      WriteGoesOn(redactor.secrets, flushed, written, chunk);
      pending := pending + chunk;
      assert written + chunk == done + pending;
      while '\n' in pending
        invariant Registered(redactor.secrets) && buffer.Valid() && Tail(done) == ""
        invariant old(written) + chunk == done + pending
        invariant sink == flushed + SinkOf(redactor.secrets, Complete(done)) && Buffered(done)
        invariant flushed == old(flushed) && earlier == old(earlier) && written == old(written)
        decreases |pending|
      {
        var position := IndexOf(pending, '\n');
        var line := pending[..position];
        assert position < |pending| by {
          assert pending[..|pending|] == pending;
        }
        assert pending == (line + "\n") + pending[position + 1..];
        pending := pending[position + 1..];
        WriteLine(line, done);
        done := done + (line + "\n");
      }
      CompleteAppend(done, pending);
      written := written + chunk;
    }

    /** What is pending goes out as it stands, redacted on its own. */
    method Flush()
      requires Valid()
      modifies this, buffer
      ensures Valid() && pending == "" && written == "" && flushed == sink
      ensures View() == Flushed(redactor.secrets, old(View()))
    {
      ghost var history := History();
      if pending != "" {
        var text := pending;
        pending := "";
        var redacted := RedactLine(TrimEol(text));
        sink := sink + redacted;
        LastNAppend(history, [EntryFor(redacted)], buffer.capacity);
        earlier := history + [EntryFor(redacted)];
      } else {
        earlier := history;
      }
      written, flushed := "", sink;
      assert earlier + Entries([]) == earlier;
    }
  }

  lemma OneMore(earlier: seq<LogEntry>, entries: seq<LogEntry>, e: LogEntry, n: nat)
    ensures LastN(LastN(earlier + entries, n) + [e], n) == LastN(earlier + (entries + [e]), n)
  {
    hide LastN;
    LastNAppend(earlier + entries, [e], n);
    assert earlier + (entries + [e]) == earlier + entries + [e];
  }

  // ----- Whole outputs -------------------------------------------------------

  lemma FreeAcrossLineFeed(a: string, b: string, s: string)
    requires FreeOf(a, s) && FreeOf(b, s) && s != "" && '\n' !in s
    ensures FreeOf(a + "\n" + b, s)
  {
    var text := a + "\n" + b;
    forall i | 0 <= i <= |text| ensures !OccursAt(text, s, i) {
      if i + |s| <= |a| {
        assert text[i..i + |s|] == a[i..i + |s|];
        assert !OccursAt(a, s, i);
      } else if i > |a| && i + |s| <= |text| {
        assert text[i..i + |s|] == b[i - |a| - 1..i - |a| - 1 + |s|];
        assert !OccursAt(b, s, i - |a| - 1);
      } else if i <= |a| && i + |s| <= |text| {
        assert text[i..i + |s|][|a| - i] == '\n';
      }
    }
  }

  /** However a text is divided into chunks, the sink holds no registered
      secret that fits on a line and cannot be read off the marker; neither
      does any mirrored message. */
  lemma {:induction false} SinkHoldsNoSecret(secrets: seq<string>, lines: seq<string>, k: nat)
    requires Registered(secrets) && NoneTouches(secrets)
    requires k < |secrets| && '\n' !in secrets[k]
    ensures FreeOf(SinkOf(secrets, lines), secrets[k])
    ensures forall m :: m in Mirrored(secrets, lines) ==> FreeOf(m, secrets[k])
    decreases |lines|
  {
    hide FreeOf, NoneTouches, RedactWith, TrimEol;
    var s := secrets[k];
    if lines == [] {
      EmptyIsFree(s);
    } else {
      var line := TrimEol(lines[0]);
      var out := if line == "" then "" else RedactWith(secrets, line);
      NoSecretSurvives(secrets, line);
      EmptyIsFree(s);
      SinkHoldsNoSecret(secrets, lines[1..], k);
      FreeAcrossLineFeed(out, SinkOf(secrets, lines[1..]), s);
    }
  }

  lemma EmptyIsFree(s: string)
    requires s != ""
    ensures FreeOf("", s)
  {
  }

  /** The guarantee is per line: a flush in the middle of a secret lets it
      through, for every secret of ordinary characters, wherever it is cut. */
  lemma FlushInsideSecretLeaks(a: string, b: string)
    requires a != "" && b != "" && Registered([a + b])
    requires forall c :: c in a + b ==> c != '=' && c != ':' && c != '\n' && c != '\r'
    ensures RedactWith([a + b], TrimEol(a)) + SinkOf([a + b], Complete(b + "\n")) == a + b + "\n"
  {
    hide RedactWith, SinkOf, Complete, TrimEol;
    var s := a + b;
    forall c | c in a || c in b ensures c in s {
    }
    Untouched(s, a);
    Untouched(s, b);
    NothingToTrim(a);
    PlainLine(s, b);
  }

  lemma NothingToTrim(line: string)
    requires line != "" && '\n' !in line && '\r' !in line
    ensures TrimEol(line) == line
  {
    assert line[|line| - 1] in line;
  }

  lemma PlainLine(s: string, line: string)
    requires Registered([s]) && RedactWith([s], line) == line
    requires line != "" && '\n' !in line && '\r' !in line
    ensures SinkOf([s], Complete(line + "\n")) == line + "\n"
  {
    hide RedactWith, Complete, TrimEol, Registered;
    OneLine(line);
    NothingToTrim(line);
    LinesAppend([s], [], line);
    assert [] + [line] == [line];
    assert "" + (line + "\n") == line + "\n";
  }

  lemma Untouched(s: string, text: string)
    requires Registered([s]) && |text| < |s|
    requires forall c :: c in text ==> c != '=' && c != ':'
    ensures RedactWith([s], text) == text
  {
    NothingToReplace(text, s);
    assert [s][1..] == [];
    NothingToScrub("", text);
    assert ReplaceAll([], text) == text;
  }

  lemma {:induction false} NothingToScrub(before: string, text: string)
    requires forall c :: c in text ==> c != '=' && c != ':'
    ensures ScrubFrom(before, text) == text
    decreases |text|
  {
    if text != "" {
      assert text[0] in text;
      forall c | c in text[1..] ensures c in text {
      }
      NothingToScrub(before + [text[0]], text[1..]);
      assert [text[0]] + text[1..] == text;
    }
  }

  /** A mirrored message carries the level and the target of its writer, or INFO and rdt. */
  lemma EntryMeaning(w: RedactingWriter, message: string)
    ensures var e := w.EntryFor(message);
            && e.message == message
            && (w.level == None ==> e.level == "INFO") && (w.level.Some? ==> e.level == w.level.value)
            && (w.target == None ==> e.target == "rdt") && (w.target.Some? ==> e.target == w.target.value)
  {
  }
}
