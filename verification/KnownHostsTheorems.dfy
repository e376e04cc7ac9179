/** What the known_hosts database promises across its operations. */
module KnownHostsTheorems {
  import opened Basics
  import opened Text
  import opened Glob
  import opened KnownHosts

  // ----- Normal form ---------------------------------------------------------

  /** What every parsed entry satisfies, and what suffices to read it back. */
  ghost predicate Printable(e: Entry, commentWords: seq<string>) {
    && e.patterns != []
    && (forall i :: 0 <= i < |e.patterns| ==> ',' !in e.patterns[i])
    && IsToken(Join(e.patterns, ","))
    && (e.marker.Unmarked? ==> MarkerOf(Join(e.patterns, ",")).Unmarked? && Join(e.patterns, ",")[0] != '#')
    && IsToken(e.keyType)
    && e.key != []
    && AllTokens(commentWords) && e.comment == Join(commentWords, " ")
  }

  /** The words of the line an entry is written as. */
  function Words(lib: Library, e: Entry, commentWords: seq<string>): (ws: seq<string>)
    ensures ws != []
  {
    (match e.marker
     case Unmarked => []
     case CertAuthority => [CERT_AUTHORITY]
     case Revoked => [REVOKED])
    + [Join(e.patterns, ","), e.keyType, lib.encode(e.key)] + commentWords
  }

  lemma ParsedIsPrintable(lib: Library, line: string, number: nat) returns (commentWords: seq<string>)
    requires ParseEntry(lib, line, number).Parsed?
    ensures Printable(ParseEntry(lib, line, number).entry, commentWords)
  {
    hide Tokens;
    var e := ParseEntry(lib, line, number).entry;
    var words := Tokens(Trim(line));
    TokensTrim(line);
    TokensTrim(Trim(line));
    var fields := if e.marker.Unmarked? then words else words[1..];
    JoinSplit(fields[0], ',');
    commentWords := fields[3..];
    assert IsToken(fields[0]) && IsToken(fields[1]);
    assert Trim(line)[0] == words[0][0] by {
      FirstTokenFirst(Trim(line), line);
    }
  }

  lemma FirstTokenFirst(trimmed: string, line: string)
    requires trimmed == Trim(line) && trimmed != ""
    ensures Tokens(trimmed) != [] && trimmed[0] == Tokens(trimmed)[0][0]
  {
    TokensTrim(line);
  }

  lemma MarkersAreTokens()
    ensures IsToken(CERT_AUTHORITY) && IsToken(REVOKED)
    ensures MarkerOf(CERT_AUTHORITY).CertAuthority? && MarkerOf(REVOKED).Revoked?
    ensures CERT_AUTHORITY[0] == '@' && REVOKED[0] == '@'
  {
  }

  /** A line is its words joined by single spaces. */
  lemma LineIsWords(lib: Library, e: Entry, commentWords: seq<string>)
    requires lib.Lawful() && Printable(e, commentWords)
    ensures ToLine(lib, e) == Join(Words(lib, e, commentWords), " ")
    ensures AllTokens(Words(lib, e, commentWords))
    ensures e.comment == "" <==> commentWords == []
  {
    hide Join, IsToken;
    MarkersAreTokens();
    var core := [Join(e.patterns, ","), e.keyType, lib.encode(e.key)];
    var body := core + commentWords;
    assert AllTokens(core);
    CoreLine(core, commentWords, e.comment);
    assert ToLine(lib, e) == MarkerPrefix(e.marker) + Join(body, " ");
    if e.marker.Unmarked? {
      assert Words(lib, e, commentWords) == body;
    } else {
      var m := if e.marker.CertAuthority? then CERT_AUTHORITY else REVOKED;
      MarkedLine(m, body);
      assert Words(lib, e, commentWords) == [m] + body;
      assert MarkerPrefix(e.marker) == m + " ";
    }
  }

  lemma MarkedLine(word: string, body: seq<string>)
    requires body != []
    ensures Join([word] + body, " ") == word + " " + Join(body, " ")
  {
    assert ([word] + body)[1..] == body;
  }

  lemma CoreLine(core: seq<string>, commentWords: seq<string>, comment: string)
    requires |core| == 3 && AllTokens(commentWords) && comment == Join(commentWords, " ")
    ensures Join(core + commentWords, " ")
         == core[0] + " " + core[1] + " " + core[2] + (if comment == "" then "" else " " + comment)
    ensures comment == "" <==> commentWords == []
  {
    var two, one := [core[1], core[2]], [core[2]];
    assert core[1..] == two && two[1..] == one;
    assert Join(one, " ") == core[2];
    assert Join(two, " ") == core[1] + " " + core[2];
    assert Join(core, " ") == core[0] + " " + (core[1] + " " + core[2]);
    if commentWords == [] {
      assert core + commentWords == core;
    } else {
      assert IsToken(commentWords[0]);
      JoinConcat(core, commentWords, " ");
      assert Join(core, " ") + " " + comment == core[0] + " " + core[1] + " " + core[2] + (" " + comment);
    }
  }

  /** Reading back the line an entry is written as gives the entry. */
  lemma PrintedParses(lib: Library, e: Entry, commentWords: seq<string>, number: nat)
    requires lib.Lawful() && Printable(e, commentWords)
    ensures ParseEntry(lib, ToLine(lib, e), number) == Parsed(e.(line := number))
    ensures IsLine(ToLine(lib, e))
  {
    hide Tokens, Trim, Join, ToLine, ParseEntry, Printable, Words;
    var line, words := ToLine(lib, e), Words(lib, e, commentWords);
    WordsAreTokens(lib, e, commentWords);
    LineIsWords(lib, e, commentWords);
    TokensJoin(words);
    TokensTrim(line);
    JoinHasOnlySpaces(words);
    OnlySpacesIsLine(line);
    assert Trim(line)[0] == words[0][0];
    WordsParse(lib, e, commentWords, line, number);
  }

  lemma WordsAreTokens(lib: Library, e: Entry, commentWords: seq<string>)
    requires lib.Lawful() && Printable(e, commentWords)
    ensures AllTokens(Words(lib, e, commentWords))
  {
    hide Join;
    MarkersAreTokens();
  }

  lemma WordsParse(lib: Library, e: Entry, commentWords: seq<string>, line: string, number: nat)
    requires lib.Lawful() && Printable(e, commentWords)
    requires Tokens(Trim(line)) == Words(lib, e, commentWords) && Trim(line) != ""
    requires Words(lib, e, commentWords)[0] != "" && Trim(line)[0] == Words(lib, e, commentWords)[0][0]
    ensures ParseEntry(lib, line, number) == Parsed(e.(line := number))
  {
    hide Tokens, Trim, Join;
    var words := Words(lib, e, commentWords);
    MarkersAreTokens();
    SplitJoin(e.patterns, ',');
    var marker := MarkerOf(words[0]);
    assert marker == e.marker;
    var fields := if marker.Unmarked? then words else words[1..];
    assert fields == [Join(e.patterns, ","), e.keyType, lib.encode(e.key)] + commentWords;
    assert fields[3..] == commentWords;
    assert !StartsWith(Trim(line), "#");
    assert [','] == ",";
  }

  lemma OnlySpacesIsLine(line: string)
    requires forall i :: 0 <= i < |line| ==> IsSpace(line[i]) ==> line[i] == ' '
    ensures IsLine(line)
  {
    forall i | 0 <= i < |line| ensures line[i] != '\n' && line[i] != '\r' {
    }
  }

  ghost predicate CanPrint(e: Entry) {
    exists ws :: Printable(e, ws)
  }

  ghost predicate AllPrintable(es: seq<Entry>) {
    forall i :: 0 <= i < |es| ==> CanPrint(es[i])
  }

  lemma {:induction false} ParsedArePrintable(lib: Library, lines: seq<string>, number: nat)
    ensures AllPrintable(ParseLines(lib, lines, number))
    decreases |lines|
  {
    hide Printable, ParseEntry;
    if lines != [] {
      ParsedArePrintable(lib, lines[1..], number + 1);
      if ParseEntry(lib, lines[0], number).Parsed? {
        var ws := ParsedIsPrintable(lib, lines[0], number);
        assert CanPrint(ParseEntry(lib, lines[0], number).entry);
      }
    }
  }

  /** The entries renumbered by their position. */
  function Renumbered(es: seq<Entry>, number: nat): (r: seq<Entry>)
    ensures |r| == |es|
    ensures forall i :: 0 <= i < |es| ==> r[i] == es[i].(line := number + i)
  {
    if es == [] then [] else [es[0].(line := number)] + Renumbered(es[1..], number + 1)
  }

  lemma {:induction false} PrintedLinesParse(lib: Library, es: seq<Entry>, number: nat)
    requires lib.Lawful() && AllPrintable(es)
    ensures ParseLines(lib, Map(e => ToLine(lib, e), es), number) == Renumbered(es, number)
    ensures forall i :: 0 <= i < |es| ==> IsLine(ToLine(lib, es[i]))
    decreases |es|
  {
    hide Printable, ParseEntry, ToLine, IsLine;
    var lines := Map(e => ToLine(lib, e), es);
    if es != [] {
      assert CanPrint(es[0]);
      var ws :| Printable(es[0], ws);
      PrintedParses(lib, es[0], ws, number);
      PrintedLinesParse(lib, es[1..], number + 1);
      assert lines[1..] == Map(e => ToLine(lib, e), es[1..]);
    }
  }

  /** Writing a parsed database and reading it back changes nothing but the
      line numbers, which become the positions: for every text, whatever
      comments, blank lines, malformed lines and spacing it contains. */
  lemma NormalForm(lib: Library, text: string)
    requires lib.Lawful()
    ensures var es := ParseText(lib, text);
            ParseText(lib, PrintEntries(lib, es)) == Renumbered(es, 1)
  {
    hide ParseLines, PrintEntries, Lines, AllPrintable;
    ParsedArePrintable(lib, Lines(text), 1);
    PrintableParsesBack(lib, ParseText(lib, text));
  }

  lemma PrintableParsesBack(lib: Library, es: seq<Entry>)
    requires lib.Lawful() && AllPrintable(es)
    ensures ParseText(lib, PrintEntries(lib, es)) == Renumbered(es, 1)
  {
    hide ParseLines, ToLine, Lines, Unlines, IsLine, AllPrintable;
    PrintedLinesParse(lib, es, 1);
    LinesUnlines(Map(e => ToLine(lib, e), es));
  }

  /** Entries come back from being printed and parsed exactly when each can be printed: its patterns make one word,
      free of commas of their own and not mistaken for a marker or a comment line, its type is a word, its key is
      not empty, and its comment is words with one blank between. */
  lemma ParsesBackIff(lib: Library, es: seq<Entry>)
    requires lib.Lawful()
    ensures ParseText(lib, PrintEntries(lib, es)) == Renumbered(es, 1) <==> AllPrintable(es)
  {
    hide ParseLines, PrintEntries, Lines, Printable;
    if AllPrintable(es) {
      PrintableParsesBack(lib, es);
    }
    ParsedArePrintable(lib, Lines(PrintEntries(lib, es)), 1);
    RenumberedPrints(es);
  }

  lemma RenumberedPrints(es: seq<Entry>)
    ensures AllPrintable(Renumbered(es, 1)) ==> AllPrintable(es)
  {
    hide Printable;
    if AllPrintable(Renumbered(es, 1)) {
      forall i | 0 <= i < |es| ensures CanPrint(es[i]) {
        assert CanPrint(Renumbered(es, 1)[i]);
        var ws :| Printable(Renumbered(es, 1)[i], ws);
        LineIsNotPrinted(es[i], i + 1, ws);
      }
    }
  }

  lemma LineIsNotPrinted(e: Entry, number: nat, ws: seq<string>)
    ensures Printable(e.(line := number), ws) <==> Printable(e, ws)
  {
  }

  /** The words of a comment that can be printed are the words in it. */
  lemma CanPrintIff(e: Entry)
    ensures CanPrint(e) <==> Printable(e, Tokens(e.comment))
  {
    hide Tokens;
    if ws :| Printable(e, ws) {
      if ws == [] {
        assert Join([], " ") == "";
        TokensOfNothing();
      } else {
        TokensJoin(ws);
      }
    }
  }

  lemma TokensOfNothing()
    ensures Tokens("") == []
  {
  }

  lemma VerdictIgnoresLines(lib: Library, es: seq<Entry>, q: Query, number: nat)
    ensures Verdict(lib, Renumbered(es, number), q) == Verdict(lib, es, q)
  {
    hide Decides, Contradicts, FirstDeciding, FirstContradicting;
    DecidingIgnoresLines(lib, es, q, number);
    ContradictingIgnoresLines(lib, es, q, number);
  }

  lemma {:induction false} DecidingIgnoresLines(lib: Library, es: seq<Entry>, q: Query, number: nat)
    ensures FirstDeciding(lib, Renumbered(es, number), q) == FirstDeciding(lib, es, q)
    decreases |es|
  {
    hide Decides, Contradicts;
    if es != [] {
      DecidingIgnoresLines(lib, es[1..], q, number + 1);
      assert Renumbered(es, number)[1..] == Renumbered(es[1..], number + 1);
      SameDecision(lib, es[0], q, number);
    }
  }

  lemma {:induction false} ContradictingIgnoresLines(lib: Library, es: seq<Entry>, q: Query, number: nat)
    ensures FirstContradicting(lib, Renumbered(es, number), q) == FirstContradicting(lib, es, q)
    decreases |es|
  {
    hide Decides, Contradicts;
    if es != [] {
      ContradictingIgnoresLines(lib, es[1..], q, number + 1);
      assert Renumbered(es, number)[1..] == Renumbered(es[1..], number + 1);
      SameDecision(lib, es[0], q, number);
    }
  }

  lemma SameDecision(lib: Library, e: Entry, q: Query, number: nat)
    ensures Decides(lib, e.(line := number), q) == Decides(lib, e, q)
    ensures Contradicts(lib, e.(line := number), q) == Contradicts(lib, e, q)
  {
    hide PatternMatches;
  }

  /** Accepting a key, saving and loading again: the entries come back, and with them every verdict, if and only if
      the recorded entry can be printed.  A host with a comma in it, or a comment with a line feed, cannot. */
  lemma AcceptedSurvivesIff(lib: Library, text: string, q: Query, comment: string)
    requires lib.Lawful()
    ensures var es := Kept(lib, ParseText(lib, text), q.host, q.port, q.keyType) + [NewEntry(lib, q, comment)];
            var loaded := ParseText(lib, PrintEntries(lib, es));
            && (loaded == Renumbered(es, 1) <==> CanPrint(NewEntry(lib, q, comment)))
            && (CanPrint(NewEntry(lib, q, comment)) ==>
                  forall p: Query :: Verdict(lib, loaded, p) == Verdict(lib, es, p))
  {
    hide ParseLines, PrintEntries, Lines, CanPrint, Kept, NewEntry, Verdict, FirstDeciding, FirstContradicting;
    var parsed, e := ParseText(lib, text), NewEntry(lib, q, comment);
    var kept := Kept(lib, parsed, q.host, q.port, q.keyType);
    ParsedArePrintable(lib, Lines(text), 1);
    KeptArePrintable(lib, parsed, q);
    assert AllPrintable(kept + [e]) <==> CanPrint(e) by {
      assert (kept + [e])[|kept|] == e;
    }
    ParsesBackIff(lib, kept + [e]);
    if CanPrint(e) {
      forall p: Query ensures Verdict(lib, Renumbered(kept + [e], 1), p) == Verdict(lib, kept + [e], p) {
        VerdictIgnoresLines(lib, kept + [e], p, 1);
      }
    }
  }

  lemma KeptArePrintable(lib: Library, es: seq<Entry>, q: Query)
    requires AllPrintable(es)
    ensures AllPrintable(Kept(lib, es, q.host, q.port, q.keyType))
  {
    hide CanPrint, Stale;
    var kept := Kept(lib, es, q.host, q.port, q.keyType);
    forall i | 0 <= i < |kept| ensures CanPrint(kept[i]) {
      assert kept[i] in kept;
    }
  }

  /** So what is written is a normal form: writing it again gives it again. */
  lemma PrintingIsIdempotent(lib: Library, text: string)
    requires lib.Lawful()
    ensures var printed := PrintEntries(lib, ParseText(lib, text));
            PrintEntries(lib, ParseText(lib, printed)) == printed
  {
    hide ParseText, Unlines;
    NormalForm(lib, text);
    var es := ParseText(lib, text);
    var again := Renumbered(es, 1);
    var f := e => ToLine(lib, e);
    assert Map(f, again) == Map(f, es);
    assert PrintEntries(lib, again) == PrintEntries(lib, es) by {
      PrintedByLines(lib, again, es);
    }
  }

  lemma PrintedByLines(lib: Library, a: seq<Entry>, b: seq<Entry>)
    requires |a| == |b| && forall i :: 0 <= i < |a| ==> ToLine(lib, a[i]) == ToLine(lib, b[i])
    ensures PrintEntries(lib, a) == PrintEntries(lib, b)
  {
    assert Map(e => ToLine(lib, e), a) == Map(e => ToLine(lib, e), b);
  }

  // ----- One line ------------------------------------------------------------

  /** A blank line or a comment holds no entry. */
  lemma CommentsSkipped(lib: Library, line: string, number: nat)
    requires Tokens(line) == [] || Tokens(line)[0][0] == '#'
    ensures ParseEntry(lib, line, number) == Skipped
  {
    hide Tokens, Trim;
    TokensTrim(line);
  }

  /** Any other line is read by its words: a marker, if there is one, the patterns between commas, the type, the key,
      and the comment.  Without three words after the marker, or without a key, it is malformed. */
  lemma LineMeaning(lib: Library, line: string, number: nat)
    requires Tokens(line) != [] && Tokens(line)[0][0] != '#'
    ensures var words, p := Tokens(line), ParseEntry(lib, line, number);
            var marked := words[0] == "@revoked" || words[0] == "@cert-authority";
            var fields := if marked then words[1..] else words;
            if |fields| < 3 || lib.decode(fields[2]) == None || lib.decode(fields[2]) == Some([]) then p == Malformed(number)
            else && p.Parsed?
                 && p.entry.marker == (if words[0] == "@revoked" then Revoked
                                       else if words[0] == "@cert-authority" then CertAuthority else Unmarked)
                 && p.entry.patterns != [] && Join(p.entry.patterns, ",") == fields[0]
                 && (forall i :: 0 <= i < |p.entry.patterns| ==> ',' !in p.entry.patterns[i])
                 && p.entry.keyType == fields[1] && lib.decode(fields[2]) == Some(p.entry.key)
                 && p.entry.comment == Join(fields[3..], " ") && p.entry.line == number
  {
    hide Tokens, Trim, Join, SplitOn;
    TokensTrim(line);
    var words := Tokens(line);
    FirstCharacter(line);
    MarkersMean(words[0]);
    var fields := if MarkerOf(words[0]).Unmarked? then words else words[1..];
    if |fields| >= 3 {
      JoinSplit(fields[0], ',');
      assert [','] == ",";
    }
  }

  lemma FirstCharacter(line: string)
    requires Tokens(line) != [] && Tokens(line)[0][0] != '#'
    ensures Trim(line) != "" && !StartsWith(Trim(line), "#")
  {
    hide Tokens, Trim;
    TokensTrim(line);
    assert Trim(line)[0] != '#';
  }

  lemma MarkersMean(word: string)
    ensures MarkerOf(word) == if word == "@revoked" then Revoked
                              else if word == "@cert-authority" then CertAuthority else Unmarked
  {
  }

  // ----- The verdict, declaratively ------------------------------------------

  /** The line applies to the host, is not about certificates, and holds the very key. */
  predicate Shows(lib: Library, e: Entry, q: Query) {
    Applies(lib, e, q.host, q.port) && e.key == q.key && (e.marker == Unmarked || e.marker == Revoked)
  }

  /** The line applies to the host, is no revocation, and holds another key of the same type. */
  predicate Denies(lib: Library, e: Entry, q: Query) {
    Applies(lib, e, q.host, q.port) && e.key != q.key && e.keyType == q.keyType
    && (e.marker == Unmarked || e.marker == CertAuthority)
  }

  /** Trusted means an earliest line with the key that is not revoked, Revoked one
      that is; Changed needs a line with another key and none with this one; nothing
      else is known. */
  lemma VerdictMeaning(lib: Library, es: seq<Entry>, q: Query)
    ensures var v := Verdict(lib, es, q);
      && (v == Trusted <==> exists i :: 0 <= i < |es| && Shows(lib, es[i], q) && es[i].marker == Unmarked
                                        && forall k :: 0 <= k < i ==> !Shows(lib, es[k], q))
      && (v == RevokedKey <==> exists i :: 0 <= i < |es| && Shows(lib, es[i], q) && es[i].marker == Revoked
                                           && forall k :: 0 <= k < i ==> !Shows(lib, es[k], q))
      && (v.Changed? <==> (exists i :: 0 <= i < |es| && Denies(lib, es[i], q))
                          && forall k :: 0 <= k < |es| ==> !Shows(lib, es[k], q))
      && (v == Unknown <==> forall k :: 0 <= k < |es| ==> !Shows(lib, es[k], q) && !Denies(lib, es[k], q))
      && v != Excluded
  {
    hide Decides, Contradicts, Shows, Denies;
    forall k | 0 <= k < |es| ensures (Shows(lib, es[k], q) <==> Decides(lib, es[k], q))
                                     && (Denies(lib, es[k], q) <==> Contradicts(lib, es[k], q)) {
      ShownIsDecided(lib, es[k], q);
    }
    VerdictScans(lib, es, q);
    var d := FirstDeciding(lib, es, q);
    if d < |es| {
      ShownIsMarked(lib, es[d], q);
    }
  }

  lemma ShownIsDecided(lib: Library, e: Entry, q: Query)
    ensures Shows(lib, e, q) <==> Decides(lib, e, q)
    ensures Denies(lib, e, q) <==> Contradicts(lib, e, q)
  {
    hide Applies;
  }

  lemma ShownIsMarked(lib: Library, e: Entry, q: Query)
    requires Shows(lib, e, q)
    ensures e.marker == Unmarked || e.marker == Revoked
  {
    hide Applies;
  }

  lemma VerdictScans(lib: Library, es: seq<Entry>, q: Query)
    ensures var v, d, c := Verdict(lib, es, q), FirstDeciding(lib, es, q), FirstContradicting(lib, es, q);
      && (v.Trusted? <==> d < |es| && !es[d].marker.Revoked?) && (v.RevokedKey? <==> d < |es| && es[d].marker.Revoked?)
      && (v.Changed? <==> d == |es| && c < |es|) && (v.Unknown? <==> d == |es| && c == |es|) && v != Excluded
  {
    hide Decides, Contradicts;
  }

  /** A changed key is reported with the fingerprint and type of the earliest line that denies it. */
  lemma ChangedReportsFirst(lib: Library, es: seq<Entry>, q: Query, i: nat)
    requires i < |es| && Denies(lib, es[i], q) && forall k :: 0 <= k < i ==> !Denies(lib, es[k], q)
    requires forall k :: 0 <= k < |es| ==> !Shows(lib, es[k], q)
    ensures Verdict(lib, es, q) == Changed(lib.fingerprint(es[i].key), q.keyType)
  {
    hide Applies;
    assert es[i].keyType == q.keyType;
    hide Decides, Contradicts, Shows, Denies;
    forall k | 0 <= k < |es| ensures (Shows(lib, es[k], q) <==> Decides(lib, es[k], q))
                                     && (Denies(lib, es[k], q) <==> Contradicts(lib, es[k], q)) {
      ShownIsDecided(lib, es[k], q);
    }
    var d, c := FirstDeciding(lib, es, q), FirstContradicting(lib, es, q);
    assert c == i;
  }

  // ----- Accepting -----------------------------------------------------------

  /** A host whose recorded pattern is read as that host again. */
  predicate Recordable(lib: Library, host: string, port: u16) {
    var h := lib.lower(host);
    if port == 22 then
      && !StartsWith(h, "!") && !StartsWith(h, "[")
      && (var i := IndexOf(h, ':'); i == |h| || ':' in h[i + 1..])
    else ']' !in h
  }

  lemma SplitRecorded(lib: Library, host: string, port: u16)
    requires Recordable(lib, host, port) && port == 22
    ensures SplitHostPort(HostName(lib, host, port)) == (lib.lower(host), None)
  {
  }

  lemma SplitBracketed(h: string, port: u16)
    requires ']' !in h
    ensures SplitHostPort("[" + h + "]:" + Decimal(port)) == (h, Some(port))
  {
    hide ParseU16, Decimal;
    var pattern := "[" + h + "]:" + Decimal(port);
    var rest := h + [']'] + (":" + Decimal(port));
    assert pattern[0] == '[' && pattern[..1] == "[" && pattern[1..] == rest;
    IndexOfCons(h, ":" + Decimal(port), ']');
    var tail := rest[|h| + 1..];
    assert tail == ":" + Decimal(port) && tail[..1] == ":" && tail[1..] == Decimal(port);
    assert rest[..|h|] == h;
    ParseDecimal(port);
  }

  /** A recordable host matches the entry that accepting it records. */
  lemma RecordedMatches(lib: Library, q: Query, comment: string)
    requires lib.Lawful() && Recordable(lib, q.host, q.port)
    requires !StartsWith(HostName(lib, q.host, q.port), HASHED)
    ensures Applies(lib, NewEntry(lib, q, comment), q.host, q.port)
  {
    hide Decimal, SplitHostPort;
    var pattern, h := HostName(lib, q.host, q.port), lib.lower(q.host);
    if q.port == 22 {
      SplitRecorded(lib, q.host, q.port);
    } else {
      SplitBracketed(h, q.port);
      assert pattern[0] == '[';
    }
    assert Matches(lib.fold, h, h) by {
      MatchesItself(lib.fold, h, 0);
    }
    assert Positive(lib, pattern, q.host, q.port);
    var e := NewEntry(lib, q, comment);
    assert e.patterns[0] == pattern;
  }

  /** The condition is exact: any other host is recorded under a pattern that does not match it, `*` and `?` in it
      or not.  Only what stands in brackets on port 22 is read by itself, and a `*` there may match the brackets. */
  lemma RecordedMatchesIff(lib: Library, q: Query, comment: string)
    requires lib.Lawful()
    requires !(q.port == 22 && StartsWith(lib.lower(q.host), "[") && '*' in lib.lower(q.host))
    requires !StartsWith(HostName(lib, q.host, q.port), HASHED)
    ensures Applies(lib, NewEntry(lib, q, comment), q.host, q.port) <==> Recordable(lib, q.host, q.port)
  {
    hide SplitHostPort, Decimal, Negated;
    if Recordable(lib, q.host, q.port) {
      RecordedMatches(lib, q, comment);
    } else {
      UnrecordableSplitsShort(lib, q.host, q.port);
      var pattern, h := HostName(lib, q.host, q.port), lib.lower(q.host);
      var e := NewEntry(lib, q, comment);
      assert e.patterns == [pattern];
      if Positive(lib, pattern, q.host, q.port) {
        var patternHost := SplitHostPort(pattern).0;
        if patternHost <= h {
          assert h[..|patternHost|] == patternHost;
          PrefixFallsShort(lib.fold, h, |patternHost|, 0);
        } else {
          NoStarFixesLength(lib.fold, patternHost, 0, h, 0);
        }
      }
    }
  }

  /** In brackets a `*` does match: the recorded entry applies, although its pattern is another host. */
  lemma BracketedStarMatches(lib: Library, q: Query, comment: string)
    requires lib.Lawful() && q.port == 22 && lib.lower(q.host) == "[*]"
    ensures Applies(lib, NewEntry(lib, q, comment), q.host, q.port) && !Recordable(lib, q.host, q.port)
  {
    var pattern, h := HostName(lib, q.host, q.port), lib.lower(q.host);
    assert pattern[..1] == "[" && pattern[1..] == "*]";
    assert "*]"[..1] == "*" && "*]"[1] == ']' && "*]"[2..] == "";
    assert IndexOf("*]", ']') == 1;
    assert SplitHostPort(pattern) == ("*", None);
    StarMatches(lib.fold, h);
    assert Positive(lib, pattern, q.host, q.port);
    assert NewEntry(lib, q, comment).patterns[0] == pattern;
  }

  lemma StarMatches(fold: Fold, text: string)
    requires fold('*') == '*' && text == "[*]"
    ensures Matches(fold, "*", text)
  {
    ScanDecidesStar(fold, text, 0);
  }

  lemma {:induction false} ScanDecidesStar(fold: Fold, text: string, t: nat)
    requires fold('*') == '*' && text == "[*]" && t <= 3
    ensures Scan(fold, "*", 1, text, t, Star(0, t))
    decreases 3 - t
  {
    if t < 3 {
      ScanDecidesStar(fold, text, t + 1);
    }
  }

  /** An unrecordable host is taken for a negation, or loses its end, or its brackets. */
  lemma UnrecordableSplitsShort(lib: Library, host: string, port: u16)
    requires !Recordable(lib, host, port)
    ensures var pattern, h := HostName(lib, host, port), lib.lower(host);
            || Negated(pattern)
            || SplitHostPort(pattern).0 < h
            || (port == 22 && StartsWith(h, "[") && |SplitHostPort(pattern).0| < |h|
                && forall c :: c in SplitHostPort(pattern).0 ==> c in h)
  {
    hide Decimal;
    if port == 22 {
      UnrecordableOn22(lib.lower(host));
    } else {
      CutAtBracket(lib.lower(host), port);
    }
  }

  lemma UnrecordableOn22(h: string)
    requires StartsWith(h, "!") || StartsWith(h, "[") || (var i := IndexOf(h, ':'); i < |h| && ':' !in h[i + 1..])
    ensures || Negated(h)
            || SplitHostPort(h).0 < h
            || (StartsWith(h, "[") && |SplitHostPort(h).0| < |h| && forall c :: c in SplitHostPort(h).0 ==> c in h)
  {
    hide ParseU16;
  }

  lemma CutAtBracket(h: string, port: u16)
    requires ']' in h
    ensures SplitHostPort("[" + h + "]:" + Decimal(port)).0 < h
  {
    hide Decimal, ParseU16, SplitHostPort;
    var tail := "]:" + Decimal(port);
    var rest := h + tail;
    assert "[" + h + "]:" + Decimal(port) == "[" + rest;
    BracketSplits(rest);
    var i := IndexOf(h, ']');
    assert h[..|h|] == h && i < |h|;
    assert rest == h[..i] + [']'] + (h[i + 1..] + tail);
    IndexOfCons(h[..i], h[i + 1..] + tail, ']');
    assert rest[..i] == h[..i];
  }

  lemma BracketSplits(rest: string)
    ensures SplitHostPort("[" + rest).0 == rest[..IndexOf(rest, ']')]
  {
    hide ParseU16;
    assert ("[" + rest)[1..] == rest && ("[" + rest)[..1] == "[" && rest[..|rest|] == rest;
  }

  /** Accepting drops exactly the unmarked lines of the same key type that apply to the host, and keeps the
      others, revoked ones and certificate authorities among them, in their order. */
  lemma KeptMeaning(lib: Library, es: seq<Entry>, e: Entry, host: string, port: u16, keyType: string)
    ensures var dropped := e.marker == Unmarked && e.keyType == keyType && Applies(lib, e, host, port);
            Kept(lib, es + [e], host, port, keyType)
            == Kept(lib, es, host, port, keyType) + (if dropped then [] else [e])
    ensures Kept(lib, [], host, port, keyType) == []
  {
    hide Applies;
    var keep := (x: Entry) => !Stale(lib, x, host, port, keyType);
    FilterConcat(keep, es, [e]);
    assert [e][1..] == [];
  }

  /** After accepting a key, checking it for that host says Trusted, unless a
      revocation of this very key stands before every line that holds it
      under another key type. */
  lemma AcceptThenCheck(lib: Library, es: seq<Entry>, q: Query, comment: string)
    requires lib.Lawful() && Recordable(lib, q.host, q.port)
    requires !StartsWith(HostName(lib, q.host, q.port), HASHED)
    ensures Verdict(lib, Kept(lib, es, q.host, q.port, q.keyType) + [NewEntry(lib, q, comment)], q)
            == if RevokedBefore(lib, es, q) then RevokedKey else Trusted
  {
    hide Applies, Recordable, RevokedBefore;
    var kept, e := Kept(lib, es, q.host, q.port, q.keyType), NewEntry(lib, q, comment);
    RecordedMatches(lib, q, comment);
    assert Decides(lib, e, q);
    FirstDecidingAppend(lib, kept, e, q);
    KeptDecides(lib, es, q);
  }

  lemma {:induction false} PrintAppend(lib: Library, es: seq<Entry>, e: Entry)
    ensures PrintEntries(lib, es + [e]) == PrintEntries(lib, es) + (ToLine(lib, e) + "\n")
    decreases |es|
  {
    hide ToLine, PrintEntries;
    PrintNothing(lib);
    if es == [] {
      assert es + [e] == [e] && [e][1..] == [];
      PrintCons(lib, [e]);
    } else {
      assert (es + [e])[1..] == es[1..] + [e];
      PrintCons(lib, es);
      PrintCons(lib, es + [e]);
      PrintAppend(lib, es[1..], e);
    }
  }

  lemma PrintNothing(lib: Library)
    ensures PrintEntries(lib, []) == ""
  {
  }

  /** What accepting adds to the file is one line: the name of host and port, the type, the key and the comment. */
  lemma AcceptedLine(lib: Library, es: seq<Entry>, q: Query, comment: string)
    ensures var kept := Kept(lib, es, q.host, q.port, q.keyType);
            var name := if q.port == 22 then lib.lower(q.host) else "[" + lib.lower(q.host) + "]:" + Decimal(q.port);
            PrintEntries(lib, kept + [NewEntry(lib, q, comment)])
            == PrintEntries(lib, kept)
               + (name + " " + q.keyType + " " + lib.encode(q.key) + (if comment == "" then "" else " " + comment) + "\n")
  {
    hide PrintEntries, Kept, Decimal;
    var e := NewEntry(lib, q, comment);
    PrintAppend(lib, Kept(lib, es, q.host, q.port, q.keyType), e);
    var name := HostName(lib, q.host, q.port);
    assert Join([name], ",") == name;
    assert "" + name == name;
  }

  predicate RevokedBefore(lib: Library, es: seq<Entry>, q: Query) {
    exists i :: 0 <= i < |es| && Revokes(lib, es, q, i)
  }

  predicate Revokes(lib: Library, es: seq<Entry>, q: Query, i: nat)
    requires i < |es|
  {
    && Shows(lib, es[i], q) && es[i].marker == Revoked
    && forall k :: 0 <= k < i ==> Shows(lib, es[k], q) ==> es[k].marker == Revoked || es[k].keyType == q.keyType
  }

  /** One line more in front: it is dropped, or it decides, or it does neither. */
  lemma RevokedBeforeCons(lib: Library, es: seq<Entry>, q: Query)
    requires es != []
    ensures RevokedBefore(lib, es, q)
         == if Shows(lib, es[0], q) && es[0].marker == Revoked then true
            else if Shows(lib, es[0], q) && es[0].keyType != q.keyType then false
            else RevokedBefore(lib, es[1..], q)
  {
    hide Applies;
    if Shows(lib, es[0], q) && es[0].marker == Revoked {
      assert Revokes(lib, es, q, 0);
    } else if !Shows(lib, es[0], q) || es[0].keyType == q.keyType {
      if RevokedBefore(lib, es[1..], q) {
        var i :| 0 <= i < |es[1..]| && Revokes(lib, es[1..], q, i);
        RevokesLater(lib, es, q, i);
      }
      if RevokedBefore(lib, es, q) {
        var i :| 0 <= i < |es| && Revokes(lib, es, q, i);
        assert i > 0;
        RevokesSooner(lib, es, q, i - 1);
      }
    }
  }

  lemma RevokesLater(lib: Library, es: seq<Entry>, q: Query, i: nat)
    requires i + 1 < |es| && Revokes(lib, es[1..], q, i)
    requires !Shows(lib, es[0], q) || es[0].keyType == q.keyType
    ensures Revokes(lib, es, q, i + 1)
  {
    hide Shows;
    assert forall k :: 1 <= k < |es| ==> es[k] == es[1..][k - 1];
  }

  lemma RevokesSooner(lib: Library, es: seq<Entry>, q: Query, i: nat)
    requires i + 1 < |es| && Revokes(lib, es, q, i + 1)
    ensures Revokes(lib, es[1..], q, i)
  {
    hide Shows;
    assert forall k :: 0 <= k < |es| - 1 ==> es[1..][k] == es[k + 1];
  }

  predicate FirstIsRevoked(lib: Library, es: seq<Entry>, q: Query) {
    var d := FirstDeciding(lib, es, q);
    d < |es| && es[d].marker.Revoked?
  }

  lemma FirstIsRevokedCons(lib: Library, e: Entry, rest: seq<Entry>, q: Query)
    ensures FirstIsRevoked(lib, [e] + rest, q) == if Decides(lib, e, q) then e.marker.Revoked? else FirstIsRevoked(lib, rest, q)
  {
    hide Decides;
    assert ([e] + rest)[1..] == rest;
  }

  lemma {:induction false} KeptDecides(lib: Library, es: seq<Entry>, q: Query)
    ensures FirstIsRevoked(lib, Kept(lib, es, q.host, q.port, q.keyType), q) <==> RevokedBefore(lib, es, q)
  {
    hide FirstIsRevoked, Shows, Stale, RevokedBefore, Kept;
    if es == [] {
      KeptNothing(lib, q.host, q.port, q.keyType);
      NothingRevokes(lib, q);
    } else {
      var rest := Kept(lib, es[1..], q.host, q.port, q.keyType);
      KeptDecides(lib, es[1..], q);
      KeptCons(lib, es, q.host, q.port, q.keyType);
      RevokedBeforeCons(lib, es, q);
      FirstIsRevokedCons(lib, es[0], rest, q);
      StaleOrDecides(lib, es[0], q);
      assert [] + rest == rest;
    }
  }

  lemma StaleOrDecides(lib: Library, e: Entry, q: Query)
    ensures Shows(lib, e, q) <==> Decides(lib, e, q)
    ensures Shows(lib, e, q) ==> (Stale(lib, e, q.host, q.port, q.keyType) <==> e.marker != Revoked && e.keyType == q.keyType)
  {
    hide Applies;
  }

  lemma NothingRevokes(lib: Library, q: Query)
    ensures !RevokedBefore(lib, [], q) && !FirstIsRevoked(lib, [], q)
  {
  }

  lemma {:induction false} FirstDecidingAppend(lib: Library, es: seq<Entry>, e: Entry, q: Query)
    requires Decides(lib, e, q)
    ensures FirstDeciding(lib, es + [e], q) == FirstDeciding(lib, es, q)
  {
    hide Decides;
    if es == [] {
      assert es + [e] == [e];
    } else {
      assert (es + [e])[1..] == es[1..] + [e];
      FirstDecidingAppend(lib, es[1..], e, q);
    }
  }

  // ----- Forgetting ----------------------------------------------------------

  /** Forgetting a host drops exactly the lines that apply to it, marked ones too. */
  lemma ForgottenMeaning(lib: Library, es: seq<Entry>, e: Entry, host: string, port: u16)
    ensures Forgotten(lib, es + [e], host, port)
         == Forgotten(lib, es, host, port) + (if Applies(lib, e, host, port) then [] else [e])
    ensures Forgotten(lib, [], host, port) == []
  {
    hide Applies;
    var keep := (x: Entry) => !Applies(lib, x, host, port);
    FilterConcat(keep, es, [e]);
    assert [e][1..] == [];
  }

  /** After forgetting a host, whatever key it shows is unknown. */
  lemma ForgetThenCheck(lib: Library, es: seq<Entry>, q: Query)
    ensures Verdict(lib, Forgotten(lib, es, q.host, q.port), q) == Unknown
  {
    hide Applies;
    var rest := Forgotten(lib, es, q.host, q.port);
    forall i | 0 <= i < |rest| ensures !Applies(lib, rest[i], q.host, q.port) {
      assert rest[i] in rest;
    }
  }

  /** Forgetting one host changes no verdict about another, as long as no entry
      applies to both. */
  lemma {:induction false} ForgetSparesOthers(lib: Library, es: seq<Entry>, host: string, port: u16, q: Query)
    requires forall e :: e in es ==> !(Applies(lib, e, host, port) && Applies(lib, e, q.host, q.port))
    ensures Verdict(lib, Forgotten(lib, es, host, port), q) == Verdict(lib, es, q)
  {
    hide Applies, Decides, Contradicts;
    OnlyMattersDecides(lib, es, host, port, q);
  }

  ghost function DecidingEntry(lib: Library, es: seq<Entry>, q: Query): Option<Entry> {
    var i := FirstDeciding(lib, es, q);
    if i < |es| then Some(es[i]) else None
  }

  ghost function ContradictingEntry(lib: Library, es: seq<Entry>, q: Query): Option<Entry> {
    var i := FirstContradicting(lib, es, q);
    if i < |es| then Some(es[i]) else None
  }

  lemma DecidingCons(lib: Library, e: Entry, rest: seq<Entry>, q: Query)
    ensures DecidingEntry(lib, [e] + rest, q) == if Decides(lib, e, q) then Some(e) else DecidingEntry(lib, rest, q)
    ensures ContradictingEntry(lib, [e] + rest, q)
         == if Contradicts(lib, e, q) then Some(e) else ContradictingEntry(lib, rest, q)
  {
    hide Decides, Contradicts;
    assert ([e] + rest)[1..] == rest;
  }

  lemma DecidingApplies(lib: Library, e: Entry, q: Query)
    ensures Decides(lib, e, q) || Contradicts(lib, e, q) ==> Applies(lib, e, q.host, q.port)
  {
    hide Applies;
  }

  lemma {:induction false} OnlyMattersDecides(lib: Library, es: seq<Entry>, host: string, port: u16, q: Query)
    requires forall e :: e in es ==> !(Applies(lib, e, host, port) && Applies(lib, e, q.host, q.port))
    ensures DecidingEntry(lib, Forgotten(lib, es, host, port), q) == DecidingEntry(lib, es, q)
    ensures ContradictingEntry(lib, Forgotten(lib, es, host, port), q) == ContradictingEntry(lib, es, q)
  {
    hide Applies, Forgotten, Decides, Contradicts, DecidingEntry, ContradictingEntry;
    if es == [] {
      ForgottenNothing(lib, host, port);
    } else {
      var rest := Forgotten(lib, es[1..], host, port);
      ForgottenCons(lib, es, host, port);
      assert es[0] in es && forall e :: e in es[1..] ==> e in es;
      OnlyMattersDecides(lib, es[1..], host, port, q);
      DecidingCons(lib, es[0], rest, q);
      DecidingCons(lib, es[0], es[1..], q);
      DecidingApplies(lib, es[0], q);
      assert es == [es[0]] + es[1..] && [] + rest == rest;
    }
  }
}
