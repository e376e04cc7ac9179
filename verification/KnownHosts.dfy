/** The known_hosts database: crates/rdt-ssh/src/known_hosts.rs.

    Base64, HMAC-SHA1, SHA-256 and the Unicode case tables are parameters,
    gathered in a `Library`; what is assumed of them is stated in `Lawful`. */
module KnownHosts {
  import opened Basics
  import opened Text
  import opened Glob

  datatype Library = Library(
    lower: string -> string,                          // str::to_lowercase
    fold: Fold,                                       // first char of char::to_lowercase
    encode: seq<byte> -> string,                      // base64, standard alphabet, padded
    decode: string -> Option<seq<byte>>,
    macVerifies: (seq<byte>, string, seq<byte>) -> bool, // HMAC-SHA1: salt, text, digest
    fingerprint: seq<byte> -> string                  // "SHA256:" and unpadded base64
  ) {
    /** Decoding undoes encoding, an encoded key is one word, `*` has no case,
        and lower-cased text is its own lower case. */
    ghost predicate Lawful() {
      && (forall k :: decode(encode(k)) == Some(k))
      && (forall k: seq<byte> :: k != [] ==> IsToken(encode(k)))
      && fold('*') == '*'
      && (forall s, i :: 0 <= i < |lower(s)| ==> fold(lower(s)[i]) == lower(s)[i])
    }
  }

  datatype Marker = Unmarked | CertAuthority | Revoked

  datatype Entry = Entry(
    marker: Marker,
    patterns: seq<string>,
    keyType: string,
    key: seq<byte>,
    comment: string,
    line: nat
  )

  datatype HostKeyStatus =
    | Trusted
    | Unknown
    | Excluded
    | Changed(knownFingerprint: string, knownKeyType: string)
    | RevokedKey

  // ----- Reading and writing one line ----------------------------------------

  datatype Parsed = Skipped | Malformed(line: nat) | Parsed(entry: Entry)

  const CERT_AUTHORITY := "@cert-authority"
  const REVOKED := "@revoked"

  function MarkerOf(word: string): Marker {
    if word == CERT_AUTHORITY then CertAuthority else if word == REVOKED then Revoked else Unmarked
  }

  function ParseEntry(lib: Library, line: string, number: nat): Parsed {
    var trimmed := Trim(line);
    if trimmed == "" || StartsWith(trimmed, "#") then Skipped
    else
      var words := Tokens(trimmed);
      if words == [] then Skipped
      else
        var marker := MarkerOf(words[0]);
        var fields := if marker.Unmarked? then words else words[1..];
        if |fields| < 3 then Malformed(number)
        else
          var key := lib.decode(fields[2]);
          if key.None? || key.value == [] then Malformed(number)
          else Parsed(Entry(marker, SplitOn(fields[0], ','), fields[1], key.value, Join(fields[3..], " "), number))
  }

  function MarkerPrefix(marker: Marker): string {
    match marker
    case Unmarked => ""
    case CertAuthority => CERT_AUTHORITY + " "
    case Revoked => REVOKED + " "
  }

  function ToLine(lib: Library, e: Entry): string {
    MarkerPrefix(e.marker) + Join(e.patterns, ",") + " " + e.keyType + " " + lib.encode(e.key)
    + (if e.comment == "" then "" else " " + e.comment)
  }

  // ----- Matching ------------------------------------------------------------

  /** `[host]:port`, `host:port` or a host; a port that is no number is no port. */
  function SplitHostPort(pattern: string): (string, Option<u16>) {
    if StartsWith(pattern, "[") then
      var rest := pattern[1..];
      var i := IndexOf(rest, ']');
      if i == |rest| then (rest, None)
      else
        var tail := rest[i + 1..];
        (rest[..i], if StartsWith(tail, ":") then ParseU16(tail[1..]) else None)
    else
      var i := IndexOf(pattern, ':');
      if i < |pattern| && ':' !in pattern[i + 1..] then (pattern[..i], ParseU16(pattern[i + 1..]))
      else (pattern, None)
  }

  const HASHED := "|1|"

  /** What is hashed for a host, and recorded for a new one. */
  function HostName(lib: Library, host: string, port: u16): string {
    if port == 22 then lib.lower(host) else "[" + lib.lower(host) + "]:" + Decimal(port)
  }

  predicate HashedMatches(lib: Library, body: string, host: string, port: u16) {
    var i := IndexOf(body, '|');
    && i < |body|
    && var salt, digest := lib.decode(body[..i]), lib.decode(body[i + 1..]);
       salt.Some? && digest.Some? && lib.macVerifies(salt.value, HostName(lib, host, port), digest.value)
  }

  predicate PatternMatches(lib: Library, pattern: string, host: string, port: u16) {
    if StartsWith(pattern, HASHED) then HashedMatches(lib, pattern[|HASHED|..], host, port)
    else
      var (patternHost, patternPort) := SplitHostPort(pattern);
      && (patternPort.Some? ==> patternPort.value == port)
      && Matches(lib.fold, patternHost, lib.lower(host))
  }

  predicate Negated(pattern: string) {
    StartsWith(pattern, "!")
  }

  predicate Positive(lib: Library, pattern: string, host: string, port: u16) {
    !Negated(pattern) && PatternMatches(lib, pattern, host, port)
  }

  predicate Excludes(lib: Library, pattern: string, host: string, port: u16) {
    Negated(pattern) && PatternMatches(lib, pattern[1..], host, port)
  }

  /** Some pattern matches, and no negated one does. */
  predicate Applies(lib: Library, e: Entry, host: string, port: u16) {
    && (exists i :: 0 <= i < |e.patterns| && Positive(lib, e.patterns[i], host, port))
    && (forall i :: 0 <= i < |e.patterns| ==> !Excludes(lib, e.patterns[i], host, port))
  }

  // ----- The verdict ---------------------------------------------------------

  datatype Query = Query(host: string, port: u16, keyType: string, key: seq<byte>)

  /** The key itself is on the line, and the line is not about certificates. */
  predicate Decides(lib: Library, e: Entry, q: Query) {
    Applies(lib, e, q.host, q.port) && e.key == q.key && !e.marker.CertAuthority?
  }

  /** Another key of the same type is on the line. */
  predicate Contradicts(lib: Library, e: Entry, q: Query) {
    Applies(lib, e, q.host, q.port) && e.key != q.key && !e.marker.Revoked? && e.keyType == q.keyType
  }

  /** The position of the first deciding entry, or the number of entries. */
  function FirstDeciding(lib: Library, es: seq<Entry>, q: Query): (i: nat)
    ensures i <= |es|
    ensures i < |es| ==> Decides(lib, es[i], q)
    ensures forall k :: 0 <= k < i ==> !Decides(lib, es[k], q)
  {
    if es == [] || Decides(lib, es[0], q) then 0
    else 1 + FirstDeciding(lib, es[1..], q)
  }

  function FirstContradicting(lib: Library, es: seq<Entry>, q: Query): (i: nat)
    ensures i <= |es|
    ensures i < |es| ==> Contradicts(lib, es[i], q)
    ensures forall k :: 0 <= k < i ==> !Contradicts(lib, es[k], q)
  {
    if es == [] || Contradicts(lib, es[0], q) then 0
    else 1 + FirstContradicting(lib, es[1..], q)
  }

  /** The first deciding entry decides; without one, the first contradicting
      entry is a changed key; without either, the host's key is unknown. */
  function Verdict(lib: Library, es: seq<Entry>, q: Query): HostKeyStatus {
    var d, c := FirstDeciding(lib, es, q), FirstContradicting(lib, es, q);
    if d < |es| then if es[d].marker.Revoked? then RevokedKey else Trusted
    else if c < |es| then Changed(lib.fingerprint(es[c].key), es[c].keyType)
    else Unknown
  }

  // ----- The database --------------------------------------------------------

  /** The entries that lines of a file hold, numbered from `number`. */
  function ParseLines(lib: Library, lines: seq<string>, number: nat): seq<Entry> {
    if lines == [] then []
    else
      var p := ParseEntry(lib, lines[0], number);
      (if p.Parsed? then [p.entry] else []) + ParseLines(lib, lines[1..], number + 1)
  }

  function ParseText(lib: Library, text: string): seq<Entry> {
    ParseLines(lib, Lines(text), 1)
  }

  function PrintEntries(lib: Library, es: seq<Entry>): string {
    Unlines(Map(e => ToLine(lib, e), es))
  }

  /** An entry that accepting a new key for the host replaces. */
  predicate Stale(lib: Library, e: Entry, host: string, port: u16, keyType: string) {
    e.marker.Unmarked? && e.keyType == keyType && Applies(lib, e, host, port)
  }

  function Kept(lib: Library, es: seq<Entry>, host: string, port: u16, keyType: string): seq<Entry> {
    Filter(e => !Stale(lib, e, host, port, keyType), es)
  }

  function NewEntry(lib: Library, q: Query, comment: string): Entry {
    Entry(Unmarked, [HostName(lib, q.host, q.port)], q.keyType, q.key, comment, 0)
  }

  function Forgotten(lib: Library, es: seq<Entry>, host: string, port: u16): seq<Entry> {
    Filter(e => !Applies(lib, e, host, port), es)
  }

  class Database {
    var entries: seq<Entry>

    constructor Empty()
      ensures entries == []
    {
      entries := [];
    }

    method Parse(lib: Library, text: string)
      modifies this
      ensures entries == ParseText(lib, text)
    {
      hide ParseEntry, Lines;
      var lines := Lines(text);
      var found := [];
      assert lines[0..] == lines && lines[|lines|..] == [];
      for index := 0 to |lines|
        invariant found + ParseLines(lib, lines[index..], index + 1) == ParseText(lib, text)
        modifies {}
      {
        var p := ParseEntry(lib, lines[index], index + 1);
        assert lines[index..][1..] == lines[index + 1..];
        if p.Parsed? {
          assert found + ([p.entry] + ParseLines(lib, lines[index + 1..], index + 2))
              == found + [p.entry] + ParseLines(lib, lines[index + 1..], index + 2);
          found := found + [p.entry];
        } else {
          assert [] + ParseLines(lib, lines[index + 1..], index + 2) == ParseLines(lib, lines[index + 1..], index + 2);
        }
      }
      entries := found;
    }

    /** Scans the entries once. */
    method Check(lib: Library, q: Query) returns (status: HostKeyStatus)
      ensures status == Verdict(lib, entries, q)
    {
      hide Applies;
      var sameType: Option<Entry> := None;
      for i := 0 to |entries|
        invariant FirstDeciding(lib, entries, q) >= i
        invariant sameType.None? ==> FirstContradicting(lib, entries, q) >= i
        invariant sameType.Some? ==> var c := FirstContradicting(lib, entries, q);
                                     c < i && entries[c] == sameType.value
      {
        var entry := entries[i];
        var applies := EntryMatches(lib, entry, q.host, q.port);
        if applies {
          if entry.key == q.key {
            match entry.marker
            case Revoked =>
              assert Decides(lib, entries[i], q);
              return RevokedKey;
            case CertAuthority =>
            case Unmarked =>
              assert Decides(lib, entries[i], q);
              return Trusted;
          } else if !entry.marker.Revoked? && entry.keyType == q.keyType && sameType.None? {
            assert Contradicts(lib, entries[i], q);
            sameType := Some(entry);
          }
        }
      }
      if sameType.Some? {
        return Changed(lib.fingerprint(sameType.value.key), sameType.value.keyType);
      }
      return Unknown;
    }

    /** Records a key the user has accepted. */
    method Accept(lib: Library, q: Query, comment: string)
      modifies this
      ensures entries == Kept(lib, old(entries), q.host, q.port, q.keyType) + [NewEntry(lib, q, comment)]
    {
      hide Kept, SplitHostPort;
      var pattern := if q.port == 22 then lib.lower(q.host) else "[" + lib.lower(q.host) + "]:" + Decimal(q.port);
      var kept := RetainFresh(lib, entries, q.host, q.port, q.keyType);
      entries := kept + [Entry(Unmarked, [pattern], q.keyType, q.key, comment, 0)];
    }

    /** Removes every entry for a host. */
    method Forget(lib: Library, host: string, port: u16) returns (dropped: nat)
      modifies this
      ensures entries == Forgotten(lib, old(entries), host, port)
      ensures dropped == |old(entries)| - |entries|
    {
      hide Applies;
      var before := |entries|;
      entries := RetainOthers(lib, entries, host, port);
      dropped := before - |entries|;
    }

    method ToStringLossy(lib: Library) returns (out: string)
      ensures out == PrintEntries(lib, entries)
    {
      out := "";
      for i := 0 to |entries|
        invariant out + PrintEntries(lib, entries[i..]) == PrintEntries(lib, entries)
      {
        PrintCons(lib, entries[i..]);
        assert entries[i..][1..] == entries[i + 1..];
        out := out + ToLine(lib, entries[i]) + "\n";
      }
    }
  }

  /** The retain loop of accept. */
  method RetainFresh(lib: Library, es: seq<Entry>, host: string, port: u16, keyType: string) returns (kept: seq<Entry>)
    ensures kept == Kept(lib, es, host, port, keyType)
  {
    hide Kept, Applies;
    kept := [];
    assert es[0..] == es && es[|es|..] == [];
    KeptNothing(lib, host, port, keyType);
    for i := 0 to |es|
      invariant kept + Kept(lib, es[i..], host, port, keyType) == Kept(lib, es, host, port, keyType)
    {
      var entry, rest := es[i], es[i..];
      var applies := EntryMatches(lib, entry, host, port);
      KeptCons(lib, rest, host, port, keyType);
      assert rest[1..] == es[i + 1..] && rest[0] == entry;
      ghost var more := Kept(lib, es[i + 1..], host, port, keyType);
      assert kept + ([entry] + more) == kept + [entry] + more && kept + ([] + more) == kept + more;
      if !(entry.marker.Unmarked? && entry.keyType == keyType && applies) {
        kept := kept + [entry];
      }
    }
  }

  /** The retain loop of forget. */
  method RetainOthers(lib: Library, es: seq<Entry>, host: string, port: u16) returns (kept: seq<Entry>)
    ensures kept == Forgotten(lib, es, host, port)
  {
    hide Forgotten, Applies;
    kept := [];
    assert es[0..] == es && es[|es|..] == [];
    ForgottenNothing(lib, host, port);
    for i := 0 to |es|
      invariant kept + Forgotten(lib, es[i..], host, port) == Forgotten(lib, es, host, port)
    {
      var entry, rest := es[i], es[i..];
      var applies := EntryMatches(lib, entry, host, port);
      ForgottenCons(lib, rest, host, port);
      assert rest[1..] == es[i + 1..] && rest[0] == entry;
      ghost var more := Forgotten(lib, es[i + 1..], host, port);
      assert kept + ([entry] + more) == kept + [entry] + more && kept + ([] + more) == kept + more;
      if !applies {
        kept := kept + [entry];
      }
    }
  }

  lemma KeptNothing(lib: Library, host: string, port: u16, keyType: string)
    ensures Kept(lib, [], host, port, keyType) == []
  {
  }

  lemma ForgottenNothing(lib: Library, host: string, port: u16)
    ensures Forgotten(lib, [], host, port) == []
  {
  }

  lemma KeptCons(lib: Library, es: seq<Entry>, host: string, port: u16, keyType: string)
    requires es != []
    ensures Kept(lib, es, host, port, keyType)
         == (if Stale(lib, es[0], host, port, keyType) then [] else [es[0]]) + Kept(lib, es[1..], host, port, keyType)
  {
  }

  lemma ForgottenCons(lib: Library, es: seq<Entry>, host: string, port: u16)
    requires es != []
    ensures Forgotten(lib, es, host, port)
         == (if Applies(lib, es[0], host, port) then [] else [es[0]]) + Forgotten(lib, es[1..], host, port)
  {
  }

  lemma PrintCons(lib: Library, es: seq<Entry>)
    requires es != []
    ensures PrintEntries(lib, es) == ToLine(lib, es[0]) + "\n" + PrintEntries(lib, es[1..])
  {
    var f := e => ToLine(lib, e);
    assert Map(f, es)[1..] == Map(f, es[1..]);
  }

  /** The loop of KnownHostEntry::matches. */
  method EntryMatches(lib: Library, e: Entry, host: string, port: u16) returns (applies: bool)
    ensures applies == Applies(lib, e, host, port)
  {
    hide PatternMatches;
    applies := false;
    for i := 0 to |e.patterns|
      invariant applies <==> exists k :: 0 <= k < i && Positive(lib, e.patterns[k], host, port)
      invariant forall k :: 0 <= k < i ==> !Excludes(lib, e.patterns[k], host, port)
    {
      var pattern := e.patterns[i];
      var negated := Negated(pattern);
      if PatternMatches(lib, if negated then pattern[1..] else pattern, host, port) {
        if negated {
          assert Excludes(lib, e.patterns[i], host, port);
          return false;
        }
        assert Positive(lib, e.patterns[i], host, port);
        applies := true;
      }
    }
  }
}
