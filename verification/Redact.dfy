/** Secret redaction: crates/rdt-types/src/redact.rs. */
module Redact {
  import opened Basics
  import opened Text

  const REDACTED := "<redacted>"

  // ----- Occurrences ---------------------------------------------------------

  predicate OccursAt(text: string, s: string, i: nat) {
    i + |s| <= |text| && text[i..i + |s|] == s
  }

  ghost predicate Contains(text: string, s: string) {
    exists i: nat :: OccursAt(text, s, i)
  }

  // ----- Replacing literal secrets -------------------------------------------

  /** The text between the occurrences found from left to right, none
      overlapping the one before. */
  function SplitAt(text: string, s: string): (pieces: seq<string>)
    requires s != ""
    ensures pieces != []
    decreases |text|
  {
    if |text| < |s| then [text]
    else if s <= text then [""] + SplitAt(text[|s|..], s)
    else
      var rest := SplitAt(text[1..], s);
      [[text[0]] + rest[0]] + rest[1..]
  }

  /** `text.replace(s, REDACTED)` */
  function Replace(text: string, s: string): string
    requires s != ""
  {
    Join(SplitAt(text, s), REDACTED)
  }

  function RedactSecretIn(text: string, s: string): string {
    if s == "" then text else Replace(text, s)
  }

  function ReplaceAll(secrets: seq<string>, text: string): string
    requires forall i :: 0 <= i < |secrets| ==> secrets[i] != ""
  {
    if secrets == [] then text else ReplaceAll(secrets[1..], Replace(text, secrets[0]))
  }

  // ----- Scrubbing key=value pairs -------------------------------------------

  const SENSITIVE_KEYS: seq<string> := [
    "password", "passwd", "passphrase", "pass", "secret", "token", "apikey", "api_key", "authorization",
    "auth", "credential", "credentials", "private_key", "privatekey", "otp", "pin"
  ]

  predicate IsKeyChar(c: char) {
    'a' <= c <= 'z' || 'A' <= c <= 'Z' || '0' <= c <= '9' || c == '_' || c == '-'
  }

  function AsciiLower(c: char): char {
    if 'A' <= c <= 'Z' then c - 'A' + 'a' else c
  }

  predicate EqualIgnoringCase(a: string, b: string) {
    |a| == |b| && forall i :: 0 <= i < |a| ==> AsciiLower(a[i]) == AsciiLower(b[i])
  }

  predicate EndsWith(s: string, suffix: string) {
    |suffix| <= |s| && s[|s| - |suffix|..] == suffix
  }

  predicate IsSensitive(key: string) {
    exists i :: 0 <= i < |SENSITIVE_KEYS|
                && (EqualIgnoringCase(key, SENSITIVE_KEYS[i]) || EndsWith(key, SENSITIVE_KEYS[i]))
  }

  /** The run of key characters that ends a text. */
  function TrailingKey(s: string): (key: string)
    ensures |key| <= |s| && s[|s| - |key|..] == key
  {
    if s != "" && IsKeyChar(s[|s| - 1]) then TrailingKey(s[..|s| - 1]) + [s[|s| - 1]] else ""
  }

  /** `=` or `: ` at the front, or neither. */
  function SeparatorLength(rest: string): (n: nat)
    ensures n <= |rest|
  {
    if rest == "" then 0
    else if rest[0] == '=' then 1
    else if rest[0] == ':' && |rest| > 1 && rest[1] == ' ' then 2
    else 0
  }

  /** A header's value (separator of two) runs to the end of the line, a pair's
      to the next white space, comma or semicolon. */
  predicate EndsValue(header: bool, c: char) {
    if header then c == '\n' else IsSpace(c) || c == ',' || c == ';'
  }

  function ValueLength(header: bool, rest: string): (n: nat)
    ensures n <= |rest|
    ensures forall i :: 0 <= i < n ==> !EndsValue(header, rest[i])
    ensures n < |rest| ==> EndsValue(header, rest[n])
  {
    if rest == "" || EndsValue(header, rest[0]) then 0 else 1 + ValueLength(header, rest[1..])
  }

  /** What replaces a value. */
  function Shown(key: string, value: string): string {
    if IsSensitive(key) && value != "" then REDACTED else value
  }

  /** The rest of a text, scrubbed, when `before` has already been scanned. */
  function ScrubFrom(before: string, rest: string): string
    decreases |rest|
  {
    var n := SeparatorLength(rest);
    if rest == "" then ""
    else if n == 0 then [rest[0]] + ScrubFrom(before + [rest[0]], rest[1..])
    else
      var v := n + ValueLength(n == 2, rest[n..]);
      rest[..n] + Shown(TrailingKey(before), rest[n..v]) + ScrubFrom(before + rest[..v], rest[v..])
  }

  function Scrub(text: string): string {
    ScrubFrom("", text)
  }

  /** Everything before `index` has been copied or replaced.  The last key
      characters before `index` are the last characters written, so they can be
      popped and written again, unless a value has just ended: then the next
      character is neither a key character nor a separator. */
  ghost predicate Scanned(text: string, index: nat, output: string) {
    && index <= |text|
    && output + ScrubFrom(text[..index], text[index..]) == Scrub(text)
    && (EndsWith(output, TrailingKey(text[..index]))
        || (index < |text| ==> !IsKeyChar(text[index]) && SeparatorLength(text[index..]) == 0))
  }

  method ScrubSensitivePairs(text: string) returns (output: string)
    ensures output == Scrub(text)
  {
    hide Scanned, Scrub, TrailingKey;
    output := "";
    var index := 0;
    NothingScanned(text);
    while index < |text|
      invariant index <= |text| && Scanned(text, index, output)
    {
      var separatorLen := if text[index] == '=' then 1
                          else if text[index] == ':' && index + 1 < |text| && text[index + 1] == ' ' then 2
                          else 0;
      assert separatorLen == SeparatorLength(text[index..]);
      if separatorLen == 0 {
        ScannedOne(text, index, output);
        output := output + [text[index]];
        index := index + 1;
      } else {
        KeyIsLast(text, index, output);
        ghost var before, at := output, index;
        output, index := CopyPair(text, index, separatorLen, output);
        ScannedPair(text, at, separatorLen, index, before);
      }
    }
    AllScanned(text, output);
  }

  /** Writes the key before the separator again, then the separator, then the
      value or what stands for it. */
  method CopyPair(text: string, index: nat, separatorLen: nat, written: string) returns (output: string, end: nat)
    requires index + separatorLen <= |text|
    requires EndsWith(written, TrailingKey(text[..index]))
    ensures index + separatorLen <= end <= |text|
    ensures end - (index + separatorLen) == ValueLength(separatorLen == 2, text[index + separatorLen..])
    ensures output == written + text[index..index + separatorLen]
                      + Shown(TrailingKey(text[..index]), text[index + separatorLen..end])
  {
    hide IsSensitive, TrailingKey, ValueLength;
    var start := KeyStart(text, index);
    var key := text[start..index];
    var sensitive := IsSensitive(key);
    output := DropAndRestore(written, key);
    var valueStart := index + separatorLen;
    output := output + text[index..valueStart];
    end := ValueEnd(text, valueStart, separatorLen == 2);
    if sensitive && end > valueStart {
      output := output + REDACTED;
    } else {
      output := output + text[valueStart..end];
    }
  }

  lemma NothingScanned(text: string)
    ensures Scanned(text, 0, "")
  {
    assert text[0..] == text && text[..0] == "" && "" + Scrub(text) == Scrub(text);
  }

  lemma AllScanned(text: string, output: string)
    requires Scanned(text, |text|, output)
    ensures output == Scrub(text)
  {
    assert text[|text|..] == "";
    assert output + "" == output;
  }

  lemma KeyIsLast(text: string, index: nat, output: string)
    requires Scanned(text, index, output) && index < |text| && SeparatorLength(text[index..]) > 0
    ensures EndsWith(output, TrailingKey(text[..index]))
  {
  }

  lemma ScannedOne(text: string, index: nat, output: string)
    requires Scanned(text, index, output) && index < |text| && SeparatorLength(text[index..]) == 0
    ensures Scanned(text, index + 1, output + [text[index]])
  {
    hide ScrubFrom, TrailingKey, SeparatorLength;
    ScanOne(text, index);
    Regroup(output, [text[index]], "", ScrubFrom(text[..index + 1], text[index + 1..]));
    KeyGrows(output, TrailingKey(text[..index]), text[index]);
  }

  lemma KeyGrows(output: string, key: string, c: char)
    ensures EndsWith(output, key) ==> EndsWith(output + [c], key + [c])
    ensures EndsWith(output + [c], "")
  {
  }

  lemma ScannedPair(text: string, index: nat, n: nat, end: nat, written: string)
    requires Scanned(text, index, written) && index < |text| && n == SeparatorLength(text[index..]) > 0
    requires index + n <= end <= |text|
    requires ValueLength(n == 2, text[index + n..]) == end - (index + n)
    ensures Scanned(text, end, written + text[index..index + n] + Shown(TrailingKey(text[..index]), text[index + n..end]))
  {
    hide ScrubFrom, TrailingKey, Shown, ValueLength;
    ScanPair(text, index, n, end);
    Regroup(written, text[index..index + n], Shown(TrailingKey(text[..index]), text[index + n..end]),
            ScrubFrom(text[..end], text[end..]));
    if end < |text| {
      assert text[index + n..][end - (index + n)] == text[end];
    }
  }

  lemma Regroup(w: string, a: string, b: string, c: string)
    ensures w + (a + b + c) == w + a + b + c
    ensures w + (a + c) == w + a + c
  {
  }

  /** Walks back from a separator over key characters. */
  method KeyStart(text: string, index: nat) returns (start: nat)
    requires index <= |text|
    ensures start <= index && text[start..index] == TrailingKey(text[..index])
  {
    start := index;
    while start > 0 && IsKeyChar(text[start - 1])
      invariant start <= index
      invariant TrailingKey(text[..index]) == TrailingKey(text[..start]) + text[start..index]
    {
      KeyStep(text, start, index);
      start := start - 1;
    }
  }

  lemma KeyStep(text: string, start: nat, index: nat)
    requires 0 < start <= index <= |text| && IsKeyChar(text[start - 1])
    ensures TrailingKey(text[..start]) + text[start..index]
         == TrailingKey(text[..start - 1]) + text[start - 1..index]
  {
    var shorter := TrailingKey(text[..start - 1]);
    assert text[..start][..start - 1] == text[..start - 1];
    assert [text[start - 1]] + text[start..index] == text[start - 1..index];
    assert shorter + [text[start - 1]] + text[start..index] == shorter + ([text[start - 1]] + text[start..index]);
  }

  /** Pops as many characters as the key has, then writes the key. */
  method DropAndRestore(written: string, key: string) returns (output: string)
    requires EndsWith(written, key)
    ensures output == written
  {
    output := written;
    for popped := 0 to |key|
      invariant output == written[..|written| - popped]
    {
      output := output[..|output| - 1];
    }
    output := output + key;
  }

  method ValueEnd(text: string, start: nat, header: bool) returns (end: nat)
    requires start <= |text|
    ensures start <= end <= |text| && end - start == ValueLength(header, text[start..])
    ensures end < |text| ==> EndsValue(header, text[end])
  {
    end := start;
    while end < |text| && !EndsValue(header, text[end])
      invariant start <= end <= |text|
      invariant ValueLength(header, text[start..]) == end - start + ValueLength(header, text[end..])
    {
      assert text[end..][1..] == text[end + 1..];
      end := end + 1;
    }
  }

  lemma ScanOne(text: string, i: nat)
    requires i < |text| && SeparatorLength(text[i..]) == 0
    ensures ScrubFrom(text[..i], text[i..]) == [text[i]] + ScrubFrom(text[..i + 1], text[i + 1..])
    ensures TrailingKey(text[..i + 1]) == if IsKeyChar(text[i]) then TrailingKey(text[..i]) + [text[i]] else ""
  {
    assert text[i..][1..] == text[i + 1..] && text[..i] + [text[i]] == text[..i + 1];
    assert text[..i + 1][..i] == text[..i];
  }

  lemma ScanPair(text: string, i: nat, n: nat, end: nat)
    requires i + n <= end <= |text| && n == SeparatorLength(text[i..]) && n > 0
    requires ValueLength(n == 2, text[i + n..]) == end - (i + n)
    ensures ScrubFrom(text[..i], text[i..])
         == text[i..i + n] + Shown(TrailingKey(text[..i]), text[i + n..end]) + ScrubFrom(text[..end], text[end..])
  {
    hide TrailingKey, Shown, ValueLength;
    var rest, v := text[i..], end - i;
    Slices(text, i, n, end);
    PairUnfolds(text[..i], rest, n, v);
  }

  lemma PairUnfolds(before: string, rest: string, n: nat, v: nat)
    requires n == SeparatorLength(rest) && n > 0 && n <= v <= |rest|
    requires v == n + ValueLength(n == 2, rest[n..])
    ensures ScrubFrom(before, rest)
         == rest[..n] + Shown(TrailingKey(before), rest[n..v]) + ScrubFrom(before + rest[..v], rest[v..])
  {
    hide TrailingKey, Shown, ValueLength;
  }

  lemma Slices(text: string, i: nat, n: nat, end: nat)
    requires i + n <= end <= |text|
    ensures text[i..][n..] == text[i + n..] && text[i..][..n] == text[i..i + n]
    ensures text[i..][n..end - i] == text[i + n..end] && text[i..][end - i..] == text[end..]
    ensures text[..i] + text[i..][..end - i] == text[..end]
  {
  }

  // ----- The redactor --------------------------------------------------------

  /** UTF-8 length in bytes. */
  function ByteLength(s: string): nat {
    if s == "" then 0
    else
      var c := s[0] as int;
      (if c < 0x80 then 1 else if c < 0x800 then 2 else if c < 0x1_0000 then 3 else 4) + ByteLength(s[1..])
  }

  predicate Registered(secrets: seq<string>) {
    && (forall i :: 0 <= i < |secrets| ==> secrets[i] != "" && ByteLength(secrets[i]) >= 4)
    && (forall i, j :: 0 <= i < j < |secrets| ==> secrets[i] != secrets[j])
  }

  function RedactWith(secrets: seq<string>, text: string): string
    requires Registered(secrets)
  {
    Scrub(ReplaceAll(secrets, text))
  }

  class Redactor {
    var secrets: seq<string>

    constructor ()
      ensures secrets == [] && Registered(secrets)
    {
      secrets := [];
    }

    /** Registers a value of at least four bytes, once. */
    method WithSecret(secret: string)
      requires Registered(secrets)
      modifies this
      ensures Registered(secrets)
      ensures secret in secrets <==> ByteLength(secret) >= 4
      ensures secrets == if ByteLength(secret) >= 4 && secret !in old(secrets) then old(secrets) + [secret]
                         else old(secrets)
    {
      if ByteLength(secret) >= 4 && secret !in secrets {
        secrets := secrets + [secret];
      }
    }

    method Redact(text: string) returns (output: string)
      requires Registered(secrets)
      ensures output == RedactWith(secrets, text)
    {
      output := text;
      for i := 0 to |secrets|
        invariant ReplaceAll(secrets[i..], output) == ReplaceAll(secrets, text)
      {
        assert secrets[i..][1..] == secrets[i + 1..];
        if exists k | 0 <= k <= |output| :: OccursAt(output, secrets[i], k) {
          output := Replace(output, secrets[i]);
        } else {
          NothingToReplace(output, secrets[i]);
        }
      }
      output := ScrubSensitivePairs(output);
    }
  }

  lemma {:induction false} NothingToReplace(text: string, s: string)
    requires s != "" && forall i :: 0 <= i <= |text| ==> !OccursAt(text, s, i)
    ensures SplitAt(text, s) == [text] && Replace(text, s) == text
    decreases |text|
  {
    if |text| >= |s| {
      assert !OccursAt(text, s, 0);
      assert text[0..|s|] != s;
      forall i | 0 <= i <= |text[1..]| ensures !OccursAt(text[1..], s, i) {
        assert !OccursAt(text, s, i + 1);
        assert i + |s| <= |text[1..]| ==> text[1..][i..i + |s|] == text[i + 1..i + 1 + |s|];
      }
      NothingToReplace(text[1..], s);
      assert SplitAt(text[1..], s) == [text[1..]];
      assert [text[0]] + text[1..] == text;
    }
    assert Join([text], REDACTED) == text;
  }
}
