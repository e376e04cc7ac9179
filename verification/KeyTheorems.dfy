/** Which keys are sensitive, and what becomes of their values. */
module KeyTheorems {
  import opened Basics
  import opened Text
  import opened Redact
  import opened RedactTheorems
  import opened ScrubTheorems
  import Utf8Theorems

  /** The words that name a secret. */
  predicate IsWord(w: string) {
    || w == "password" || w == "passwd" || w == "passphrase" || w == "pass"
    || w == "secret" || w == "token" || w == "apikey" || w == "api_key"
    || w == "authorization" || w == "auth" || w == "credential" || w == "credentials"
    || w == "private_key" || w == "privatekey" || w == "otp" || w == "pin"
  }

  /** The same letters, any of them as its capital, which is 32 below. */
  predicate Spells(key: string, w: string) {
    |key| == |w| && forall i :: 0 <= i < |w| ==> key[i] == w[i] || IsCapitalOf(key[i], w[i])
  }

  predicate IsCapitalOf(c: char, letter: char) {
    'a' <= letter <= 'z' && c as int == letter as int - 32
  }

  /** The key is a word in any case, or ends in one exactly. */
  ghost predicate NamesSecret(key: string) {
    exists w :: IsWord(w) && (Spells(key, w) || (|w| <= |key| && key[|key| - |w|..] == w))
  }

  lemma WordsAre(w: string)
    ensures IsWord(w) <==> w in SENSITIVE_KEYS
  {
    if IsWord(w) {
      assert w == SENSITIVE_KEYS[0] || w == SENSITIVE_KEYS[1] || w == SENSITIVE_KEYS[2] || w == SENSITIVE_KEYS[3]
          || w == SENSITIVE_KEYS[4] || w == SENSITIVE_KEYS[5] || w == SENSITIVE_KEYS[6] || w == SENSITIVE_KEYS[7]
          || w == SENSITIVE_KEYS[8] || w == SENSITIVE_KEYS[9] || w == SENSITIVE_KEYS[10] || w == SENSITIVE_KEYS[11]
          || w == SENSITIVE_KEYS[12] || w == SENSITIVE_KEYS[13] || w == SENSITIVE_KEYS[14] || w == SENSITIVE_KEYS[15];
    }
  }

  lemma WordsAreLower(i: nat)
    requires i < |SENSITIVE_KEYS|
    ensures forall k :: 0 <= k < |SENSITIVE_KEYS[i]| ==> !('A' <= SENSITIVE_KEYS[i][k] <= 'Z')
  {
  }

  lemma SpellsIs(key: string, w: string)
    requires forall k :: 0 <= k < |w| ==> !('A' <= w[k] <= 'Z')
    ensures EqualIgnoringCase(key, w) <==> Spells(key, w)
  {
    if |key| == |w| {
      forall i | 0 <= i < |w| ensures AsciiLower(key[i]) == AsciiLower(w[i]) <==> key[i] == w[i] || IsCapitalOf(key[i], w[i]) {
        SameLetter(key[i], w[i]);
      }
    }
  }

  lemma SameLetter(c: char, letter: char)
    requires !('A' <= letter <= 'Z')
    ensures AsciiLower(c) == AsciiLower(letter) <==> c == letter || IsCapitalOf(c, letter)
  {
  }

  /** The sensitive keys are these and no others. */
  lemma KeyMeaning(key: string)
    ensures IsSensitive(key) <==> NamesSecret(key)
  {
    hide IsWord, Spells, EqualIgnoringCase;
    if NamesSecret(key) {
      var w :| IsWord(w) && (Spells(key, w) || (|w| <= |key| && key[|key| - |w|..] == w));
      WordsAre(w);
      var i :| 0 <= i < |SENSITIVE_KEYS| && SENSITIVE_KEYS[i] == w;
      WordsAreLower(i);
      SpellsIs(key, w);
    }
    if IsSensitive(key) {
      var i :| 0 <= i < |SENSITIVE_KEYS|
               && (EqualIgnoringCase(key, SENSITIVE_KEYS[i]) || EndsWith(key, SENSITIVE_KEYS[i]));
      var w := SENSITIVE_KEYS[i];
      WordsAre(w);
      WordsAreLower(i);
      SpellsIs(key, w);
    }
  }

  // ----- What becomes of a pair ----------------------------------------------

  predicate InKey(c: char) {
    'a' <= c <= 'z' || 'A' <= c <= 'Z' || '0' <= c <= '9' || c == '_' || c == '-'
  }

  predicate IsKeyText(key: string) {
    forall i :: 0 <= i < |key| ==> InKey(key[i])
  }

  /** What ends the value of a header, and of any other pair. */
  predicate Delimiter(header: bool, c: char) {
    if header then c == '\n' else IsSpace(c) || c == ',' || c == ';'
  }

  /** A pair is shown with its value, or, when its key names a secret and the value is not empty, with the
      marker; the text in front of it stays, and what follows is scrubbed as it would be alone. */
  lemma PairMeaning(front: string, key: string, header: bool, value: string, tail: string)
    requires NoSeparatorChars(front) && (front == "" || !InKey(front[|front| - 1])) && IsKeyText(key)
    requires forall i :: 0 <= i < |value| ==> !Delimiter(header, value[i])
    requires tail == "" || Delimiter(header, tail[0])
    ensures var sep := if header then ": " else "=";
            Scrub(front + key + sep + value + tail)
            == front + key + sep + (if NamesSecret(key) && value != "" then "<redacted>" else value) + Scrub(tail)
  {
    hide NamesSecret, IsSensitive, ScrubFrom, IsKeyText, Delimiter, NoSeparatorChars, SeparatorLength, TrailingKey;
    var sep := if header then ": " else "=";
    var before, rest := front + key, sep + value + tail;
    KeyTextIsPlain(front, key);
    PlainPrefixKept("", before, rest);
    assert "" + before == before && before + rest == front + key + sep + value + tail;
    PairAtFront(before, key, header, value, tail);
    KeyMeaning(key);
    Grouped(before, sep, Shown(key, value), Scrub(tail));
  }

  /** The same for a text that is one pair. */
  lemma PairAlone(key: string, header: bool, value: string)
    requires IsKeyText(key) && forall i :: 0 <= i < |value| ==> !Delimiter(header, value[i])
    ensures var sep := if header then ": " else "=";
            Scrub(key + sep + value) == key + sep + (if NamesSecret(key) && value != "" then "<redacted>" else value)
  {
    hide NamesSecret, IsKeyText, Delimiter, ScrubFrom;
    var sep := if header then ": " else "=";
    PairMeaning("", key, header, value, "");
    ScrubNothing("");
    assert "" + key + sep + value + "" == key + sep + value;
    var shown := if NamesSecret(key) && value != "" then "<redacted>" else value;
    assert "" + key + sep + shown + "" == key + sep + shown;
  }

  lemma Grouped(a: string, b: string, c: string, d: string)
    ensures a + (b + c + d) == a + b + c + d
  {
  }

  lemma InKeyIs(c: char)
    ensures InKey(c) <==> IsKeyChar(c)
    ensures InKey(c) ==> c != '=' && c != ':'
  {
  }

  lemma KeyTextIsPlain(front: string, key: string)
    requires NoSeparatorChars(front) && IsKeyText(key)
    requires front == "" || !InKey(front[|front| - 1])
    ensures NoSeparatorChars(front + key)
    ensures TrailingKey(front + key) == key
  {
    hide TrailingKey, InKey, IsKeyChar;
    forall c: char ensures (InKey(c) <==> IsKeyChar(c)) && (InKey(c) ==> c != '=' && c != ':') {
      InKeyIs(c);
    }
    WordIsKey(front, key);
  }

  lemma PairAtFront(before: string, key: string, header: bool, value: string, tail: string)
    requires TrailingKey(before) == key
    requires forall i :: 0 <= i < |value| ==> !Delimiter(header, value[i])
    requires tail == "" || Delimiter(header, tail[0])
    ensures var sep := if header then ": " else "=";
            ScrubFrom(before, sep + value + tail) == sep + Shown(key, value) + Scrub(tail)
  {
    hide ScrubFrom, TrailingKey, IsSensitive, Shown;
    var sep := if header then ": " else "=";
    var rest := sep + value + tail;
    DelimiterEnds(header, value, tail);
    SeparatorRead(header, value + tail);
    assert rest == sep + (value + tail);
    ValueOf(header, value, tail);
    var n, v := |sep|, |sep + value|;
    assert rest[..n] == sep && rest[n..] == value + tail && rest[n..v] == value && rest[v..] == tail;
    PairUnfolds(before, rest, n, v);
    DelimiterResets(before + rest[..v], header, tail);
  }

  lemma DelimiterEnds(header: bool, value: string, tail: string)
    requires forall i :: 0 <= i < |value| ==> !Delimiter(header, value[i])
    requires tail == "" || Delimiter(header, tail[0])
    ensures forall i :: 0 <= i < |value| ==> !EndsValue(header, value[i])
    ensures tail == "" || EndsValue(header, tail[0])
  {
  }

  lemma SeparatorRead(header: bool, more: string)
    ensures var sep := if header then ": " else "=";
            SeparatorLength(sep + more) == |sep| == (if header then 2 else 1)
  {
    var sep := if header then ": " else "=";
    assert (sep + more)[0] == sep[0] && (header ==> (sep + more)[1] == sep[1]);
  }

  /** What follows a value is scrubbed as it would be alone. */
  lemma DelimiterResets(before: string, header: bool, tail: string)
    requires tail == "" || Delimiter(header, tail[0])
    ensures ScrubFrom(before, tail) == Scrub(tail)
  {
    hide ScrubFrom, TrailingKey;
    ScrubDependsOnKey(before, "", tail);
  }

  // ----- How long a secret is ------------------------------------------------

  /** The length that decides whether a secret is registered is that of its UTF-8 encoding. */
  lemma {:induction false} ByteLengthMeaning(s: string)
    ensures ByteLength(s) == |Utf8Theorems.EncodeAll(Map((c: char) => c as Scalar, s))|
  {
    var f := (c: char) => c as Scalar;
    if s != "" {
      ByteLengthMeaning(s[1..]);
      assert Map(f, s)[1..] == Map(f, s[1..]);
    }
  }
}
