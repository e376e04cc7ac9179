/** Host pattern matching: wildcard_match in crates/rdt-ssh/src/known_hosts.rs.

    The text has been lower-cased by the caller; `fold` is the first character
    of a pattern character's lower case. */
module Glob {
  import opened Basics

  type Fold = char -> char

  predicate One(fold: Fold, pattern: char, c: char) {
    pattern == '?' || fold(pattern) == c
  }

  /** What a pattern means: `*` is any run, `?` any one character, and every
      other character itself up to case; from position p and t on. */
  predicate Glob(fold: Fold, pat: string, p: nat, text: string, t: nat)
    requires p <= |pat| && t <= |text|
    decreases |pat| - p, |text| - t
  {
    if p == |pat| then t == |text|
    else if pat[p] == '*' then
      Glob(fold, pat, p + 1, text, t) || (t < |text| && Glob(fold, pat, p, text, t + 1))
    else t < |text| && (pat[p] == '?' || fold(pat[p]) == text[t]) && Glob(fold, pat, p + 1, text, t + 1)
  }

  predicate AllStars(pat: string, p: nat)
    requires p <= |pat|
    decreases |pat| - p
  {
    p == |pat| || (pat[p] == '*' && AllStars(pat, p + 1))
  }

  /** The last `*` taken, and the position in the text it was last tried at. */
  datatype Star = NoStar | Star(p: nat, t: nat)

  predicate StarFits(pat: string, p: nat, text: string, t: nat, star: Star) {
    && p <= |pat| && t <= |text|
    && (star.Star? ==> star.p < p && star.t <= t)
  }

  /** The scanning loop: one backtrack point, the latest star. */
  predicate Scan(fold: Fold, pat: string, p: nat, text: string, t: nat, star: Star)
    requires StarFits(pat, p, text, t, star)
    decreases if star.NoStar? then |pat| + 1 else |pat| - star.p,
              if star.NoStar? then 0 else |text| - star.t,
              |text| - t
  {
    if t == |text| then AllStars(pat, p)
    else if p < |pat| && One(fold, pat[p], text[t]) then Scan(fold, pat, p + 1, text, t + 1, star)
    else if p < |pat| && pat[p] == '*' then Scan(fold, pat, p + 1, text, t, Star(p, t))
    else if star.Star? then Scan(fold, pat, star.p + 1, text, star.t + 1, Star(star.p, star.t + 1))
    else false
  }

  predicate Matches(fold: Fold, pat: string, text: string) {
    Scan(fold, pat, 0, text, 0, NoStar)
  }

  method WildcardMatch(fold: Fold, pat: string, text: string) returns (matched: bool)
    ensures matched == Matches(fold, pat, text)
  {
    var p: nat, t: nat, star := 0, 0, NoStar;
    while t < |text|
      invariant StarFits(pat, p, text, t, star)
      invariant Scan(fold, pat, p, text, t, star) == Matches(fold, pat, text)
      decreases if star.NoStar? then |pat| + 1 else |pat| - star.p,
                if star.NoStar? then 0 else |text| - star.t,
                |text| - t
    {
      if p < |pat| && (pat[p] == '?' || fold(pat[p]) == text[t]) {
        p, t := p + 1, t + 1;
      } else if p < |pat| && pat[p] == '*' {
        star := Star(p, t);
        p := p + 1;
      } else if star.Star? {
        p, t := star.p + 1, star.t + 1;
        star := Star(star.p, t);
      } else {
        return false;
      }
    }
    while p < |pat| && pat[p] == '*'
      invariant p <= |pat| && AllStars(pat, p) == Matches(fold, pat, text)
    {
      p := p + 1;
    }
    matched := p == |pat|;
  }

  // ----- The loop decides the pattern's meaning ------------------------------

  /** Since the latest star, pattern and text have advanced in step, over
      pattern characters that are not stars. */
  ghost predicate InStep(pat: string, p: nat, text: string, t: nat, star: Star) {
    && StarFits(pat, p, text, t, star)
    && (star.Star? ==>
          && pat[star.p] == '*'
          && p - (star.p + 1) == t - star.t
          && forall i :: star.p < i < p ==> pat[i] != '*')
  }

  lemma {:induction false} StarsMatchNothing(fold: Fold, pat: string, p: nat, text: string)
    requires p <= |pat|
    ensures Glob(fold, pat, p, text, |text|) == AllStars(pat, p)
    decreases |pat| - p
  {
    if p < |pat| && pat[p] == '*' {
      StarsMatchNothing(fold, pat, p + 1, text);
    }
  }

  /** A run of n ordinary pattern characters consumes exactly n of the text. */
  lemma {:induction false} RunConsumes(fold: Fold, pat: string, p: nat, n: nat, text: string, t: nat)
    requires p + n <= |pat| && t <= |text|
    requires forall i :: p <= i < p + n ==> pat[i] != '*'
    requires Glob(fold, pat, p, text, t)
    ensures t + n <= |text| && Glob(fold, pat, p + n, text, t + n)
    decreases n
  {
    if n > 0 {
      RunConsumes(fold, pat, p + 1, n - 1, text, t + 1);
    }
  }

  /** A star that matches from a later position matches from an earlier one. */
  lemma {:induction false} StarReachesBack(fold: Fold, pat: string, p: nat, text: string, t: nat, later: nat)
    requires p < |pat| && pat[p] == '*' && t <= later <= |text|
    requires Glob(fold, pat, p, text, later)
    ensures Glob(fold, pat, p, text, t)
    decreases later - t
  {
    if t < later {
      StarReachesBack(fold, pat, p, text, t + 1, later);
    }
  }

  /** Wherever a star and the run of n characters after it match from t on,
      what follows the run matches at t + n or later. */
  lemma {:induction false} StarThenRun(fold: Fold, pat: string, p: nat, n: nat, text: string, t: nat) returns (at: nat)
    requires p + 1 + n <= |pat| && pat[p] == '*' && t <= |text|
    requires forall i :: p < i < p + 1 + n ==> pat[i] != '*'
    requires Glob(fold, pat, p, text, t)
    ensures t + n <= at <= |text| && Glob(fold, pat, p + 1 + n, text, at)
    decreases |text| - t
  {
    if Glob(fold, pat, p + 1, text, t) {
      RunConsumes(fold, pat, p + 1, n, text, t);
      at := t + n;
    } else {
      at := StarThenRun(fold, pat, p, n, text, t + 1);
    }
  }

  /** The loop keeps only its latest star, and loses nothing by it. */
  lemma {:induction false} ScanDecidesGlob(fold: Fold, pat: string, p: nat, text: string, t: nat, star: Star)
    requires '*' !in text && fold('*') == '*'
    requires InStep(pat, p, text, t, star)
    ensures Scan(fold, pat, p, text, t, star)
         == (Glob(fold, pat, p, text, t)
             || (star.Star? && star.t < |text| && Glob(fold, pat, star.p, text, star.t + 1)))
    decreases if star.NoStar? then |pat| + 1 else |pat| - star.p,
              if star.NoStar? then 0 else |text| - star.t,
              |text| - t
  {
    if t == |text| {
      StarsMatchNothing(fold, pat, p, text);
      if star.Star? && star.t < |text| && Glob(fold, pat, star.p, text, star.t + 1) {
        var at := StarThenRun(fold, pat, star.p, p - star.p - 1, text, star.t + 1);
      }
    } else if p < |pat| && One(fold, pat[p], text[t]) {
      assert text[t] in text;
      ScanDecidesGlob(fold, pat, p + 1, text, t + 1, star);
    } else if p < |pat| && pat[p] == '*' {
      ScanDecidesGlob(fold, pat, p + 1, text, t, Star(p, t));
      if star.Star? && Glob(fold, pat, star.p, text, star.t + 1) {
        var at := StarThenRun(fold, pat, star.p, p - star.p - 1, text, star.t + 1);
        StarReachesBack(fold, pat, p, text, t, at);
      }
    } else if star.Star? {
      ScanDecidesGlob(fold, pat, star.p + 1, text, star.t + 1, Star(star.p, star.t + 1));
    }
  }

  // ----- Exactly when --------------------------------------------------------

  /** A pattern on which a literal `*` in the text misleads the loop: `?` up to
      it, a star, and one `?` more than the text has left. */
  function Misleading(text: string, i: nat): (pat: string)
    requires i < |text|
    ensures |pat| == |text| + 1 && pat[i] == '*'
    ensures forall k :: 0 <= k <= |text| && k != i ==> pat[k] == '?'
  {
    Repeat(i, '?') + "*" + Repeat(|text| - i, '?')
  }

  lemma {:induction false} MisledScan(fold: Fold, text: string, i: nat, k: nat)
    requires i < |text| && text[i] == '*' && fold('*') == '*' && k <= |text|
    ensures !Scan(fold, Misleading(text, i), k, text, k, NoStar)
    decreases |text| - k
  {
    if k < |text| {
      MisledScan(fold, text, i, k + 1);
    }
  }

  lemma {:induction false} MisleadingMatches(fold: Fold, text: string, i: nat, p: nat, t: nat)
    requires i < |text| && t <= |text|
    requires (p == t && p <= i) || (p == t + 1 && i < p)
    ensures Glob(fold, Misleading(text, i), p, text, t)
    decreases |text| + 1 - p
  {
    if p == i {
      MisleadingMatches(fold, text, i, p + 1, t);
    } else if p <= |text| {
      MisleadingMatches(fold, text, i, p + 1, t + 1);
    }
  }

  /** The iterative matcher agrees with the meaning of every pattern exactly on
      the texts that contain no literal `*`. */
  lemma MatcherIsExactIff(fold: Fold, text: string)
    requires fold('*') == '*'
    ensures (forall pat :: Matches(fold, pat, text) == Glob(fold, pat, 0, text, 0)) <==> '*' !in text
  {
    if '*' !in text {
      forall pat ensures Matches(fold, pat, text) == Glob(fold, pat, 0, text, 0) {
        ScanDecidesGlob(fold, pat, 0, text, 0, NoStar);
      }
    } else {
      var i :| 0 <= i < |text| && text[i] == '*';
      MisledScan(fold, text, i, 0);
      MisleadingMatches(fold, text, i, 0, 0);
      assert Matches(fold, Misleading(text, i), text) != Glob(fold, Misleading(text, i), 0, text, 0);
    }
  }

  // ----- A host as its own pattern -------------------------------------------

  /** A text whose characters are their own lower case matches itself, whatever
      `*` and `?` it contains. */
  lemma {:induction false} MatchesItself(fold: Fold, text: string, k: nat)
    requires k <= |text| && forall c :: c in text ==> fold(c) == c
    ensures Scan(fold, text, k, text, k, NoStar)
    decreases |text| - k
  {
    if k < |text| {
      assert text[k] in text;
      MatchesItself(fold, text, k + 1);
    }
  }

  /** A proper prefix of a text, as a pattern, is consumed literally, stars and all, and then falls short. */
  lemma {:induction false} PrefixFallsShort(fold: Fold, text: string, n: nat, k: nat)
    requires k <= n < |text| && forall c :: c in text ==> fold(c) == c
    ensures !Scan(fold, text[..n], k, text, k, NoStar)
    decreases n - k
  {
    if k < n {
      assert text[k] in text;
      PrefixFallsShort(fold, text, n, k + 1);
    }
  }

  /** A pattern without `*` only matches texts of its own length. */
  lemma {:induction false} NoStarFixesLength(fold: Fold, pat: string, p: nat, text: string, t: nat)
    requires p <= |pat| && t <= |text| && '*' !in pat
    requires Scan(fold, pat, p, text, t, NoStar)
    ensures |pat| - p == |text| - t
    decreases |text| - t
  {
    assert p < |pat| ==> pat[p] in pat;
    if t < |text| {
      NoStarFixesLength(fold, pat, p + 1, text, t + 1);
    }
  }
}
