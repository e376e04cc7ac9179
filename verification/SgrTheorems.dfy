/** What SGR sets, attribute by attribute and sequence by sequence. */
module SgrTheorems {
  import opened Basics
  import opened Grid
  import opened Sgr
  import opened Screen
  import opened VtParser
  import opened MotionTheorems

  /** The attributes after `CSI params m`. */
  function After(t: Term, params: seq<u16>): Attrs
    requires Valid(t)
  {
    Apply(t, Csi(params, [], false, 0x6D)).cursor.attrs
  }

  lemma AfterIs(t: Term, params: seq<u16>)
    requires Valid(t)
    ensures After(t, params) == ApplySgr(params, t.cursor.attrs)
  {
    hide Valid, ApplySgr;
  }

  /** Nothing is changed but the attributes that will be printed with, whatever intermediates the sequence has;
      without parameters they are the plain ones. */
  lemma OnlyAttributes(t: Term, params: seq<u16>, ints: seq<byte>)
    requires Valid(t) && Public(ints)
    ensures Apply(t, Csi(params, ints, false, 0x6D)) == t.(cursor := t.cursor.(attrs := After(t, params)))
    ensures After(t, []) == PLAIN
  {
    hide Valid, ApplySgr;
    AfterIs(t, params);
    AfterIs(t, []);
    assert ApplySgr([], t.cursor.attrs) == PLAIN by {
      NoParameters(t.cursor.attrs);
    }
  }

  lemma NoParameters(attrs: Attrs)
    ensures ApplySgr([], attrs) == PLAIN
  {
  }

  /** Each attribute by the codes that set it and those that clear it; 0 clears them all. */
  predicate Coded(code: u16, a: Attrs, b: Attrs) {
    && b.bold == (code == 1 || (a.bold && code != 0 && code != 21 && code != 22))
    && b.dim == (code == 2 || (a.dim && code != 0 && code != 22))
    && b.italic == (code == 3 || (a.italic && code != 0 && code != 23))
    && b.underline == (code == 4 || (a.underline && code != 0 && code != 24))
    && b.blink == (code == 5 || code == 6 || (a.blink && code != 0 && code != 25))
    && b.inverse == (code == 7 || (a.inverse && code != 0 && code != 27))
    && b.hidden == (code == 8 || (a.hidden && code != 0 && code != 28))
    && b.strikethrough == (code == 9 || (a.strikethrough && code != 0 && code != 29))
  }

  /** And each colour: eight dark ones from `base`, eight bright ones from `bright`, the default at `base` + 9. */
  predicate Coloured(code: u16, base: nat, bright: nat, a: Color, b: Color) {
    b == if base <= code < base + 8 then Indexed((code - base) % 0x100)
         else if bright <= code < bright + 8 then Indexed((code - bright + 8) % 0x100)
         else if code == 0 || code == base + 9 then Default
         else a
  }

  /** The code sets what is said of it, of styles and colours. */
  predicate Set(code: u16, a: Attrs, b: Attrs) {
    Coded(code, a, b) && Coloured(code, 30, 90, a.fg, b.fg) && Coloured(code, 40, 100, a.bg, b.bg)
  }

  lemma ResetAndBold(code: u16, attrs: Attrs)
    requires code <= 1
    ensures Set(code, attrs, SetOne(code, attrs))
  {
    hide SwitchOff, Colour;
  }

  lemma DimAndItalic(code: u16, attrs: Attrs)
    requires 2 <= code <= 3
    ensures Set(code, attrs, SetOne(code, attrs))
  {
    hide SwitchOff, Colour;
  }

  lemma UnderlineAndBlink(code: u16, attrs: Attrs)
    requires 4 <= code <= 5
    ensures Set(code, attrs, SetOne(code, attrs))
  {
    hide SwitchOff, Colour;
  }

  lemma BlinkAndInverse(code: u16, attrs: Attrs)
    requires 6 <= code <= 7
    ensures Set(code, attrs, SetOne(code, attrs))
  {
    hide SwitchOff, Colour;
  }

  lemma HiddenAndStruck(code: u16, attrs: Attrs)
    requires 8 <= code <= 9
    ensures Set(code, attrs, SetOne(code, attrs))
  {
    hide SwitchOff, Colour;
  }

  lemma NoneOn(code: u16, attrs: Attrs)
    requires 10 <= code <= 19
    ensures Set(code, attrs, SetOne(code, attrs))
  {
    hide SwitchOff, Colour;
  }

  lemma BoldOff(code: u16, attrs: Attrs)
    requires 20 <= code <= 21
    ensures Set(code, attrs, SetOne(code, attrs))
  {
    hide SwitchOn, Colour;
  }

  lemma DimOff(code: u16, attrs: Attrs)
    requires code == 22
    ensures Set(code, attrs, SetOne(code, attrs))
  {
    hide SwitchOn, Colour;
  }

  lemma ItalicAndUnderlineOff(code: u16, attrs: Attrs)
    requires 23 <= code <= 24
    ensures Set(code, attrs, SetOne(code, attrs))
  {
    hide SwitchOn, Colour;
  }

  lemma BlinkOff(code: u16, attrs: Attrs)
    requires 25 <= code <= 26
    ensures Set(code, attrs, SetOne(code, attrs))
  {
    hide SwitchOn, Colour;
  }

  lemma InverseAndHiddenOff(code: u16, attrs: Attrs)
    requires 27 <= code <= 28
    ensures Set(code, attrs, SetOne(code, attrs))
  {
    hide SwitchOn, Colour;
  }

  lemma StruckOff(code: u16, attrs: Attrs)
    requires code == 29
    ensures Set(code, attrs, SetOne(code, attrs))
  {
    hide SwitchOn, Colour;
  }

  lemma Foreground(code: u16, attrs: Attrs)
    requires 30 <= code <= 39 && code != 38
    ensures Set(code, attrs, SetOne(code, attrs))
  {
    hide SwitchOn, SwitchOff;
  }

  lemma Background(code: u16, attrs: Attrs)
    requires 40 <= code <= 49 && code != 48
    ensures Set(code, attrs, SetOne(code, attrs))
  {
    hide SwitchOn, SwitchOff;
  }

  lemma BrightForeground(code: u16, attrs: Attrs)
    requires 50 <= code <= 99
    ensures Set(code, attrs, SetOne(code, attrs))
  {
    hide SwitchOn, SwitchOff;
  }

  lemma BrightBackground(code: u16, attrs: Attrs)
    requires 100 <= code
    ensures Set(code, attrs, SetOne(code, attrs))
  {
    hide SwitchOn, SwitchOff;
  }

  lemma OneSet(code: u16, attrs: Attrs)
    requires code != 38 && code != 48
    ensures Set(code, attrs, SetOne(code, attrs))
  {
    hide Set, SetOne;
    if code <= 1 {
      ResetAndBold(code, attrs);
    } else if code <= 3 {
      DimAndItalic(code, attrs);
    } else if code <= 5 {
      UnderlineAndBlink(code, attrs);
    } else if code <= 7 {
      BlinkAndInverse(code, attrs);
    } else if code <= 9 {
      HiddenAndStruck(code, attrs);
    } else if code <= 19 {
      NoneOn(code, attrs);
    } else if code <= 21 {
      BoldOff(code, attrs);
    } else if code <= 22 {
      DimOff(code, attrs);
    } else if code <= 24 {
      ItalicAndUnderlineOff(code, attrs);
    } else if code <= 26 {
      BlinkOff(code, attrs);
    } else if code <= 28 {
      InverseAndHiddenOff(code, attrs);
    } else if code <= 29 {
      StruckOff(code, attrs);
    } else if code <= 39 {
      Foreground(code, attrs);
    } else if code <= 49 {
      Background(code, attrs);
    } else if code <= 99 {
      BrightForeground(code, attrs);
    } else {
      BrightBackground(code, attrs);
    }
  }

  lemma OneApplied(code: u16, attrs: Attrs)
    requires code != 38 && code != 48
    ensures ApplySgr([code], attrs) == SetOne(code, attrs)
  {
    hide SetOne;
    assert ApplyFrom([code], 1, SetOne(code, attrs)) == SetOne(code, attrs);
  }

  /** One code. */
  lemma OneCode(t: Term, code: u16)
    requires Valid(t) && code != 38 && code != 48
    ensures Set(code, t.cursor.attrs, After(t, [code]))
  {
    hide Valid, After, ApplySgr, SetOne, Set;
    AfterIs(t, [code]);
    OneApplied(code, t.cursor.attrs);
    OneSet(code, t.cursor.attrs);
  }

  // ----- One after the other -------------------------------------------------

  /** What stands in front of the parameters still to come does not matter. */
  lemma ExtendedShift(front: seq<u16>, rest: seq<u16>, i: nat)
    ensures var (c, n) := ExtendedColor(rest, i);
            ExtendedColor(front + rest, |front| + i) == (c, |front| + n)
  {
    var all := front + rest;
    assert forall k :: 0 <= k < |rest| ==> all[|front| + k] == rest[k];
  }

  lemma {:induction false} ApplyShift(front: seq<u16>, rest: seq<u16>, i: nat, attrs: Attrs)
    ensures ApplyFrom(front + rest, |front| + i, attrs) == ApplyFrom(rest, i, attrs)
    decreases SaturatingSub(|rest|, i)
  {
    hide ExtendedColor, SetOne;
    if i < |rest| {
      var code := rest[i];
      assert (front + rest)[|front| + i] == code;
      if code == 38 || code == 48 {
        ExtendedShift(front, rest, i + 1);
        var (color, next) := ExtendedColor(rest, i + 1);
        var painted := if color == None then attrs else if code == 38 then attrs.(fg := color.value) else attrs.(bg := color.value);
        ApplyShift(front, rest, next, painted);
      } else {
        ApplyShift(front, rest, i + 1, SetOne(code, attrs));
      }
    }
  }

  /** The attributes that further parameters make of some; none leave them. */
  function Then(t: Term, attrs: Attrs, params: seq<u16>): Attrs
    requires Valid(t)
  {
    if params == [] then attrs else After(t.(cursor := t.cursor.(attrs := attrs)), params)
  }

  lemma ThenIs(t: Term, attrs: Attrs, params: seq<u16>)
    requires Valid(t)
    ensures Then(t, attrs, params) == ApplyFrom(params, 0, attrs)
  {
    hide ApplyFrom, After, Shaped;
    if params == [] {
      NoneLeft(attrs);
    } else {
      AfterIs(t.(cursor := t.cursor.(attrs := attrs)), params);
    }
  }

  lemma NoneLeft(attrs: Attrs)
    ensures ApplyFrom([], 0, attrs) == attrs
  {
  }

  /** Codes take effect from left to right. */
  lemma CodesInOrder(t: Term, code: u16, rest: seq<u16>)
    requires Valid(t) && code != 38 && code != 48
    ensures After(t, [code] + rest) == Then(t, After(t, [code]), rest)
  {
    hide Valid, After, Then, SetOne;
    AfterIs(t, [code]);
    AfterIs(t, [code] + rest);
    OneApplied(code, t.cursor.attrs);
    ThenIs(t, After(t, [code]), rest);
    ApplyShift([code], rest, 0, SetOne(code, t.cursor.attrs));
    assert ([code] + rest)[0] == code;
  }

  /** The attributes with one of the two colours set. */
  function Painted(attrs: Attrs, which: u16, color: Color): Attrs {
    if which == 38 then attrs.(fg := color) else attrs.(bg := color)
  }

  /** 38 and 48 read on: `5 ; n` is a colour of the palette. */
  lemma PaletteColour(t: Term, which: u16, n: u16, rest: seq<u16>)
    requires Valid(t) && (which == 38 || which == 48)
    ensures After(t, [which, 5, n] + rest) == Then(t, Painted(t.cursor.attrs, which, Indexed(n % 0x100)), rest)
  {
    hide Valid, After, Then;
    var all := [which, 5, n] + rest;
    assert all[0] == which && all[1] == 5 && all[2] == n;
    AfterIs(t, all);
    ThenIs(t, Painted(t.cursor.attrs, which, Indexed(n % 0x100)), rest);
    ApplyShift([which, 5, n], rest, 0, Painted(t.cursor.attrs, which, Indexed(n % 0x100)));
  }

  /** `2 ; r ; g ; b` is a colour by its components. */
  lemma TrueColour(t: Term, which: u16, r: u16, g: u16, b: u16, rest: seq<u16>)
    requires Valid(t) && (which == 38 || which == 48)
    ensures After(t, [which, 2, r, g, b] + rest)
         == Then(t, Painted(t.cursor.attrs, which, Rgb(r % 0x100, g % 0x100, b % 0x100)), rest)
  {
    hide Valid, After, Then;
    var all := [which, 2, r, g, b] + rest;
    assert all[0] == which && all[1] == 2 && all[2] == r && all[3] == g && all[4] == b;
    AfterIs(t, all);
    var painted := Painted(t.cursor.attrs, which, Rgb(r % 0x100, g % 0x100, b % 0x100));
    ThenIs(t, painted, rest);
    ApplyShift([which, 2, r, g, b], rest, 0, painted);
  }

  /** Cut short, or of another kind, it sets no colour; what follows the kind is read as codes of their own. */
  lemma BrokenColour(t: Term, which: u16, kind: u16, rest: seq<u16>)
    requires Valid(t) && (which == 38 || which == 48)
    requires (kind == 5 ==> rest == []) && (kind == 2 ==> |rest| < 3)
    ensures After(t, [which, kind] + rest) == Then(t, t.cursor.attrs, rest)
    ensures After(t, [which]) == t.cursor.attrs
  {
    hide Valid, After, Then;
    var all := [which, kind] + rest;
    assert all[0] == which && all[1] == kind;
    AfterIs(t, all);
    AfterIs(t, [which]);
    ThenIs(t, t.cursor.attrs, rest);
    ApplyShift([which, kind], rest, 0, t.cursor.attrs);
    assert ExtendedColor([which], 1) == (None, 1);
    assert ApplyFrom([which], 1, t.cursor.attrs) == t.cursor.attrs;
  }
}
