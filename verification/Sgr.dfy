/** SGR, the attribute-setting control sequence: Terminal::sgr and
    take_extended_color in crates/rdt-terminal/src/term.rs. */
module Sgr {
  import opened Basics
  import opened Grid

  /** The parameters from `index` on, applied to `attrs`. */
  function ApplyFrom(params: seq<u16>, index: nat, attrs: Attrs): Attrs
    decreases SaturatingSub(|params|, index)
  {
    if index >= |params| then attrs
    else
      var code := params[index];
      if code == 38 || code == 48 then
        var (color, next) := ExtendedColor(params, index + 1);
        ApplyFrom(params, next,
                  if color == None then attrs
                  else if code == 38 then attrs.(fg := color.value)
                  else attrs.(bg := color.value))
      else ApplyFrom(params, index + 1, SetOne(code, attrs))
  }

  function ApplySgr(params: seq<u16>, attrs: Attrs): Attrs {
    if params == [] then PLAIN else ApplyFrom(params, 0, attrs)
  }

  /** `5;n` or `2;r;g;b`, truncated to bytes; a sequence that ends too early
      consumes its kind and nothing else. */
  function ExtendedColor(params: seq<u16>, index: nat): (r: (Option<Color>, nat))
    ensures r.1 >= index
  {
    if index >= |params| then (None, index)
    else
      var at := index + 1;
      if params[index] == 5 then
        if at < |params| then (Some(Indexed(params[at] % 0x100)), at + 1) else (None, at)
      else if params[index] == 2 then
        if at + 2 < |params| then
          (Some(Rgb(params[at] % 0x100, params[at + 1] % 0x100, params[at + 2] % 0x100)), at + 3)
        else (None, at)
      else (None, at)
  }

  function SetOne(code: u16, attrs: Attrs): Attrs {
    if code < 20 then SwitchOn(code, attrs)
    else if code < 30 then SwitchOff(code, attrs)
    else Colour(code, attrs)
  }

  function SwitchOn(code: u16, attrs: Attrs): Attrs {
    if code == 0 then PLAIN
    else if code == 1 then attrs.(bold := true)
    else if code == 2 then attrs.(dim := true)
    else if code == 3 then attrs.(italic := true)
    else if code == 4 then attrs.(underline := true)
    else if code == 5 || code == 6 then attrs.(blink := true)
    else if code == 7 then attrs.(inverse := true)
    else if code == 8 then attrs.(hidden := true)
    else if code == 9 then attrs.(strikethrough := true)
    else attrs
  }

  function SwitchOff(code: u16, attrs: Attrs): Attrs {
    if code == 21 then attrs.(bold := false)
    else if code == 22 then attrs.(bold := false, dim := false)
    else if code == 23 then attrs.(italic := false)
    else if code == 24 then attrs.(underline := false)
    else if code == 25 then attrs.(blink := false)
    else if code == 27 then attrs.(inverse := false)
    else if code == 28 then attrs.(hidden := false)
    else if code == 29 then attrs.(strikethrough := false)
    else attrs
  }

  function Colour(code: u16, attrs: Attrs): Attrs {
    if 30 <= code <= 37 then attrs.(fg := Indexed(code - 30))
    else if code == 39 then attrs.(fg := Default)
    else if 40 <= code <= 47 then attrs.(bg := Indexed(code - 40))
    else if code == 49 then attrs.(bg := Default)
    else if 90 <= code <= 97 then attrs.(fg := Indexed(code - 90 + 8))
    else if 100 <= code <= 107 then attrs.(bg := Indexed(code - 100 + 8))
    else attrs
  }
}
