/**
  The per-notation correction table `colorCorrection` of src/color.ts: it repairs
  abbreviated or noisy colour text into something the colour library accepts.
  `hex`, `rgb` and `hsl` produce text; `cmyk` produces a four-field record.
 */
module Correction {
  import opened Strings

  // ---------------------------------------------------------------- hex

  /** `input.replace(/^#/g, "")`: the pattern is anchored, so at most the first character goes. */
  function StripLeadingHash(input: string): (body: string)
    ensures |input| - 1 <= |body| <= |input|
    ensures body == input[|input| - |body|..]
    ensures |body| < |input| <==> |input| > 0 && input[0] == '#'
  {
    if |input| > 0 && input[0] == '#' then input[1..] else input
  }

  /** Shorthand expansion: a body of one to four characters has each character doubled. */
  function Expand(body: string): string {
    if |body| <= 4 then Doubled(body) else body
  }

  /** The padding digit at position `i` after the `#`: `0` for the colour channels, `f` for alpha. */
  function PadDigit(i: int): char {
    if i < 6 then '0' else 'f'
  }

  /** `colorCorrection.hex`. */
  function CorrectHex(input: string): (r: string)
    ensures |r| >= 1 && r[0] == '#'
    ensures r == "#" <==> StripLeadingHash(input) == []
  {
    var body := StripLeadingHash(input);
    if |body| == 0 then "#"
    else "#" + PadEnd(PadEnd(Expand(body), 6, '0'), 8, 'f')
  }

  function Max(a: int, b: int): int {
    if a < b then b else a
  }

  /** Padding to six with `0` and then to eight with `f` keeps the content and fills by position. */
  lemma HexPadding(e: string)
    ensures var d := PadEnd(PadEnd(e, 6, '0'), 8, 'f');
      && |d| == Max(8, |e|)
      && (forall i :: 0 <= i < |e| ==> d[i] == e[i])
      && (forall i :: |e| <= i < |d| ==> d[i] == PadDigit(i))
  {
  }

  /**
    A body of one to four characters becomes `#` and exactly eight characters: the
    body's characters doubled in order, then `0` up to position six and `f` up to eight.
   */
  lemma HexShorthand(input: string)
    requires 1 <= |StripLeadingHash(input)| <= 4
    ensures var body, r := StripLeadingHash(input), CorrectHex(input);
      && |r| == 9
      && r[0] == '#'
      && (forall i :: 0 <= i < 2 * |body| ==> r[i + 1] == body[i / 2])
      && (forall i :: 2 * |body| <= i < 8 ==> r[i + 1] == PadDigit(i))
  {
    var body := StripLeadingHash(input);
    var d := PadEnd(PadEnd(Doubled(body), 6, '0'), 8, 'f');
    assert CorrectHex(input) == "#" + d;
    HexPadding(Doubled(body));
    assert forall i :: 0 <= i < |d| ==> ("#" + d)[i + 1] == d[i];
  }

  /**
    A body of five or more characters is kept as it is behind the `#`, and padded
    with `0` below position six and `f` at positions six and seven.
   */
  lemma HexLongBody(input: string)
    requires |StripLeadingHash(input)| >= 5
    ensures var body, r := StripLeadingHash(input), CorrectHex(input);
      && |r| == 1 + Max(8, |body|)
      && r[1..1 + |body|] == body
      && (forall i :: |body| <= i < |r| - 1 ==> r[i + 1] == PadDigit(i))
  {
    var body := StripLeadingHash(input);
    var r := CorrectHex(input);
    HexPadding(body);
    assert r[1..1 + |body|] == body by {
      forall i | 0 <= i < |body| ensures r[1..1 + |body|][i] == body[i] {
        assert r[1..1 + |body|][i] == r[i + 1];
      }
    }
  }

  /** A body of eight or more characters comes back unchanged behind the `#`. */
  lemma HexFullBody(input: string)
    requires |StripLeadingHash(input)| >= 8
    ensures CorrectHex(input) == "#" + StripLeadingHash(input)
  {
    HexLongBody(input);
  }

  /** Correcting a corrected hex string changes nothing. */
  lemma HexIdempotent(input: string)
    ensures CorrectHex(CorrectHex(input)) == CorrectHex(input)
  {
    var r := CorrectHex(input);
    if StripLeadingHash(input) == [] {
      assert StripLeadingHash(r) == [];
    } else {
      var body := StripLeadingHash(input);
      HexPadding(Expand(body));
      assert StripLeadingHash(r) == r[1..];
      HexFullBody(r);
    }
  }

  predicate IsHexDigit(c: char) {
    '0' <= c <= '9' || 'a' <= c <= 'f' || 'A' <= c <= 'F'
  }

  /** `#` followed by exactly eight hexadecimal digits (RRGGBBAA). */
  predicate IsFullHex(s: string) {
    |s| == 9 && s[0] == '#' && forall i :: 1 <= i < 9 ==> IsHexDigit(s[i])
  }

  /** One to eight hexadecimal digits: a body the correction turns into a full hex colour. */
  predicate IsHexBody(body: string) {
    1 <= |body| <= 8 && forall i :: 0 <= i < |body| ==> IsHexDigit(body[i])
  }

  /** The digits of a shorthand result are all hex exactly when the body's are. */
  lemma ShortDigits(body: string, r: string)
    requires 1 <= |body| <= 4 && |r| == 9
    requires forall i :: 0 <= i < 2 * |body| ==> r[i + 1] == body[i / 2]
    requires forall i :: 2 * |body| <= i < 8 ==> r[i + 1] == PadDigit(i)
    ensures (forall j :: 1 <= j < 9 ==> IsHexDigit(r[j])) <==> (forall j :: 0 <= j < |body| ==> IsHexDigit(body[j]))
  {
    if forall j :: 1 <= j < 9 ==> IsHexDigit(r[j]) {
      forall j | 0 <= j < |body| ensures IsHexDigit(body[j]) {
        assert r[2 * j + 1] == body[(2 * j) / 2];
      }
    }
    if forall j :: 0 <= j < |body| ==> IsHexDigit(body[j]) {
      forall j | 1 <= j < 9 ensures IsHexDigit(r[j]) {
        if j - 1 < 2 * |body| {
          assert r[(j - 1) + 1] == body[(j - 1) / 2];
        } else {
          assert r[(j - 1) + 1] == PadDigit(j - 1);
        }
      }
    }
  }

  lemma HexWellFormedShort(input: string)
    requires 1 <= |StripLeadingHash(input)| <= 4
    ensures IsFullHex(CorrectHex(input)) <==> IsHexBody(StripLeadingHash(input))
  {
    HexShorthand(input);
    ShortDigits(StripLeadingHash(input), CorrectHex(input));
  }

  lemma HexWellFormedLong(input: string)
    requires |StripLeadingHash(input)| >= 5
    ensures IsFullHex(CorrectHex(input)) <==> IsHexBody(StripLeadingHash(input))
  {
    var body := StripLeadingHash(input);
    var r := CorrectHex(input);
    HexLongBody(input);
    if IsFullHex(r) {
      forall j | 0 <= j < |body| ensures IsHexDigit(body[j]) {
        assert r[1..1 + |body|][j] == r[j + 1];
      }
    }
    if IsHexBody(body) {
      forall j | 1 <= j < 9 ensures IsHexDigit(r[j]) {
        if j - 1 < |body| {
          assert r[1..1 + |body|][j - 1] == r[j];
        } else {
          assert r[(j - 1) + 1] == PadDigit(j - 1);
        }
      }
    }
  }

  /**
    The correction yields a well-formed eight-digit hex colour exactly when the body
    left after the `#` is one to eight hexadecimal digits.
   */
  lemma HexWellFormed(input: string)
    ensures IsFullHex(CorrectHex(input)) <==> IsHexBody(StripLeadingHash(input))
  {
    var body := StripLeadingHash(input);
    if |body| == 0 {
      assert |CorrectHex(input)| == 1;
    } else if |body| <= 4 {
      HexWellFormedShort(input);
    } else {
      HexWellFormedLong(input);
    }
  }

  /** An empty body, with or without its `#`, gives the bare marker. */
  lemma HexExampleEmpty()
    ensures CorrectHex("") == "#"
    ensures CorrectHex("#") == "#"
  {
  }

  /** One or two characters: doubled, then `0` up to six digits and `ff` alpha. */
  lemma HexExampleShorthand()
    ensures CorrectHex("a") == "#aa0000ff"
    ensures CorrectHex("ab") == "#aabb00ff"
  {
  }

  /** The CSS three-digit shorthand gains the opaque alpha. */
  lemma HexExampleThree()
    ensures CorrectHex("abc") == "#aabbccff"
  {
  }

  /** The CSS four-digit shorthand carries its own alpha. */
  lemma HexExampleFour()
    ensures CorrectHex("abcd") == "#aabbccdd"
  {
  }

  /** The leading `#` is removed before the expansion. */
  lemma HexExampleHash()
    ensures CorrectHex("#f00") == "#ff0000ff"
  {
  }

  /** Only the first `#` is removed; an inner one is expanded like any digit. */
  lemma HexExampleInnerHash()
    ensures CorrectHex("##ab") == "###aabbff"
  {
  }

  /** Five characters are padded, not expanded. */
  lemma HexExamplePadded()
    ensures CorrectHex("abcde") == "#abcde0ff"
  {
  }

  /** More than eight characters are kept as they are. */
  lemma HexExampleKept()
    ensures CorrectHex("abcdefabcd") == "#abcdefabcd"
  {
  }

  // ---------------------------------------------------- rgb, hsl, cmyk

  /** `input.replace(/[^\d,.]/g, "").split(",")`: never empty, fields of digits and periods. */
  function Fields(input: string): (fs: seq<string>)
    ensures |fs| >= 1
    ensures forall i :: 0 <= i < |fs| ==> AllNumeric(fs[i]) && ',' !in fs[i]
  {
    SplitNumericFields(KeepNumeric(input));
    Split(KeepNumeric(input), ',')
  }

  /** A destructuring default: it applies to a missing position, never to an empty field. */
  function Slot(fs: seq<string>, i: nat, default: string): string {
    if i < |fs| then fs[i] else default
  }

  /** The template `${name}(${a}, ${b}, ${c}, ${d})`. */
  function Functional(name: string, a: string, b: string, c: string, d: string): string {
    name + "(" + a + ", " + b + ", " + c + ", " + d + ")"
  }

  /** Defaults for the second, third and fourth positions of `rgba(...)` and `hsla(...)`. */
  const RgbDefaults: seq<string> := ["0", "0", "1"]
  const HslDefaults: seq<string> := ["100", "50", "1"]

  /** The shared shape of the rgb and hsl corrections: first field, then three defaulted ones. */
  function FillTemplate(name: string, defaults: seq<string>, input: string): string
    requires |defaults| == 3
  {
    var fs := Fields(input);
    Functional(name, fs[0], Slot(fs, 1, defaults[0]), Slot(fs, 2, defaults[1]), Slot(fs, 3, defaults[2]))
  }

  /** `colorCorrection.rgb`. */
  function CorrectRgb(input: string): (r: string)
    ensures |r| > 5 && r[..5] == "rgba(" && r[|r| - 1] == ')'
  {
    FillTemplate("rgba", RgbDefaults, input)
  }

  /** `colorCorrection.hsl`. */
  function CorrectHsl(input: string): (r: string)
    ensures |r| > 5 && r[..5] == "hsla(" && r[|r| - 1] == ')'
  {
    FillTemplate("hsla", HslDefaults, input)
  }

  predicate NoNumeric(s: string) {
    forall i :: 0 <= i < |s| ==> !IsNumericChar(s[i])
  }

  lemma {:induction false} KeepNumericOfNone(s: string)
    requires NoNumeric(s)
    ensures KeepNumeric(s) == []
  {
    if s != [] {
      assert NoNumeric(s[1..]) by {
        forall i | 0 <= i < |s[1..]| ensures !IsNumericChar(s[1..][i]) {
          assert s[1..][i] == s[i + 1];
        }
      }
      KeepNumericOfNone(s[1..]);
    }
  }

  /** A numeric field followed by the template's `", "` filters to the field and a comma. */
  lemma KeepNumericArgument(a: string, rest: string)
    requires AllNumeric(a)
    ensures KeepNumeric(a + (", " + rest)) == a + [','] + KeepNumeric(rest)
  {
    KeepNumericIdentity(a);
    KeepNumericConcat(a, ", " + rest);
    var t := ", " + rest;
    assert t[0] == ',' && t[1..] == " " + rest;
    assert (" " + rest)[0] == ' ' && (" " + rest)[1..] == rest;
  }

  /** The template regrouped from the right, the order in which the filter consumes it. */
  lemma FunctionalNested(name: string, a: string, b: string, c: string, d: string)
    ensures Functional(name, a, b, c, d)
         == name + ("(" + (a + (", " + (b + (", " + (c + (", " + (d + ")"))))))))
  {
    var sep := ", ";
    var t1 := d + ")";
    var t2 := sep + t1;
    var t3 := c + t2;
    var t4 := sep + t3;
    var t5 := b + t4;
    var t6 := sep + t5;
    var t7 := a + t6;
    var t8 := "(" + t7;
    calc {
      Functional(name, a, b, c, d);
      name + "(" + a + sep + b + sep + c + sep + d + ")";
      { Associative(name + "(" + a + sep + b + sep + c + sep, d, ")"); }
      name + "(" + a + sep + b + sep + c + sep + t1;
      { Associative(name + "(" + a + sep + b + sep + c, sep, t1); }
      name + "(" + a + sep + b + sep + c + t2;
      { Associative(name + "(" + a + sep + b + sep, c, t2); }
      name + "(" + a + sep + b + sep + t3;
      { Associative(name + "(" + a + sep + b, sep, t3); }
      name + "(" + a + sep + b + t4;
      { Associative(name + "(" + a + sep, b, t4); }
      name + "(" + a + sep + t5;
      { Associative(name + "(" + a, sep, t5); }
      name + "(" + a + t6;
      { Associative(name + "(", a, t6); }
      name + "(" + t7;
      { Associative(name, "(", t7); }
      name + t8;
    }
  }

  /** Filtering a filled template leaves its four arguments joined by commas. */
  lemma FunctionalKeepsArguments(name: string, a: string, b: string, c: string, d: string)
    requires NoNumeric(name)
    requires AllNumeric(a) && AllNumeric(b) && AllNumeric(c) && AllNumeric(d)
    ensures KeepNumeric(Functional(name, a, b, c, d)) == Join([a, b, c, d], ',')
  {
    var rest := b + (", " + (c + (", " + (d + ")"))));
    var tail := a + (", " + rest);
    FunctionalNested(name, a, b, c, d);
    KeepNumericOfNone(name);
    KeepNumericOfNone("(");
    KeepNumericConcat(name, "(" + tail);
    KeepNumericConcat("(", tail);
    KeepNumericArguments(b, c, d);
    KeepNumericArgument(a, rest);
    JoinCons(a, [b, c, d], ',');
  }

  /**
    Reading a filled template back with the same filter and split yields exactly four
    fields: the input's first field, then each later field when the input has it and
    the default when it does not (an empty field stays empty).
   */
  lemma TemplateReadBack(name: string, defaults: seq<string>, input: string)
    requires |defaults| == 3 && NoNumeric(name)
    requires forall i :: 0 <= i < 3 ==> AllNumeric(defaults[i]) && ',' !in defaults[i]
    ensures var fs, out := Fields(input), Fields(FillTemplate(name, defaults, input));
      && |out| == 4
      && out[0] == fs[0]
      && forall i :: 1 <= i < 4 ==> out[i] == if i < |fs| then fs[i] else defaults[i - 1]
  {
    var fs := Fields(input);
    var args := [fs[0], Slot(fs, 1, defaults[0]), Slot(fs, 2, defaults[1]), Slot(fs, 3, defaults[2])];
    FunctionalKeepsArguments(name, args[0], args[1], args[2], args[3]);
    SplitJoin(args, ',');
  }

  /** Filling a template from text that already is a filled template reproduces it. */
  lemma TemplateIdempotent(name: string, defaults: seq<string>, input: string)
    requires |defaults| == 3 && NoNumeric(name)
    requires forall i :: 0 <= i < 3 ==> AllNumeric(defaults[i]) && ',' !in defaults[i]
    ensures FillTemplate(name, defaults, FillTemplate(name, defaults, input))
         == FillTemplate(name, defaults, input)
  {
    TemplateReadBack(name, defaults, input);
  }

  /** A comma in the input separates its fields: the fields of each side, in order. */
  lemma FieldsAtComma(input: string, extra: string)
    ensures Fields(input + "," + extra) == Fields(input) + Fields(extra)
  {
    var t := [','] + extra;
    assert input + "," + extra == input + t;
    KeepNumericConcat(input, t);
    assert t[0] == ',' && t[1..] == extra;
    assert KeepNumeric(t) == [','] + KeepNumeric(extra);
    assert KeepNumeric(input) + ([','] + KeepNumeric(extra)) == KeepNumeric(input) + [','] + KeepNumeric(extra);
    SplitAtSeparator(KeepNumeric(input), KeepNumeric(extra), ',');
  }

  lemma RgbDefaultsAreFields()
    ensures NoNumeric("rgba")
    ensures forall i :: 0 <= i < 3 ==> AllNumeric(RgbDefaults[i]) && ',' !in RgbDefaults[i]
  {
  }

  lemma HslDefaultsAreFields()
    ensures NoNumeric("hsla")
    ensures forall i :: 0 <= i < 3 ==> AllNumeric(HslDefaults[i]) && ',' !in HslDefaults[i]
  {
  }

  /**
    The rgb correction carries the input's fields in order: `r` always, `g` and `b`
    defaulting to `0` and `a` to `1` only when the split produced fewer fields.
   */
  lemma RgbReadBack(input: string)
    ensures var fs, out := Fields(input), Fields(CorrectRgb(input));
      && |out| == 4
      && out[0] == fs[0]
      && out[1] == (if |fs| > 1 then fs[1] else "0")
      && out[2] == (if |fs| > 2 then fs[2] else "0")
      && out[3] == (if |fs| > 3 then fs[3] else "1")
  {
    RgbDefaultsAreFields();
    TemplateReadBack("rgba", RgbDefaults, input);
  }

  /** The hsl correction: `s`, `l` and `a` default to `100`, `50` and `1` only when missing. */
  lemma HslReadBack(input: string)
    ensures var fs, out := Fields(input), Fields(CorrectHsl(input));
      && |out| == 4
      && out[0] == fs[0]
      && out[1] == (if |fs| > 1 then fs[1] else "100")
      && out[2] == (if |fs| > 2 then fs[2] else "50")
      && out[3] == (if |fs| > 3 then fs[3] else "1")
  {
    HslDefaultsAreFields();
    TemplateReadBack("hsla", HslDefaults, input);
  }

  /** Correcting corrected rgb text changes nothing. */
  lemma RgbIdempotent(input: string)
    ensures CorrectRgb(CorrectRgb(input)) == CorrectRgb(input)
  {
    RgbDefaultsAreFields();
    TemplateIdempotent("rgba", RgbDefaults, input);
  }

  /** Correcting corrected hsl text changes nothing. */
  lemma HslIdempotent(input: string)
    ensures CorrectHsl(CorrectHsl(input)) == CorrectHsl(input)
  {
    HslDefaultsAreFields();
    TemplateIdempotent("hsla", HslDefaults, input);
  }

  /** Fields after the fourth are dropped by the rgb and hsl corrections. */
  lemma TemplatesIgnoreExtraFields(input: string, extra: string)
    requires |Fields(input)| >= 4
    ensures CorrectRgb(input + "," + extra) == CorrectRgb(input)
    ensures CorrectHsl(input + "," + extra) == CorrectHsl(input)
  {
    FieldsAtComma(input, extra);
  }

  /** The fields of an input whose filtered text is a known join of comma-free fields. */
  lemma FieldsOfJoin(input: string, fs: seq<string>)
    requires |fs| >= 1 && forall i :: 0 <= i < |fs| ==> ',' !in fs[i]
    requires KeepNumeric(input) == Join(fs, ',')
    ensures Fields(input) == fs
  {
    SplitJoin(fs, ',');
  }

  /** A prefix without numeric characters disappears in the filter. */
  lemma KeepNumericDropsPrefix(p: string, x: string)
    requires NoNumeric(p)
    ensures KeepNumeric(p + x) == KeepNumeric(x)
  {
    KeepNumericOfNone(p);
    KeepNumericConcat(p, x);
  }

  /** A numeric field followed by the closing parenthesis filters to the field. */
  lemma KeepNumericClosing(b: string)
    requires AllNumeric(b)
    ensures KeepNumeric(b + ")") == b
  {
    KeepNumericIdentity(b);
    KeepNumericOfNone(")");
    KeepNumericConcat(b, ")");
  }

  lemma KeepNumericArguments(r: string, g: string, b: string)
    requires AllNumeric(r) && AllNumeric(g) && AllNumeric(b)
    ensures KeepNumeric(r + (", " + (g + (", " + (b + ")"))))) == Join([r, g, b], ',')
  {
    KeepNumericArgument(r, g + (", " + (b + ")")));
    KeepNumericArgument(g, b + ")");
    KeepNumericClosing(b);
    JoinCons(g, [b], ',');
    JoinCons(r, [g, b], ',');
  }

  /**
    The CSS notation `rgb(r, g, b)` with numeric components is corrected to
    `rgba(r, g, b, 1)`: the components survive the filter and alpha defaults to `1`.
   */
  lemma RgbNotation(r: string, g: string, b: string)
    requires AllNumeric(r) && AllNumeric(g) && AllNumeric(b)
    requires ',' !in r && ',' !in g && ',' !in b
    ensures CorrectRgb("rgb(" + r + ", " + g + ", " + b + ")") == "rgba(" + r + ", " + g + ", " + b + ", 1)"
  {
    var input := "rgb(" + r + ", " + g + ", " + b + ")";
    assert Fields(input) == [r, g, b] by {
      var args := r + (", " + (g + (", " + (b + ")"))));
      assert input == "rgb(" + args;
      KeepNumericDropsPrefix("rgb(", args);
      KeepNumericArguments(r, g, b);
      FieldsOfJoin(input, [r, g, b]);
    }
    RgbOfThreeFields(input, r, g, b);
  }

  /** Three fields become the first three arguments of `rgba`, with alpha `1`. */
  lemma RgbOfThreeFields(input: string, r: string, g: string, b: string)
    requires Fields(input) == [r, g, b]
    ensures CorrectRgb(input) == "rgba(" + r + ", " + g + ", " + b + ", 1)"
  {
    assert CorrectRgb(input) == Functional("rgba", r, g, b, "1");
  }

  /** The CSS notation `hsl(h)` has the single field `h`. */
  lemma HslFieldsOfNotation(h: string)
    requires AllNumeric(h) && ',' !in h
    ensures Fields("hsl(" + h + ")") == [h]
  {
    var input := "hsl(" + h + ")";
    assert input == "hsl(" + (h + ")");
    KeepNumericDropsPrefix("hsl(", h + ")");
    KeepNumericClosing(h);
    FieldsOfJoin(input, [h]);
  }

  /** A single field becomes the hue of `hsla`, with the three defaults after it. */
  lemma HslOfOneField(input: string, h: string)
    requires Fields(input) == [h]
    ensures CorrectHsl(input) == "hsla(" + h + ", 100, 50, 1)"
  {
    assert CorrectHsl(input) == Functional("hsla", h, "100", "50", "1");
  }

  /** The CSS notation `hsl(h)` is corrected to `hsla(h, 100, 50, 1)`. */
  lemma HslNotation(h: string)
    requires AllNumeric(h) && ',' !in h
    ensures CorrectHsl("hsl(" + h + ")") == "hsla(" + h + ", 100, 50, 1)"
  {
    HslFieldsOfNotation(h);
    HslOfOneField("hsl(" + h + ")", h);
  }

  /** A numeric, comma-free text is its own single field. */
  lemma FieldOfNumeric(s: string)
    requires AllNumeric(s) && ',' !in s
    ensures Fields(s) == [s]
  {
    KeepNumericIdentity(s);
    SplitWithoutSeparator(s, ',');
  }

  /** A lone component: `g` and `b` default to `0`, alpha to `1`. */
  lemma RgbExampleOneField()
    ensures CorrectRgb("5") == "rgba(5, 0, 0, 1)"
  {
    FieldOfNumeric("5");
  }

  /** The empty input is one empty field, which is kept as the red component. */
  lemma RgbExampleEmpty()
    ensures CorrectRgb("") == "rgba(, 0, 0, 1)"
  {
    FieldOfNumeric("");
  }

  /** The literal spellings `RgbExampleEmptyField` relies on, kept apart so the solver does not expand the correction on literals. */
  lemma RgbExampleTexts()
    ensures "1" + "," + "" + "," + "3" == "1,,3"
    ensures "rgba(" + "1" + ", " + "" + ", " + "3" + ", 1)" == "rgba(1, , 3, 1)"
  {
  }

  /** An empty field between two commas is present, so no default replaces it. */
  lemma RgbExampleEmptyField()
    ensures CorrectRgb("1,,3") == "rgba(1, , 3, 1)"
  {
    FieldOfNumeric("1");
    FieldOfNumeric("");
    FieldOfNumeric("3");
    FieldsAtComma("1", "");
    FieldsAtComma("1" + "," + "", "3");
    RgbExampleTexts();
    RgbOfThreeFields("1,,3", "1", "", "3");
  }

  /** The literal facts `HslExampleDefaults` relies on, kept apart for the same reason. */
  lemma HslExampleTexts()
    ensures AllNumeric("200") && ',' !in "200"
    ensures "hsl(" + "200" + ")" == "hsl(200)"
    ensures "hsla(" + "200" + ", 100, 50, 1)" == "hsla(200, 100, 50, 1)"
  {
  }

  /** The hsl defaults fill in saturation, lightness and alpha. */
  lemma HslExampleDefaults()
    ensures CorrectHsl("hsl(200)") == "hsla(200, 100, 50, 1)"
  {
    HslExampleTexts();
    HslNotation("200");
  }

  /** A cmyk value: a split field, or the number `0` that a destructuring default supplies. */
  datatype CmykValue = Text(s: string) | Zero

  /** The `{ c, m, y, k }` object handed to the colour library. */
  datatype CmykRecord = CmykRecord(c: CmykValue, m: CmykValue, y: CmykValue, k: CmykValue) {
    function Values(): seq<CmykValue> {
      [c, m, y, k]
    }
  }

  function CmykSlot(fs: seq<string>, i: nat): CmykValue {
    if i < |fs| then Text(fs[i]) else Zero
  }

  /** `colorCorrection.cmyk`. */
  function CorrectCmyk(input: string): (r: CmykRecord)
    ensures r.c.Text?
  {
    var fs := Fields(input);
    CmykRecord(CmykSlot(fs, 0), CmykSlot(fs, 1), CmykSlot(fs, 2), CmykSlot(fs, 3))
  }

  /**
    Each cmyk position holds the input's field at that position, digits and periods
    only, and is the number `0` exactly when the split produced fewer fields.
   */
  lemma CmykFields(input: string)
    ensures var fs, vs := Fields(input), CorrectCmyk(input).Values();
      forall i :: 0 <= i < 4 ==>
        && (vs[i] == Zero <==> i >= |fs|)
        && (vs[i].Text? ==> vs[i].s == fs[i] && AllNumeric(vs[i].s) && ',' !in vs[i].s)
  {
  }

  /** The texts of a value sequence up to its first numeric default. */
  function Given(vs: seq<CmykValue>): seq<string> {
    if vs == [] || vs[0].Zero? then [] else [vs[0].s] + Given(vs[1..])
  }

  /**
    With at most four fields nothing is lost: the record's text values, joined by
    commas, are exactly the filtered input.
   */
  lemma CmykKeepsInput(input: string)
    requires |Fields(input)| <= 4
    ensures var given := Given(CorrectCmyk(input).Values());
      |given| >= 1 && Join(given, ',') == KeepNumeric(input)
  {
    var fs := Fields(input);
    var vs := CorrectCmyk(input).Values();
    GivenOfSlots(fs);
    JoinSplit(KeepNumeric(input), ',');
  }

  lemma GivenOfSlots(fs: seq<string>)
    requires 1 <= |fs| <= 4
    ensures Given([CmykSlot(fs, 0), CmykSlot(fs, 1), CmykSlot(fs, 2), CmykSlot(fs, 3)]) == fs
  {
    var vs := [CmykSlot(fs, 0), CmykSlot(fs, 1), CmykSlot(fs, 2), CmykSlot(fs, 3)];
    assert vs[1..] == [vs[1], vs[2], vs[3]];
    assert vs[1..][1..] == [vs[2], vs[3]];
    assert vs[1..][1..][1..] == [vs[3]];
    assert vs[1..][1..][1..][1..] == [];
    assert vs[0] == Text(fs[0]);
    if |fs| == 1 {
      assert fs == [fs[0]];
    } else if |fs| == 2 {
      assert fs == [fs[0], fs[1]];
    } else if |fs| == 3 {
      assert fs == [fs[0], fs[1], fs[2]];
    } else {
      assert vs == [Text(fs[0]), Text(fs[1]), Text(fs[2]), Text(fs[3])];
      assert Given(vs[1..][1..][1..]) == [fs[3]];
      assert Given(vs[1..][1..]) == [fs[2], fs[3]];
      assert Given(vs[1..]) == [fs[1], fs[2], fs[3]];
      assert fs == [fs[0], fs[1], fs[2], fs[3]];
    }
  }

  /** Fields after the fourth are dropped by the cmyk correction. */
  lemma CmykIgnoresExtraFields(input: string, extra: string)
    requires |Fields(input)| >= 4
    ensures CorrectCmyk(input + "," + extra) == CorrectCmyk(input)
  {
    FieldsAtComma(input, extra);
  }

  /** Four numeric components separated by commas fill the record in order. */
  lemma CmykOfFourFields(c: string, m: string, y: string, k: string)
    requires AllNumeric(c) && AllNumeric(m) && AllNumeric(y) && AllNumeric(k)
    requires ',' !in c && ',' !in m && ',' !in y && ',' !in k
    ensures CorrectCmyk(c + "," + m + "," + y + "," + k) == CmykRecord(Text(c), Text(m), Text(y), Text(k))
  {
    FieldOfNumeric(c);
    FieldOfNumeric(m);
    FieldOfNumeric(y);
    FieldOfNumeric(k);
    FieldsAtComma(c, m);
    FieldsAtComma(c + "," + m, y);
    FieldsAtComma(c + "," + m + "," + y, k);
  }

  /** Worked cases: a full record, a defaulted one, and the empty input. */
  lemma CmykExampleFull()
    ensures CorrectCmyk("10,20,30,40") == CmykRecord(Text("10"), Text("20"), Text("30"), Text("40"))
  {
    CmykOfFourFields("10", "20", "30", "40");
    assert "10" + "," + "20" + "," + "30" + "," + "40" == "10,20,30,40";
  }

  lemma CmykExampleDefaults()
    ensures CorrectCmyk("cmyk(5)") == CmykRecord(Text("5"), Zero, Zero, Zero)
    ensures CorrectCmyk("") == CmykRecord(Text(""), Zero, Zero, Zero)
  {
  }
}
