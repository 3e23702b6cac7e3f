/**
  Result assembly, `dealWithOthers` of src/color.ts: correct the input for its
  notation, hand it to the colour library, and list five projections of the colour.
  The colour library (colord with its cmyk and names plugins) and `JSON.stringify`
  are not modelled; they enter as a record of functions the caller supplies.
 */
module Assembly {
  import opened Options
  import opened Detection
  import opened Correction

  /** What `colord(...)` is given here: colour text, or the cmyk object. */
  datatype AnyColor = ColorText(text: string) | CmykObject(record: CmykRecord)

  /**
    The colour library as seen from this code: `colord` parses, and the parsed
    colour `C` offers the projections; `K` is what `toCmyk` returns, which
    `JSON.stringify` turns into text.
   */
  datatype ColorLibrary<!C, !K> = ColorLibrary(
    colord: AnyColor -> C,
    toHex: C -> string,
    toRgbString: C -> string,
    toHslString: C -> string,
    toCmyk: C -> K,
    stringify: K -> string,
    toCmykString: C -> string
  )

  /** `ColorDescribe`: one line of the result list. */
  datatype ColorDescribe = ColorDescribe(title: string, subtitle: string, iconColor: string)

  /** The labels of the five projections, in their fixed order. */
  const Subtitles: seq<string> := ["CSS Hexadecimal", "CSS RGB", "CSS HSL", "CMYK JSON", "CMYK"]

  /**
    `colorCorrection[type](input)`: text in the tag's own notation, except for
    cmyk, which yields the structured record.
   */
  function Correct(tag: ColorType, input: string): (r: AnyColor)
    requires tag != Named
    ensures r.CmykObject? <==> tag == Cmyk
    ensures tag == Hex ==> |r.text| >= 1 && r.text[0] == '#'
    ensures tag == Rgb ==> |r.text| > 5 && r.text[..5] == "rgba("
    ensures tag == Hsl ==> |r.text| > 5 && r.text[..5] == "hsla("
  {
    match tag
    case Hex => ColorText(CorrectHex(input))
    case Rgb => ColorText(CorrectRgb(input))
    case Hsl => ColorText(CorrectHsl(input))
    case Cmyk => CmykObject(CorrectCmyk(input))
  }

  /** The text notations are corrected once and for all: a second correction changes nothing. */
  lemma CorrectIdempotent(tag: ColorType, input: string)
    requires tag == Hex || tag == Rgb || tag == Hsl
    ensures Correct(tag, Correct(tag, input).text) == Correct(tag, input)
  {
    match tag
    case Hex => HexIdempotent(input);
    case Rgb => RgbIdempotent(input);
    case Hsl => HslIdempotent(input);
  }

  /** The argument `dealWithOthers` passes to `colord`. */
  function ColordArgument(input: string, tag: ColorType): AnyColor {
    if tag == Named then ColorText(input) else Correct(tag, input)
  }

  /**
    `dealWithOthers`. A missing (falsy) tag is `None`. Otherwise the result lists
    the hex, rgb, hsl, cmyk-JSON and cmyk forms of one parsed colour, in that
    order, each with its fixed label and the hex form as the shared icon colour.
   */
  function DealWithOthers<C, K>(input: string, tag: Option<ColorType>, lib: ColorLibrary<C, K>): (r: seq<ColorDescribe>)
    ensures r == [] <==> tag.None?
    ensures tag.Some? ==>
      && |r| == |Subtitles|
      && forall i :: 0 <= i < |r| ==> r[i].subtitle == Subtitles[i] && r[i].iconColor == r[0].title
    ensures tag == Some(Named) ==> r[0].title == lib.toHex(lib.colord(ColorText(input)))
    ensures tag.Some? ==>
      var color := lib.colord(ColordArgument(input, tag.value));
      && r[0].title == lib.toHex(color)
      && r[1].title == lib.toRgbString(color)
      && r[2].title == lib.toHslString(color)
      && r[3].title == lib.stringify(lib.toCmyk(color))
      && r[4].title == lib.toCmykString(color)
  {
    if tag.None? then []
    else
      var color := lib.colord(ColordArgument(input, tag.value));
      var iconColor := lib.toHex(color);
      [ ColorDescribe(lib.toHex(color), "CSS Hexadecimal", iconColor),
        ColorDescribe(lib.toRgbString(color), "CSS RGB", iconColor),
        ColorDescribe(lib.toHslString(color), "CSS HSL", iconColor),
        ColorDescribe(lib.stringify(lib.toCmyk(color)), "CMYK JSON", iconColor),
        ColorDescribe(lib.toCmykString(color), "CMYK", iconColor) ]
  }

  /**
    The result depends on the input only through the colour the library parses:
    two inputs that parse to the same colour describe it identically.
   */
  lemma SameColorSameResult<C, K>(x: string, s: ColorType, y: string, t: ColorType, lib: ColorLibrary<C, K>)
    requires lib.colord(ColordArgument(x, s)) == lib.colord(ColordArgument(y, t))
    ensures DealWithOthers(x, Some(s), lib) == DealWithOthers(y, Some(t), lib)
  {
  }

  /**
    Feeding the corrected text of a text notation back in describes the same
    colour: for hex, rgb and hsl, what the library sees is already stable.
   */
  lemma CorrectedInputSameResult<C, K>(input: string, tag: ColorType, lib: ColorLibrary<C, K>)
    requires tag == Hex || tag == Rgb || tag == Hsl
    ensures DealWithOthers(Correct(tag, input).text, Some(tag), lib) == DealWithOthers(input, Some(tag), lib)
  {
    CorrectIdempotent(tag, input);
    SameColorSameResult(Correct(tag, input).text, tag, input, tag, lib);
  }

  /**
    A shorthand hex colour reaches the library in its corrected eight-digit form,
    so it is described exactly as that full form is when taken as raw text.
   */
  lemma ShorthandHexDescribedAsFullHex<C, K>(lib: ColorLibrary<C, K>)
    ensures DealWithOthers("#f00", Some(Hex), lib) == DealWithOthers("#ff0000ff", Some(Named), lib)
  {
    HexExampleHash();
  }

  /** Any text that has a notation tag is described by five entries with the fixed labels. */
  lemma DetectedInputDescribed<C, K>(s: string, lib: ColorLibrary<C, K>)
    requires |s| > 0 && !IsLineTerminator(s[0])
    ensures var r := DealWithOthers(s, GetColorType(s), lib);
      |r| == 5 && forall i :: 0 <= i < 5 ==> r[i].subtitle == Subtitles[i]
  {
  }
}
