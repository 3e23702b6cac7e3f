/**
  Notation detection, `getColorType` of src/color.ts: an ordered table of
  (tag, pattern) rules searched for the first pattern that accepts the text.
  Each regular expression is modelled as the character test it performs.
 */
module Detection {
  import opened Options

  /** `ColorType`: the closed set of notation tags. */
  datatype ColorType = Rgb | Hsl | Hex | Cmyk | Named

  /** The patterns of the rule table. */
  datatype Pattern =
    | StartsWith(literal: string, ignoreCase: bool)  // `/^literal/`, or `/^literal/i`
    | NonEmptyLine                                    // `/^.+/`: one or more characters that are not line terminators

  /** `ColorTypeMatcher`: one rule of the table. */
  datatype Matcher = Matcher(tag: ColorType, reg: Pattern)

  /** `typeMatcher`, in its priority order. */
  const TypeMatcher: seq<Matcher> := [
    Matcher(Hex, StartsWith("#", false)),
    Matcher(Rgb, StartsWith("rgb", true)),
    Matcher(Hsl, StartsWith("hsl", true)),
    Matcher(Cmyk, StartsWith("cmyk", true)),
    Matcher(Named, NonEmptyLine)
  ]

  /** The characters that `.` in a JavaScript regular expression does not match. */
  predicate IsLineTerminator(c: char) {
    c == '\n' || c == '\r' || c == '\U{2028}' || c == '\U{2029}'
  }

  /**
    Case folding of a non-Unicode `/i` regular expression, restricted to what the
    table needs: the ASCII letters fold together, and no other character folds onto
    an ASCII letter.
   */
  function FoldCase(c: char): char {
    if 'A' <= c <= 'Z' then (c as int + 32) as char else c
  }

  predicate SameChar(a: char, b: char, ignoreCase: bool) {
    a == b || (ignoreCase && FoldCase(a) == FoldCase(b))
  }

  /** `reg.test(s)` for a pattern of the table. */
  predicate Test(reg: Pattern, s: string) {
    match reg
    case StartsWith(literal, ignoreCase) =>
      |literal| <= |s| && forall i :: 0 <= i < |literal| ==> SameChar(s[i], literal[i], ignoreCase)
    case NonEmptyLine =>
      |s| > 0 && !IsLineTerminator(s[0])
  }

  /** `matchers.find(m => m.reg.test(s))`: the first rule whose pattern accepts `s`. */
  function Find(matchers: seq<Matcher>, s: string): (r: Option<Matcher>)
    ensures r.None? <==> forall i :: 0 <= i < |matchers| ==> !Test(matchers[i].reg, s)
    ensures r.Some? ==>
      exists i :: && 0 <= i < |matchers|
                  && matchers[i] == r.value
                  && Test(matchers[i].reg, s)
                  && forall j :: 0 <= j < i ==> !Test(matchers[j].reg, s)
  {
    if matchers == [] then None
    else if Test(matchers[0].reg, s) then Some(matchers[0])
    else
      var r := Find(matchers[1..], s);
      assert r.Some? ==> exists i :: (0 <= i < |matchers[1..]| && matchers[1..][i] == r.value
          && Test(matchers[1..][i].reg, s) && forall j :: 0 <= j < i ==> !Test(matchers[1..][j].reg, s));
      r
  }

  /** `find` over the fixed table, rule by rule. */
  lemma FindInTable(s: string)
    ensures Find(TypeMatcher, s) ==
      if Test(TypeMatcher[0].reg, s) then Some(TypeMatcher[0])
      else if Test(TypeMatcher[1].reg, s) then Some(TypeMatcher[1])
      else if Test(TypeMatcher[2].reg, s) then Some(TypeMatcher[2])
      else if Test(TypeMatcher[3].reg, s) then Some(TypeMatcher[3])
      else if Test(TypeMatcher[4].reg, s) then Some(TypeMatcher[4])
      else None
  {
    var m := TypeMatcher;
    assert m[1..][0] == m[1] && m[1..][1..] == m[2..];
    assert m[2..][0] == m[2] && m[2..][1..] == m[3..];
    assert m[3..][0] == m[3] && m[3..][1..] == m[4..];
    assert m[4..][0] == m[4] && m[4..][1..] == [];
  }

  /** The lower-case ASCII form of a string. */
  function Lower(s: string): (r: string)
    ensures |r| == |s|
    ensures forall i :: 0 <= i < |s| ==> r[i] == FoldCase(s[i])
  {
    if s == [] then [] else [FoldCase(s[0])] + Lower(s[1..])
  }

  /** `s` begins with the lower-case word `word`, in any mixture of cases. */
  predicate BeginsWithWord(s: string, word: string) {
    |word| <= |s| && Lower(s[..|word|]) == word
  }

  /** A case-insensitive prefix pattern for a lower-case word accepts exactly the strings beginning with it. */
  lemma TestIgnoringCase(s: string, word: string)
    requires forall k :: 0 <= k < |word| ==> 'a' <= word[k] <= 'z'
    ensures Test(StartsWith(word, true), s) <==> BeginsWithWord(s, word)
    ensures BeginsWithWord(s, word) && |word| > 0 ==> s[0] != '#' && !IsLineTerminator(s[0])
  {
    if Test(StartsWith(word, true), s) {
      assert Lower(s[..|word|]) == word by {
        forall k | 0 <= k < |word| ensures Lower(s[..|word|])[k] == word[k] {
          assert SameChar(s[k], word[k], true);
        }
      }
    }
    if BeginsWithWord(s, word) {
      forall k | 0 <= k < |word| ensures SameChar(s[k], word[k], true) {
        assert Lower(s[..|word|])[k] == FoldCase(s[k]);
      }
      if |word| > 0 {
        assert Lower(s[..|word|])[0] == FoldCase(s[0]);
      }
    }
  }

  /**
    The decision list the table encodes, written out: `#` first, then the three
    case-insensitive words, then any text whose first character is not a line terminator.
   */
  function Classify(s: string): Option<ColorType> {
    if |s| > 0 && s[0] == '#' then Some(Hex)
    else if BeginsWithWord(s, "rgb") then Some(Rgb)
    else if BeginsWithWord(s, "hsl") then Some(Hsl)
    else if BeginsWithWord(s, "cmyk") then Some(Cmyk)
    else if |s| > 0 && !IsLineTerminator(s[0]) then Some(Named)
    else None
  }

  /** What each rule of the table tests, in terms of the decision list's conditions. */
  lemma TableTests(s: string)
    ensures Test(TypeMatcher[0].reg, s) == (|s| > 0 && s[0] == '#')
    ensures Test(TypeMatcher[1].reg, s) == BeginsWithWord(s, "rgb")
    ensures Test(TypeMatcher[2].reg, s) == BeginsWithWord(s, "hsl")
    ensures Test(TypeMatcher[3].reg, s) == BeginsWithWord(s, "cmyk")
    ensures Test(TypeMatcher[4].reg, s) == (|s| > 0 && !IsLineTerminator(s[0]))
  {
    if |s| > 0 {
      assert SameChar(s[0], "#"[0], false) <==> s[0] == '#';
    }
    TestIgnoringCase(s, "rgb");
    TestIgnoringCase(s, "hsl");
    TestIgnoringCase(s, "cmyk");
  }

  lemma TableIsClassify(s: string)
    ensures match Find(TypeMatcher, s)
      case None => Classify(s) == None
      case Some(m) => Classify(s) == Some(m.tag)
  {
    FindInTable(s);
    TableTests(s);
    var m := TypeMatcher;
    if Test(m[0].reg, s) {
      assert Find(m, s) == Some(m[0]) && m[0].tag == Hex;
    } else if Test(m[1].reg, s) {
      assert Find(m, s) == Some(m[1]) && m[1].tag == Rgb;
    } else if Test(m[2].reg, s) {
      assert Find(m, s) == Some(m[2]) && m[2].tag == Hsl;
    } else if Test(m[3].reg, s) {
      assert Find(m, s) == Some(m[3]) && m[3].tag == Cmyk;
    } else if Test(m[4].reg, s) {
      assert Find(m, s) == Some(m[4]) && m[4].tag == Named;
    } else {
      assert Find(m, s) == None;
    }
  }

  /** The decision list has no answer exactly for empty text and a leading line terminator. */
  lemma ClassifyNone(s: string)
    ensures Classify(s).None? <==> |s| == 0 || IsLineTerminator(s[0])
  {
    TestIgnoringCase(s, "rgb");
    TestIgnoringCase(s, "hsl");
    TestIgnoringCase(s, "cmyk");
  }

  /**
    `getColorType`. When no rule matches, the TypeScript code dereferences the
    missing match and throws; that outcome is `None` here.
   */
  function GetColorType(s: string): (r: Option<ColorType>)
    ensures r.None? <==> |s| == 0 || IsLineTerminator(s[0])
    ensures r.Some? ==> r == Classify(s)
  {
    TableIsClassify(s);
    ClassifyNone(s);
    match Find(TypeMatcher, s)
    case None => None
    case Some(m) => Some(m.tag)
  }

  /** The table gives the same answer as the decision list on every string. */
  lemma GetColorTypeIsClassify(s: string)
    ensures GetColorType(s) == Classify(s)
  {
    TableIsClassify(s);
    ClassifyNone(s);
  }

  /** Each tag, stated as the condition under which it is the answer. */
  lemma GetColorTypeCharacterised(s: string)
    ensures GetColorType(s) == Some(Hex) <==> |s| > 0 && s[0] == '#'
    ensures GetColorType(s) == Some(Rgb) <==> BeginsWithWord(s, "rgb")
    ensures GetColorType(s) == Some(Hsl) <==> BeginsWithWord(s, "hsl")
    ensures GetColorType(s) == Some(Cmyk) <==> BeginsWithWord(s, "cmyk")
    ensures GetColorType(s) == Some(Named) <==>
      && |s| > 0 && !IsLineTerminator(s[0]) && s[0] != '#'
      && !BeginsWithWord(s, "rgb") && !BeginsWithWord(s, "hsl") && !BeginsWithWord(s, "cmyk")
  {
    GetColorTypeIsClassify(s);
    TestIgnoringCase(s, "rgb");
    TestIgnoringCase(s, "hsl");
    TestIgnoringCase(s, "cmyk");
    if BeginsWithWord(s, "hsl") {
      assert Lower(s[..3])[0] == 'h';
      assert !BeginsWithWord(s, "rgb") by {
        assert Lower(s[..3])[0] == FoldCase(s[0]);
      }
    }
    if BeginsWithWord(s, "cmyk") {
      assert Lower(s[..4])[0] == 'c';
      assert Lower(s[..4])[0] == FoldCase(s[0]);
      assert !BeginsWithWord(s, "rgb") by {
        assert |s| >= 3 ==> Lower(s[..3])[0] == FoldCase(s[0]);
      }
      assert !BeginsWithWord(s, "hsl") by {
        assert |s| >= 3 ==> Lower(s[..3])[0] == FoldCase(s[0]);
      }
    }
  }

  /** Worked cases: a leading `#` wins over an embedded notation name. */
  lemma GetColorTypeExampleHex()
    ensures GetColorType("#rgb(1,2,3)") == Some(Hex)
  {
    GetColorTypeIsClassify("#rgb(1,2,3)");
  }

  /** Worked cases: the notation names match in any case. */
  lemma GetColorTypeExampleUpper()
    ensures GetColorType("RGB(1, 2, 3)") == Some(Rgb)
  {
    GetColorTypeIsClassify("RGB(1, 2, 3)");
    assert "RGB(1, 2, 3)"[..3] == "RGB" && Lower("RGB") == "rgb";
  }

  lemma GetColorTypeExampleMixed()
    ensures GetColorType("hSl(200)") == Some(Hsl)
  {
    GetColorTypeIsClassify("hSl(200)");
    assert "hSl(200)"[..3] == "hSl" && Lower("hSl") == "hsl";
    assert "hSl(200)"[0] == 'h';
  }

  /** Worked cases: other text is a colour name. */
  lemma GetColorTypeExampleName()
    ensures GetColorType("red") == Some(Named)
  {
    GetColorTypeCharacterised("red");
    assert Lower("red")[1] == 'e';
  }

  /** A prefix of a notation name is not that notation. */
  lemma GetColorTypeExamplePrefix()
    ensures GetColorType("rg") == Some(Named)
  {
    GetColorTypeIsClassify("rg");
  }

  /** Empty text, and text opening with a line break, have no tag at all. */
  lemma GetColorTypeExampleNone()
    ensures GetColorType("") == None
    ensures GetColorType("\nred") == None
  {
  }
}
