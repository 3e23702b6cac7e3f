/**
  The JavaScript string operations the colour correction is built from, on strings
  modelled as `seq<char>`: `padEnd` with a one-character filler, the
  `split("").map(s => s.repeat(2)).join("")` doubling, the `replace(/[^\d,.]/g, "")`
  filter, and `split` on a one-character separator together with its inverse `join`.
 */
module Strings {

  /** `s.padEnd(width, fill)`: right-pad with `fill` up to `width`, never truncate. */
  function PadEnd(s: string, width: nat, fill: char): (r: string)
    ensures |r| == if |s| >= width then |s| else width
    ensures forall i :: 0 <= i < |s| ==> r[i] == s[i]
    ensures forall i :: |s| <= i < |r| ==> r[i] == fill
    decreases width - |s|
  {
    if |s| >= width then s else PadEnd(s + [fill], width, fill)
  }

  /** Every character repeated twice, in the original order. */
  function Doubled(s: string): (r: string)
    ensures |r| == 2 * |s|
    ensures forall i :: 0 <= i < |r| ==> r[i] == s[i / 2]
  {
    if s == [] then [] else [s[0], s[0]] + Doubled(s[1..])
  }

  /** Concatenation regroups freely. */
  lemma Associative(x: string, y: string, z: string)
    ensures x + y + z == x + (y + z)
  {
  }

  /** The characters at even positions: the inverse of `Doubled`. */
  function EvenPositions(s: string): (r: string)
    decreases |s|
  {
    if |s| < 2 then s else [s[0]] + EvenPositions(s[2..])
  }

  /** Doubling loses nothing: the original is recovered from the even positions. */
  lemma {:induction false} EvenPositionsOfDoubled(s: string)
    ensures EvenPositions(Doubled(s)) == s
  {
    if s != [] {
      EvenPositionsOfDoubled(s[1..]);
      assert Doubled(s)[2..] == Doubled(s[1..]);
    }
  }

  /** The class `[\d,.]` (JavaScript's `\d` is the ASCII digits only). */
  predicate IsNumericChar(c: char) {
    '0' <= c <= '9' || c == ',' || c == '.'
  }

  predicate AllNumeric(s: string) {
    forall i :: 0 <= i < |s| ==> IsNumericChar(s[i])
  }

  /** `s.replace(/[^\d,.]/g, "")`: drop every character outside `[\d,.]`. */
  function KeepNumeric(s: string): (r: string)
    ensures |r| <= |s|
    ensures AllNumeric(r)
  {
    if s == [] then []
    else (if IsNumericChar(s[0]) then [s[0]] else []) + KeepNumeric(s[1..])
  }

  /** The filter keeps a string unchanged exactly when it has nothing to drop. */
  lemma {:induction false} KeepNumericIdentity(s: string)
    ensures KeepNumeric(s) == s <==> AllNumeric(s)
  {
    if s != [] {
      KeepNumericIdentity(s[1..]);
      if !IsNumericChar(s[0]) {
        assert |KeepNumeric(s)| < |s|;
      }
    }
  }

  /** The filter works character by character, so it distributes over concatenation. */
  lemma {:induction false} KeepNumericConcat(s: string, t: string)
    ensures KeepNumeric(s + t) == KeepNumeric(s) + KeepNumeric(t)
  {
    if s != [] {
      assert (s + t)[0] == s[0];
      assert (s + t)[1..] == s[1..] + t;
      KeepNumericConcat(s[1..], t);
      assert KeepNumeric(s + t)
          == (if IsNumericChar(s[0]) then [s[0]] else []) + (KeepNumeric(s[1..]) + KeepNumeric(t));
    } else {
      assert s + t == t;
    }
  }

  /** Filtering twice is filtering once. */
  lemma KeepNumericIdempotent(s: string)
    ensures KeepNumeric(KeepNumeric(s)) == KeepNumeric(s)
  {
    KeepNumericIdentity(KeepNumeric(s));
  }

  /** Number of occurrences of `c` in `s`. */
  function Occurrences(s: string, c: char): nat {
    if s == [] then 0 else (if s[0] == c then 1 else 0) + Occurrences(s[1..], c)
  }

  /**
    `s.split(sep)` for a one-character separator: one field more than there are
    separators (so `"".split(",")` is `[""]`), and no field holds the separator.
   */
  function Split(s: string, sep: char): (r: seq<string>)
    ensures |r| == Occurrences(s, sep) + 1
    ensures forall i :: 0 <= i < |r| ==> sep !in r[i]
  {
    if s == [] then [""]
    else
      var rest := Split(s[1..], sep);
      if s[0] == sep then [""] + rest
      else [[s[0]] + rest[0]] + rest[1..]
  }

  /** `fields.join(sep)`. */
  function Join(fields: seq<string>, sep: char): string
    requires |fields| >= 1
  {
    if |fields| == 1 then fields[0] else fields[0] + [sep] + Join(fields[1..], sep)
  }

  /** A join with a first field in front: that field, the separator, then the rest joined. */
  lemma JoinCons(f: string, fields: seq<string>, sep: char)
    requires |fields| >= 1
    ensures Join([f] + fields, sep) == f + [sep] + Join(fields, sep)
  {
    assert ([f] + fields)[1..] == fields;
  }

  /** Joining the fields of a split gives back the original string. */
  lemma {:induction false} JoinSplit(s: string, sep: char)
    ensures Join(Split(s, sep), sep) == s
  {
    if s != [] {
      JoinSplit(s[1..], sep);
      var rest := Split(s[1..], sep);
      if s[0] != sep && |rest| > 1 {
        assert ([[s[0]] + rest[0]] + rest[1..])[1..] == rest[1..];
      }
    }
  }

  /** A string without the separator splits into itself alone. */
  lemma {:induction false} SplitWithoutSeparator(s: string, sep: char)
    requires sep !in s
    ensures Split(s, sep) == [s]
  {
    if s != [] {
      assert sep !in s[1..] by {
        forall i | 0 <= i < |s[1..]| ensures s[1..][i] != sep {
          assert s[1..][i] == s[i + 1];
        }
      }
      SplitWithoutSeparator(s[1..], sep);
      assert s[0] != sep;
      assert [s[0]] + s[1..] == s;
    }
  }

  /** A separator between two strings splits them apart independently. */
  lemma {:induction false} SplitAtSeparator(a: string, b: string, sep: char)
    ensures Split(a + [sep] + b, sep) == Split(a, sep) + Split(b, sep)
  {
    if a == [] {
      assert a + [sep] + b == [sep] + b;
      assert ([sep] + b)[1..] == b;
    } else {
      assert (a + [sep] + b)[1..] == a[1..] + [sep] + b;
      SplitAtSeparator(a[1..], b, sep);
    }
  }

  /** Splitting a join of separator-free fields gives back the fields. */
  lemma {:induction false} SplitJoin(fields: seq<string>, sep: char)
    requires |fields| >= 1
    requires forall i :: 0 <= i < |fields| ==> sep !in fields[i]
    ensures Split(Join(fields, sep), sep) == fields
  {
    if |fields| == 1 {
      SplitWithoutSeparator(fields[0], sep);
    } else {
      SplitJoin(fields[1..], sep);
      SplitAtSeparator(fields[0], Join(fields[1..], sep), sep);
      SplitWithoutSeparator(fields[0], sep);
    }
  }

  /** Splitting a `[\d,.]` string leaves fields made of digits and periods only. */
  lemma {:induction false} SplitNumericFields(s: string)
    requires AllNumeric(s)
    ensures forall i :: 0 <= i < |Split(s, ',')| ==> AllNumeric(Split(s, ',')[i])
  {
    if s != [] {
      assert AllNumeric(s[1..]) by {
        forall i | 0 <= i < |s[1..]| ensures IsNumericChar(s[1..][i]) {
          assert s[1..][i] == s[i + 1];
        }
      }
      SplitNumericFields(s[1..]);
    }
  }
}
