/**
 The string operations the version rule of `scripts/publish.js` relies on:
 `String.prototype.split` on a single character, its inverse, decimal
 rendering of naturals and `parseInt` on decimal text.
 */
module Text {
  import opened Options

  /** `s.split(sep)` for a one-character separator: the maximal pieces between
      separators, so there is always at least one piece. */
  function Split(s: string, sep: char): (r: seq<string>)
    ensures |r| >= 1
    ensures forall i :: 0 <= i < |r| ==> sep !in r[i]
  {
    if |s| == 0 then [""]
    else
      var rest := Split(s[1..], sep);
      if s[0] == sep then [""] + rest
      else [[s[0]] + rest[0]] + rest[1..]
  }

  /** Where `split` cuts: the first piece is the text before the first
      separator, there is a second piece exactly when the text holds a
      separator, and the second piece runs from there to the next separator. */
  lemma {:induction false} SplitFirstPieces(s: string, sep: char)
    ensures var parts := Split(s, sep);
      && parts[0] <= s
      && (|parts[0]| < |s| ==> s[|parts[0]|] == sep)
      && (|parts| > 1 <==> sep in s)
      && (|parts| > 1 ==>
            && parts[0] + [sep] + parts[1] <= s
            && (|parts[0]| + 1 + |parts[1]| < |s| ==> s[|parts[0]| + 1 + |parts[1]|] == sep))
  {
    if |s| > 0 {
      var rest := Split(s[1..], sep);
      SplitFirstPieces(s[1..], sep);
      assert s == [s[0]] + s[1..];
      assert sep in s <==> s[0] == sep || sep in s[1..];
      if s[0] != sep {
        var parts := Split(s, sep);
        assert parts[0] == [s[0]] + rest[0];
        if |rest| > 1 {
          assert parts[1] == rest[1];
          assert parts[0] + [sep] + parts[1] == [s[0]] + (rest[0] + [sep] + rest[1]);
        }
      }
    }
  }

  /** `parts.join(sep)`. */
  function Join(parts: seq<string>, sep: char): string
    requires |parts| >= 1
  {
    if |parts| == 1 then parts[0] else parts[0] + [sep] + Join(parts[1..], sep)
  }

  /** Joining the pieces of a split restores the text. */
  lemma {:induction false} JoinSplit(s: string, sep: char)
    ensures Join(Split(s, sep), sep) == s
  {
    if |s| > 0 {
      JoinSplit(s[1..], sep);
      var rest := Split(s[1..], sep);
      if s[0] == sep {
        assert Join([""] + rest, sep) == "" + [sep] + Join(rest, sep);
        assert s == [s[0]] + s[1..];
      } else {
        var r := [[s[0]] + rest[0]] + rest[1..];
        if |rest| == 1 {
          assert Join(r, sep) == [s[0]] + rest[0];
        } else {
          assert r[1..] == rest[1..];
          assert Join(r, sep) == [s[0]] + rest[0] + [sep] + Join(rest[1..], sep);
          assert Join(rest, sep) == rest[0] + [sep] + Join(rest[1..], sep);
        }
        assert s == [s[0]] + s[1..];
      }
    }
  }

  /** Text without a separator glues onto the first piece of what follows. */
  lemma {:induction false} SplitPrefix(p: string, t: string, sep: char)
    requires sep !in p
    ensures Split(p + t, sep) == [p + Split(t, sep)[0]] + Split(t, sep)[1..]
  {
    if |p| > 0 {
      SplitPrefix(p[1..], t, sep);
      assert (p + t)[0] == p[0];
      assert (p + t)[1..] == p[1..] + t;
      assert [p[0]] + (p[1..] + Split(t, sep)[0]) == p + Split(t, sep)[0];
    } else {
      var r := Split(t, sep);
      assert p + t == t && p + r[0] == r[0];
      assert [r[0]] + r[1..] == r;
    }
  }

  /** Splitting a join of separator-free pieces gives the pieces back. */
  lemma {:induction false} SplitJoin(parts: seq<string>, sep: char)
    requires |parts| >= 1
    requires forall i :: 0 <= i < |parts| ==> sep !in parts[i]
    ensures Split(Join(parts, sep), sep) == parts
  {
    if |parts| == 1 {
      SplitPrefix(parts[0], "", sep);
      assert parts[0] + "" == parts[0];
    } else {
      var rest := Join(parts[1..], sep);
      SplitJoin(parts[1..], sep);
      SplitPrefix(parts[0], [sep] + rest, sep);
      assert parts[0] + [sep] + rest == parts[0] + ([sep] + rest);
      assert ([sep] + rest)[1..] == rest;
      assert Split([sep] + rest, sep) == [""] + parts[1..];
      assert parts[0] + "" == parts[0];
    }
  }

  predicate IsDigit(c: char)
  {
    '0' <= c <= '9'
  }

  /** Every character is a decimal digit (the empty text included). */
  predicate AllDigits(s: string)
  {
    forall i :: 0 <= i < |s| ==> IsDigit(s[i])
  }

  /** A decimal numeral: one or more digits. */
  predicate IsNumeral(s: string)
  {
    |s| > 0 && AllDigits(s)
  }

  function DigitValue(c: char): nat
    requires IsDigit(c)
  {
    (c as int - '0' as int) as nat
  }

  function DigitChar(d: nat): (c: char)
    requires d < 10
    ensures IsDigit(c) && DigitValue(c) == d
  {
    ('0' as int + d) as char
  }

  /** The value of a string of decimal digits, most significant first. */
  function DigitsValue(s: string): nat
    requires AllDigits(s)
  {
    if |s| == 0 then 0 else DigitsValue(s[..|s| - 1]) * 10 + DigitValue(s[|s| - 1])
  }

  /** The decimal rendering of a natural, as `String(n)` gives it for an
      integral number: no leading zero except for `0` itself. */
  function ShowNat(n: nat): (r: string)
    ensures IsNumeral(r) && DigitsValue(r) == n
    ensures r[0] == '0' ==> n == 0
  {
    if n < 10 then [DigitChar(n)]
    else
      var prefix := ShowNat(n / 10);
      var r := prefix + [DigitChar(n % 10)];
      assert r[..|r| - 1] == prefix;
      r
  }

  /** The longest prefix made of decimal digits. */
  function LeadingDigits(s: string): (r: string)
    ensures |r| <= |s| && r == s[..|r|] && AllDigits(r)
    ensures |r| < |s| ==> !IsDigit(s[|r|])
  {
    if |s| == 0 || !IsDigit(s[0]) then ""
    else [s[0]] + LeadingDigits(s[1..])
  }

  /** `parseInt(s)` for text that starts with its digits: the value of the
      leading digits, or `None` (NaN) when there are none. */
  function ParseInt(s: string): (r: Option<nat>)
    ensures r.None? <==> (|s| == 0 || !IsDigit(s[0]))
    ensures IsNumeral(s) ==> r == Some(DigitsValue(s))
    ensures r.Some? ==> r.value == DigitsValue(LeadingDigits(s))
  {
    var digits := LeadingDigits(s);
    assert IsNumeral(s) ==> digits == s;
    if digits == "" then None else Some(DigitsValue(digits))
  }

  /** Digits followed by text that does not start with a digit: the digits
      are exactly the leading digits, whatever the rest holds. */
  lemma LeadingDigitsBeforeSuffix(c: string, suffix: string)
    requires AllDigits(c)
    requires |suffix| == 0 || !IsDigit(suffix[0])
    ensures LeadingDigits(c + suffix) == c
  {
    var s := c + suffix;
    assert forall i :: 0 <= i < |c| ==> s[i] == c[i];
    assert |suffix| > 0 ==> s[|c|] == suffix[0];
  }

  /** `parseInt` reads a numeral followed by any non-digit text, such as the
      `3` of `3-beta`, as the numeral's value. */
  lemma ParseIntIgnoresSuffix(c: string, suffix: string)
    requires IsNumeral(c)
    requires |suffix| == 0 || !IsDigit(suffix[0])
    ensures ParseInt(c + suffix) == Some(DigitsValue(c))
  {
    LeadingDigitsBeforeSuffix(c, suffix);
    assert (c + suffix)[0] == c[0];
  }

  /** Rendering and parsing are inverse on the naturals. */
  lemma ParseShowNat(n: nat)
    ensures ParseInt(ShowNat(n)) == Some(n)
  {
  }
}
