/** `parse_bitrate`, the command-line bitrate parser shared by
    `src/scale_sample.rs` and `src/encode_sample.rs`: surrounding white space
    is ignored, a trailing `M`/`m` scales by one million and `K`/`k` by one
    thousand, and the rest must be a decimal `u64` as Rust's `str::parse`
    accepts it (an optional `+`, then one or more ASCII digits). */
module Bitrate {
  import opened Common

  /** Why a bitrate is refused. `MultiplyOverflow` stands for the arithmetic
      overflow of `number * suffix`, which panics in a debug build. */
  datatype BitrateError =
    | EmptyInput
    | InvalidNumber(text: string)
    | MultiplyOverflow

  // ---------------------------------------------------------------------
  // White space, as Rust's `str::trim` understands it (the Unicode
  // `White_Space` property).

  predicate IsWhiteSpace(c: char)
  {
    || ('\t' <= c <= '\r')
    || c == ' '
    || c == '\U{0085}'
    || c == '\U{00A0}'
    || c == '\U{1680}'
    || ('\U{2000}' <= c <= '\U{200A}')
    || c == '\U{2028}'
    || c == '\U{2029}'
    || c == '\U{202F}'
    || c == '\U{205F}'
    || c == '\U{3000}'
  }

  predicate AllWhiteSpace(s: string)
  {
    forall i | 0 <= i < |s| :: IsWhiteSpace(s[i])
  }

  /** The number of white-space characters `s` starts with. */
  function LeadingWhiteSpace(s: string): (n: nat)
    ensures n <= |s|
    ensures AllWhiteSpace(s[..n])
    ensures n < |s| ==> !IsWhiteSpace(s[n])
  {
    if |s| == 0 || !IsWhiteSpace(s[0]) then 0
    else
      var n := 1 + LeadingWhiteSpace(s[1..]);
      assert s[..n] == [s[0]] + s[1..][..n - 1];
      n
  }

  /** The number of white-space characters `s` ends with. */
  function TrailingWhiteSpace(s: string): (n: nat)
    ensures n <= |s|
    ensures AllWhiteSpace(s[|s| - n..])
    ensures n < |s| ==> !IsWhiteSpace(s[|s| - n - 1])
  {
    if |s| == 0 || !IsWhiteSpace(s[|s| - 1]) then 0
    else
      var init := s[..|s| - 1];
      var n := 1 + TrailingWhiteSpace(init);
      assert s[|s| - n..] == init[|init| - (n - 1)..] + [s[|s| - 1]];
      n
  }

  /** `str::trim`: `s` without its leading and trailing white space. */
  function Trim(s: string): (t: string)
    ensures |t| <= |s|
    ensures |t| > 0 ==> !IsWhiteSpace(t[0]) && !IsWhiteSpace(t[|t| - 1])
  {
    var a := LeadingWhiteSpace(s);
    if a == |s| then []
    else
      var b := TrailingWhiteSpace(s[a..]);
      assert b < |s| - a by {
        assert !IsWhiteSpace(s[a..][0]);
      }
      var t := s[a..|s| - b];
      assert t[|t| - 1] == s[a..][|s[a..]| - b - 1];
      t
  }

  /** What trimming removes is white space, from both ends only. */
  lemma {:induction false} TrimSplits(s: string)
    ensures exists i, j | 0 <= i <= j <= |s| :: Trim(s) == s[i..j] && AllWhiteSpace(s[..i]) && AllWhiteSpace(s[j..])
  {
    var a := LeadingWhiteSpace(s);
    if a == |s| {
      assert s[..a] == s && s[|s|..] == [] && Trim(s) == s[a..a];
    } else {
      var b := TrailingWhiteSpace(s[a..]);
      assert s[|s| - b..] == s[a..][|s[a..]| - b..];
      assert Trim(s) == s[a..|s| - b];
    }
  }

  lemma {:induction false} LeadingOfWhite(s: string)
    requires AllWhiteSpace(s)
    ensures LeadingWhiteSpace(s) == |s|
  {
    if |s| > 0 {
      assert IsWhiteSpace(s[0]);
      assert AllWhiteSpace(s[1..]) by {
        forall k | 0 <= k < |s[1..]| ensures IsWhiteSpace(s[1..][k]) {
          assert s[1..][k] == s[k + 1];
        }
      }
      LeadingOfWhite(s[1..]);
    }
  }

  /** Only the first non-white-space character can end a leading run. */
  lemma {:induction false} LeadingOfPadded(ws: string, t: string)
    requires AllWhiteSpace(ws)
    requires |t| > 0 ==> !IsWhiteSpace(t[0])
    ensures LeadingWhiteSpace(ws + t) == (if |t| == 0 then |ws| + LeadingWhiteSpace(t) else |ws|)
    decreases |ws|
  {
    var s := ws + t;
    if |ws| == 0 {
      assert s == t;
      if |t| > 0 {
        assert !IsWhiteSpace(s[0]);
      }
    } else {
      assert IsWhiteSpace(ws[0]);
      assert s[0] == ws[0];
      assert s[1..] == ws[1..] + t;
      LeadingOfPadded(ws[1..], t);
    }
  }

  lemma {:induction false} TrailingOfPadded(t: string, ws: string)
    requires AllWhiteSpace(ws)
    requires |t| > 0 ==> !IsWhiteSpace(t[|t| - 1])
    ensures |t| > 0 ==> TrailingWhiteSpace(t + ws) == |ws|
    decreases |ws|
  {
    var s := t + ws;
    if |t| > 0 {
      if |ws| == 0 {
        assert s == t;
      } else {
        var init := ws[..|ws| - 1];
        assert IsWhiteSpace(ws[|ws| - 1]);
        assert s[|s| - 1] == ws[|ws| - 1];
        assert s[..|s| - 1] == t + init;
        TrailingOfPadded(t, init);
      }
    }
  }

  /** Trimming removes exactly the padding: white space added around a text
      that neither starts nor ends with white space is ignored. */
  lemma {:induction false} TrimPadded(ws1: string, t: string, ws2: string)
    requires AllWhiteSpace(ws1) && AllWhiteSpace(ws2)
    requires |t| > 0 ==> !IsWhiteSpace(t[0]) && !IsWhiteSpace(t[|t| - 1])
    ensures Trim(ws1 + t + ws2) == t
  {
    var s := ws1 + t + ws2;
    if |t| == 0 {
      assert s == ws1 + ws2;
      assert AllWhiteSpace(s) by {
        forall i | 0 <= i < |s| ensures IsWhiteSpace(s[i]) {
          if i < |ws1| { assert s[i] == ws1[i]; } else { assert s[i] == ws2[i - |ws1|]; }
        }
      }
      LeadingOfWhite(s);
    } else {
      assert s == ws1 + (t + ws2);
      LeadingOfPadded(ws1, t + ws2);
      assert LeadingWhiteSpace(s) == |ws1|;
      assert s[|ws1|..] == t + ws2;
      TrailingOfPadded(t, ws2);
      assert s[|ws1|..|s| - |ws2|] == t;
    }
  }

  // ---------------------------------------------------------------------
  // Decimal numerals.

  predicate IsDigit(c: char) { '0' <= c <= '9' }

  predicate AllDigits(s: string)
  {
    forall i | 0 <= i < |s| :: IsDigit(s[i])
  }

  function DigitValue(c: char): nat
    requires IsDigit(c)
  {
    (c - '0') as nat
  }

  /** The value of a digit string, most significant digit first. */
  function DigitsValue(s: string): nat
    requires AllDigits(s)
  {
    if |s| == 0 then 0 else DigitsValue(s[..|s| - 1]) * 10 + DigitValue(s[|s| - 1])
  }

  /** A prefix of a numeral never has a larger value. */
  lemma {:induction false} PrefixValueBound(s: string, k: nat)
    requires AllDigits(s) && k <= |s|
    ensures DigitsValue(s[..k]) <= DigitsValue(s)
    decreases |s| - k
  {
    if k < |s| {
      var init := s[..|s| - 1];
      assert init[..k] == s[..k];
      PrefixValueBound(init, k);
    } else {
      assert s[..k] == s;
    }
  }

  /** The text `u64::from_str` accepts: an optional `+` followed by at least
      one ASCII digit. */
  predicate IsUnsignedText(s: string)
  {
    var digits := if |s| > 0 && s[0] == '+' then s[1..] else s;
    |digits| > 0 && AllDigits(digits)
  }

  function UnsignedDigits(s: string): (d: string)
    requires IsUnsignedText(s)
    ensures |d| > 0 && AllDigits(d)
    ensures s == d || s == ['+'] + d
  {
    if s[0] == '+' then s[1..] else s
  }

  /** `u64::from_str`, by its meaning: the text is well formed and its value
      fits in 64 bits. */
  function ParseU64(s: string): (r: Option<nat>)
    ensures r.Some? <==> IsUnsignedText(s) && DigitsValue(UnsignedDigits(s)) <= U64_MAX
    ensures r.Some? ==> r.value <= U64_MAX
  {
    if IsUnsignedText(s) && DigitsValue(UnsignedDigits(s)) <= U64_MAX then Some(DigitsValue(UnsignedDigits(s)))
    else None
  }

  /** `u64::from_str` as the standard library computes it: digit by digit,
      with a checked multiply-and-add that fails as soon as the running
      value leaves the 64-bit range. */
  method ParseU64Checked(s: string) returns (r: Option<nat>)
    ensures r == ParseU64(s)
  {
    if |s| == 0 || s == ['+'] {
      return None;
    }
    var digits := if s[0] == '+' then s[1..] else s;
    var acc: nat := 0;
    var i := 0;
    while i < |digits|
      invariant 0 <= i <= |digits|
      invariant AllDigits(digits[..i])
      invariant acc == DigitsValue(digits[..i]) && acc <= U64_MAX
    {
      if !IsDigit(digits[i]) {
        assert !AllDigits(digits);
        return None;
      }
      DigitStep(digits, i);
      var next := acc * 10 + DigitValue(digits[i]);
      if next > U64_MAX {
        PrefixOverflows(digits, i + 1);
        return None;
      }
      acc := next;
      i := i + 1;
    }
    assert digits[..i] == digits;
    return Some(acc);
  }

  /** One more digit of a numeral's prefix: the value is shifted by one
      decimal place and the digit added. */
  lemma {:induction false} DigitStep(s: string, i: nat)
    requires i < |s| && AllDigits(s[..i]) && IsDigit(s[i])
    ensures AllDigits(s[..i + 1])
    ensures DigitsValue(s[..i + 1]) == DigitsValue(s[..i]) * 10 + DigitValue(s[i])
  {
    assert s[..i + 1][..i] == s[..i];
  }

  /** A numeral whose prefix is already out of the 64-bit range is out of
      it too. */
  lemma {:induction false} PrefixOverflows(s: string, k: nat)
    requires k <= |s| && AllDigits(s[..k]) && DigitsValue(s[..k]) > U64_MAX
    ensures !(AllDigits(s) && DigitsValue(s) <= U64_MAX)
  {
    if AllDigits(s) {
      PrefixValueBound(s, k);
    }
  }

  /** The shortest decimal numeral of `n`. */
  function Decimal(n: nat): (s: string)
    ensures |s| > 0 && AllDigits(s)
    ensures DigitsValue(s) == n
    ensures s[0] != '0' || n == 0
  {
    var d := ['0' + (n % 10) as char];
    if n < 10 then
      assert d[..0] == [];
      d
    else
      var s := Decimal(n / 10) + d;
      assert s[..|s| - 1] == Decimal(n / 10);
      s
  }

  // ---------------------------------------------------------------------
  // The parser.

  /** The scale a trailing unit letter stands for, if `c` is one. */
  function UnitScale(c: char): (m: Option<nat>)
    ensures m.Some? <==> c in "MmKk"
    ensures m.Some? ==> m.value in {1_000, 1_000_000}
  {
    if c == 'M' || c == 'm' then Some(1_000_000)
    else if c == 'K' || c == 'k' then Some(1_000)
    else None
  }

  /** The trimmed text split into its number part and its scale. */
  function SplitUnit(t: string): (r: (string, nat))
    requires |t| > 0
    ensures r.1 in {1, 1_000, 1_000_000}
    ensures r.1 == 1 <==> r.0 == t
    ensures r.1 == 1_000_000 <==> r.0 + [t[|t| - 1]] == t && t[|t| - 1] in "Mm"
    ensures r.1 == 1_000 <==> r.0 + [t[|t| - 1]] == t && t[|t| - 1] in "Kk"
  {
    match UnitScale(t[|t| - 1])
    case Some(m) =>
      assert t[..|t| - 1] + [t[|t| - 1]] == t;
      (t[..|t| - 1], m)
    case None => (t, 1)
  }

  /** `parse_bitrate`. */
  function ParseBitrate(s: string): (r: Result<nat, BitrateError>)
    ensures r == Err(EmptyInput) <==> Trim(s) == []
    ensures r.Ok? ==> r.value <= U64_MAX
    ensures r.Err? && r.error.InvalidNumber? ==> ParseU64(r.error.text).None?
  {
    var t := Trim(s);
    if |t| == 0 then Err(EmptyInput) else ParseTrimmed(t)
  }

  /** `parse_bitrate` after the trim, on a non-empty text. */
  function ParseTrimmed(t: string): (r: Result<nat, BitrateError>)
    requires |t| > 0
    ensures r != Err(EmptyInput)
    ensures r.Ok? ==> r.value <= U64_MAX
  {
    var (number, scale) := SplitUnit(t);
    match ParseU64(number)
    case None => Err(InvalidNumber(number))
    case Some(n) => if n * scale > U64_MAX then Err(MultiplyOverflow) else Ok(n * scale)
  }

  /** The result of `ParseTrimmed` for a number part `d` without sign and a
      unit of scale `m`. */
  lemma {:induction false} ParseNumeral(t: string, d: string, m: nat)
    requires |t| > 0 && |d| > 0 && AllDigits(d)
    requires SplitUnit(t) == (d, m)
    ensures ParseTrimmed(t) ==
      if DigitsValue(d) > U64_MAX then Err(InvalidNumber(d))
      else if DigitsValue(d) * m > U64_MAX then Err(MultiplyOverflow)
      else Ok(DigitsValue(d) * m)
  {
    assert UnsignedDigits(d) == d by { assert IsDigit(d[0]); }
  }

  /** The text of a unit suffix. */
  function UnitText(scale: nat): string
  {
    if scale == 1_000_000 then "M" else if scale == 1_000 then "K" else ""
  }

  /** Round trip: a numeral with an optional unit, padded with any white
      space, parses back to the value it denotes when that value fits in
      64 bits, and is refused for the right reason when it does not. */
  lemma {:induction false} ParseRendered(ws1: string, n: nat, scale: nat, ws2: string)
    requires AllWhiteSpace(ws1) && AllWhiteSpace(ws2)
    requires scale in {1, 1_000, 1_000_000}
    ensures ParseBitrate(ws1 + Decimal(n) + UnitText(scale) + ws2) ==
      if n > U64_MAX then Err(InvalidNumber(Decimal(n)))
      else if n * scale > U64_MAX then Err(MultiplyOverflow)
      else Ok(n * scale)
  {
    var d := Decimal(n);
    var t := d + UnitText(scale);
    RenderedParts(n, scale);
    assert Trim(ws1 + d + UnitText(scale) + ws2) == t by {
      assert ws1 + d + UnitText(scale) + ws2 == ws1 + t + ws2;
      TrimPadded(ws1, t, ws2);
    }
    ParseNumeral(t, d, scale);
  }

  /** A rendered numeral with its unit has no white space at either end and
      splits back into the numeral and the unit's scale. */
  lemma {:induction false} RenderedParts(n: nat, scale: nat)
    requires scale in {1, 1_000, 1_000_000}
    ensures var t := Decimal(n) + UnitText(scale);
      && |t| > 0 && !IsWhiteSpace(t[0]) && !IsWhiteSpace(t[|t| - 1])
      && SplitUnit(t) == (Decimal(n), scale)
  {
    var d := Decimal(n);
    var t := d + UnitText(scale);
    assert t[0] == d[0];
    if scale == 1 {
      assert t == d;
      assert !(t[|t| - 1] in "MmKk");
    } else {
      assert t[..|t| - 1] == d;
    }
  }

  /** White space around the argument never changes the outcome. */
  lemma {:induction false} PaddingIgnored(ws1: string, s: string, ws2: string)
    requires AllWhiteSpace(ws1) && AllWhiteSpace(ws2)
    ensures ParseBitrate(ws1 + s + ws2) == ParseBitrate(s)
  {
    var t := Trim(s);
    TrimSplits(s);
    var i, j :| 0 <= i <= j <= |s| && t == s[i..j] && AllWhiteSpace(s[..i]) && AllWhiteSpace(s[j..]);
    var pre := ws1 + s[..i];
    var post := s[j..] + ws2;
    assert AllWhiteSpace(pre) by {
      forall k | 0 <= k < |pre| ensures IsWhiteSpace(pre[k]) {
        if k < |ws1| { assert pre[k] == ws1[k]; } else { assert pre[k] == s[..i][k - |ws1|]; }
      }
    }
    assert AllWhiteSpace(post) by {
      forall k | 0 <= k < |post| ensures IsWhiteSpace(post[k]) {
        if k < |s[j..]| { assert post[k] == s[j..][k]; } else { assert post[k] == ws2[k - |s[j..]|]; }
      }
    }
    assert ws1 + s + ws2 == pre + t + post by {
      SplitThree(s, i, j);
      Regroup(ws1, s[..i], t, s[j..], ws2);
    }
    TrimPadded(pre, t, post);
  }

  lemma SplitThree<T>(s: seq<T>, i: nat, j: nat)
    requires i <= j <= |s|
    ensures s == s[..i] + s[i..j] + s[j..]
  {
  }

  lemma Regroup<T>(a: seq<T>, b: seq<T>, c: seq<T>, d: seq<T>, e: seq<T>)
    ensures a + (b + c + d) + e == (a + b) + c + (d + e)
  {
  }

  /** A text with no white space at either end is already trimmed. */
  lemma Trimmed(t: string)
    requires |t| > 0 && !IsWhiteSpace(t[0]) && !IsWhiteSpace(t[|t| - 1])
    ensures Trim(t) == t
  {
    TrimPadded([], t, []);
    assert [] + t + [] == t;
  }

  /** A trimmed text whose number part is not a `u64` numeral is refused
      with that number part. */
  lemma NumberRefused(t: string, d: string, m: nat)
    requires |t| > 0 && Trim(t) == t
    requires SplitUnit(t) == (d, m)
    requires !IsUnsignedText(d)
    ensures ParseBitrate(t) == Err(InvalidNumber(d))
  {
    assert ParseU64(d).None?;
  }

  /** A plain numeral within range parses to its value. */
  lemma {:induction false} PlainParses(d: string)
    requires |d| > 0 && AllDigits(d)
    requires DigitsValue(d) <= U64_MAX
    ensures ParseBitrate(d) == Ok(DigitsValue(d))
  {
    assert IsDigit(d[0]) && IsDigit(d[|d| - 1]);
    Trimmed(d);
    assert UnitScale(d[|d| - 1]).None?;
    assert SplitUnit(d) == (d, 1);
    ParseNumeral(d, d, 1);
  }

  /** Suffix scaling: appending a unit letter to a plain numeral scales its
      value, whichever case the letter has. */
  lemma {:induction false} UnitScales(d: string, u: char)
    requires |d| > 0 && AllDigits(d)
    requires u in "MmKk"
    requires DigitsValue(d) * UnitScale(u).value <= U64_MAX
    ensures ParseBitrate(d) == Ok(DigitsValue(d))
    ensures ParseBitrate(d + [u]) == Ok(DigitsValue(d) * UnitScale(u).value)
  {
    var m := UnitScale(u).value;
    assert DigitsValue(d) <= U64_MAX by { assert DigitsValue(d) <= DigitsValue(d) * m; }
    PlainParses(d);
    UnitSplits(d, u);
    ParseNumeral(d + [u], d, m);
  }

  /** A numeral followed by a unit letter is already trimmed, and splits
      into the numeral and the letter's scale. */
  lemma {:induction false} UnitSplits(d: string, u: char)
    requires |d| > 0 && AllDigits(d)
    requires u in "MmKk"
    ensures Trim(d + [u]) == d + [u]
    ensures SplitUnit(d + [u]) == (d, UnitScale(u).value)
  {
    assert IsDigit((d + [u])[0]);
    Trimmed(d + [u]);
    assert (d + [u])[..|d + [u]| - 1] == d;
  }

  /** A unit letter with no number before it is refused. */
  lemma UnitAloneRefused()
    ensures ParseBitrate("M") == Err(InvalidNumber(""))
    ensures ParseBitrate("k") == Err(InvalidNumber(""))
  {
    Trimmed("M");
    assert SplitUnit("M") == ("", 1_000_000) by { assert "M"[..0] == ""; }
    NumberRefused("M", "", 1_000_000);
    Trimmed("k");
    assert SplitUnit("k") == ("", 1_000) by { assert "k"[..0] == ""; }
    NumberRefused("k", "", 1_000);
  }

  /** Fractions are refused: the number part must be an integer. */
  lemma FractionRefused()
    ensures ParseBitrate("1.5M") == Err(InvalidNumber("1.5"))
  {
    Trimmed("1.5M");
    assert SplitUnit("1.5M") == ("1.5", 1_000_000) by { assert "1.5M"[..3] == "1.5"; }
    assert !IsUnsignedText("1.5") by { assert !IsDigit("1.5"[1]); }
    NumberRefused("1.5M", "1.5", 1_000_000);
  }

  /** Only the outer white space is trimmed: a space between the number and
      its unit is refused. */
  lemma InnerSpaceRefused()
    ensures ParseBitrate("5 M") == Err(InvalidNumber("5 "))
  {
    Trimmed("5 M");
    assert SplitUnit("5 M") == ("5 ", 1_000_000) by { assert "5 M"[..2] == "5 "; }
    assert !IsUnsignedText("5 ") by { assert !IsDigit("5 "[1]); }
    NumberRefused("5 M", "5 ", 1_000_000);
  }
}
