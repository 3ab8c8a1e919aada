/**
  How `DynamicNumberLabel` turns an `int` into text: the digit-budget clamp
  (`ClampToMaxDigits`), and `FormatNumber` with its two paths,
  `FormatWithPadding` when no delimiter is used and `ToString("N0")`
  followed by `ApplyPadding` when one is. "N0" is taken in the invariant
  culture: groups of three digits separated by ',' and a leading '-'.
 */
module NumberFormat {
  import opened Decimal
  import opened Text
  import opened Outcomes

  /** The exported properties that decide how a number is shown. */
  datatype FormatSettings = FormatSettings(
    prefix: string,
    suffix: string,
    useDelimiter: bool,
    delimiter: string,
    maxDigits: Int32)

  /**
    What `FormatNumber(n)` needs in order to return instead of throwing:
    `Math.Abs(int.MinValue)` overflows on the padded path without a
    delimiter, and `Replace(Delimiter, "")` rejects an empty delimiter on the
    padded path with one.
   */
  predicate Formattable(f: FormatSettings, n: Int32) {
    && (!f.useDelimiter && f.maxDigits > 0 ==> n != INT32_MIN)
    && (f.useDelimiter && f.maxDigits > 0 ==> |f.delimiter| > 0)
  }

  /** A delimiter that cannot be mistaken for a digit or a minus sign. */
  predicate PlainDelimiter(d: string) {
    && |d| > 0
    && forall i :: 0 <= i < |d| ==> !IsDigit(d[i]) && d[i] != '-'
  }

  /** Largest value `maxDigits` digits can show. */
  function MaxAllowed(maxDigits: nat): int {
    Pow10(maxDigits) - 1
  }

  /** Smallest value: one digit is kept for the minus sign, but at least one digit remains. */
  function MinAllowed(maxDigits: nat): int {
    1 - (Pow10(Max(1, maxDigits - 1)) as int)
  }

  /** How many digits the padded formats give `v`: one fewer for a negative value, never fewer than one. */
  function DigitBudget(maxDigits: int, v: int): int {
    if v < 0 then Max(1, maxDigits - 1) else maxDigits
  }

  /** The magnitude of `v` can be written within its digit budget. */
  predicate FitsBudget(maxDigits: int, v: int) {
    |Digits(Abs(v))| <= DigitBudget(maxDigits, v)
  }

  /**
    `ClampToMaxDigits`: no limit when `MaxDigits <= 0`; otherwise values
    above `10^MaxDigits - 1` saturate there and negative values below
    `-(10^max(1, MaxDigits - 1)) + 1` saturate there. The cast of
    `Math.Pow` to `int` is exact only up to nine digits.
   */
  function ClampToMaxDigits(maxDigits: Int32, v: Int32): (r: Int32)
    requires maxDigits <= 9
    ensures maxDigits <= 0 ==> r == v
    ensures maxDigits > 0 ==> MinAllowed(maxDigits) <= r <= MaxAllowed(maxDigits)
    ensures maxDigits > 0 && MinAllowed(maxDigits) <= v <= MaxAllowed(maxDigits) ==> r == v
    ensures maxDigits > 0 && v > MaxAllowed(maxDigits) ==> r == MaxAllowed(maxDigits)
    ensures maxDigits > 0 && v < MinAllowed(maxDigits) ==> r == MinAllowed(maxDigits)
  {
    if maxDigits <= 0 then v
    else
      Pow10AtMostNine(maxDigits);
      Pow10AtMostNine(Max(1, maxDigits - 1));
      Pow10Positive(maxDigits);
      var maxValue := Pow10(maxDigits) - 1;
      if v > maxValue then maxValue
      else
        var minValue := 1 - (Pow10(Max(1, maxDigits - 1)) as int);
        if v < 0 && v < minValue then minValue else v
  }

  /** Why the clamp as written does not return: `LogWarning` is handed the static `Logger`, which nothing assigns. */
  datatype ClampError = NullLogger

  /**
    `ClampToMaxDigits` as the source writes it: both saturating branches
    first log through `Logger`, which is never assigned, and the logging
    extension rejects a null logger, so the call throws exactly when it
    would have clamped.
   */
  function ClampToMaxDigitsAsWritten(maxDigits: Int32, v: Int32): (r: Result<Int32, ClampError>)
    requires maxDigits <= 9
    ensures r.Ok? <==> maxDigits <= 0 || MinAllowed(maxDigits) <= v <= MaxAllowed(maxDigits)
    ensures r.Ok? ==> r.value == v
  {
    if maxDigits <= 0 then Ok(v)
    else
      Pow10AtMostNine(maxDigits);
      Pow10Positive(Max(1, maxDigits - 1));
      var maxValue := Pow10(maxDigits) - 1;
      if v > maxValue then Err(NullLogger)
      else
        var minValue := 1 - (Pow10(Max(1, maxDigits - 1)) as int);
        if v < 0 && v < minValue then Err(NullLogger) else Ok(v)
  }

  /**
    The two clamps agree wherever the one as written returns, and it throws
    on every input the other one changes: 1000 with three digits, for one.
   */
  lemma ClampAsWrittenThrowsWhereItClamps(maxDigits: Int32, v: Int32)
    requires maxDigits <= 9
    ensures ClampToMaxDigitsAsWritten(maxDigits, v).Ok? <==> ClampToMaxDigits(maxDigits, v) == v
    ensures ClampToMaxDigitsAsWritten(3, 1000) == Err(NullLogger) && ClampToMaxDigits(3, 1000) == 999
  {
    Pow10AtMostNine(3);
  }

  /** The clamp range is exactly the set of values that fit their digit budget. */
  lemma FitsBudgetIffInRange(maxDigits: nat, v: int)
    requires maxDigits >= 1
    ensures FitsBudget(maxDigits, v) <==> MinAllowed(maxDigits) <= v <= MaxAllowed(maxDigits)
  {
    if v >= 0 {
      DigitsFit(v, maxDigits);
    } else {
      DigitsFit(-v, Max(1, maxDigits - 1));
      Pow10Positive(maxDigits);
    }
  }

  /**
    Seen through the digits: a clamped value always fits its digit budget,
    and a value that already fits is left alone (so clamping twice is
    clamping once).
   */
  lemma ClampRespectsDigitBudget(maxDigits: Int32, v: Int32)
    requires 1 <= maxDigits <= 9
    ensures FitsBudget(maxDigits, ClampToMaxDigits(maxDigits, v))
    ensures FitsBudget(maxDigits, v) ==> ClampToMaxDigits(maxDigits, v) == v
    ensures ClampToMaxDigits(maxDigits, ClampToMaxDigits(maxDigits, v)) == ClampToMaxDigits(maxDigits, v)
  {
    FitsBudgetIffInRange(maxDigits, v);
    FitsBudgetIffInRange(maxDigits, ClampToMaxDigits(maxDigits, v));
  }

  function Sign(n: int): string {
    if n < 0 then "-" else ""
  }

  /** `Int32.ToString()`. */
  function IntToString(n: int): string {
    Sign(n) + Digits(Abs(n))
  }

  /** `Int32.ToString("N0")` in the invariant culture. */
  function FormatN0(n: int): string {
    Sign(n) + Group(Digits(Abs(n)), ",")
  }

  /**
    `FormatWithPadding`: the path taken without a delimiter. The text is the
    sign, then digits only, as many as the magnitude needs or as the digit
    budget asks when that is more; it starts with '-' exactly for a negative
    number and reads back as the number.
   */
  function FormatWithPadding(maxDigits: int, n: Int32): (r: string)
    requires maxDigits <= 0 || n != INT32_MIN
    ensures var width := if maxDigits > 0 then DigitBudget(maxDigits, n) else 0;
      && |r| == |Sign(n)| + Max(width, |Digits(Abs(n))|)
      && r[..|Sign(n)|] == Sign(n)
      && AllDigits(r[|Sign(n)|..])
    ensures |r| > 0 && (r[0] == '-' <==> n < 0)
    ensures ParseInt(r) == Some(n as int)
  {
    SignedPadded(n, if maxDigits > 0 then DigitBudget(maxDigits, n) else 0);
    if maxDigits <= 0 then IntToString(n)
    else if n >= 0 then PadLeft(Digits(n), maxDigits)
    else "-" + PadLeft(Digits(Abs(n)), Max(1, maxDigits - 1))
  }

  /** A sign followed by the magnitude's digits padded to `width`: its shape, and that it parses back. */
  lemma SignedPadded(n: int, width: int)
    ensures var r := Sign(n) + PadLeft(Digits(Abs(n)), width);
      && |r| == |Sign(n)| + Max(width, |Digits(Abs(n))|)
      && r[..|Sign(n)|] == Sign(n)
      && AllDigits(r[|Sign(n)|..])
      && |r| > 0 && (r[0] == '-' <==> n < 0)
      && ParseInt(r) == Some(n)
  {
    var body := PadLeft(Digits(Abs(n)), width);
    var r := Sign(n) + body;
    PadLeftDigits(Digits(Abs(n)), width);
    ValueOfDigits(Abs(n));
    ParseSigned(n, body);
    assert r[|Sign(n)|..] == body;
    assert IsDigit(body[0]);
  }

  /**
    `ApplyPadding`: count the digits left after removing the delimiter (and,
    for a negative number, every '-'), and when there are fewer than the
    budget put the missing zeros in front, or after every '-' of a negative
    number. On a text with a single leading '-' that is right after it.
   */
  function ApplyPadding(f: FormatSettings, formatted: string, original: Int32): (r: string)
    requires f.maxDigits <= 0 || |f.delimiter| > 0
    ensures f.maxDigits <= 0 ==> r == formatted
    ensures f.maxDigits > 0 ==>
      var k := Max(0, DigitBudget(f.maxDigits, original) - |DigitsOnly(f.delimiter, formatted, original < 0)|);
      && (original >= 0 ==> r == Zeros(k) + formatted)
      && (original < 0 && LeadingSignOnly(formatted) ==> r == "-" + Zeros(k) + formatted[1..])
  {
    if f.maxDigits <= 0 then formatted
    else
      var digitsOnly := DigitsOnly(f.delimiter, formatted, original < 0);
      var targetDigits := DigitBudget(f.maxDigits, original);
      if |digitsOnly| < targetDigits then
        InsertZerosAfterSign(formatted, Zeros(targetDigits - |digitsOnly|));
        InsertZeros(formatted, Zeros(targetDigits - |digitsOnly|), original < 0)
      else
        assert Zeros(0) == [];
        assert LeadingSignOnly(formatted) ==> "-" + Zeros(0) + formatted[1..] == formatted;
        formatted
  }

  /** The text `ApplyPadding` counts: the delimiter removed and, for a negative number, every '-'. */
  function DigitsOnly(delimiter: string, formatted: string, negative: bool): string
    requires |delimiter| > 0
  {
    var stripped := Replace(formatted, delimiter, "");
    if negative then Replace(stripped, "-", "") else stripped
  }

  /** Where `ApplyPadding` puts the zeros: after every '-' of a negative number, in front otherwise. */
  function InsertZeros(formatted: string, zeros: string, negative: bool): string {
    if negative then Replace(formatted, "-", "-" + zeros) else zeros + formatted
  }

  /** A text whose only '-' is its first character. */
  predicate LeadingSignOnly(s: string) {
    |s| > 0 && s[0] == '-' && Avoids(s[1..], '-')
  }

  /** Replacing every '-' by "-" and the zeros, in a text whose only '-' leads it, puts the zeros right after the sign. */
  lemma InsertZerosAfterSign(formatted: string, zeros: string)
    ensures LeadingSignOnly(formatted) ==> InsertZeros(formatted, zeros, true) == "-" + zeros + formatted[1..]
  {
    if LeadingSignOnly(formatted) {
      var rest := formatted[1..];
      assert formatted == "-" + rest;
      calc {
        Replace("-" + rest, "-", "-" + zeros);
        { ReplaceLeadingOccurrence(rest, "-", "-" + zeros); }
        "-" + zeros + Replace(rest, "-", "-" + zeros);
        { ReplaceAbsent(rest, "-", "-" + zeros); }
        "-" + zeros + rest;
      }
    }
  }

  /**
    `FormatNumber`. With a delimiter that holds no digit and no '-', or
    without one, the text is never empty, starts with '-' exactly for a
    negative number, and reads back as the number.
   */
  function FormatNumber(f: FormatSettings, n: Int32): (r: string)
    requires Formattable(f, n)
    ensures (f.useDelimiter ==> PlainDelimiter(f.delimiter)) ==>
      |r| > 0 && (r[0] == '-' <==> n < 0) && ReadBack(f, r) == Some(n as int)
  {
    if !f.useDelimiter then FormatWithPadding(f.maxDigits, n)
    else
      DelimitedReadsBack(f, n);
      ApplyPadding(f, Replace(FormatN0(n), ",", f.delimiter), n)
  }

  /** The whole label text `UpdateDisplay` assigns. */
  function Render(f: FormatSettings, n: Int32): string
    requires Formattable(f, n)
  {
    f.prefix + FormatNumber(f, n) + f.suffix
  }

  /** The digits left once the delimiter and every '-' are taken out. */
  function StripMarks(delimiter: string, s: string): string
    requires |delimiter| > 0
  {
    Replace(Replace(s, delimiter, ""), "-", "")
  }

  /** Reads an optionally signed decimal digit string back into a number. */
  function ParseInt(s: string): Option<int> {
    if |s| > 0 && s[0] == '-' then
      if |s| > 1 && AllDigits(s[1..]) then Some(0 - (ValueOf(s[1..]) as int)) else None
    else if |s| > 0 && AllDigits(s) then Some(ValueOf(s))
    else None
  }

  /** Reads a formatted number back: drop the delimiter when one is used, then parse. */
  function ReadBack(f: FormatSettings, s: string): Option<int>
    requires f.useDelimiter ==> |f.delimiter| > 0
  {
    ParseInt(if f.useDelimiter then Replace(s, f.delimiter, "") else s)
  }

  /** A digit string parses as its value. */
  lemma ParseUnsigned(body: string)
    requires AllDigits(body) && |body| >= 1
    ensures ParseInt(body) == Some(ValueOf(body))
  {
    assert IsDigit(body[0]);
  }

  /** A '-' followed by a digit string parses as the negated value. */
  lemma ParseNegated(body: string)
    requires AllDigits(body) && |body| >= 1
    ensures ParseInt("-" + body) == Some(0 - (ValueOf(body) as int))
  {
    assert ("-" + body)[1..] == body;
  }

  /** A sign followed by the digits of the magnitude parses back to the number. */
  lemma ParseSigned(n: int, body: string)
    requires AllDigits(body) && |body| >= 1 && ValueOf(body) == Abs(n)
    ensures ParseInt(Sign(n) + body) == Some(n)
  {
    if n < 0 {
      ParseNegated(body);
    } else {
      assert Sign(n) + body == body;
      ParseUnsigned(body);
    }
  }

  lemma DigitsAvoidMarks(ds: string, c: char)
    requires AllDigits(ds) && !IsDigit(c)
    ensures Avoids(ds, c)
  {
  }

  lemma ZerosAvoid(k: nat, c: char)
    requires c != '0'
    ensures Avoids(Zeros(k), c)
  {
  }

  /** Without a delimiter and with a budget, a non-negative number is all digits, padded to the budget, and reads back as itself. */
  lemma PaddedNonNegative(f: FormatSettings, n: Int32)
    requires !f.useDelimiter && f.maxDigits > 0 && n >= 0
    ensures var r := FormatNumber(f, n);
      && AllDigits(r)
      && |r| == Max(f.maxDigits, |Digits(n)|)
      && ValueOf(r) == n
  {
    PadLeftDigits(Digits(n), f.maxDigits);
    ValueOfDigits(n);
  }

  /** Without a delimiter and with a budget, a negative number is '-' then its magnitude padded to one digit fewer (at least one). */
  lemma PaddedNegative(f: FormatSettings, n: Int32)
    requires !f.useDelimiter && f.maxDigits > 0 && n < 0 && n != INT32_MIN
    ensures var r := FormatNumber(f, n);
      && |r| >= 2 && r[0] == '-'
      && AllDigits(r[1..])
      && |r| - 1 == Max(Max(1, f.maxDigits - 1), |Digits(-n)|)
      && ValueOf(r[1..]) == -n
  {
    var r := FormatNumber(f, n);
    var body := PadLeft(Digits(-n), Max(1, f.maxDigits - 1));
    assert r == "-" + body;
    assert r[1..] == body;
    PadLeftDigits(Digits(-n), Max(1, f.maxDigits - 1));
    ValueOfDigits(-n);
  }

  /** "N0" with its ',' replaced by the delimiter is the digits grouped with the delimiter. */
  lemma DelimitedText(delimiter: string, n: int)
    ensures Replace(FormatN0(n), ",", delimiter) == Sign(n) + GroupFromRight(Digits(Abs(n)), delimiter)
  {
    var ds := Digits(Abs(n));
    ReplaceSkipsPrefix(Sign(n), Group(ds, ","), ",", delimiter);
    ReplaceSeparator(ds, ",", delimiter);
    GroupFromLeftIsFromRight(ds, delimiter);
  }

  /** With a delimiter and no budget the text is the sign and the digits grouped in threes from the right. */
  lemma DelimitedUnpadded(f: FormatSettings, n: Int32)
    requires f.useDelimiter && f.maxDigits <= 0
    ensures FormatNumber(f, n) == Sign(n) + GroupFromRight(Digits(Abs(n)), f.delimiter)
  {
    DelimitedText(f.delimiter, n);
  }

  /** Taking the delimiter out of a signed grouped number leaves the sign and the digits. */
  lemma RemoveDelimiter(d: string, prefix: string, ds: string)
    requires PlainDelimiter(d) && AllDigits(ds)
    requires forall i :: 0 <= i < |prefix| ==> prefix[i] == '-' || IsDigit(prefix[i])
    ensures Replace(prefix + Group(ds, d), d, "") == prefix + ds
  {
    ReplaceSkipsPrefix(prefix, Group(ds, d), d, "");
    ReplaceSeparator(ds, d, "");
    GroupWithoutSeparator(ds);
  }

  /** A sign followed by zeros holds only '-' and digits. */
  lemma SignedZerosAreMarks(n: int, k: nat)
    ensures var front := Sign(n) + Zeros(k);
      forall i :: 0 <= i < |front| ==> front[i] == '-' || IsDigit(front[i])
  {
  }

  /** For a negative number, what `ApplyPadding` counts in "-" + g is the digits left once the delimiter is gone. */
  lemma DigitsOnlyNegative(d: string, g: string, ds: string)
    requires |d| > 0
    requires Replace("-" + g, d, "") == "-" + ds
    requires Avoids(ds, '-')
    ensures DigitsOnly(d, "-" + g, true) == ds
  {
    calc {
      DigitsOnly(d, "-" + g, true);
      Replace("-" + ds, "-", "");
      { ReplaceLeadingOccurrence(ds, "-", ""); }
      "" + Replace(ds, "-", "");
      { ReplaceAbsent(ds, "-", ""); }
      ds;
    }
  }

  /** On the grouped text of a number, `ApplyPadding` counts exactly the magnitude's digits. */
  lemma DigitsCounted(d: string, n: int)
    requires PlainDelimiter(d)
    ensures DigitsOnly(d, Sign(n) + Group(Digits(Abs(n)), d), n < 0) == Digits(Abs(n))
  {
    var ds := Digits(Abs(n));
    var g := Group(ds, d);
    SignedZerosAreMarks(n, 0);
    assert Sign(n) + Zeros(0) == Sign(n);
    RemoveDelimiter(d, Sign(n), ds);
    if n < 0 {
      DigitsAvoidMarks(ds, '-');
      DigitsOnlyNegative(d, g, ds);
    } else {
      assert Sign(n) + g == g && Sign(n) + ds == ds;
    }
  }

  /** The zeros `ApplyPadding` inserts: none without a budget. */
  function PadZeros(f: FormatSettings, n: int): nat {
    if f.maxDigits > 0 then Max(0, DigitBudget(f.maxDigits, n) - |Digits(Abs(n))|) else 0
  }

  /**
    With a delimiter the text is the sign, then the missing zeros (not
    grouped), then the digits grouped with the delimiter.
   */
  lemma DelimitedLayout(f: FormatSettings, n: Int32)
    requires f.useDelimiter && PlainDelimiter(f.delimiter)
    ensures ApplyPadding(f, Replace(FormatN0(n), ",", f.delimiter), n)
      == Sign(n) + Zeros(PadZeros(f, n)) + Group(Digits(Abs(n)), f.delimiter)
  {
    var ds := Digits(Abs(n));
    var g := Group(ds, f.delimiter);
    var formatted := Replace(FormatN0(n), ",", f.delimiter);
    DelimitedText(f.delimiter, n);
    GroupFromLeftIsFromRight(ds, f.delimiter);
    assert formatted == Sign(n) + g;
    if f.maxDigits <= 0 {
      assert Zeros(0) == [];
    } else {
      DigitsCounted(f.delimiter, n);
      if n < 0 {
        DigitsAvoidMarks(ds, '-');
        GroupAvoids(ds, f.delimiter, '-');
        assert formatted[1..] == g;
      } else {
        assert formatted == g;
      }
    }
  }

  lemma GroupStartsWithFirstDigit(ds: string, sep: string)
    requires |ds| > 0
    ensures |Group(ds, sep)| > 0 && Group(ds, sep)[0] == ds[0]
  {
  }

  /** With the delimiter taken out, the delimited text is the sign and the zero-padded digits. */
  lemma DelimitedStripped(f: FormatSettings, n: Int32)
    requires f.useDelimiter && PlainDelimiter(f.delimiter)
    ensures var r := ApplyPadding(f, Replace(FormatN0(n), ",", f.delimiter), n);
      Replace(r, f.delimiter, "") == Sign(n) + (Zeros(PadZeros(f, n)) + Digits(Abs(n)))
  {
    var ds := Digits(Abs(n));
    var k := PadZeros(f, n);
    var front := Sign(n) + Zeros(k);
    var g := Group(ds, f.delimiter);
    calc {
      Replace(ApplyPadding(f, Replace(FormatN0(n), ",", f.delimiter), n), f.delimiter, "");
      { DelimitedLayout(f, n); }
      Replace(front + g, f.delimiter, "");
      { SignedZerosAreMarks(n, k);
        RemoveDelimiter(f.delimiter, front, ds); }
      front + ds;
      Sign(n) + (Zeros(k) + ds);
    }
  }

  /**
    The delimited path: the text starts with '-' exactly for a negative
    number, and with the delimiter taken out it parses back to the number.
   */
  lemma DelimitedReadsBack(f: FormatSettings, n: Int32)
    requires f.useDelimiter && Formattable(f, n)
    ensures PlainDelimiter(f.delimiter) ==>
      var r := ApplyPadding(f, Replace(FormatN0(n), ",", f.delimiter), n);
      && |r| > 0 && (r[0] == '-' <==> n < 0)
      && ParseInt(Replace(r, f.delimiter, "")) == Some(n as int)
  {
    if PlainDelimiter(f.delimiter) {
      var ds := Digits(Abs(n));
      var k := PadZeros(f, n);
      var r := ApplyPadding(f, Replace(FormatN0(n), ",", f.delimiter), n);
      DelimitedLayout(f, n);
      GroupStartsWithFirstDigit(ds, f.delimiter);
      assert r[0] == (if n < 0 then '-' else if k > 0 then '0' else ds[0]);
      DelimitedStripped(f, n);
      ValueOfDigits(Abs(n));
      ValueOfZeroPadded(k, ds);
      ParseSigned(n, Zeros(k) + ds);
    }
  }

  /** Dropping every '-' from a signed, zero-padded digit string leaves the padded digits. */
  lemma DropMinus(negative: bool, k: nat, ds: string)
    requires AllDigits(ds)
    ensures Replace((if negative then "-" else "") + Zeros(k) + ds, "-", "") == Zeros(k) + ds
  {
    var body := Zeros(k) + ds;
    ZerosAvoid(k, '-');
    assert Avoids(body, '-');
    if negative {
      assert "-" + Zeros(k) + ds == "-" + body;
      ReplaceLeadingOccurrence(body, "-", "");
    } else {
      assert "" + Zeros(k) + ds == body;
    }
    ReplaceAbsent(body, "-", "");
  }

  /**
    With a delimiter and a budget, taking out the delimiter and the '-'
    leaves the magnitude's digits zero-padded to the budget.
   */
  lemma DelimitedPadded(f: FormatSettings, n: Int32)
    requires f.useDelimiter && f.maxDigits > 0 && PlainDelimiter(f.delimiter)
    ensures StripMarks(f.delimiter, FormatNumber(f, n))
      == PadLeft(Digits(Abs(n)), DigitBudget(f.maxDigits, n))
  {
    var ds := Digits(Abs(n));
    var k := PadZeros(f, n);
    var r := FormatNumber(f, n);
    DelimitedStripped(f, n);
    calc {
      StripMarks(f.delimiter, r);
      Replace(Sign(n) + (Zeros(k) + ds), "-", "");
      { assert Sign(n) + (Zeros(k) + ds) == (if n < 0 then "-" else "") + Zeros(k) + ds;
        DropMinus(n < 0, k, ds); }
      Zeros(k) + ds;
      PadLeft(ds, DigitBudget(f.maxDigits, n));
    }
  }

  /**
    Under a budget, a clamped value is printed in a fixed width without a
    delimiter: exactly `MaxDigits` characters when non-negative, a '-' and
    `max(1, MaxDigits - 1)` digits when negative.
   */
  lemma ClampedFixedWidth(f: FormatSettings, v: Int32)
    requires !f.useDelimiter && 1 <= f.maxDigits <= 9
    ensures var c := ClampToMaxDigits(f.maxDigits, v);
      Formattable(f, c)
      && |FormatNumber(f, c)| == (if c < 0 then 1 else 0) + DigitBudget(f.maxDigits, c)
  {
    var c := ClampToMaxDigits(f.maxDigits, v);
    ClampRespectsDigitBudget(f.maxDigits, v);
    Pow10AtMostNine(Max(1, f.maxDigits - 1));
    assert c != INT32_MIN;
    PadLeftDigits(Digits(Abs(c)), DigitBudget(f.maxDigits, c));
  }
}
