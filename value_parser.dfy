/**
 * `SatUSDMonitor.parse_liquidity_value`: text such as "$1,234.5", "1.5K" or
 * "20.40 satUSD-v1" to an optional number.
 */
module ValueParser {
  import opened Wrappers
  import opened Text
  import opened Decimal

  /** The factor a trailing suffix letter stands for; 1 for any other character. */
  function Multiplier(c: char): nat {
    if c == 'K' || c == 'k' then 1000
    else if c == 'M' || c == 'm' then 1000000
    else if c == 'B' || c == 'b' then 1000000000
    else 1
  }

  /** Splits off one trailing K/M/B (either case): the text left and the multiplier. */
  function SplitSuffix(s: string): (r: (string, nat))
    ensures s != [] && Multiplier(s[|s| - 1]) != 1 ==> r.0 + [s[|s| - 1]] == s && r.1 == Multiplier(s[|s| - 1])
    ensures !(s != [] && Multiplier(s[|s| - 1]) != 1) ==> r == (s, 1)
    ensures r.1 == 1 || r.1 == 1000 || r.1 == 1000000 || r.1 == 1000000000
  {
    if s != [] && Multiplier(s[|s| - 1]) != 1 then (s[..|s| - 1], Multiplier(s[|s| - 1]))
    else (s, 1)
  }

  /** `text.replace('$', '').replace(',', '').strip()` */
  function Clean(text: string): (t: string)
    ensures '$' !in t && ',' !in t
    ensures t == [] || (!IsSpace(t[0]) && !IsSpace(t[|t| - 1]))
    ensures forall x {:trigger multiset(t)[x]} :: x != '$' && x != ',' && !IsSpace(x) ==> multiset(t)[x] == multiset(text)[x]
  {
    var kept := RemoveAll(RemoveAll(text, '$'), ',');
    assert forall x :: x != '$' && x != ',' && !IsSpace(x) ==> multiset(Strip(kept))[x] == multiset(text)[x] by {
      forall x | x != '$' && x != ',' && !IsSpace(x)
        ensures multiset(Strip(kept))[x] == multiset(text)[x]
      {
        RemoveAllKeepsOthers(text, '$', x);
        RemoveAllKeepsOthers(RemoveAll(text, '$'), ',', x);
        StripKeeps(kept, x);
      }
    }
    Strip(kept)
  }

  /** The first maximal run of `[\d.]`: what `re.search(r'[\d.]+', s)` matches. */
  function FirstRun(s: string): (r: Option<string>)
    ensures r.None? <==> forall k :: 0 <= k < |s| ==> !IsRunChar(s[k])
    ensures r.Some? ==> var p := FirstRunStart(s, 0);
                        p < |s| && r.value == s[p..RunEnd(s, p)] && |r.value| > 0 && AllRunChars(r.value)
  {
    var p := FirstRunStart(s, 0);
    if p == |s| then None else Some(s[p..RunEnd(s, p)])
  }

  /**
   * `parse_liquidity_value(text)`: `None` for an absent or empty text; otherwise
   * the cleaned text loses one trailing suffix letter, the first run of digits
   * and dots is read with `float()`, and the result is scaled by the suffix.
   */
  function ParseLiquidityValue(text: Option<string>): (r: Option<real>)
    ensures text.None? || text == Some("") ==> r.None?
    ensures r.Some? ==> r.value >= 0.0
  {
    if text.None? || text.value == [] then None
    else
      var (body, multiplier) := SplitSuffix(Clean(text.value));
      match FirstRun(body)
      case None => None
      case Some(run) =>
        match DecimalValue(run)
        case None => None
        case Some(v) => Some(Scale(v, multiplier))
  }

  /** `float(...) * multiplier` */
  function Scale(v: real, multiplier: nat): (r: real)
    requires v >= 0.0
    ensures r >= 0.0
    ensures multiplier == 1 ==> r == v
    ensures multiplier >= 1 ==> r >= v
    ensures r == 0.0 <==> v == 0.0 || multiplier == 0
  {
    v * multiplier as real
  }

  /** The parse, step by step, for a text whose first run reads as a number. */
  lemma ParseSteps(text: string, body: string, multiplier: nat, run: string, v: real)
    requires text != [] && SplitSuffix(Clean(text)) == (body, multiplier)
    requires FirstRun(body) == Some(run) && DecimalValue(run) == Some(v)
    ensures ParseLiquidityValue(Some(text)) == Some(Scale(v, multiplier))
  {
  }

  /** The parse, step by step, for a text with no run or a run `float()` rejects. */
  lemma ParseStepsRejected(text: string, body: string, multiplier: nat)
    requires text != [] && SplitSuffix(Clean(text)) == (body, multiplier)
    requires FirstRun(body).None? || DecimalValue(FirstRun(body).value).None?
    ensures ParseLiquidityValue(Some(text)) == None
  {
  }

  /** A text that is a whole run of digits and dots is its own first run. */
  lemma FirstRunWhole(s: string)
    requires |s| > 0 && AllRunChars(s)
    ensures FirstRun(s) == Some(s)
  {
    assert FirstRunStart(s, 0) == 0;
    RunEndUnique(s, 0, |s|);
    assert s[0..|s|] == s;
  }

  /** Cleaning leaves a text without `$`, `,` and surrounding white space as it is. */
  lemma CleanUnchanged(t: string)
    requires '$' !in t && ',' !in t
    requires t == [] || (!IsSpace(t[0]) && !IsSpace(t[|t| - 1]))
    ensures Clean(t) == t
  {
    RemoveAllAbsent(t, '$');
    RemoveAllAbsent(t, ',');
    StripUnpadded(t);
  }

  /**
   * On a text without `$` and `,` cleaning only strips: together with
   * `CleanDropsDollar` and `CleanDropsComma` this fixes `Clean` on every text.
   */
  lemma CleanIsStrip(t: string)
    requires '$' !in t && ',' !in t
    ensures Clean(t) == Strip(t)
  {
    RemoveAllAbsent(t, '$');
    RemoveAllAbsent(t, ',');
  }

  /** A leading `$` is dropped by cleaning. */
  lemma CleanDollar(t: string)
    ensures Clean("$" + t) == Clean(t)
  {
    RemoveAllAppend("$", t, '$');
    assert RemoveAll("$", '$') == [];
    assert [] + RemoveAll(t, '$') == RemoveAll(t, '$');
  }

  /** What cleaning and suffix splitting leave of a formatted number followed by at most one suffix letter. */
  lemma SplitFormatted(f: string, suffix: string)
    requires |f| > 0 && AllRunChars(f)
    requires suffix == [] || (|suffix| == 1 && Multiplier(suffix[0]) != 1)
    ensures SplitSuffix(Clean(f + suffix)) == (f, if suffix == [] then 1 else Multiplier(suffix[0]))
  {
    if suffix == [] {
      assert f + suffix == f;
      CleanRun(f, []);
    } else {
      var c := suffix[0];
      assert suffix == [c];
      CleanRun(f, suffix);
      assert (f + suffix)[..|f + suffix| - 1] == f;
    }
  }

  /** A suffix letter is neither white space, `$` nor `,`. */
  lemma SuffixLetterKept(c: char)
    requires Multiplier(c) != 1
    ensures !IsSpace(c) && c != '$' && c != ','
  {
  }

  /** Cleaning leaves a run of digits and dots, with or without one suffix letter, as it is. */
  lemma CleanRun(f: string, suffix: string)
    requires |f| > 0 && AllRunChars(f)
    requires suffix == [] || (|suffix| == 1 && Multiplier(suffix[0]) != 1)
    ensures Clean(f + suffix) == f + suffix
  {
    var t := f + suffix;
    forall i | 0 <= i < |t|
      ensures t[i] != '$' && t[i] != ','
    {
      if i < |f| {
        RunCharNotSpace(f[i]);
      } else {
        SuffixLetterKept(suffix[0]);
      }
    }
    RunCharNotSpace(f[0]);
    if suffix == [] {
      RunCharNotSpace(f[|f| - 1]);
    } else {
      SuffixLetterKept(suffix[0]);
    }
    CleanUnchanged(t);
  }

  /**
   * Round trip: a number written as `FormatFixed` prints it, optionally behind a
   * `$` and followed by one suffix letter, parses back to that number times the
   * suffix's multiplier.
   */
  lemma ParseFormatted(prefix: string, m: nat, k: nat, suffix: string)
    requires prefix == "" || prefix == "$"
    requires suffix == [] || (|suffix| == 1 && Multiplier(suffix[0]) != 1)
    ensures var multiplier := if suffix == [] then 1 else Multiplier(suffix[0]);
            ParseLiquidityValue(Some(prefix + FormatFixed(m, k) + suffix))
              == Some(Scale(Ratio(m, Pow10(k)), multiplier))
  {
    var f := FormatFixed(m, k);
    FormatFixedShape(m, k);
    FormatFixedRoundTrip(m, k);
    ParseRun(prefix, f, suffix, Ratio(m, Pow10(k)));
  }

  /** A run that `float()` reads as `v`, optionally behind `$` and followed by one suffix letter, parses to `v` times the multiplier. */
  lemma ParseRun(prefix: string, f: string, suffix: string, v: real)
    requires prefix == "" || prefix == "$"
    requires |f| > 0 && AllRunChars(f) && DecimalValue(f) == Some(v)
    requires suffix == [] || (|suffix| == 1 && Multiplier(suffix[0]) != 1)
    ensures ParseLiquidityValue(Some(prefix + f + suffix)) == Some(Scale(v, if suffix == [] then 1 else Multiplier(suffix[0])))
  {
    var text := prefix + f + suffix;
    var multiplier := if suffix == [] then 1 else Multiplier(suffix[0]);
    assert SplitSuffix(Clean(text)) == (f, multiplier) by {
      if prefix == "$" {
        assert text == "$" + (f + suffix);
        CleanDollar(f + suffix);
      } else {
        assert text == f + suffix;
      }
      SplitFormatted(f, suffix);
    }
    FirstRunWhole(f);
    ParseSteps(text, f, multiplier, f, v);
  }

  /** Like `ParseFormatted`, for a number spelled as integer digits, a dot and fraction digits. */
  lemma ParsePointed(prefix: string, ip: string, fp: string, suffix: string)
    requires prefix == "" || prefix == "$"
    requires AllDigits(ip) && AllDigits(fp) && |ip| + |fp| > 0
    requires suffix == [] || (|suffix| == 1 && Multiplier(suffix[0]) != 1)
    ensures AllDigits(ip + fp)
    ensures var multiplier := if suffix == [] then 1 else Multiplier(suffix[0]);
            ParseLiquidityValue(Some(prefix + (ip + "." + fp) + suffix))
              == Some(Scale(Ratio(DigitsValue(ip + fp), Pow10(|fp|)), multiplier))
  {
    PointedValue(ip, fp);
    ParseRun(prefix, ip + "." + fp, suffix, Ratio(DigitsValue(ip + fp), Pow10(|fp|)));
  }

  /** Reads off a concrete example from `ParsePointed` once its digits are evaluated. */
  lemma PointedExample(text: string, prefix: string, ip: string, fp: string, suffix: string, n: nat, expected: real)
    requires prefix == "" || prefix == "$"
    requires AllDigits(ip) && AllDigits(fp) && |ip| + |fp| > 0 && AllDigits(ip + fp)
    requires suffix == [] || (|suffix| == 1 && Multiplier(suffix[0]) != 1)
    requires text == prefix + (ip + "." + fp) + suffix
    requires DigitsValue(ip + fp) == n
    requires Scale(Ratio(n, Pow10(|fp|)), if suffix == [] then 1 else Multiplier(suffix[0])) == expected
    ensures ParseLiquidityValue(Some(text)) == Some(expected)
  {
    ParsePointed(prefix, ip, fp, suffix);
  }

  /**
   * A run of digits and dots followed by other text that holds no `$`, no `,`
   * and no trailing white space: the run is the first run, and its value is
   * scaled by the multiplier of the text's last character, which is 1 unless
   * that character is a suffix letter. A run `float()` rejects gives `None`.
   */
  lemma ParseLeading(text: string, f: string, rest: string)
    requires |f| > 0 && AllRunChars(f)
    requires text == f + rest
    requires rest != [] && !IsRunChar(rest[0]) && '$' !in rest && ',' !in rest && !IsSpace(rest[|rest| - 1])
    ensures ParseLiquidityValue(Some(text))
              == match DecimalValue(f)
                 case None => None
                 case Some(v) => Some(Scale(v, Multiplier(rest[|rest| - 1])))
  {
    var m := Multiplier(rest[|rest| - 1]);
    var body := SplitLeading(text, f, rest);
    FirstRunPrefix(body, f);
    match DecimalValue(f)
    case None =>
      ParseStepsRejected(text, body, m);
    case Some(v) =>
      ParseSteps(text, body, m, f, v);
  }

  /** Cleaning and suffix splitting of a run followed by other text leave the run in front. */
  lemma SplitLeading(text: string, f: string, rest: string) returns (body: string)
    requires |f| > 0 && AllRunChars(f)
    requires text == f + rest
    requires rest != [] && !IsRunChar(rest[0]) && '$' !in rest && ',' !in rest && !IsSpace(rest[|rest| - 1])
    ensures SplitSuffix(Clean(text)) == (body, Multiplier(rest[|rest| - 1]))
    ensures |f| <= |body| && body[..|f|] == f && (|body| == |f| || !IsRunChar(body[|f|]))
  {
    forall i | 0 <= i < |f| ensures f[i] != '$' && f[i] != ',' {
      RunCharNotSpace(f[i]);
    }
    RunCharNotSpace(f[0]);
    CleanUnchanged(text);
    if Multiplier(rest[|rest| - 1]) != 1 {
      body := f + rest[..|rest| - 1];
      assert text[..|text| - 1] == body;
    } else {
      body := text;
    }
    assert body[..|f|] == f;
  }

  /** A run of digits and dots followed by no such character is the first run. */
  lemma FirstRunPrefix(body: string, f: string)
    requires |f| > 0 && AllRunChars(f)
    requires |f| <= |body| && body[..|f|] == f && (|body| == |f| || !IsRunChar(body[|f|]))
    ensures FirstRun(body) == Some(f)
  {
    assert IsRunChar(body[0]);
    assert FirstRunStart(body, 0) == 0;
    RunEndUnique(body, 0, |f|);
    assert body[0..|f|] == f;
  }

  /** Reads off a concrete example from `ParseLeading` for a run spelled as integer digits, a dot and fraction digits. */
  lemma LeadingExample(text: string, ip: string, fp: string, rest: string, n: nat, expected: real)
    requires AllDigits(ip) && AllDigits(fp) && |ip| + |fp| > 0 && DigitsValue(ip + fp) == n
    requires text == (ip + "." + fp) + rest
    requires rest != [] && !IsRunChar(rest[0]) && '$' !in rest && ',' !in rest && !IsSpace(rest[|rest| - 1])
    requires Scale(Ratio(n, Pow10(|fp|)), Multiplier(rest[|rest| - 1])) == expected
    ensures ParseLiquidityValue(Some(text)) == Some(expected)
  {
    PointedValue(ip, fp);
    ParseLeading(text, ip + "." + fp, rest);
  }

  /** Documented example: "$20.39" is 20.39. */
  lemma DocExampleDollar()
    ensures ParseLiquidityValue(Some("$20.39")) == Some(20.39)
  {
    assert "20" + "39" == "2039";
    Digits2039();
    assert Pow10(2) == 100;
    PointedExample("$20.39", "$", "20", "39", "", 2039, 20.39);
  }

  /** A text with a thousands separator parses as the same text without it. */
  lemma CommaExample(text: string, a: string, b: string, t: string, v: real)
    requires text == a + "," + b && a + b == t
    requires ParseLiquidityValue(Some(t)) == Some(v)
    ensures ParseLiquidityValue(Some(text)) == Some(v)
  {
    CommaIgnored(a, b);
  }

  lemma DollarWithoutSeparator()
    ensures ParseLiquidityValue(Some("$1234.56")) == Some(1234.56)
  {
    assert DigitsValue("1234" + "56") == 123456 by {
      assert "1234" + "56" == "123456";
      Digits123456();
    }
    assert Pow10(2) == 100;
    PointedExample("$1234.56", "$", "1234", "56", "", 123456, 1234.56);
  }

  /** The module's own example: "$1,234.56" is 1234.56, the thousands separator ignored. */
  lemma ThousandsSeparatorIgnored()
    ensures ParseLiquidityValue(Some("$1,234.56")) == Some(1234.56)
  {
    assert "$1,234.56" == "$1" + "," + "234.56" && "$1" + "234.56" == "$1234.56";
    DollarWithoutSeparator();
    CommaExample("$1,234.56", "$1", "234.56", "$1234.56", 1234.56);
  }

  /** A `$` amount with no integer part is read as its fraction digits alone. */
  lemma FractionOnly(fp: string)
    requires AllDigits(fp) && |fp| > 0
    ensures ParseLiquidityValue(Some("$" + "." + fp)) == Some(Ratio(DigitsValue(fp), Pow10(|fp|)))
  {
    assert "$" + ("" + "." + fp) + "" == "$" + "." + fp && "" + fp == fp;
    ParsePointed("$", "", fp, "");
  }

  /** "$.5" is 0.5. */
  lemma NoIntegerPart()
    ensures ParseLiquidityValue(Some("$.5")) == Some(0.5)
  {
    assert "$.5" == "$" + "." + "5";
    assert DigitsValue("5") == 5 by {
      assert "5"[..0] == "";
    }
    assert Pow10(1) == 10;
    FractionOnly("5");
  }

  /** Documented example: "1.5K" is 1500. */
  lemma DocExampleThousands()
    ensures ParseLiquidityValue(Some("1.5K")) == Some(1500.0)
  {
    TwoDigits("1" + "5");
    assert Pow10(1) == 10;
    PointedExample("1.5K", "", "1", "5", "K", 15, 1500.0);
  }

  /** Documented example: "2.3M" is 2300000. */
  lemma DocExampleMillions()
    ensures ParseLiquidityValue(Some("2.3M")) == Some(2300000.0)
  {
    TwoDigits("2" + "3");
    assert Pow10(1) == 10;
    PointedExample("2.3M", "", "2", "3", "M", 23, 2300000.0);
  }

  /** Documented example: "20.40 satUSD-v1" is 20.40; the trailing "1" is no suffix and the first run wins. */
  lemma DocExampleWithUnit()
    ensures ParseLiquidityValue(Some("20.40 satUSD-v1")) == Some(20.40)
  {
    assert "20" + "40" == "2040";
    Digits2040();
    assert Pow10(2) == 100;
    assert Multiplier('1') == 1 && Scale(Ratio(2040, 100), 1) == 20.40;
    LeadingExample("20.40 satUSD-v1", "20", "40", " satUSD-v1", 2040, 20.40);
  }

  /** Only the last character can be a suffix: in "1.5Kx" the K is ignored and the result is 1.5. */
  lemma SuffixOnlyLast()
    ensures ParseLiquidityValue(Some("1.5Kx")) == Some(1.5)
  {
    TwoDigits("1" + "5");
    assert Pow10(1) == 10;
    assert Multiplier('x') == 1 && Scale(Ratio(15, 10), 1) == 1.5;
    LeadingExample("1.5Kx", "1", "5", "Kx", 15, 1.5);
  }

  /** A unit name whose last letter is a suffix letter scales the value: "1.2 bnb" is read as 1.2 billion. */
  lemma UnitEndingInSuffixLetter()
    ensures ParseLiquidityValue(Some("1.2 bnb")) == Some(1200000000.0)
  {
    TwoDigits("1" + "2");
    assert Pow10(1) == 10;
    assert Multiplier('b') == 1000000000 && Scale(Ratio(12, 10), 1000000000) == 1200000000.0;
    LeadingExample("1.2 bnb", "1", "2", " bnb", 12, 1200000000.0);
  }

  /** A text in which no character is a digit or a dot gives `None`. */
  lemma {:induction false} NoRunGivesNone(text: string)
    requires forall k :: 0 <= k < |text| ==> !IsRunChar(text[k])
    ensures ParseLiquidityValue(Some(text)) == None
  {
    if text != [] {
      var (body, multiplier) := SplitSuffix(Clean(text));
      var c := Clean(text);
      assert forall x :: x in c ==> x in text;
      assert forall k :: 0 <= k < |body| ==> body[k] in c;
      assert FirstRun(body).None?;
      ParseStepsRejected(text, body, multiplier);
    }
  }

  /** Text without digits gives `None`. */
  lemma RejectedNoDigits()
    ensures ParseLiquidityValue(Some("abc")) == None
  {
    var t := "abc";
    assert forall k :: 0 <= k < |t| ==> !IsRunChar(t[k]);
    NoRunGivesNone(t);
  }

  /** A text that is one run of digits and dots is read with `float()` as it stands. */
  lemma ParseWholeRun(t: string)
    requires |t| > 0 && AllRunChars(t)
    ensures ParseLiquidityValue(Some(t)) == match DecimalValue(t)
                                            case None => None
                                            case Some(v) => Some(Scale(v, 1))
  {
    assert SplitSuffix(Clean(t)) == (t, 1) by {
      SplitFormatted(t, []);
      assert t + [] == t;
    }
    FirstRunWhole(t);
  }

  /** A run with two dots, which `float()` refuses, gives `None` rather than an exception. */
  lemma TwoDotsGivesNone(a: string, b: string, c: string)
    requires AllRunChars(a) && AllRunChars(b) && AllRunChars(c)
    ensures ParseLiquidityValue(Some(a + "." + b + "." + c)) == None
  {
    TwoDotsRejected(a, b, c);
    ParseWholeRun(a + "." + b + "." + c);
  }

  lemma RejectedTwoDots()
    ensures ParseLiquidityValue(Some("1.2.3")) == None
  {
    assert "1" + "." + "2" + "." + "3" == "1.2.3";
    TwoDotsGivesNone("1", "2", "3");
  }

  /** A `,` anywhere in the text is dropped by cleaning. */
  lemma CleanDropsComma(a: string, b: string)
    ensures Clean(a + "," + b) == Clean(a + b)
  {
    RemoveAllKeep(a, b, ',', '$');
    RemoveAllAppend(a, b, '$');
    RemoveAllSkip(RemoveAll(a, '$'), RemoveAll(b, '$'), ',');
  }

  /** A `$` anywhere in the text is dropped by cleaning. */
  lemma CleanDropsDollar(a: string, b: string)
    ensures Clean(a + "$" + b) == Clean(a + b)
  {
    RemoveAllSkip(a, b, '$');
  }

  /** The parse looks at the text only through `Clean`. */
  lemma SameCleanSameParse(t1: string, t2: string)
    requires Clean(t1) == Clean(t2)
    ensures ParseLiquidityValue(Some(t1)) == ParseLiquidityValue(Some(t2))
  {
    assert Clean([]) == [] by {
      assert RemoveAll(RemoveAll([], '$'), ',') == [];
    }
    assert FirstRun([]).None?;
  }

  /** A thousands separator anywhere makes no difference to the parse. */
  lemma CommaIgnored(a: string, b: string)
    ensures ParseLiquidityValue(Some(a + "," + b)) == ParseLiquidityValue(Some(a + b))
  {
    CleanDropsComma(a, b);
    SameCleanSameParse(a + "," + b, a + b);
  }

  /** A `$` anywhere makes no difference to the parse. */
  lemma DollarIgnored(a: string, b: string)
    ensures ParseLiquidityValue(Some(a + "$" + b)) == ParseLiquidityValue(Some(a + b))
  {
    CleanDropsDollar(a, b);
    SameCleanSameParse(a + "$" + b, a + b);
  }

  /** A run that is a dot alone gives `None`. */
  lemma RejectedLoneDot()
    ensures ParseLiquidityValue(Some("$.")) == None
  {
    assert "$." == [] + "$" + "." && [] + "." == ".";
    DollarIgnored([], ".");
    LoneDotRejected();
    ParseWholeRun(".");
  }
}
