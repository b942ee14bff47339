/** Page file names: the `rpde-<page>.json` the walker writes (walkRpde.js) and
    the `/rpde-(\d+)\.json$/` pattern the loader accepts (uploadToDb.js). */
module FileNames {
  import opened JsValues

  predicate IsDigit(c: char)
  {
    '0' <= c <= '9'
  }

  predicate AllDigits(d: string)
  {
    forall i :: 0 <= i < |d| ==> IsDigit(d[i])
  }

  function DigitChar(n: nat): (c: char)
    requires n < 10
    ensures IsDigit(c) && c as int - '0' as int == n
  {
    ('0' as int + n) as char
  }

  function DigitValue(c: char): (n: nat)
    requires IsDigit(c)
    ensures n < 10 && DigitChar(n) == c
  {
    c as int - '0' as int
  }

  /** `Number(d)` for a string of decimal digits. */
  function DecimalValue(d: string): nat
    requires AllDigits(d)
  {
    if |d| == 0 then 0 else 10 * DecimalValue(d[..|d| - 1]) + DigitValue(d[|d| - 1])
  }

  /** A natural number as a template literal `${k}` prints it: shortest decimal,
      no leading zero, and read back by `Number` as `k`. */
  function Decimal(k: nat): (d: string)
    ensures |d| > 0 && AllDigits(d)
    ensures k > 0 ==> d[0] != '0'
    ensures |d| > 1 ==> d[0] != '0'
    ensures DecimalValue(d) == k
  {
    if k < 10 then [DigitChar(k)]
    else
      var d := Decimal(k / 10) + [DigitChar(k % 10)];
      assert d[..|d| - 1] == Decimal(k / 10);
      d
  }

  /** Leading zeros do not change the value `Number` reads. */
  lemma {:induction false} LeadingZeroIgnored(d: string)
    requires AllDigits(d)
    ensures AllDigits("0" + d) && DecimalValue("0" + d) == DecimalValue(d)
  {
    var z := "0" + d;
    if |d| > 0 {
      assert z[..|z| - 1] == "0" + d[..|d| - 1];
      LeadingZeroIgnored(d[..|d| - 1]);
    }
  }

  predicate EndsWith(s: string, suffix: string)
  {
    |suffix| <= |s| && s[|s| - |suffix|..] == suffix
  }

  /** The digits at the end of `s`, up to the first non-digit from the right. */
  function TrailingDigits(s: string): string
  {
    if |s| > 0 && IsDigit(s[|s| - 1]) then TrailingDigits(s[..|s| - 1]) + [s[|s| - 1]] else []
  }

  /** `TrailingDigits` is the longest all-digit suffix. */
  lemma {:induction false} TrailingDigitsSpec(s: string)
    ensures var d := TrailingDigits(s);
            |d| <= |s| && s[|s| - |d|..] == d && AllDigits(d)
            && (|d| < |s| ==> !IsDigit(s[|s| - |d| - 1]))
  {
    if |s| > 0 && IsDigit(s[|s| - 1]) {
      var p := s[..|s| - 1];
      TrailingDigitsSpec(p);
      var d := TrailingDigits(s);
      assert d == TrailingDigits(p) + [s[|s| - 1]];
      assert s[|s| - |d|..] == p[|p| - |TrailingDigits(p)|..] + [s[|s| - 1]];
    }
  }

  /** `/rpde-(\d+)\.json$/` matches `name` with `d` as its captured group. The
      pattern is anchored only at the end. */
  predicate MatchesWith(name: string, d: string)
  {
    |d| > 0 && AllDigits(d) && EndsWith(name, "rpde-" + d + ".json")
  }

  /** `fileNameRegex.exec(name)` followed by `Number(regexResult[1])`: the page
      number of an accepted name, None for a name the loader skips. */
  function ParseFileName(name: string): Option<nat>
  {
    if EndsWith(name, ".json") then ParseStem(name[..|name| - 5]) else None
  }

  /** The rest of the match once `.json` is stripped: a non-empty digit run
      at the end, right after `rpde-`. */
  function ParseStem(stem: string): Option<nat>
  {
    var d := TrailingDigits(stem);
    TrailingDigitsSpec(stem);
    if |d| == 0 || !EndsWith(stem[..|stem| - |d|], "rpde-") then None
    else Some(DecimalValue(d))
  }

  /** After a non-digit, the trailing digit run is exactly what follows it. */
  lemma {:induction false} TrailingDigitsAfterSeparator(y: string, d: string)
    requires AllDigits(d) && |y| > 0 && !IsDigit(y[|y| - 1])
    ensures TrailingDigits(y + d) == d
  {
    if |d| > 0 {
      var s := y + d;
      assert s[..|s| - 1] == y + d[..|d| - 1];
      TrailingDigitsAfterSeparator(y, d[..|d| - 1]);
      assert d == d[..|d| - 1] + [d[|d| - 1]];
    } else {
      assert y + d == y;
    }
  }

  /** Every name the pattern matches is accepted, with the value of the
      captured digits as its page. */
  lemma {:induction false} MatchIsAccepted(name: string, d: string)
    requires MatchesWith(name, d)
    ensures ParseFileName(name) == Some(DecimalValue(d))
  {
    var suffix := "rpde-" + d + ".json";
    var p := name[..|name| - |suffix|];
    var y := p + "rpde-";
    assert name == (y + d) + ".json";
    JsonSuffixStripped(y + d, name);
    StemAccepted(y, d);
  }

  /** A name made of a stem and `.json` ends with `.json`, and that stem is
      what is left when it is stripped. */
  lemma JsonSuffixStripped(stem: string, name: string)
    requires name == stem + ".json"
    ensures EndsWith(name, ".json") && name[..|name| - 5] == stem
  {
    assert name[|name| - 5..] == ".json";
  }

  /** A stem that ends in `rpde-` and a digit run yields the value of the run. */
  lemma {:induction false} StemAccepted(y: string, d: string)
    requires |d| > 0 && AllDigits(d) && EndsWith(y, "rpde-")
    ensures ParseStem(y + d) == Some(DecimalValue(d))
  {
    var stem := y + d;
    assert y[|y| - 1] == "rpde-"[4];
    TrailingDigitsAfterSeparator(y, d);
    assert stem[..|stem| - |d|] == y;
  }

  /** An accepted stem is some prefix, `rpde-` and the digit run whose value
      is returned. */
  lemma {:induction false} AcceptedStemShape(stem: string)
    requires ParseStem(stem).Some?
    ensures var d := TrailingDigits(stem);
            && |d| > 0 && AllDigits(d) && |stem| >= |d| + 5
            && stem == stem[..|stem| - |d| - 5] + "rpde-" + d
            && ParseStem(stem).value == DecimalValue(d)
  {
    var d := TrailingDigits(stem);
    TrailingDigitsSpec(stem);
    var pre := stem[..|stem| - |d|];
    assert stem == pre + d;
    assert pre == pre[..|pre| - 5] + "rpde-";
    assert pre[..|pre| - 5] == stem[..|stem| - |d| - 5];
  }

  /** Every accepted name matches the pattern, and its page is the value of
      the captured digits. */
  lemma {:induction false} AcceptedMatches(name: string)
    requires ParseFileName(name).Some?
    ensures exists d :: MatchesWith(name, d) && ParseFileName(name).value == DecimalValue(d)
  {
    var stem := name[..|name| - 5];
    assert name == stem + ".json";
    AcceptedStemShape(stem);
    var d := TrailingDigits(stem);
    var p := stem[..|stem| - |d| - 5];
    var suffix := "rpde-" + d + ".json";
    assert name == p + suffix;
    assert name[|name| - |suffix|..] == suffix;
    assert MatchesWith(name, d);
  }

  /** The parser accepts exactly the names the pattern matches. */
  lemma ParseFileNameMatchesPattern(name: string)
    ensures ParseFileName(name).Some? <==> exists d :: MatchesWith(name, d)
    ensures forall d :: MatchesWith(name, d) ==> ParseFileName(name) == Some(DecimalValue(d))
  {
    forall d | MatchesWith(name, d)
      ensures ParseFileName(name) == Some(DecimalValue(d))
    {
      MatchIsAccepted(name, d);
    }
    if ParseFileName(name).Some? {
      AcceptedMatches(name);
    }
  }

  /** `rpde-${page}.json`, the name the walker gives the page it fetched at
      index `page`. */
  function FileName(page: nat): string
  {
    "rpde-" + Decimal(page) + ".json"
  }

  /** The loader reads back, from the name the walker gives page `page`,
      exactly `page`. */
  lemma FileNameRoundTrip(page: nat)
    ensures ParseFileName(FileName(page)) == Some(page)
  {
    var d := Decimal(page);
    assert FileName(page) == [] + ("rpde-" + d + ".json");
    assert MatchesWith(FileName(page), d);
    MatchIsAccepted(FileName(page), d);
  }

  /** Distinct pages get distinct file names. */
  lemma FileNameInjective(i: nat, j: nat)
    requires FileName(i) == FileName(j)
    ensures i == j
  {
    FileNameRoundTrip(i);
    FileNameRoundTrip(j);
  }

  /** The pattern is not anchored at the start: a prefix before `rpde-` is allowed. */
  lemma PrefixedNameAccepted()
    ensures ParseFileName("backup-rpde-3.json") == Some(3)
  {
    var name := "backup-rpde-3.json";
    assert name == "backup-" + ("rpde-" + "3" + ".json");
    assert MatchesWith(name, "3");
    MatchIsAccepted(name, "3");
  }

  /** `Number("007")` is 7. */
  lemma {:induction false} ZeroPaddedValue()
    ensures AllDigits("007") && DecimalValue("007") == 7
  {
    assert DecimalValue("7") == 7 by {
      assert "7"[..0] == [];
    }
    LeadingZeroIgnored("7");
    assert "0" + "7" == "07";
    LeadingZeroIgnored("07");
    assert "0" + "07" == "007";
  }

  /** Leading zeros in a file name's page number are ignored. */
  lemma LeadingZerosInNameIgnored()
    ensures ParseFileName("rpde-007.json") == Some(7)
  {
    var name := "rpde-007.json";
    assert name == [] + ("rpde-" + "007" + ".json");
    assert MatchesWith(name, "007");
    MatchIsAccepted(name, "007");
    ZeroPaddedValue();
  }

  /** A name without digits between `rpde-` and `.json` is skipped. */
  lemma NameWithoutDigitsSkipped()
    ensures ParseFileName("rpde-.json") == None
  {
    var name := "rpde-.json";
    assert name[|name| - 5..] == ".json";
    var stem := name[..|name| - 5];
    assert stem == "rpde-" && !IsDigit(stem[|stem| - 1]);
    assert TrailingDigits(stem) == [];
  }

  /** The pattern is anchored at the end: a name with anything after `.json`
      is skipped. */
  lemma NameWithTrailingExtensionSkipped()
    ensures ParseFileName("rpde-3.json.bak") == None
  {
    var name := "rpde-3.json.bak";
    assert name[|name| - 5..] == "n.bak";
  }

  /** A non-digit in the page number makes the name fail the pattern. */
  lemma NameWithLetterSkipped()
    ensures ParseFileName("rpde-3a.json") == None
  {
    var name := "rpde-3a.json";
    assert name[|name| - 5..] == ".json";
    var stem := name[..|name| - 5];
    assert stem == "rpde-3a" && !IsDigit(stem[|stem| - 1]);
    assert TrailingDigits(stem) == [];
  }

  lemma SmallFileNames()
    ensures FileName(0) == "rpde-0.json" && FileName(1) == "rpde-1.json"
    ensures FileName(2) == "rpde-2.json" && FileName(10) == "rpde-10.json"
  {
    assert Decimal(10) == Decimal(1) + [DigitChar(0)];
  }
}
