/** Duration strings of the server configuration (module duration_serde of
    crates/server/src/config.rs). */
module Durations {
  import opened Common
  import opened Decimal

  /** Overflow stands for a u64 overflow, which panics or wraps depending on the build. */
  datatype Parsed = Ok(secs: u64) | InvalidFormat | InvalidNumber | InvalidUnit | NotPositive | Overflow

  /** The characters with the Unicode property White_Space. */
  predicate IsWhitespace(c: char) {
    || '\t' <= c <= '\r' || c == ' ' || c == '\U{85}' || c == '\U{A0}' || c == '\U{1680}'
    || '\U{2000}' <= c <= '\U{200A}' || c == '\U{2028}' || c == '\U{2029}' || c == '\U{202F}'
    || c == '\U{205F}' || c == '\U{3000}'
  }

  function TrimStart(s: string): string {
    if s != "" && IsWhitespace(s[0]) then TrimStart(s[1..]) else s
  }

  function TrimEnd(s: string): string {
    if s != "" && IsWhitespace(s[|s| - 1]) then TrimEnd(s[..|s| - 1]) else s
  }

  /** Lower case of the ASCII letters; UnicodeLowerCaseAgrees shows that the others do not matter. */
  function Lower(c: char): char {
    if 'A' <= c <= 'Z' then c - 'A' + 'a' else c
  }

  function LowerAll(s: string): string {
    seq(|s|, i requires 0 <= i < |s| => Lower(s[i]))
  }

  function Normalized(s: string): string {
    LowerAll(TrimEnd(TrimStart(s)))
  }

  predicate IsUnit(c: char) {
    c == 'h' || c == 'm' || c == 's'
  }

  /** num * 3600, num * 60 or num. */
  function Times(n: nat, c: char): (m: nat)
    ensures n <= m
  {
    if c == 'h' then 3600 * n else if c == 'm' then 60 * n else n
  }

  /** The character loop on what is left of the string. */
  function ParseRest(s: string, total: u64, current: string): Parsed
    requires Digits(current)
    decreases |s|
  {
    if s == "" then
      if current != "" && Value(current) >= U64_LIMIT then InvalidNumber
      else
        var sum := total + Value(current);
        if sum >= U64_LIMIT then Overflow else if sum == 0 then NotPositive else Ok(sum)
    else if IsDigit(s[0]) then ParseRest(s[1..], total, current + [s[0]])
    else if current == "" then InvalidFormat
    else if Value(current) >= U64_LIMIT then InvalidNumber
    else if !IsUnit(s[0]) then InvalidUnit
    else
      var sum := total + Times(Value(current), s[0]);
      if sum >= U64_LIMIT then Overflow else ParseRest(s[1..], sum, "")
  }

  function ParseDuration(s: string): Parsed {
    ParseRest(Normalized(s), 0, "")
  }

  function WithUnit(n: nat, unit: char): (s: string)
    ensures s != ""
  {
    Pad(n, 1) + [unit]
  }

  /** The hours and the minutes, where there are any. */
  function FormatHm(hours: nat, mins: nat): string {
    (if hours > 0 then WithUnit(hours, 'h') else "") + (if mins > 0 then WithUnit(mins, 'm') else "")
  }

  function FormatHms(hours: nat, mins: nat, secs: nat): string {
    var front := FormatHm(hours, mins);
    if secs > 0 || front == "" then front + WithUnit(secs, 's') else front
  }

  function FormatDuration(d: u64): string {
    FormatHms(d / 3600, d % 3600 / 60, d % 60)
  }

  // ---------- Lower case beyond ASCII ----------

  /** `pieces` are the lower-case forms of the characters of s, each of one or more characters.  The
      forms of characters beyond ASCII are arbitrary, except that none of them begins with an ASCII
      digit, h, m or s. */
  predicate LowerCaseForms(s: string, pieces: seq<string>) {
    && |pieces| == |s|
    && forall i :: 0 <= i < |s| ==>
         if s[i] <= '\U{7F}' then pieces[i] == [Lower(s[i])]
         else pieces[i] != "" && !IsDigit(pieces[i][0]) && !IsUnit(pieces[i][0])
  }

  function Join(pieces: seq<string>): string {
    if pieces == [] then "" else pieces[0] + Join(pieces[1..])
  }

  /** Every such lower-casing parses like that of the ASCII letters alone. */
  lemma {:induction false} UnicodeLowerCaseAgrees(s: string, pieces: seq<string>, total: u64, current: string)
    requires LowerCaseForms(s, pieces) && Digits(current)
    ensures ParseRest(Join(pieces), total, current) == ParseRest(LowerAll(s), total, current)
    decreases |s|
  {
    if s != "" {
      assert LowerAll(s)[1..] == LowerAll(s[1..]);
      assert Join(pieces)[0] == pieces[0][0];
      if s[0] <= '\U{7F}' {
        assert Join(pieces)[1..] == Join(pieces[1..]);
        var c := Lower(s[0]);
        if IsDigit(c) {
          UnicodeLowerCaseAgrees(s[1..], pieces[1..], total, current + [c]);
        } else if current != "" && Value(current) < U64_LIMIT && IsUnit(c)
                  && total + Times(Value(current), c) < U64_LIMIT {
          UnicodeLowerCaseAgrees(s[1..], pieces[1..], total + Times(Value(current), c), "");
        }
      }
    }
  }

  // ---------- What a duration string means ----------

  datatype Token = Token(digits: string, unit: char)

  predicate LegalToken(t: Token) {
    t.digits != "" && Digits(t.digits) && IsUnit(t.unit)
  }

  predicate LegalTokens(tokens: seq<Token>) {
    forall i :: 0 <= i < |tokens| ==> LegalToken(tokens[i])
  }

  function Seconds(t: Token): nat
    requires Digits(t.digits)
  {
    Times(Value(t.digits), t.unit)
  }

  function Text(tokens: seq<Token>): string {
    if tokens == [] then "" else tokens[0].digits + [tokens[0].unit] + Text(tokens[1..])
  }

  function Meaning(tokens: seq<Token>): nat
    requires LegalTokens(tokens)
  {
    if tokens == [] then 0 else Seconds(tokens[0]) + Meaning(tokens[1..])
  }

  /** The final check of the sum. */
  function Positive(sum: u64): Parsed {
    if sum == 0 then NotPositive else Ok(sum)
  }

  lemma {:induction false} DigitsAccumulate(digits: string, rest: string, total: u64, current: string)
    requires Digits(digits) && Digits(current)
    ensures ParseRest(digits + rest, total, current) == ParseRest(rest, total, current + digits)
    decreases |digits|
  {
    if digits == "" {
      assert digits + rest == rest && current + digits == current;
    } else {
      assert (digits + rest)[1..] == digits[1..] + rest;
      assert current + [digits[0]] + digits[1..] == current + digits;
      DigitsAccumulate(digits[1..], rest, total, current + [digits[0]]);
    }
  }

  lemma UnitAdds(digits: string, unit: char, rest: string, total: u64)
    requires digits != "" && Digits(digits) && IsUnit(unit) && total + Times(Value(digits), unit) < U64_LIMIT
    ensures ParseRest([unit] + rest, total, digits) == ParseRest(rest, total + Times(Value(digits), unit), "")
  {
    assert ([unit] + rest)[1..] == rest;
  }

  /** Reading a token adds its seconds. */
  lemma TokenAdds(t: Token, rest: string, total: u64)
    requires LegalToken(t) && total + Seconds(t) < U64_LIMIT
    ensures ParseRest(t.digits + ([t.unit] + rest), total, "") == ParseRest(rest, total + Seconds(t), "")
  {
    DigitsAccumulate(t.digits, [t.unit] + rest, total, "");
    assert "" + t.digits == t.digits;
    UnitAdds(t.digits, t.unit, rest, total);
  }

  /** A sum of tokens and a trailing number of seconds is what the loop computes. */
  lemma {:induction false} TokensParse(tokens: seq<Token>, tail: string, total: u64)
    requires LegalTokens(tokens) && Digits(tail)
    requires total + Meaning(tokens) + Value(tail) < U64_LIMIT
    ensures ParseRest(Text(tokens) + tail, total, "") == Positive(total + Meaning(tokens) + Value(tail))
    decreases |tokens|
  {
    if tokens == [] {
      assert Text(tokens) + tail == tail && tail + "" == tail && "" + tail == tail;
      DigitsAccumulate(tail, "", total, "");
    } else {
      var t := tokens[0];
      assert Text(tokens) + tail == t.digits + ([t.unit] + (Text(tokens[1..]) + tail));
      TokenAdds(t, Text(tokens[1..]) + tail, total);
      TokensParse(tokens[1..], tail, total + Seconds(t));
    }
  }

  /** Whatever the loop accepts is such a sum. */
  lemma {:induction false} AcceptedIsSum(s: string, total: u64, current: string)
    returns (tokens: seq<Token>, tail: string)
    requires Digits(current) && ParseRest(s, total, current).Ok?
    ensures LegalTokens(tokens) && Digits(tail) && current + s == Text(tokens) + tail
    ensures ParseRest(s, total, current).secs == total + Meaning(tokens) + Value(tail)
    decreases |s|
  {
    if s == "" {
      tokens, tail := [], current;
      assert current + s == Text(tokens) + tail;
    } else if IsDigit(s[0]) {
      tokens, tail := AcceptedIsSum(s[1..], total, current + [s[0]]);
      assert current + s == current + [s[0]] + s[1..];
    } else {
      var t := Token(current, s[0]);
      var rest: seq<Token>;
      rest, tail := AcceptedIsSum(s[1..], total + Times(Value(current), s[0]), "");
      tokens := [t] + rest;
      assert tokens[1..] == rest;
      assert current + s == current + [s[0]] + ("" + s[1..]);
      assert Text(tokens) + tail == current + [s[0]] + (Text(rest) + tail);
    }
  }

  /** s denotes d: a sequence of numbers with units and perhaps a bare number of seconds. */
  ghost predicate Denotes(s: string, d: nat) {
    exists tokens: seq<Token>, tail: string ::
      LegalTokens(tokens) && Digits(tail) && s == Text(tokens) + tail && d == Meaning(tokens) + Value(tail)
  }

  /** Exactly the strings that denote a positive u64 are accepted, with that value. */
  lemma ParseExact(s: string, d: u64)
    ensures ParseDuration(s) == Ok(d) <==> d > 0 && Denotes(Normalized(s), d)
  {
    var text := Normalized(s);
    if ParseDuration(s) == Ok(d) {
      var tokens, tail := AcceptedIsSum(text, 0, "");
      assert text == Text(tokens) + tail;
      PositiveResult(text, 0, "");
    }
    if d > 0 && Denotes(text, d) {
      var tokens, tail :|
        LegalTokens(tokens) && Digits(tail) && text == Text(tokens) + tail && d == Meaning(tokens) + Value(tail);
      TokensParse(tokens, tail, 0);
    }
  }

  lemma {:induction false} PositiveResult(s: string, total: u64, current: string)
    requires Digits(current) && ParseRest(s, total, current).Ok?
    ensures ParseRest(s, total, current).secs > 0
    decreases |s|
  {
    if s != "" {
      if IsDigit(s[0]) {
        PositiveResult(s[1..], total, current + [s[0]]);
      } else {
        PositiveResult(s[1..], total + Times(Value(current), s[0]), "");
      }
    }
  }

  // ---------- Printing and parsing ----------

  /** The token for n, unless it is left out. */
  function TokenIf(present: bool, n: nat, unit: char): seq<Token> {
    if present then [Token(Pad(n, 1), unit)] else []
  }

  function HmsTokens(hours: nat, mins: nat, secs: nat): seq<Token> {
    TokenIf(hours > 0, hours, 'h')
    + (TokenIf(mins > 0, mins, 'm') + TokenIf(secs > 0 || (hours == 0 && mins == 0), secs, 's'))
  }

  function FormatTokens(d: u64): seq<Token> {
    HmsTokens(d / 3600, d % 3600 / 60, d % 60)
  }

  lemma TextConcat(a: seq<Token>, b: seq<Token>)
    requires |a| <= 1
    ensures Text(a + b) == Text(a) + Text(b)
  {
    if a == [] {
      assert a + b == b;
    } else {
      assert (a + b)[1..] == b && a[1..] == [];
    }
  }

  lemma MeaningConcat(a: seq<Token>, b: seq<Token>)
    requires |a| <= 1 && LegalTokens(a) && LegalTokens(b)
    ensures LegalTokens(a + b) && Meaning(a + b) == Meaning(a) + Meaning(b)
  {
    if a == [] {
      assert a + b == b;
    } else {
      assert (a + b)[1..] == b && a[1..] == [];
    }
  }

  lemma OneToken(present: bool, n: nat, unit: char)
    requires IsUnit(unit)
    ensures LegalTokens(TokenIf(present, n, unit)) && |TokenIf(present, n, unit)| <= 1
    ensures Text(TokenIf(present, n, unit)) == if present then WithUnit(n, unit) else ""
    ensures Meaning(TokenIf(present, n, unit)) == if present then Times(n, unit) else 0
  {
    if present {
      PadValue(n, 1);
      assert TokenIf(present, n, unit)[1..] == [];
    }
  }

  lemma ThreeMeanings(h: seq<Token>, m: seq<Token>, s: seq<Token>)
    requires |h| <= 1 && |m| <= 1 && LegalTokens(h) && LegalTokens(m) && LegalTokens(s)
    ensures LegalTokens(h + (m + s)) && Meaning(h + (m + s)) == Meaning(h) + Meaning(m) + Meaning(s)
  {
    MeaningConcat(m, s);
    MeaningConcat(h, m + s);
  }

  lemma UnitSizes(n: nat)
    ensures Times(n, 'h') == 3600 * n && Times(n, 'm') == 60 * n && Times(n, 's') == n
  {
  }

  lemma HmsMeans(hours: nat, mins: nat, secs: nat)
    ensures LegalTokens(HmsTokens(hours, mins, secs))
    ensures Meaning(HmsTokens(hours, mins, secs)) == 3600 * hours + 60 * mins + secs
  {
    var last := secs > 0 || (hours == 0 && mins == 0);
    var h, m, s := TokenIf(hours > 0, hours, 'h'), TokenIf(mins > 0, mins, 'm'), TokenIf(last, secs, 's');
    assert LegalTokens(h) && |h| <= 1 && Meaning(h) == 3600 * hours by {
      OneToken(hours > 0, hours, 'h');
      UnitSizes(hours);
    }
    assert LegalTokens(m) && |m| <= 1 && Meaning(m) == 60 * mins by {
      OneToken(mins > 0, mins, 'm');
      UnitSizes(mins);
    }
    assert LegalTokens(s) && Meaning(s) == secs by {
      OneToken(last, secs, 's');
      UnitSizes(secs);
    }
    ThreeMeanings(h, m, s);
  }

  lemma HmsIsText(hours: nat, mins: nat, secs: nat)
    ensures Text(HmsTokens(hours, mins, secs)) == FormatHms(hours, mins, secs)
  {
    var last := secs > 0 || (hours == 0 && mins == 0);
    var h, m, s := TokenIf(hours > 0, hours, 'h'), TokenIf(mins > 0, mins, 'm'), TokenIf(last, secs, 's');
    OneToken(hours > 0, hours, 'h');
    OneToken(mins > 0, mins, 'm');
    OneToken(last, secs, 's');
    TextConcat(m, s);
    TextConcat(h, m + s);
    Associate(Text(h), Text(m), Text(s));
  }

  lemma Associate(a: string, b: string, c: string)
    ensures a + (b + c) == (a + b) + c
    ensures c == "" ==> a + (b + c) == a + b
    ensures a + b == "" <==> a == "" && b == ""
  {
  }

  lemma HmsAddsUp(d: nat)
    ensures d == 3600 * (d / 3600) + 60 * (d % 3600 / 60) + d % 60
  {
    var hours, inHour := d / 3600, d % 3600;
    var mins, secs := inHour / 60, inHour % 60;
    assert d == 3600 * hours + inHour;
    assert inHour == 60 * mins + secs;
    assert d == 60 * (60 * hours + mins) + secs;
    LastSeconds(d, 60 * hours + mins, secs);
  }

  lemma LastSeconds(d: nat, mins: nat, secs: nat)
    requires d == 60 * mins + secs && secs < 60
    ensures d % 60 == secs
  {
  }

  lemma FormatIsText(d: u64)
    ensures LegalTokens(FormatTokens(d)) && Text(FormatTokens(d)) == FormatDuration(d) && Meaning(FormatTokens(d)) == d
  {
    var hours, mins, secs := d / 3600, d % 3600 / 60, d % 60;
    assert d == 3600 * hours + 60 * mins + secs by {
      HmsAddsUp(d);
    }
    HmsIsText(hours, mins, secs);
    HmsMeans(hours, mins, secs);
  }

  /** Token text consists of digits and units, so trimming and lower-casing leave it alone. */
  lemma {:induction false} TextIsPlain(tokens: seq<Token>)
    requires LegalTokens(tokens)
    ensures forall i :: 0 <= i < |Text(tokens)| ==> IsDigit(Text(tokens)[i]) || IsUnit(Text(tokens)[i])
  {
    if tokens != [] {
      TextIsPlain(tokens[1..]);
    }
  }

  lemma PlainIsNormal(s: string)
    requires forall i :: 0 <= i < |s| ==> IsDigit(s[i]) || IsUnit(s[i])
    ensures Normalized(s) == s
  {
    assert TrimStart(s) == s && TrimEnd(s) == s;
  }

  lemma TextParses(tokens: seq<Token>, d: u64)
    requires LegalTokens(tokens) && Meaning(tokens) == d
    ensures ParseRest(Text(tokens), 0, "") == Positive(d)
  {
    assert Text(tokens) + "" == Text(tokens);
    TokensParse(tokens, "", 0);
  }

  /** Printing then parsing is the identity exactly for positive durations; zero prints as "0s",
      which is rejected. */
  lemma RoundTripExact(d: u64)
    ensures ParseDuration(FormatDuration(d)) == Ok(d) <==> d >= 1
    ensures d == 0 ==> ParseDuration(FormatDuration(d)) == NotPositive
  {
    var tokens := FormatTokens(d);
    assert LegalTokens(tokens) && Text(tokens) == FormatDuration(d) && Meaning(tokens) == d by {
      FormatIsText(d);
    }
    assert Normalized(Text(tokens)) == Text(tokens) by {
      TextIsPlain(tokens);
      PlainIsNormal(Text(tokens));
    }
    TextParses(tokens, d);
  }

  // ---------- The loop as written ----------

  method Parse(s: string) returns (r: Parsed)
    ensures r == ParseDuration(s)
  {
    var text := Normalized(s);
    var totalSecs: u64 := 0;
    var currentNum := "";
    var i := 0;
    while i < |text|
      invariant 0 <= i <= |text| && Digits(currentNum)
      invariant ParseRest(text[i..], totalSecs, currentNum) == ParseDuration(s)
    {
      var c := text[i];
      assert text[i..][1..] == text[i + 1..];
      if IsDigit(c) {
        currentNum := currentNum + [c];
      } else {
        if currentNum == "" {
          return InvalidFormat;
        }
        var num := Value(currentNum);
        if num >= U64_LIMIT {
          return InvalidNumber;
        }
        currentNum := "";
        if !IsUnit(c) {
          return InvalidUnit;
        }
        if totalSecs + Times(num, c) >= U64_LIMIT {
          return Overflow;
        }
        totalSecs := totalSecs + Times(num, c);
      }
      i := i + 1;
    }
    var sum: int := totalSecs;
    if currentNum != "" {
      var num := Value(currentNum);
      if num >= U64_LIMIT {
        return InvalidNumber;
      }
      sum := sum + num;
    }
    if sum >= U64_LIMIT {
      return Overflow;
    }
    if sum == 0 {
      return NotPositive;
    }
    r := Ok(sum);
  }

  method Format(d: u64) returns (result: string)
    ensures result == FormatDuration(d)
  {
    var hours := d / 3600;
    var mins := d % 3600 / 60;
    var secs := d % 60;
    result := "";
    if hours > 0 {
      result := result + WithUnit(hours, 'h');
    }
    if mins > 0 {
      result := result + WithUnit(mins, 'm');
    }
    assert result == FormatHm(hours, mins);
    if secs > 0 || result == "" {
      result := result + WithUnit(secs, 's');
    }
  }
}
