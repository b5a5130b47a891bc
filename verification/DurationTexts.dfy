/** Duration strings as they are typed: which are accepted, with white space around them and units in
    either case, and which fault each of the others is refused for. */
module DurationTexts {
  import opened Common
  import opened Decimal
  import opened Durations

  // ---------- Trimming and lower case ----------

  /** The 25 characters with the property White_Space in PropList.txt of the Unicode Character Database. */
  lemma WhitespaceExact(c: char)
    ensures IsWhitespace(c)
            <==> c as int in {0x9, 0xA, 0xB, 0xC, 0xD, 0x20, 0x85, 0xA0, 0x1680, 0x2000, 0x2001, 0x2002, 0x2003, 0x2004,
                              0x2005, 0x2006, 0x2007, 0x2008, 0x2009, 0x200A, 0x2028, 0x2029, 0x202F, 0x205F, 0x3000}
  {
  }

  predicate IsMargin(s: string) {
    forall i :: 0 <= i < |s| ==> IsWhitespace(s[i])
  }

  /** Neither begins nor ends with white space. */
  predicate IsTrimmed(s: string) {
    s == "" || (!IsWhitespace(s[0]) && !IsWhitespace(s[|s| - 1]))
  }

  lemma {:induction false} TrimStartExact(s: string) returns (a: string)
    ensures IsMargin(a) && s == a + TrimStart(s)
    ensures TrimStart(s) == "" || !IsWhitespace(TrimStart(s)[0])
  {
    a := "";
    if s != "" && IsWhitespace(s[0]) {
      var rest := TrimStartExact(s[1..]);
      a := [s[0]] + rest;
      assert s == [s[0]] + s[1..];
    }
  }

  lemma {:induction false} TrimEndExact(s: string) returns (b: string)
    ensures IsMargin(b) && s == TrimEnd(s) + b
    ensures TrimEnd(s) == "" || !IsWhitespace(TrimEnd(s)[|TrimEnd(s)| - 1])
  {
    b := "";
    if s != "" && IsWhitespace(s[|s| - 1]) {
      var rest := TrimEndExact(s[..|s| - 1]);
      b := rest + [s[|s| - 1]];
      assert s == s[..|s| - 1] + [s[|s| - 1]];
    }
  }

  /** The lower-case form of an ASCII letter is 32 codes further. */
  predicate IsLowerOf(low: string, s: string) {
    && |low| == |s|
    && forall i :: 0 <= i < |s| ==>
         low[i] as int == s[i] as int + if 'A' <= s[i] <= 'Z' then 32 else 0
  }

  /** Every string is a trimmed one between two margins, and normalizing leaves the lower-case form of the
      trimmed part. */
  lemma NormalizedExact(s: string) returns (a: string, core: string, b: string)
    ensures s == a + core + b && IsMargin(a) && IsMargin(b) && IsTrimmed(core)
    ensures IsLowerOf(Normalized(s), core)
  {
    a := TrimStartExact(s);
    var t := TrimStart(s);
    b := TrimEndExact(t);
    core := TrimEnd(t);
    CoreOf(s, a, t, core, b);
  }

  lemma CoreOf(s: string, a: string, t: string, core: string, b: string)
    requires s == a + t && t == core + b
    ensures s == a + core + b
    ensures core != "" ==> core[0] == t[0]
  {
  }

  lemma {:induction false} TrimStartSkips(a: string, s: string)
    requires IsMargin(a) && (s == "" || !IsWhitespace(s[0]))
    ensures TrimStart(a + s) == s
  {
    if a == "" {
      assert a + s == s;
    } else {
      assert (a + s)[1..] == a[1..] + s;
      TrimStartSkips(a[1..], s);
    }
  }

  lemma {:induction false} TrimEndSkips(s: string, b: string)
    requires IsMargin(b) && (s == "" || !IsWhitespace(s[|s| - 1]))
    ensures TrimEnd(s + b) == s
    decreases |b|
  {
    if b == "" {
      assert s + b == s;
    } else {
      assert (s + b)[..|s + b| - 1] == s + b[..|b| - 1];
      TrimEndSkips(s, b[..|b| - 1]);
    }
  }

  /** There is one such trimmed part only. */
  lemma NormalizedOf(a: string, core: string, b: string)
    requires IsMargin(a) && IsMargin(b) && IsTrimmed(core)
    ensures Normalized(a + core + b) == LowerAll(core)
  {
    if core == "" {
      assert a + core + b == (a + b) + "" && IsMargin(a + b);
      TrimStartSkips(a + b, "");
      assert TrimEnd("") == "";
    } else {
      assert a + core + b == a + (core + b);
      TrimStartSkips(a, core + b);
      TrimEndSkips(core, b);
    }
  }

  // ---------- What is accepted ----------

  /** A number with a unit in either case. */
  predicate TypedToken(t: Token) {
    t.digits != "" && Digits(t.digits) && t.unit in {'h', 'H', 'm', 'M', 's', 'S'}
  }

  predicate TypedTokens(tokens: seq<Token>) {
    forall i :: 0 <= i < |tokens| ==> TypedToken(tokens[i])
  }

  function UnitSeconds(unit: char): nat {
    if unit == 'h' || unit == 'H' then 3600 else if unit == 'm' || unit == 'M' then 60 else 1
  }

  function TotalSeconds(tokens: seq<Token>): nat
    requires TypedTokens(tokens)
  {
    if tokens == [] then 0 else UnitSeconds(tokens[0].unit) * Value(tokens[0].digits) + TotalSeconds(tokens[1..])
  }

  /** s consists of a margin, tokens, perhaps a last number without a unit, and a margin; together d. */
  predicate Spells(s: string, d: nat, a: string, tokens: seq<Token>, tail: string, b: string) {
    && IsMargin(a) && IsMargin(b) && TypedTokens(tokens) && Digits(tail)
    && s == a + (Text(tokens) + tail) + b && d == TotalSeconds(tokens) + Value(tail)
  }

  /** Typed, s says d. */
  ghost predicate Says(s: string, d: nat) {
    exists a: string, tokens: seq<Token>, tail: string, b: string :: Spells(s, d, a, tokens, tail, b)
  }

  function LowerTokens(tokens: seq<Token>): seq<Token> {
    seq(|tokens|, i requires 0 <= i < |tokens| => Token(tokens[i].digits, Lower(tokens[i].unit)))
  }

  lemma LowerOne(t: Token)
    requires TypedToken(t)
    ensures LegalToken(Token(t.digits, Lower(t.unit)))
    ensures Times(Value(t.digits), Lower(t.unit)) == UnitSeconds(t.unit) * Value(t.digits)
  {
    UnitSizes(Value(t.digits));
  }

  lemma {:induction false} LowerTokensMean(tokens: seq<Token>)
    requires TypedTokens(tokens)
    ensures LegalTokens(LowerTokens(tokens)) && Meaning(LowerTokens(tokens)) == TotalSeconds(tokens)
  {
    if tokens != [] {
      var low := LowerTokens(tokens);
      LowerTokensMean(tokens[1..]);
      LowerOne(tokens[0]);
      assert low == [low[0]] + LowerTokens(tokens[1..]);
      LegalFirst(low[0], LowerTokens(tokens[1..]));
    }
  }

  lemma {:induction false} LowerTokensText(tokens: seq<Token>)
    requires TypedTokens(tokens)
    ensures LowerAll(Text(tokens)) == Text(LowerTokens(tokens))
  {
    if tokens != [] {
      var t, low := tokens[0], LowerTokens(tokens);
      LowerTokensText(tokens[1..]);
      assert low == [low[0]] + LowerTokens(tokens[1..]);
      FirstText(low[0], LowerTokens(tokens[1..]));
      DigitsStay(t.digits);
      LowerConcat(t.digits, [t.unit]);
      LowerConcat(t.digits + [t.unit], Text(tokens[1..]));
    }
  }

  lemma LowerTokensExact(tokens: seq<Token>)
    requires TypedTokens(tokens)
    ensures LegalTokens(LowerTokens(tokens)) && Meaning(LowerTokens(tokens)) == TotalSeconds(tokens)
    ensures LowerAll(Text(tokens)) == Text(LowerTokens(tokens))
  {
    LowerTokensMean(tokens);
    LowerTokensText(tokens);
  }

  lemma DigitsStay(s: string)
    requires Digits(s)
    ensures LowerAll(s) == s
  {
  }

  lemma LowerConcat(s: string, t: string)
    ensures LowerAll(s + t) == LowerAll(s) + LowerAll(t)
  {
  }

  lemma LowerIsDigits(core: string, s: string)
    requires LowerAll(core) == s && Digits(s)
    ensures core == s
  {
    forall i | 0 <= i < |core|
      ensures core[i] == s[i]
    {
      assert IsDigit(s[i]) && s[i] == Lower(core[i]);
    }
  }

  lemma LowerIsUnit(c: char)
    requires IsUnit(Lower(c))
    ensures c in {'h', 'H', 'm', 'M', 's', 'S'}
  {
  }

  lemma LowerSplit(core: string, front: string, c: char, back: string)
    requires LowerAll(core) == front + [c] + back
    ensures var n := |front|;
            && n < |core| && LowerAll(core[..n]) == front && Lower(core[n]) == c && LowerAll(core[n + 1..]) == back
  {
    var n := |front|;
    assert |LowerAll(core)| == |core|;
    assert LowerAll(core)[n] == c;
    assert LowerAll(core[..n]) == LowerAll(core)[..n] == front;
    assert LowerAll(core[n + 1..]) == LowerAll(core)[n + 1..] == back;
  }

  lemma FirstText(t: Token, more: seq<Token>)
    ensures Text([t] + more) == t.digits + [t.unit] + Text(more)
  {
    assert ([t] + more)[1..] == more;
  }

  lemma Regroup(core: string, n: nat, m: string, tail: string)
    requires n < |core| && core[n + 1..] == m + tail
    ensures core == core[..n] + [core[n]] + m + tail
  {
    assert core == core[..n] + [core[n]] + core[n + 1..];
  }

  lemma TypedFirst(t: Token, more: seq<Token>)
    requires TypedToken(t) && TypedTokens(more)
    ensures TypedTokens([t] + more)
    ensures TotalSeconds([t] + more) == UnitSeconds(t.unit) * Value(t.digits) + TotalSeconds(more)
  {
    assert ([t] + more)[1..] == more;
  }

  lemma TextFirst(tokens: seq<Token>, tail: string)
    requires tokens != []
    ensures Text(tokens) + tail == tokens[0].digits + [tokens[0].unit] + (Text(tokens[1..]) + tail)
  {
  }

  /** Where the lower-case form is a list of tokens, the text itself is one. */
  lemma {:induction false} TypedFrom(core: string, tokens: seq<Token>, tail: string) returns (typed: seq<Token>)
    requires LegalTokens(tokens) && Digits(tail) && LowerAll(core) == Text(tokens) + tail
    ensures TypedTokens(typed) && core == Text(typed) + tail && TotalSeconds(typed) == Meaning(tokens)
    decreases |tokens|
  {
    if tokens == [] {
      typed := [];
      LowerIsDigits(core, tail);
    } else {
      var t, n := tokens[0], |tokens[0].digits|;
      TextFirst(tokens, tail);
      LowerSplit(core, t.digits, t.unit, Text(tokens[1..]) + tail);
      LowerIsDigits(core[..n], t.digits);
      LowerIsUnit(core[n]);
      var first := Token(t.digits, core[n]);
      var rest := TypedFrom(core[n + 1..], tokens[1..], tail);
      typed := [first] + rest;
      LowerOne(first);
      TypedFirst(first, rest);
      FirstText(first, rest);
      Regroup(core, n, Text(rest), tail);
    }
  }

  lemma {:induction false} TypedIsPlain(tokens: seq<Token>)
    requires TypedTokens(tokens)
    ensures forall i :: 0 <= i < |Text(tokens)| ==> !IsWhitespace(Text(tokens)[i])
  {
    if tokens != [] {
      var front := tokens[0].digits + [tokens[0].unit];
      assert forall i :: 0 <= i < |front| ==> !IsWhitespace(front[i]);
      TypedIsPlain(tokens[1..]);
    }
  }

  lemma TypedNormalized(a: string, tokens: seq<Token>, tail: string, b: string)
    requires IsMargin(a) && IsMargin(b) && TypedTokens(tokens) && Digits(tail)
    ensures Normalized(a + (Text(tokens) + tail) + b) == Text(LowerTokens(tokens)) + tail
  {
    var core := Text(tokens) + tail;
    TypedIsPlain(tokens);
    assert IsTrimmed(core);
    NormalizedOf(a, core, b);
    LowerTokensExact(tokens);
    DigitsStay(tail);
    LowerConcat(Text(tokens), tail);
  }

  lemma LowerOfIsLowerAll(low: string, s: string)
    requires IsLowerOf(low, s)
    ensures low == LowerAll(s)
  {
  }

  lemma SpelledDenotes(s: string, d: nat, a: string, tokens: seq<Token>, tail: string, b: string)
    requires Spells(s, d, a, tokens, tail, b)
    ensures Denotes(Normalized(s), d)
  {
    TypedNormalized(a, tokens, tail, b);
    LowerTokensExact(tokens);
  }

  lemma DenotedIsSpelled(s: string, tokens: seq<Token>, tail: string)
    requires LegalTokens(tokens) && Digits(tail) && Normalized(s) == Text(tokens) + tail
    ensures Says(s, Meaning(tokens) + Value(tail))
  {
    var a, core, b := NormalizedExact(s);
    LowerOfIsLowerAll(Normalized(s), core);
    var typed := TypedFrom(core, tokens, tail);
    assert Spells(s, Meaning(tokens) + Value(tail), a, typed, tail, b);
  }

  lemma SaysExact(s: string, d: nat)
    ensures Says(s, d) <==> Denotes(Normalized(s), d)
  {
    if Says(s, d) {
      var a: string, tokens: seq<Token>, tail: string, b: string :| Spells(s, d, a, tokens, tail, b);
      SpelledDenotes(s, d, a, tokens, tail, b);
    } else if Denotes(Normalized(s), d) {
      var tokens: seq<Token>, tail: string :|
        && LegalTokens(tokens) && Digits(tail) && Normalized(s) == Text(tokens) + tail
        && d == Meaning(tokens) + Value(tail);
      DenotedIsSpelled(s, tokens, tail);
    }
  }

  /** Exactly the strings that say a positive number of seconds below 2^64 are accepted, with that
      number. */
  lemma AcceptedExact(s: string, d: u64)
    ensures ParseDuration(s) == Ok(d) <==> d > 0 && Says(s, d)
  {
    ParseExact(s, d);
    SaysExact(s, d);
  }

  // ---------- What is refused ----------

  /** With `sum` seconds so far, the digits `current` and then `rest` make the loop stop for this fault. */
  predicate FaultAt(fault: Parsed, sum: nat, current: string, rest: string)
    requires Digits(current)
  {
    match fault
    case Ok(_) => false
    case InvalidFormat => rest != "" && current == ""
    case InvalidNumber => current != "" && Value(current) >= 0x1_0000_0000_0000_0000
    case InvalidUnit =>
      current != "" && Value(current) < 0x1_0000_0000_0000_0000 && rest != "" && rest[0] !in {'h', 'm', 's'}
    case NotPositive => rest == "" && sum + Value(current) == 0
    case Overflow =>
      && Value(current) < 0x1_0000_0000_0000_0000
      && if rest == "" then sum + Value(current) >= 0x1_0000_0000_0000_0000
         else
           && current != "" && rest[0] in {'h', 'm', 's'}
           && sum + UnitSeconds(rest[0]) * Value(current) >= 0x1_0000_0000_0000_0000
  }

  /** The text begins with tokens of less than 2^64 seconds, and then comes the fault. */
  predicate FaultAfter(text: string, fault: Parsed, tokens: seq<Token>, current: string, rest: string) {
    && LegalTokens(tokens) && Digits(current) && (rest == "" || !IsDigit(rest[0]))
    && text == Text(tokens) + current + rest && Meaning(tokens) < 0x1_0000_0000_0000_0000
    && FaultAt(fault, Meaning(tokens), current, rest)
  }

  ghost predicate IsRefusedFor(text: string, fault: Parsed) {
    exists tokens: seq<Token>, current: string, rest: string :: FaultAfter(text, fault, tokens, current, rest)
  }

  lemma StopsAtFault(rest: string, sum: u64, current: string)
    requires Digits(current) && (rest == "" || !IsDigit(rest[0]))
    ensures var r := ParseRest(rest, sum, current);
            forall fault :: FaultAt(fault, sum, current, rest) ==> r == fault
  {
    if rest != "" && IsUnit(rest[0]) {
      UnitSizes(Value(current));
    }
  }

  lemma PassText(tokens: seq<Token>, current: string, rest: string)
    requires tokens != []
    ensures Text(tokens) + current + rest
            == tokens[0].digits + ([tokens[0].unit] + (Text(tokens[1..]) + current + rest))
  {
  }

  /** What the loop does with a list of tokens and digits in front. */
  lemma {:induction false} TokensPass(tokens: seq<Token>, current: string, rest: string, total: u64)
    requires LegalTokens(tokens) && Digits(current) && total + Meaning(tokens) < U64_LIMIT
    ensures ParseRest(Text(tokens) + current + rest, total, "") == ParseRest(rest, total + Meaning(tokens), current)
    decreases |tokens|
  {
    if tokens == [] {
      assert Text(tokens) + current + rest == current + rest && "" + current == current;
      DigitsAccumulate(current, rest, total, "");
    } else {
      PassText(tokens, current, rest);
      TokenAdds(tokens[0], Text(tokens[1..]) + current + rest, total);
      TokensPass(tokens[1..], current, rest, total + Seconds(tokens[0]));
    }
  }

  lemma Regrouped(current: string, s: string, m: string, digits: string, rest: string)
    requires s != "" && s[1..] == m + digits + rest
    ensures current + s == current + [s[0]] + m + digits + rest
  {
    assert current + s == current + [s[0]] + s[1..];
  }

  lemma LegalFirst(t: Token, more: seq<Token>)
    requires LegalToken(t) && LegalTokens(more)
    ensures LegalTokens([t] + more) && Meaning([t] + more) == Times(Value(t.digits), t.unit) + Meaning(more)
  {
    assert ([t] + more)[1..] == more;
  }

  /** The loop takes another character. */
  predicate GoesOn(s: string, total: u64, current: string)
    requires Digits(current)
  {
    s != "" && (IsDigit(s[0])
                || (current != "" && Value(current) < U64_LIMIT && IsUnit(s[0])
                    && total + Times(Value(current), s[0]) < U64_LIMIT))
  }

  lemma StopIsFault(s: string, total: u64, current: string)
    requires Digits(current) && !GoesOn(s, total, current) && !ParseRest(s, total, current).Ok?
    ensures FaultAt(ParseRest(s, total, current), total, current, s)
  {
    UnitSizes(Value(current));
  }

  lemma DigitGoesOn(s: string, total: u64, current: string)
    requires Digits(current) && s != "" && IsDigit(s[0])
    ensures Digits(current + [s[0]]) && current + [s[0]] + s[1..] == current + s
    ensures ParseRest(s, total, current) == ParseRest(s[1..], total, current + [s[0]])
  {
  }

  lemma UnitGoesOn(s: string, total: u64, current: string)
    requires Digits(current) && GoesOn(s, total, current) && !IsDigit(s[0])
    ensures LegalToken(Token(current, s[0])) && total + Times(Value(current), s[0]) < U64_LIMIT
    ensures ParseRest(s, total, current) == ParseRest(s[1..], total + Times(Value(current), s[0]), "")
  {
  }

  /** Where the loop that started from these arguments stops. */
  predicate StopsThere(s: string, total: u64, current: string, tokens: seq<Token>, digits: string, rest: string)
    requires Digits(current)
  {
    && LegalTokens(tokens) && Digits(digits) && (rest == "" || !IsDigit(rest[0]))
    && current + s == Text(tokens) + digits + rest && total + Meaning(tokens) < U64_LIMIT
    && FaultAt(ParseRest(s, total, current), total + Meaning(tokens), digits, rest)
  }

  lemma StopsHere(s: string, total: u64, current: string)
    requires Digits(current) && !GoesOn(s, total, current) && !ParseRest(s, total, current).Ok?
    ensures StopsThere(s, total, current, [], current, s)
  {
    StopIsFault(s, total, current);
    assert Text([]) + current == current;
  }

  lemma StopsAfterUnit(s: string, total: u64, current: string, more: seq<Token>, digits: string, rest: string)
    requires Digits(current) && GoesOn(s, total, current) && !IsDigit(s[0])
    requires total + Times(Value(current), s[0]) < U64_LIMIT
    requires StopsThere(s[1..], total + Times(Value(current), s[0]), "", more, digits, rest)
    ensures StopsThere(s, total, current, [Token(current, s[0])] + more, digits, rest)
  {
    var t := Token(current, s[0]);
    UnitGoesOn(s, total, current);
    LegalFirst(t, more);
    FirstText(t, more);
    assert s[1..] == "" + s[1..];
    Regrouped(current, s, Text(more), digits, rest);
  }

  /** The loop of every text that is not accepted stops somewhere. */
  lemma {:induction false} FaultFound(s: string, total: u64, current: string)
    returns (tokens: seq<Token>, digits: string, rest: string)
    requires Digits(current) && !ParseRest(s, total, current).Ok?
    ensures StopsThere(s, total, current, tokens, digits, rest)
    decreases |s|
  {
    if !GoesOn(s, total, current) {
      tokens, digits, rest := [], current, s;
      StopsHere(s, total, current);
    } else if IsDigit(s[0]) {
      DigitGoesOn(s, total, current);
      tokens, digits, rest := FaultFound(s[1..], total, current + [s[0]]);
    } else {
      var more: seq<Token>;
      UnitGoesOn(s, total, current);
      more, digits, rest := FaultFound(s[1..], total + Times(Value(current), s[0]), "");
      StopsAfterUnit(s, total, current, more, digits, rest);
      tokens := [Token(current, s[0])] + more;
    }
  }

  lemma RefusalIsFault(text: string, fault: Parsed)
    requires !fault.Ok? && ParseRest(text, 0, "") == fault
    ensures IsRefusedFor(text, fault)
  {
    var tokens, current, rest := FaultFound(text, 0, "");
    assert "" + text == text;
    assert FaultAfter(text, fault, tokens, current, rest);
  }

  lemma FaultIsRefusal(text: string, fault: Parsed, tokens: seq<Token>, current: string, rest: string)
    requires FaultAfter(text, fault, tokens, current, rest)
    ensures ParseRest(text, 0, "") == fault
  {
    TokensPass(tokens, current, rest, 0);
    StopsAtFault(rest, Meaning(tokens), current);
  }

  /** Exactly the strings that run into a fault are refused for it, after as many tokens as can be read:
      a character where a number should be, a number or a sum that does not fit in u64, a character that
      is no unit, or nothing at the end. */
  lemma RefusedExact(s: string, fault: Parsed)
    requires !fault.Ok?
    ensures ParseDuration(s) == fault <==> IsRefusedFor(Normalized(s), fault)
  {
    var text := Normalized(s);
    if ParseRest(text, 0, "") == fault {
      RefusalIsFault(text, fault);
    } else if IsRefusedFor(text, fault) {
      var tokens: seq<Token>, current: string, rest: string :| FaultAfter(text, fault, tokens, current, rest);
      FaultIsRefusal(text, fault, tokens, current, rest);
    }
  }
}
