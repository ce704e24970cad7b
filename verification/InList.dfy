/** The value list of `column IN (...)`: lexer and SQL printer of quality/assertion_parser.py. */
module InList {
  import opened Common
  import opened Strings

  /** A value of the list: the text between quotes, or a number as written. */
  datatype Item = Quoted(text: string) | Number(digits: string)

  datatype ParseError = NotANumber(part: string) | NoValues

  predicate IsQuote(c: char) {
    c == '\'' || c == '\"'
  }

  function Join(parts: seq<string>, separator: string): string {
    if parts == [] then ""
    else if |parts| == 1 then parts[0]
    else parts[0] + separator + Join(parts[1..], separator)
  }

  // ---------------------------------------------------------------------------------------------
  // Lexer
  // ---------------------------------------------------------------------------------------------

  /** The quote still open after reading `s`, given the one open before. */
  function OpenQuote(s: string, quote: Option<char>): Option<char> {
    if s == "" then quote else OpenQuote(s[1..], NextQuote(s[0], quote))
  }

  function NextQuote(c: char, quote: Option<char>): Option<char> {
    match quote
    case Some(q) => if c == q then None else quote
    case None => if IsQuote(c) then Some(c) else None
  }

  /** The parts that reading `s` yields when `current` has been collected under the open quote `quote`. */
  function Split(s: string, current: string, quote: Option<char>): seq<string> {
    if s == "" then (if current == "" then [] else [current])
    else if quote == None && s[0] == ',' then [current] + Split(s[1..], "", None)
    else Split(s[1..], current + [s[0]], NextQuote(s[0], quote))
  }

  method SplitInValues(values: string) returns (parts: seq<string>)
    ensures parts == Split(values, "", None)
  {
    parts := [];
    var current: string := "";
    var inQuotes, quoteChar := false, '\'';
    for i := 0 to |values|
      invariant parts + Split(values[i..], current, if inQuotes then Some(quoteChar) else None)
             == Split(values, "", None)
    {
      var c := values[i];
      assert values[i..][0] == c && values[i..][1..] == values[i + 1..];
      if inQuotes {
        current := current + [c];
        if c == quoteChar {
          inQuotes := false;
        }
      } else if c == '\'' || c == '\"' {
        inQuotes, quoteChar := true, c;
        current := current + [c];
      } else if c == ',' {
        parts := parts + [current];
        current := "";
      } else {
        current := current + [c];
      }
    }
    if current != "" {
      parts := parts + [current];
    }
  }

  predicate EndsWithBareComma(s: string, quote: Option<char>) {
    s != "" && s[|s| - 1] == ',' && OpenQuote(s[..|s| - 1], quote) == None
  }

  lemma {:induction false} JoinSplit(s: string, current: string, quote: Option<char>)
    ensures current + s == Join(Split(s, current, quote), ",") + if EndsWithBareComma(s, quote) then "," else ""
    ensures s != "" ==> Split(s, current, quote) != []
  {
    if s == "" {
    } else {
      var next := NextQuote(s[0], quote);
      assert |s| > 1 ==> s[..|s| - 1][1..] == s[1..][..|s[1..]| - 1] && s[..|s| - 1][0] == s[0];
      if quote == None && s[0] == ',' {
        JoinSplit(s[1..], "", None);
        assert Split(s, current, quote)[1..] == Split(s[1..], "", None);
        assert current + s == current + "," + ("" + s[1..]);
        if |s| == 1 {
          assert OpenQuote(s[..0], quote) == None;
        }
      } else {
        JoinSplit(s[1..], current + [s[0]], next);
        assert current + s == (current + [s[0]]) + s[1..];
        if |s| == 1 {
          assert OpenQuote(s[..0], quote) == quote;
        }
      }
    }
  }

  /** Splitting loses nothing but one trailing comma outside quotes. */
  lemma SplitIsInvertible(values: string)
    ensures values == Join(Split(values, "", None), ",") + if EndsWithBareComma(values, None) then "," else ""
  {
    JoinSplit(values, "", None);
  }

  /** Some comma of `s` stands outside quotes. */
  predicate HasBareComma(s: string, quote: Option<char>) {
    s != "" && ((quote == None && s[0] == ',') || HasBareComma(s[1..], NextQuote(s[0], quote)))
  }

  lemma {:induction false} ScanAppend(s: string, c: char, quote: Option<char>)
    ensures OpenQuote(s + [c], quote) == NextQuote(c, OpenQuote(s, quote))
    ensures HasBareComma(s + [c], quote) <==> HasBareComma(s, quote) || (OpenQuote(s, quote) == None && c == ',')
  {
    if s == "" {
      assert (s + [c])[1..] == "";
      assert OpenQuote((s + [c])[1..], NextQuote(c, quote)) == NextQuote(c, quote);
      assert !HasBareComma((s + [c])[1..], NextQuote(c, quote));
    } else {
      ScanAppend(s[1..], c, NextQuote(s[0], quote));
      assert (s + [c])[1..] == s[1..] + [c];
    }
  }

  lemma {:induction false} SplitPartsAux(s: string, current: string, quote: Option<char>)
    requires !HasBareComma(current, None) && OpenQuote(current, None) == quote
    ensures forall p :: p in Split(s, current, quote) ==> !HasBareComma(p, None)
  {
    if s != "" {
      if quote == None && s[0] == ',' {
        SplitPartsAux(s[1..], "", None);
      } else {
        ScanAppend(current, s[0], None);
        SplitPartsAux(s[1..], current + [s[0]], NextQuote(s[0], quote));
      }
    }
  }

  /** No part holds a comma outside quotes, so the parts are as small as they can be. */
  lemma SplitIsComplete(values: string)
    ensures forall p :: p in Split(values, "", None) ==> !HasBareComma(p, None)
  {
    SplitPartsAux(values, "", None);
  }

  // ---------------------------------------------------------------------------------------------
  // From parts to values
  // ---------------------------------------------------------------------------------------------

  predicate IsNumberChar(c: char) {
    IsDigit(c) || c == '+' || c == '-' || c == '.' || c == 'e' || c == 'E'
  }

  function SkipSign(s: string): string {
    if s != "" && (s[0] == '+' || s[0] == '-') then s[1..] else s
  }

  function SkipDigits(s: string): (r: string)
    ensures |r| <= |s| && r == s[|s| - |r|..]
    ensures forall i :: 0 <= i < |s| - |r| ==> IsNumberChar(s[i])
  {
    if s != "" && IsDigit(s[0]) then
      var r := SkipDigits(s[1..]);
      assert forall i :: 0 < i < |s| - |r| ==> s[i] == s[1..][i - 1];
      r
    else s
  }

  predicate IsExponent(s: string) {
    s == "" || ((s[0] == 'e' || s[0] == 'E') && SkipSign(s[1..]) != "" && SkipDigits(SkipSign(s[1..])) == "")
  }

  /** Decimal literals: sign, digits with an optional point, optional exponent. */
  predicate IsNumber(s: string) {
    var body := SkipSign(s);
    var tail := SkipDigits(body);
    if tail != "" && tail[0] == '.' then
      var fraction := SkipDigits(tail[1..]);
      (|body| > |tail| || |tail| - 1 > |fraction|) && IsExponent(fraction)
    else
      |body| > |tail| && IsExponent(tail)
  }

  predicate AllNumberChars(s: string) {
    forall c :: c in s ==> IsNumberChar(c)
  }

  lemma DigitsThen(s: string)
    requires AllNumberChars(SkipDigits(s))
    ensures AllNumberChars(s)
  {
    var r := SkipDigits(s);
    assert s == s[..|s| - |r|] + r;
  }

  lemma SignThen(s: string)
    requires AllNumberChars(SkipSign(s))
    ensures AllNumberChars(s)
  {
    if s != SkipSign(s) {
      assert s == [s[0]] + s[1..];
    }
  }

  lemma ExponentChars(s: string)
    requires IsExponent(s)
    ensures AllNumberChars(s)
  {
    if s != "" {
      DigitsThen(SkipSign(s[1..]));
      SignThen(s[1..]);
      assert s == [s[0]] + s[1..];
    }
  }

  lemma PointThen(s: string)
    requires s != "" && s[0] == '.' && AllNumberChars(s[1..])
    ensures AllNumberChars(s)
  {
    assert s == [s[0]] + s[1..];
  }

  lemma NumberChars(s: string)
    requires IsNumber(s)
    ensures s != "" && AllNumberChars(s)
  {
    hide IsExponent, AllNumberChars;
    var body := SkipSign(s);
    var tail := SkipDigits(body);
    if tail != "" && tail[0] == '.' {
      ExponentChars(SkipDigits(tail[1..]));
      DigitsThen(tail[1..]);
      PointThen(tail);
    } else {
      ExponentChars(tail);
    }
    DigitsThen(body);
    SignThen(s);
  }

  predicate IsDigits(s: string) {
    forall c :: c in s ==> '0' <= c <= '9'
  }

  predicate IsSign(s: string) {
    s == "" || s == "+" || s == "-"
  }

  /** `e` in either case, a sign and digits, or nothing. */
  ghost predicate IsExponentWord(s: string) {
    s == "" || exists mark, sign, digits :: IsScaled(s, mark, sign, digits)
  }

  predicate IsScaled(s: string, mark: string, sign: string, digits: string) {
    s == mark + sign + digits && (mark == "e" || mark == "E") && IsSign(sign) && digits != "" && IsDigits(digits)
  }

  /** A sign, digits with or without a point, at least one digit in all, and an exponent. */
  ghost predicate IsNumberWord(
    s: string, sign: string, whole: string, point: string, fraction: string, exponent: string)
  {
    && s == sign + whole + point + fraction + exponent
    && IsSign(sign) && IsDigits(whole) && IsDigits(fraction) && IsExponentWord(exponent)
    && (point == "." || (point == "" && fraction == "")) && |whole| + |fraction| > 0
  }

  predicate NoDigitFirst(s: string) {
    s == "" || !IsDigit(s[0])
  }

  lemma {:induction false} SkipDigitsMeaning(s: string)
    ensures NoDigitFirst(SkipDigits(s))
    ensures IsDigits(s[..|s| - |SkipDigits(s)|])
  {
    if s != "" && IsDigit(s[0]) {
      SkipDigitsMeaning(s[1..]);
      var n := |s| - |SkipDigits(s)|;
      assert s[..n] == [s[0]] + s[1..][..n - 1];
    }
  }

  lemma {:induction false} SkipsExactly(digits: string, rest: string)
    requires IsDigits(digits) && NoDigitFirst(rest)
    ensures SkipDigits(digits + rest) == rest
  {
    if digits == "" {
      assert digits + rest == rest;
    } else {
      assert digits[0] in digits && (digits + rest)[1..] == digits[1..] + rest;
      assert forall c :: c in digits[1..] ==> c in digits;
      SkipsExactly(digits[1..], rest);
    }
  }

  lemma SkipSignMeaning(s: string) returns (sign: string)
    ensures IsSign(sign) && s == sign + SkipSign(s)
  {
    sign := if s != "" && (s[0] == '+' || s[0] == '-') then s[..1] else "";
  }

  lemma SkipsSign(sign: string, rest: string)
    requires IsSign(sign) && (rest == "" || (rest[0] != '+' && rest[0] != '-'))
    ensures SkipSign(sign + rest) == rest
  {
    assert sign == "" ==> sign + rest == rest;
  }

  lemma ExponentIsWord(s: string)
    requires s != "" && IsExponent(s)
    ensures IsExponentWord(s)
  {
    hide SkipDigits, SkipSign, IsDigits, IsSign;
    var sign := SkipSignMeaning(s[1..]);
    var digits := SkipSign(s[1..]);
    SkipDigitsMeaning(digits);
    assert digits[..|digits|] == digits;
    assert s == s[..1] + s[1..] == s[..1] + sign + digits;
    assert IsScaled(s, s[..1], sign, digits);
  }

  lemma FirstDigit(digits: string)
    requires digits != "" && IsDigits(digits)
    ensures IsDigit(digits[0]) && digits[0] != '+' && digits[0] != '-' && digits[0] != '.'
  {
    assert digits[0] in digits;
  }

  lemma WordIsExponent(s: string, mark: string, sign: string, digits: string)
    requires IsScaled(s, mark, sign, digits)
    ensures IsExponent(s)
  {
    FirstDigit(digits);
    hide SkipDigits, SkipSign, IsDigits, IsSign, IsExponent;
    SkipsSign(sign, digits);
    AllDigits(digits);
    AfterMark(mark, sign, digits);
    SignedDigits(s, digits);
  }

  lemma AfterMark(mark: string, sign: string, digits: string)
    requires |mark| == 1
    ensures (mark + sign + digits)[1..] == sign + digits && (mark + sign + digits)[0] == mark[0]
  {
  }

  lemma SignedDigits(s: string, digits: string)
    requires s != "" && (s[0] == 'e' || s[0] == 'E')
    requires SkipSign(s[1..]) == digits != "" && SkipDigits(digits) == ""
    ensures IsExponent(s)
  {
  }

  lemma AllDigits(digits: string)
    requires IsDigits(digits)
    ensures SkipDigits(digits) == ""
  {
    SkipsExactly(digits, "");
    assert digits + "" == digits;
  }

  lemma ExponentLanguage(s: string)
    ensures IsExponent(s) <==> IsExponentWord(s)
    ensures IsExponent(s) ==> NoDigitFirst(s) && (s == "" || s[0] != '.')
  {
    hide SkipDigits, SkipSign;
    if s != "" {
      if IsExponent(s) {
        ExponentIsWord(s);
      }
      hide IsScaled;
      if mark, sign, digits :| IsScaled(s, mark, sign, digits) {
        WordIsExponent(s, mark, sign, digits);
      }
    }
  }

  lemma NumberIsWord(s: string)
    requires IsNumber(s)
    ensures exists sign, whole, point, fraction, exponent :: IsNumberWord(s, sign, whole, point, fraction, exponent)
  {
    hide SkipSign, SkipDigits, IsExponent, IsNumberWord, IsDigits, IsSign;
    var sign := SkipSignMeaning(s);
    var body := SkipSign(s);
    SkipDigitsMeaning(body);
    var tail := SkipDigits(body);
    var whole := body[..|body| - |tail|];
    assert body == whole + tail;
    if tail != "" && tail[0] == '.' {
      FractionIsWord(s, sign, whole, tail);
    } else {
      PlainIsWord(s, sign, whole, tail);
    }
  }

  lemma PlainIsWord(s: string, sign: string, whole: string, exponent: string)
    requires s == sign + (whole + exponent) && IsSign(sign) && IsDigits(whole) && whole != "" && IsExponent(exponent)
    ensures IsNumberWord(s, sign, whole, "", "", exponent)
  {
    ExponentLanguage(exponent);
    NoDigits();
    hide IsExponent, IsExponentWord, IsDigits, IsSign;
    assert s == sign + whole + "" + "" + exponent;
  }

  lemma NoDigits()
    ensures IsDigits("")
  {
  }

  lemma FractionIsWord(s: string, sign: string, whole: string, tail: string)
    requires s == sign + (whole + tail) && IsSign(sign) && IsDigits(whole) && tail != "" && tail[0] == '.'
    requires var fraction := SkipDigits(tail[1..]);
             (|whole| > 0 || |tail| - 1 > |fraction|) && IsExponent(fraction)
    ensures exists sign, whole, point, fraction, exponent :: IsNumberWord(s, sign, whole, point, fraction, exponent)
  {
    hide SkipSign, SkipDigits, IsExponent, IsExponentWord, IsDigits, IsSign;
    var after := tail[1..];
    SkipDigitsMeaning(after);
    var exponent := SkipDigits(after);
    var fraction := after[..|after| - |exponent|];
    ExponentLanguage(exponent);
    Regroup(sign, whole, ".", fraction, exponent);
    assert after == fraction + exponent && tail == "." + after;
    assert IsNumberWord(s, sign, whole, ".", fraction, exponent);
  }

  lemma Regroup(sign: string, whole: string, point: string, fraction: string, exponent: string)
    ensures sign + (whole + (point + (fraction + exponent))) == sign + whole + point + fraction + exponent
  {
  }

  lemma WordIsNumber(s: string, sign: string, whole: string, point: string, fraction: string, exponent: string)
    requires IsNumberWord(s, sign, whole, point, fraction, exponent)
    ensures IsNumber(s)
  {
    hide SkipSign, SkipDigits, IsExponent, IsExponentWord, IsDigits, IsSign, NoDigitFirst;
    ExponentLanguage(exponent);
    var tail := point + (fraction + exponent);
    TailStart(point, fraction, exponent);
    Regroup(sign, whole, point, fraction, exponent);
    BodyStart(whole, tail);
    SkipsSign(sign, whole + tail);
    SkipsExactly(whole, tail);
    SkipsExactly(fraction, exponent);
    MantissaIsNumber(s, whole, point, fraction, exponent);
  }

  lemma BodyStart(whole: string, tail: string)
    requires IsDigits(whole) && (tail == "" || (tail[0] != '+' && tail[0] != '-'))
    ensures whole + tail == "" || ((whole + tail)[0] != '+' && (whole + tail)[0] != '-')
  {
    if whole != "" {
      FirstDigit(whole);
    }
  }

  lemma MantissaIsNumber(s: string, whole: string, point: string, fraction: string, exponent: string)
    requires var tail := point + (fraction + exponent);
             && SkipSign(s) == whole + tail && SkipDigits(whole + tail) == tail
             && (tail != "" && tail[0] == '.' <==> point == ".")
    requires SkipDigits(fraction + exponent) == exponent && IsExponent(exponent)
    requires (point == "." || (point == "" && fraction == "")) && |whole| + |fraction| > 0
    ensures IsNumber(s)
  {
    hide SkipSign, SkipDigits, IsExponent;
    var tail := point + (fraction + exponent);
    if point == "." {
      assert tail[1..] == fraction + exponent;
    } else {
      assert tail == exponent;
    }
  }

  lemma TailStart(point: string, fraction: string, exponent: string)
    requires point == "." || (point == "" && fraction == "")
    requires NoDigitFirst(exponent) && IsExponent(exponent) && (exponent == "" || exponent[0] != '.')
    ensures var tail := point + (fraction + exponent);
            && NoDigitFirst(tail) && (tail == "" || (tail[0] != '+' && tail[0] != '-'))
            && (tail != "" && tail[0] == '.' <==> point == ".")
  {
    assert point == "" ==> point + (fraction + exponent) == exponent;
  }

  /** The numbers of a list are exactly the decimal literals. */
  lemma NumberLanguage(s: string)
    ensures IsNumber(s) <==>
      exists sign, whole, point, fraction, exponent :: IsNumberWord(s, sign, whole, point, fraction, exponent)
  {
    if IsNumber(s) {
      NumberIsWord(s);
    }
    if sign, whole, point, fraction, exponent :| IsNumberWord(s, sign, whole, point, fraction, exponent) {
      WordIsNumber(s, sign, whole, point, fraction, exponent);
    }
  }

  predicate IsQuotedPart(part: string) {
    part != "" && IsQuote(part[0]) && part[|part| - 1] == part[0]
  }

  /** Everything between the first and the last character; a lone quote has nothing between. */
  function Inner(part: string): string {
    if |part| >= 2 then part[1..|part| - 1] else ""
  }

  /** A quoted part is a text between two quotes of one kind, or a lone quote, which means the empty text. */
  lemma QuotedParts(part: string)
    ensures IsQuotedPart(part) <==>
      || part == "'" || part == "\""
      || (exists text :: part == "'" + text + "'" || part == "\"" + text + "\"")
    ensures forall text :: Inner("'" + text + "'") == text && Inner("\"" + text + "\"") == text
    ensures Inner("'") == Inner("\"") == ""
  {
    if IsQuotedPart(part) && |part| >= 2 {
      assert part == [part[0]] + part[1..|part| - 1] + [part[0]];
    }
  }

  /** The values meant by the parts, in order; blank parts count for nothing. */
  function ItemsOf(parts: seq<string>): Result<seq<Item>, ParseError> {
    if parts == [] then Ok([])
    else
      var part := Strip(parts[0]);
      if part == "" then ItemsOf(parts[1..])
      else if !IsQuotedPart(part) && !IsNumber(part) then Err(NotANumber(part))
      else
        match ItemsOf(parts[1..])
        case Err(e) => Err(e)
        case Ok(items) => Ok([if IsQuotedPart(part) then Quoted(Inner(part)) else Number(part)] + items)
  }

  /** The part, stripped, is neither blank nor quoted nor a number. */
  predicate IsBadPart(part: string) {
    var core := Strip(part);
    && core != "" && !IsNumber(core)
    && !(core[0] == core[|core| - 1] && (core[0] == '\'' || core[0] == '\"'))
  }

  lemma BadHead(part: string)
    ensures IsBadPart(part) <==> Strip(part) != "" && !IsQuotedPart(Strip(part)) && !IsNumber(Strip(part))
  {
    hide Strip, IsNumber;
  }

  /** A list is refused iff some part is bad. */
  lemma {:induction false} RefusedExactly(parts: seq<string>)
    ensures ItemsOf(parts).Err? <==> exists p :: p in parts && IsBadPart(p)
  {
    if parts != [] {
      BadHead(parts[0]);
      hide IsNumber, Strip, IsBadPart, IsQuotedPart;
      RefusedExactly(parts[1..]);
      if p :| p in parts[1..] && IsBadPart(p) {
        assert p in parts;
      }
      if p :| p in parts && IsBadPart(p) {
        assert p == parts[0] || p in parts[1..];
      }
    }
  }

  lemma HeadIsSkipped(parts: seq<string>)
    requires parts != [] && !IsBadPart(parts[0]) && ItemsOf(parts[1..]).Err?
    ensures ItemsOf(parts) == Err(ItemsOf(parts[1..]).error)
  {
    BadHead(parts[0]);
    hide IsNumber, Strip, IsBadPart, IsQuotedPart;
  }

  lemma BadIsReported(parts: seq<string>)
    requires parts != [] && IsBadPart(parts[0])
    ensures ItemsOf(parts) == Err(NotANumber(Strip(parts[0])))
  {
    BadHead(parts[0]);
    hide IsNumber, Strip, IsBadPart, IsQuotedPart;
  }

  /** The first bad part is the one reported. */
  lemma {:induction false} FirstBadIsReported(before: seq<string>, bad: string, after: seq<string>)
    requires (forall p :: p in before ==> !IsBadPart(p)) && IsBadPart(bad)
    ensures ItemsOf(before + [bad] + after) == Err(NotANumber(Strip(bad)))
  {
    hide ItemsOf, IsNumber, Strip, IsBadPart, IsQuotedPart;
    var parts := before + [bad] + after;
    if before == [] {
      BadIsReported(parts);
    } else {
      assert forall p :: p in before[1..] ==> p in before;
      FirstBadIsReported(before[1..], bad, after);
      assert parts[1..] == before[1..] + [bad] + after && parts[0] == before[0] && before[0] in before;
      HeadIsSkipped(parts);
    }
  }

  /** An accepted list has a value for each part that is not blank. */
  lemma {:induction false} OneValuePerPart(parts: seq<string>)
    requires ItemsOf(parts).Ok?
    ensures |ItemsOf(parts).value| == Count(parts, (p: string) => Strip(p) != "")
  {
    hide IsNumber, Strip, IsQuotedPart;
    if parts != [] {
      OneValuePerPart(parts[1..]);
    }
  }

  function DoubleQuotes(s: string): string {
    if s == "" then "" else (if s[0] == '\'' then "''" else [s[0]]) + DoubleQuotes(s[1..])
  }

  function Print(item: Item): string {
    match item
    case Quoted(t) => "'" + DoubleQuotes(t) + "'"
    case Number(d) => d
  }

  function PrintAll(items: seq<Item>): seq<string> {
    seq(|items|, i requires 0 <= i < |items| => Print(items[i]))
  }

  function ValueList(values: string): Result<seq<Item>, ParseError> {
    match ItemsOf(Split(values, "", None))
    case Err(e) => Err(e)
    case Ok(items) => if items == [] then Err(NoValues) else Ok(items)
  }

  /** Returns the SQL text of the list. */
  method ParseInValues(values: string) returns (sql: Result<string, ParseError>)
    ensures ValueList(values).Err? ==> sql == Err(ValueList(values).error)
    ensures ValueList(values).Ok? ==> sql == Ok(Join(PrintAll(ValueList(values).value), ", "))
  {
    hide IsNumber, Strip, Split, DoubleQuotes, Join;
    var printed: seq<string> := [];
    ghost var items: seq<Item> := [];
    var parts := SplitInValues(values);
    assert forall rest: seq<Item> :: [] + rest == rest;
    for i := 0 to |parts|
      invariant printed == PrintAll(items)
      invariant match ItemsOf(parts[i..])
                case Err(e) => ItemsOf(parts) == Err(e)
                case Ok(rest) => ItemsOf(parts) == Ok(items + rest)
    {
      assert parts[i..][0] == parts[i] && parts[i..][1..] == parts[i + 1..];
      var part := Strip(parts[i]);
      if part != "" {
        ghost var item := if IsQuotedPart(part) then Quoted(Inner(part)) else Number(part);
        if IsQuotedPart(part) {
          printed := printed + ["'" + DoubleQuotes(Inner(part)) + "'"];
        } else {
          if !IsNumber(part) {
            return Err(NotANumber(part));
          }
          printed := printed + [part];
        }
        assert forall rest: seq<Item> :: items + ([item] + rest) == (items + [item]) + rest;
        items := items + [item];
      }
    }
    assert items + [] == items;
    if printed == [] {
      return Err(NoValues);
    }
    return Ok(Join(printed, ", "));
  }

  // ---------------------------------------------------------------------------------------------
  // Reading the SQL back: section 5.3 of ISO/IEC 9075:1992
  // ---------------------------------------------------------------------------------------------

  /** Reads a character string literal after its opening quote; a doubled quote stands for one. */
  function ReadQuoted(s: string, read: string): Option<(string, string)> {
    if s == "" then None
    else if s[0] != '\'' then ReadQuoted(s[1..], read + [s[0]])
    else if |s| > 1 && s[1] == '\'' then ReadQuoted(s[2..], read + "'")
    else Some((read, s[1..]))
  }

  function UntilComma(s: string): (prefix: string)
    ensures prefix <= s
  {
    if s == "" || s[0] == ',' then "" else [s[0]] + UntilComma(s[1..])
  }

  function ReadItem(s: string): Option<(Item, string)> {
    if s != "" && s[0] == '\'' then
      match ReadQuoted(s[1..], "")
      case None => None
      case Some((text, rest)) => Some((Quoted(text), rest))
    else
      var number := UntilComma(s);
      if IsNumber(number) then Some((Number(number), s[|number|..])) else None
  }

  function ReadList(s: string): Option<seq<Item>>
    decreases |s|
  {
    match ReadItem(s)
    case None => None
    case Some((item, rest)) =>
      if rest == "" then Some([item])
      else if ", " <= rest && |rest| <= |s| then
        match ReadList(rest[2..])
        case None => None
        case Some(items) => Some([item] + items)
      else None
  }

  predicate EndsLiteral(rest: string) {
    rest == "" || rest[0] == ','
  }

  lemma {:induction false} ReadDoubled(t: string, rest: string, read: string)
    requires EndsLiteral(rest)
    ensures ReadQuoted(DoubleQuotes(t) + "'" + rest, read) == Some((read + t, rest))
  {
    var s := DoubleQuotes(t) + "'" + rest;
    if t == "" {
      assert s == "'" + rest && s[1..] == rest;
      assert |s| > 1 ==> s[1] == rest[0];
      assert read + t == read;
    } else {
      ReadDoubled(t[1..], rest, read + [t[0]]);
      var tail := DoubleQuotes(t[1..]) + "'" + rest;
      if t[0] == '\'' {
        assert s == "''" + tail && s[2..] == tail;
      } else {
        assert s == [t[0]] + tail && s[1..] == tail;
      }
      assert (read + [t[0]]) + t[1..] == read + t;
    }
  }

  lemma {:induction false} UntilCommaOfNumber(digits: string, rest: string)
    requires ',' !in digits && EndsLiteral(rest)
    ensures UntilComma(digits + rest) == digits
  {
    if digits == "" {
      assert digits + rest == rest;
    } else {
      assert (digits + rest)[1..] == digits[1..] + rest;
      UntilCommaOfNumber(digits[1..], rest);
    }
  }

  predicate WellFormed(item: Item) {
    item.Number? ==> IsNumber(item.digits)
  }

  lemma NumberStart(d: string)
    requires IsNumber(d)
    ensures d != "" && d[0] != '\'' && ',' !in d
  {
    hide IsNumber;
    NumberChars(d);
    assert d[0] in d;
  }

  lemma ReadPrinted(item: Item, rest: string)
    requires WellFormed(item) && EndsLiteral(rest)
    ensures ReadItem(Print(item) + rest) == Some((item, rest))
  {
    hide IsNumber, ReadQuoted, DoubleQuotes, UntilComma;
    var s := Print(item) + rest;
    match item
    case Quoted(t) =>
      ReadDoubled(t, rest, "");
      assert s[1..] == DoubleQuotes(t) + "'" + rest;
      assert "" + t == t;
    case Number(d) =>
      NumberStart(d);
      UntilCommaOfNumber(d, rest);
      assert s[0] == d[0];
      assert s[|d|..] == rest;
  }

  lemma ReadListStep(item: Item, s: string, tail: string, items: seq<Item>)
    requires ReadItem(s) == Some((item, ", " + tail)) && |s| >= |tail| + 2
    requires ReadList(tail) == Some(items)
    ensures ReadList(s) == Some([item] + items)
  {
    hide ReadItem;
    assert (", " + tail)[2..] == tail;
  }

  lemma {:induction false} ReadPrintedList(items: seq<Item>)
    requires items != [] && forall x :: x in items ==> WellFormed(x)
    ensures ReadList(Join(PrintAll(items), ", ")) == Some(items)
  {
    hide ReadItem, WellFormed, Print;
    var printed := PrintAll(items);
    var s := Join(printed, ", ");
    if |items| == 1 {
      ReadPrinted(items[0], "");
      assert s == Print(items[0]) + "";
      assert items == [items[0]];
    } else {
      hide ReadList;
      var tail := Join(PrintAll(items[1..]), ", ");
      assert printed[1..] == PrintAll(items[1..]);
      assert s == Print(items[0]) + (", " + tail);
      ReadPrinted(items[0], ", " + tail);
      ReadPrintedList(items[1..]);
      ReadListStep(items[0], s, tail, items[1..]);
      assert items == [items[0]] + items[1..];
    }
  }

  lemma {:induction false} ItemsAreWellFormed(parts: seq<string>)
    requires ItemsOf(parts).Ok?
    ensures forall x :: x in ItemsOf(parts).value ==> WellFormed(x)
  {
    hide IsNumber, Strip;
    if parts != [] {
      ItemsAreWellFormed(parts[1..]);
    }
  }

  /** Reading the emitted list gives the inner text of each quoted part and each number, in order. */
  lemma EmittedListReadsBack(values: string)
    requires ValueList(values).Ok?
    ensures ReadList(Join(PrintAll(ValueList(values).value), ", ")) == Some(ValueList(values).value)
  {
    ItemsAreWellFormed(Split(values, "", None));
    ReadPrintedList(ValueList(values).value);
  }

  // ---------------------------------------------------------------------------------------------
  // Writing a list so that it is read as meant
  // ---------------------------------------------------------------------------------------------

  /** The language has no escape inside quotes; a text is written in the kind of quotes it does not hold. */
  predicate Writable(item: Item) {
    match item
    case Quoted(t) => '\'' !in t || '\"' !in t
    case Number(d) => IsNumber(d)
  }

  function QuoteFor(text: string): char {
    if '\'' in text then '\"' else '\''
  }

  function Write(item: Item): string {
    match item
    case Quoted(t) => [QuoteFor(t)] + t + [QuoteFor(t)]
    case Number(d) => d
  }

  function WriteAll(items: seq<Item>): seq<string> {
    seq(|items|, i requires 0 <= i < |items| => Write(items[i]))
  }

  lemma {:induction false} ScanConcat(s: string, t: string, quote: Option<char>)
    ensures OpenQuote(s + t, quote) == OpenQuote(t, OpenQuote(s, quote))
    ensures HasBareComma(s + t, quote) <==> HasBareComma(s, quote) || HasBareComma(t, OpenQuote(s, quote))
  {
    if s == "" {
      assert s + t == t;
    } else {
      ScanConcat(s[1..], t, NextQuote(s[0], quote));
      assert (s + t)[0] == s[0] && (s + t)[1..] == s[1..] + t;
    }
  }

  lemma {:induction false} InsideQuotes(t: string, q: char)
    requires q !in t
    ensures OpenQuote(t, Some(q)) == Some(q) && !HasBareComma(t, Some(q))
  {
    if t != "" {
      InsideQuotes(t[1..], q);
    }
  }

  lemma {:induction false} OutsideQuotes(t: string)
    requires forall c :: c in t ==> !IsQuote(c) && c != ','
    ensures OpenQuote(t, None) == None && !HasBareComma(t, None)
  {
    if t != "" {
      OutsideQuotes(t[1..]);
    }
  }

  /** A written item closes its quotes and shows no bare comma. */
  lemma WrittenIsOnePart(item: Item)
    requires Writable(item)
    ensures OpenQuote(Write(item), None) == None && !HasBareComma(Write(item), None) && Write(item) != ""
  {
    match item
    case Quoted(t) =>
      var q := QuoteFor(t);
      InsideQuotes(t, q);
      assert Write(item)[0] == q && Write(item)[1..] == t + [q];
      ScanAppend(t, q, Some(q));
    case Number(d) =>
      hide IsNumber;
      NumberChars(d);
      OutsideQuotes(d);
  }

  /** Reading a part without bare comma only collects it. */
  lemma {:induction false} SplitCollects(part: string, rest: string, current: string, quote: Option<char>)
    requires !HasBareComma(part, quote)
    ensures Split(part + rest, current, quote) == Split(rest, current + part, OpenQuote(part, quote))
  {
    if part == "" {
      assert part + rest == rest && current + part == current;
    } else {
      assert (part + rest)[0] == part[0] && (part + rest)[1..] == part[1..] + rest;
      SplitCollects(part[1..], rest, current + [part[0]], NextQuote(part[0], quote));
      assert current + part == (current + [part[0]]) + part[1..];
    }
  }

  lemma NumberSolid(d: string)
    requires IsNumber(d)
    ensures d != "" && !IsSpace(d[0]) && !IsSpace(d[|d| - 1]) && !IsQuote(d[0])
  {
    hide IsNumber;
    NumberChars(d);
    assert d[0] in d && d[|d| - 1] in d;
  }

  lemma WrittenEnds(item: Item)
    requires Writable(item)
    ensures var w := Write(item); w != "" && !IsSpace(w[0]) && !IsSpace(w[|w| - 1])
  {
    hide IsNumber;
    if item.Number? {
      NumberSolid(item.digits);
    }
  }

  lemma StripSolid(w: string)
    requires w != "" && !IsSpace(w[0]) && !IsSpace(w[|w| - 1])
    ensures Strip(w) == w == Strip(" " + w)
  {
    assert (" " + w)[0] == ' ' && (" " + w)[1..] == w;
    assert StripLeft(w) == w;
  }

  lemma WrittenMeans(item: Item)
    requires Writable(item)
    ensures if item.Quoted? then IsQuotedPart(Write(item)) && Inner(Write(item)) == item.text
            else !IsQuotedPart(Write(item)) && IsNumber(Write(item))
  {
    hide IsNumber;
    if item.Number? {
      NumberSolid(item.digits);
    }
  }

  /** The parts read from a written list: blanks after the commas, nothing else. */
  function PartsOf(items: seq<Item>, lead: string): seq<string> {
    if items == [] then [] else [lead + Write(items[0])] + PartsOf(items[1..], " ")
  }

  predicate IsClosedPart(part: string) {
    OpenQuote(part, None) == None && !HasBareComma(part, None)
  }

  lemma SplitClosedPart(part: string, tail: string)
    requires IsClosedPart(part) && part != ""
    ensures Split(part, "", None) == [part]
    ensures Split(part + "," + tail, "", None) == [part] + Split(tail, "", None)
  {
    SplitCollects(part, "", "", None);
    SplitCollects(part, "," + tail, "", None);
    assert part + "" == part && "" + part == part;
    assert part + "," + tail == part + ("," + tail) && ("," + tail)[1..] == tail;
  }

  lemma LedPartIsClosed(item: Item, lead: string)
    requires Writable(item) && (lead == "" || lead == " ")
    ensures IsClosedPart(lead + Write(item)) && lead + Write(item) != ""
  {
    WrittenIsOnePart(item);
    OutsideQuotes(lead);
    ScanConcat(lead, Write(item), None);
  }

  lemma {:induction false} SplitWritten(items: seq<Item>, lead: string)
    requires items != [] && (lead == "" || lead == " ") && forall x :: x in items ==> Writable(x)
    ensures Split(lead + Join(WriteAll(items), ", "), "", None) == PartsOf(items, lead)
  {
    hide Writable, Write, IsClosedPart, Split;
    var part := lead + Write(items[0]);
    LedPartIsClosed(items[0], lead);
    if |items| == 1 {
      assert lead + Join(WriteAll(items), ", ") == part;
      SplitClosedPart(part, "");
      assert items[1..] == [];
    } else {
      var tail := " " + Join(WriteAll(items[1..]), ", ");
      assert WriteAll(items)[1..] == WriteAll(items[1..]);
      assert lead + Join(WriteAll(items), ", ") == part + "," + tail;
      SplitClosedPart(part, tail);
      SplitWritten(items[1..], " ");
    }
  }

  lemma QuotedIsNonEmpty(part: string)
    ensures IsQuotedPart(part) ==> part != ""
  {
  }

  lemma LedPartMeans(item: Item, lead: string)
    requires Writable(item) && (lead == "" || lead == " ")
    ensures var part := Strip(lead + Write(item));
            && part != "" && (IsQuotedPart(part) || IsNumber(part))
            && (if IsQuotedPart(part) then Quoted(Inner(part)) else Number(part)) == item
  {
    hide IsNumber, Strip, Writable, IsQuotedPart, Inner;
    WrittenEnds(item);
    WrittenMeans(item);
    StripSolid(Write(item));
    assert "" + Write(item) == Write(item);
    QuotedIsNonEmpty(Write(item));
  }

  lemma {:induction false} PartsMean(items: seq<Item>, lead: string)
    requires (lead == "" || lead == " ") && forall x :: x in items ==> Writable(x)
    ensures ItemsOf(PartsOf(items, lead)) == Ok(items)
  {
    hide Writable, IsNumber, Strip, Write, Inner, IsQuotedPart;
    if items != [] {
      LedPartMeans(items[0], lead);
      PartsMean(items[1..], " ");
      assert items == [items[0]] + items[1..];
      assert PartsOf(items, lead)[1..] == PartsOf(items[1..], " ");
    }
  }

  /** Every list of values of which none holds both kinds of quotes can be written so that it is read as meant. */
  lemma WrittenListReadsBack(items: seq<Item>)
    requires items != [] && forall x :: x in items ==> Writable(x)
    ensures ValueList(Join(WriteAll(items), ", ")) == Ok(items)
  {
    SplitWritten(items, "");
    assert "" + Join(WriteAll(items), ", ") == Join(WriteAll(items), ", ");
    PartsMean(items, "");
  }
}
