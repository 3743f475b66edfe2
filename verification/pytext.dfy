/** The two pieces of Python 2 string handling `str_to_timedelta` relies on:
    `str.split(sep)` with an explicit separator, and `int(text)` on a byte
    string in base 10. */
module PyText {
  import opened Results

  /** The characters C's `isspace` accepts in the "C" locale. */
  predicate IsSpace(c: char)
  {
    c == ' ' || c == '\t' || c == '\n' || c == '\r' || c == '\U{000B}' || c == '\U{000C}'
  }

  predicate IsDigit(c: char)
  {
    '0' <= c <= '9'
  }

  predicate AllDigits(s: string)
  {
    forall i :: 0 <= i < |s| ==> IsDigit(s[i])
  }

  // ---------------------------------------------------------------------
  // str.split(sep)

  /** The pieces joined back together with `sep` between neighbours. */
  function Join(parts: seq<string>, sep: char): string
    requires |parts| > 0
    decreases |parts|
  {
    if |parts| == 1 then parts[0] else parts[0] + [sep] + Join(parts[1..], sep)
  }

  /** `s.split(sep)`: every occurrence of `sep` cuts, empty pieces are kept,
      and the empty string gives one empty piece. */
  function Split(s: string, sep: char): (parts: seq<string>)
    ensures |parts| > 0
    decreases |s|
  {
    if |s| == 0 then [""]
    else
      var rest := Split(s[1..], sep);
      if s[0] == sep then [""] + rest
      else [[s[0]] + rest[0]] + rest[1..]
  }

  /** Prefixing the first piece prefixes the joined text. */
  lemma JoinHead(parts: seq<string>, sep: char, c: char)
    requires |parts| > 0
    ensures Join([[c] + parts[0]] + parts[1..], sep) == [c] + Join(parts, sep)
  {

  }

  /** The pieces `Split` returns hold no separator, and joining them again
      gives back the text that was split. */
  lemma {:induction false} SplitPieces(s: string, sep: char)
    ensures forall i :: 0 <= i < |Split(s, sep)| ==> sep !in Split(s, sep)[i]
    ensures Join(Split(s, sep), sep) == s
    decreases |s|
  {
    if |s| > 0 {
      SplitPieces(s[1..], sep);
      var rest := Split(s[1..], sep);
      if s[0] == sep {
        assert Join([""] + rest, sep) == "" + [sep] + Join(rest, sep);
      } else {
        JoinHead(rest, sep, s[0]);
      }
    }
  }

  /** Cutting at a separator splits the two sides independently. */
  lemma {:induction false} SplitAppend(a: string, sep: char, b: string)
    ensures Split(a + [sep] + b, sep) == Split(a, sep) + Split(b, sep)
    decreases |a|
  {
    if |a| == 0 {
      assert a + [sep] + b == [sep] + b;
      assert ([sep] + b)[1..] == b;
    } else {
      assert (a + [sep] + b)[1..] == a[1..] + [sep] + b;
      SplitAppend(a[1..], sep, b);
    }
  }

  /** A piece free of the separator is not cut. */
  lemma {:induction false} SplitWithoutSeparator(a: string, sep: char)
    requires sep !in a
    ensures Split(a, sep) == [a]
    decreases |a|
  {
    if |a| > 0 {
      SplitWithoutSeparator(a[1..], sep);
      assert [a[0]] + a[1..] == a;
    }
  }

  /** Splitting undoes joining: `Split` is the only decomposition of a
      string into separator-free pieces. */
  lemma {:induction false} SplitJoin(parts: seq<string>, sep: char)
    requires |parts| > 0
    requires forall i :: 0 <= i < |parts| ==> sep !in parts[i]
    ensures Split(Join(parts, sep), sep) == parts
    decreases |parts|
  {
    SplitWithoutSeparator(parts[0], sep);
    if |parts| > 1 {
      SplitJoin(parts[1..], sep);
      SplitAppend(parts[0], sep, Join(parts[1..], sep));
      assert [parts[0]] + parts[1..] == parts;
    }
  }

  /** `"a:b:c".split(":")` for separator-free `a`, `b` and `c`. */
  lemma SplitThree(a: string, b: string, c: string, sep: char)
    requires sep !in a && sep !in b && sep !in c
    ensures Split(a + [sep] + b + [sep] + c, sep) == [a, b, c]
  {
    var parts := [a, b, c];
    assert Join(parts[2..], sep) == c;
    assert Join(parts[1..], sep) == b + [sep] + c;
    assert Join(parts, sep) == a + [sep] + b + [sep] + c;
    SplitJoin(parts, sep);
  }

  // ---------------------------------------------------------------------
  // int(text), base 10

  function DigitValue(c: char): (d: nat)
    requires IsDigit(c)
    ensures d < 10
  {
    c as int - '0' as int
  }

  /** The number a run of decimal digits denotes when read after the digits
      already worth `acc`, most significant first. */
  function Accumulate(acc: nat, s: string): nat
    requires AllDigits(s)
    decreases |s|
  {
    if |s| == 0 then acc else Accumulate(10 * acc + DigitValue(s[0]), s[1..])
  }

  /** The number a run of decimal digits denotes. */
  function DigitsValue(s: string): nat
    requires AllDigits(s)
  {
    Accumulate(0, s)
  }

  predicate AllSpace(s: string)
  {
    forall i :: 0 <= i < |s| ==> IsSpace(s[i])
  }

  /** Python 2's `int(text)`, read left to right as `strtol` does: blanks,
      an optional sign, more blanks (Python 2 skips those too), at least one
      decimal digit, and trailing blanks; anything else raises ValueError,
      which is `None` here. */
  function ParseInt(text: string): (r: Option<int>)
    // a number needs at least one decimal digit
    ensures r.Some? ==> exists i :: 0 <= i < |text| && IsDigit(text[i])
    decreases |text|
  {
    if |text| > 0 && IsSpace(text[0]) then ParseInt(text[1..])
    else if |text| > 0 && text[0] == '-' then
      match ParseUnsigned(text[1..])
      case None => None
      case Some(n) => Some(-(n as int))
    else if |text| > 0 && text[0] == '+' then
      match ParseUnsigned(text[1..])
      case None => None
      case Some(n) => Some(n)
    else
      match ReadDigits(text, 0, false)
      case None => None
      case Some(n) => Some(n)
  }

  /** The text after a sign: blanks, then the digits. */
  function ParseUnsigned(text: string): (r: Option<nat>)
    ensures r.Some? ==> exists i :: 0 <= i < |text| && IsDigit(text[i])
    decreases |text|
  {
    if |text| > 0 && IsSpace(text[0]) then ParseUnsigned(text[1..])
    else ReadDigits(text, 0, false)
  }

  /** The digits of the number, worth `acc` so far (`seen` once there was at
      least one), followed by nothing but blanks. */
  function ReadDigits(text: string, acc: nat, seen: bool): (r: Option<nat>)
    ensures r.Some? && !seen ==> exists i :: 0 <= i < |text| && IsDigit(text[i])
    decreases |text|
  {
    if |text| > 0 && IsDigit(text[0]) then ReadDigits(text[1..], 10 * acc + DigitValue(text[0]), true)
    else if seen && AllSpace(text) then Some(acc)
    else None
  }

  /** A run of digits, then blanks, is read as its value. */
  lemma {:induction false} ReadDigitsRun(digits: string, acc: nat)
    requires |digits| > 0 && AllDigits(digits)
    ensures ReadDigits(digits, acc, false) == Some(Accumulate(acc, digits))
    ensures ReadDigits(digits, acc, true) == Some(Accumulate(acc, digits))
    decreases |digits|
  {
    var next := 10 * acc + DigitValue(digits[0]);
    if |digits| == 1 {
      assert ReadDigits(digits[1..], next, true) == Some(next);
    } else {
      ReadDigitsRun(digits[1..], next);
    }
  }

  /** A run of digits followed by blanks is read as the value of the digits
      alone. */
  lemma {:induction false} ReadDigitsThenBlanks(digits: string, blanks: string, acc: nat)
    requires |digits| > 0 && AllDigits(digits) && AllSpace(blanks)
    ensures ReadDigits(digits + blanks, acc, false) == Some(Accumulate(acc, digits))
    decreases |digits|
  {
    var next := 10 * acc + DigitValue(digits[0]);
    assert (digits + blanks)[0] == digits[0];
    if |digits| == 1 {
      assert (digits + blanks)[1..] == blanks;
      assert |blanks| > 0 ==> !IsDigit(blanks[0]);
      assert ReadDigits(blanks, next, true) == Some(next);
      assert Accumulate(next, digits[1..]) == next;
    } else {
      assert (digits + blanks)[1..] == digits[1..] + blanks;
      ReadDigitsThenBlanks(digits[1..], blanks, next);
      assert (digits[1..] + blanks)[0] == digits[1];
    }
  }

  /** Leading blanks are skipped by `int`. */
  lemma {:induction false} ParseIntSkipsBlanks(blanks: string, rest: string)
    requires AllSpace(blanks)
    ensures ParseInt(blanks + rest) == ParseInt(rest)
    decreases |blanks|
  {
    if |blanks| > 0 {
      assert (blanks + rest)[0] == blanks[0];
      assert (blanks + rest)[1..] == blanks[1..] + rest;
      ParseIntSkipsBlanks(blanks[1..], rest);
    } else {
      assert blanks + rest == rest;
    }
  }

  /** Blanks between the sign and the digits are skipped too. */
  lemma {:induction false} ParseUnsignedSkipsBlanks(blanks: string, rest: string)
    requires AllSpace(blanks)
    ensures ParseUnsigned(blanks + rest) == ParseUnsigned(rest)
    decreases |blanks|
  {
    if |blanks| > 0 {
      assert (blanks + rest)[0] == blanks[0];
      assert (blanks + rest)[1..] == blanks[1..] + rest;
      ParseUnsignedSkipsBlanks(blanks[1..], rest);
    } else {
      assert blanks + rest == rest;
    }
  }

  /** A sign is followed by the unsigned part: `-` negates it, `+` keeps it. */
  lemma ParseIntAfterSign(rest: string)
    ensures ParseUnsigned(rest).Some? ==>
      ParseInt("-" + rest) == Some(-(ParseUnsigned(rest).value as int)) &&
      ParseInt("+" + rest) == Some(ParseUnsigned(rest).value)
  {
    var minus := "-" + rest;
    var plus := "+" + rest;
    assert minus[0] == '-' && minus[1..] == rest;
    assert plus[0] == '+' && plus[1..] == rest;
  }

  /** Regrouping a signed numeral around its sign. */
  lemma Regroup(lead: string, sign: string, gap: string, digits: string, trail: string)
    ensures lead + sign + gap + digits + trail == lead + (sign + (gap + (digits + trail)))
  {
  }

  /** A numeral with blanks around it is read as the value of its digits. */
  lemma ParseIntUnsignedNumeral(lead: string, digits: string, trail: string)
    requires AllSpace(lead) && AllSpace(trail)
    requires |digits| > 0 && AllDigits(digits)
    ensures ParseInt(lead + digits + trail) == Some(DigitsValue(digits))
  {
    ReadDigitsThenBlanks(digits, trail, 0);
    var number := digits + trail;
    assert number[0] == digits[0];
    ParseIntSkipsBlanks(lead, number);
    assert lead + digits + trail == lead + number;
  }

  /** The part after a sign, blanks first, is read as the value of its
      digits. */
  lemma ParseUnsignedNumeral(gap: string, digits: string, trail: string)
    requires AllSpace(gap) && AllSpace(trail)
    requires |digits| > 0 && AllDigits(digits)
    ensures ParseUnsigned(gap + (digits + trail)) == Some(DigitsValue(digits))
  {
    ReadDigitsThenBlanks(digits, trail, 0);
    var number := digits + trail;
    assert number[0] == digits[0];
    ParseUnsignedSkipsBlanks(gap, number);
  }

  /** A negative numeral, blanks around it and after the `-`. */
  lemma ParseIntNegative(lead: string, gap: string, digits: string, trail: string)
    requires AllSpace(lead) && AllSpace(gap) && AllSpace(trail)
    requires |digits| > 0 && AllDigits(digits)
    ensures ParseInt(lead + "-" + gap + digits + trail) == Some(-(DigitsValue(digits) as int))
  {
    var rest := gap + (digits + trail);
    ParseUnsignedNumeral(gap, digits, trail);
    ParseIntAfterSign(rest);
    var minus := "-" + rest;
    assert ParseInt(minus) == Some(-(DigitsValue(digits) as int));
    ParseIntSkipsBlanks(lead, minus);
    Regroup(lead, "-", gap, digits, trail);
  }

  /** A numeral with a `+`, blanks around it and after the sign. */
  lemma ParseIntPositive(lead: string, gap: string, digits: string, trail: string)
    requires AllSpace(lead) && AllSpace(gap) && AllSpace(trail)
    requires |digits| > 0 && AllDigits(digits)
    ensures ParseInt(lead + "+" + gap + digits + trail) == Some(DigitsValue(digits))
  {
    var rest := gap + (digits + trail);
    ParseUnsignedNumeral(gap, digits, trail);
    ParseIntAfterSign(rest);
    var plus := "+" + rest;
    assert ParseInt(plus) == Some(DigitsValue(digits));
    ParseIntSkipsBlanks(lead, plus);
    Regroup(lead, "+", gap, digits, trail);
  }

  /** A decimal numeral with an optional sign and blanks around it and after
      the sign is read as the value of its digits, negated after `-`. */
  lemma ParseIntSigned(lead: string, gap: string, digits: string, trail: string)
    requires AllSpace(lead) && AllSpace(gap) && AllSpace(trail)
    requires |digits| > 0 && AllDigits(digits)
    ensures ParseInt(lead + digits + trail) == Some(DigitsValue(digits))
    ensures ParseInt(lead + "-" + gap + digits + trail) == Some(-(DigitsValue(digits) as int))
    ensures ParseInt(lead + "+" + gap + digits + trail) == Some(DigitsValue(digits))
  {
    ParseIntUnsignedNumeral(lead, digits, trail);
    ParseIntNegative(lead, gap, digits, trail);
    ParseIntPositive(lead, gap, digits, trail);
  }

  /** What Python 2's `int()` accepts in base 10: blanks, an optional sign
      followed by blanks, at least one decimal digit, and blanks. */
  ghost predicate IsNumeral(text: string)
  {
    exists lead, sign, gap, digits, trail ::
      && AllSpace(lead) && (sign == "" || sign == "-" || sign == "+")
      && AllSpace(gap) && (sign == "" ==> gap == "")
      && |digits| > 0 && AllDigits(digits) && AllSpace(trail)
      && text == lead + sign + gap + digits + trail
  }

  /** Exhibits the pieces of a numeral. */
  lemma NumeralWitness(text: string, lead: string, sign: string, gap: string, digits: string, trail: string)
    requires AllSpace(lead) && (sign == "" || sign == "-" || sign == "+")
    requires AllSpace(gap) && (sign == "" ==> gap == "")
    requires |digits| > 0 && AllDigits(digits) && AllSpace(trail)
    requires text == lead + sign + gap + digits + trail
    ensures IsNumeral(text)
  {
  }

  /** A number read by `ReadDigits` comes from `k` digits, then blanks only. */
  lemma {:induction false} ReadDigitsShape(text: string, acc: nat, seen: bool) returns (k: nat)
    requires ReadDigits(text, acc, seen).Some?
    ensures k <= |text| && AllDigits(text[..k]) && AllSpace(text[k..])
    ensures !seen ==> k > 0
    decreases |text|
  {
    if |text| > 0 && IsDigit(text[0]) {
      var rest := ReadDigitsShape(text[1..], 10 * acc + DigitValue(text[0]), true);
      k := rest + 1;
      assert text[..k] == [text[0]] + text[1..][..rest];
      assert text[k..] == text[1..][rest..];
    } else {
      k := 0;
    }
  }

  /** A number read after a sign comes from blanks (`g` of them), `k > 0`
      digits, then blanks. */
  lemma {:induction false} ParseUnsignedShape(text: string) returns (g: nat, k: nat)
    requires ParseUnsigned(text).Some?
    ensures g + k <= |text| && k > 0
    ensures AllSpace(text[..g]) && AllDigits(text[g..g + k]) && AllSpace(text[g + k..])
    decreases |text|
  {
    if |text| > 0 && IsSpace(text[0]) {
      var g', k' := ParseUnsignedShape(text[1..]);
      g, k := g' + 1, k';
      assert text[..g] == [text[0]] + text[1..][..g'];
      assert text[g..g + k] == text[1..][g'..g' + k'];
      assert text[g + k..] == text[1..][g' + k'..];
    } else {
      k := ReadDigitsShape(text, 0, false);
      g := 0;
      assert text[g..g + k] == text[..k];
    }
  }

  /** A text whose first character is a blank is a numeral when the rest is. */
  lemma NumeralAfterBlank(text: string)
    requires |text| > 0 && IsSpace(text[0]) && IsNumeral(text[1..])
    ensures IsNumeral(text)
  {
    var lead, sign, gap, digits, trail :|
      && AllSpace(lead) && (sign == "" || sign == "-" || sign == "+")
      && AllSpace(gap) && (sign == "" ==> gap == "")
      && |digits| > 0 && AllDigits(digits) && AllSpace(trail)
      && text[1..] == lead + sign + gap + digits + trail;
    assert text == [text[0]] + lead + sign + gap + digits + trail;
    NumeralWitness(text, [text[0]] + lead, sign, gap, digits, trail);
  }

  /** A sign followed by what `ParseUnsigned` reads is a numeral. */
  lemma NumeralAfterSign(text: string)
    requires |text| > 0 && (text[0] == '-' || text[0] == '+') && ParseUnsigned(text[1..]).Some?
    ensures IsNumeral(text)
  {
    var rest := text[1..];
    var g, k := ParseUnsignedShape(rest);
    assert rest == rest[..g] + rest[g..g + k] + rest[g + k..];
    assert text == "" + [text[0]] + rest[..g] + rest[g..g + k] + rest[g + k..];
    NumeralWitness(text, "", [text[0]], rest[..g], rest[g..g + k], rest[g + k..]);
  }

  /** Digits read from the start of the text make it a numeral. */
  lemma NumeralFromDigits(text: string)
    requires ReadDigits(text, 0, false).Some?
    ensures IsNumeral(text)
  {
    var k := ReadDigitsShape(text, 0, false);
    assert text == "" + "" + "" + text[..k] + text[k..];
    NumeralWitness(text, "", "", "", text[..k], text[k..]);
  }

  /** Whatever `int()` accepts is a numeral. */
  lemma {:induction false} ParseIntOnlyNumerals(text: string)
    ensures ParseInt(text).Some? ==> IsNumeral(text)
    decreases |text|
  {
    if ParseInt(text).Some? {
      if |text| > 0 && IsSpace(text[0]) {
        ParseIntOnlyNumerals(text[1..]);
        NumeralAfterBlank(text);
      } else if |text| > 0 && (text[0] == '-' || text[0] == '+') {
        NumeralAfterSign(text);
      } else {
        NumeralFromDigits(text);
      }
    }
  }

  /** Every numeral is accepted by `int()`. */
  lemma NumeralsParse(text: string)
    requires IsNumeral(text)
    ensures ParseInt(text).Some?
  {
    var lead, sign, gap, digits, trail :|
      && AllSpace(lead) && (sign == "" || sign == "-" || sign == "+")
      && AllSpace(gap) && (sign == "" ==> gap == "")
      && |digits| > 0 && AllDigits(digits) && AllSpace(trail)
      && text == lead + sign + gap + digits + trail;
    if sign == "" {
      assert text == lead + digits + trail;
      ParseIntUnsignedNumeral(lead, digits, trail);
    } else if sign == "-" {
      ParseIntNegative(lead, gap, digits, trail);
    } else {
      ParseIntPositive(lead, gap, digits, trail);
    }
  }

  /** `int()` accepts exactly the numerals. */
  lemma ParseIntNumerals(text: string)
    ensures ParseInt(text).Some? <==> IsNumeral(text)
  {
    ParseIntOnlyNumerals(text);
    if IsNumeral(text) {
      NumeralsParse(text);
    }
  }

  /** Trailing junk, a decimal point and blanks between digits are refused. */
  lemma ExampleNotNumerals()
    ensures ParseInt("1a") == None && ParseInt("1.5") == None && ParseInt("1 2") == None
  {
    assert "1 2"[1..] == " 2" && !IsSpace(" 2"[1]);
    assert ReadDigits(" 2", 1, true) == None;
  }

  /** Appending a digit shifts the value one decimal place. */
  lemma {:induction false} AccumulateSnoc(acc: nat, s: string, c: char)
    requires AllDigits(s) && IsDigit(c)
    ensures AllDigits(s + [c])
    ensures Accumulate(acc, s + [c]) == 10 * Accumulate(acc, s) + DigitValue(c)
    decreases |s|
  {
    if |s| == 0 {
      assert (s + [c])[1..] == [];
    } else {
      assert (s + [c])[1..] == s[1..] + [c];
      AccumulateSnoc(10 * acc + DigitValue(s[0]), s[1..], c);
    }
  }

  function DigitChar(d: nat): (c: char)
    requires d < 10
    ensures IsDigit(c) && DigitValue(c) == d
  {
    ('0' as int + d) as char
  }

  /** `str(n)` for a natural number: its shortest decimal numeral. */
  function NatText(n: nat): string
    decreases n
  {
    if n < 10 then [DigitChar(n)] else NatText(n / 10) + [DigitChar(n % 10)]
  }

  /** `"%02d" % n`: at least two digits, padded with a zero. */
  function Pad2(n: nat): string
  {
    if n < 10 then "0" + NatText(n) else NatText(n)
  }

  /** The numeral of `n` is made of digits and denotes `n`. */
  lemma {:induction false} NatTextValue(n: nat)
    ensures |NatText(n)| > 0 && AllDigits(NatText(n))
    ensures DigitsValue(NatText(n)) == n
    decreases n
  {
    if n < 10 {
      assert Accumulate(0, NatText(n)) == Accumulate(n, []);
    } else {
      NatTextValue(n / 10);
      AccumulateSnoc(0, NatText(n / 10), DigitChar(n % 10));
      assert n == 10 * (n / 10) + n % 10;
    }
  }

  /** A numeral made of digits only is read back as its value. */
  lemma ParseDigits(s: string)
    requires |s| > 0 && AllDigits(s)
    ensures ParseInt(s) == Some(DigitsValue(s))
  {
    assert IsDigit(s[0]);
    ReadDigitsRun(s, 0);
  }

  /** `int(str(n)) == n`. */
  lemma ParseNatText(n: nat)
    ensures ParseInt(NatText(n)) == Some(n)
  {
    NatTextValue(n);
    ParseDigits(NatText(n));
  }

  /** `int("%02d" % n) == n`: a leading zero changes nothing. */
  lemma ParsePad2(n: nat)
    ensures ParseInt(Pad2(n)) == Some(n)
  {
    NatTextValue(n);
    if n < 10 {
      var p := Pad2(n);
      assert p[1..] == NatText(n);
      assert AllDigits(p);
      assert DigitsValue(p) == n;
      ParseDigits(p);
    } else {
      ParseDigits(NatText(n));
    }
  }

  /** A padded numeral is made of digits and so contains no colon. */
  lemma Pad2Digits(n: nat)
    ensures AllDigits(Pad2(n)) && ':' !in Pad2(n)
  {
    NatTextValue(n);
    var p := Pad2(n);
    assert forall i :: 0 <= i < |p| ==> IsDigit(p[i]);
    assert forall i :: 0 <= i < |p| ==> p[i] != ':';
  }
}
