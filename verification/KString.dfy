/** C strings, number texts and formats of kstring.c, as values. */
module StringSpec {
  import opened Words

  const NUL := '\0'
  const NUM_MAP := "0123456789ABCDEF"
  const INT_MIN := -0x8000_0000

  /** Memory that a char pointer may be given to: a terminator lies in it. */
  predicate Terminated(m: seq<char>) {
    NUL in m
  }

  /** The string that a char pointer to this memory stands for. */
  function Text(m: seq<char>): string {
    if m == [] || m[0] == NUL then [] else [m[0]] + Text(m[1..])
  }

  predicate IsCString(s: string) {
    NUL !in s
  }

  function Reverse<T>(s: seq<T>): (r: seq<T>)
    ensures |r| == |s|
  {
    if s == [] then [] else Reverse(s[1..]) + [s[0]]
  }

  // ---- numbers ----

  function Digit(d: nat): char
    requires d < 16
  {
    NUM_MAP[d]
  }

  /** Bases above 16 are taken as 16. */
  function Radix(base: int): int {
    if base > 16 then 16 else base
  }

  /** The digits of n, most significant first; none for 0. */
  function Digits(n: nat, radix: nat): string
    requires 2 <= radix <= 16
    decreases n
  {
    if n == 0 then [] else Digits(n / radix, radix) + [Digit(n % radix)]
  }

  /** The text of a number: its digits, and "0" for 0. */
  function Unsigned(n: nat, radix: nat): string
    requires 2 <= radix <= 16
  {
    if n == 0 then "0" else Digits(n, radix)
  }

  function Signed(n: int, radix: nat): string
    requires 2 <= radix <= 16
  {
    if n < 0 then "-" + Unsigned(-n, radix) else Unsigned(n, radix)
  }

  // ---- formats ----

  /** An argument of k_sprintf: a 32-bit word, or a pointer to memory with a string. */
  datatype Arg = Word(w: nat) | Str(s: seq<char>)

  /** A word read as a signed int. */
  function AsInt(w: nat): int {
    if w >= 0x8000_0000 then w - WORD_MODULUS else w
  }

  predicate FitsLetter(letter: char, args: seq<Arg>) {
    match letter
    case 's' => args != [] && args[0].Str? && Terminated(args[0].s)
    case 'd' => args != [] && args[0].Word? && args[0].w < WORD_MODULUS && AsInt(args[0].w) != INT_MIN
    case 'x' => args != [] && args[0].Word? && args[0].w < WORD_MODULUS
    case _ => true
  }

  /** What follows a percent sign: the letter stands for this text, ... */
  function RenderLetter(letter: char, args: seq<Arg>): string
    requires FitsLetter(letter, args)
  {
    match letter
    case '%' => "%"
    case 's' => Text(args[0].s)
    case 'd' => Signed(AsInt(args[0].w), 10)
    case 'x' => Unsigned(args[0].w, 16)
    case _ => ""
  }

  /** ... and leaves these arguments. */
  function AfterLetter(letter: char, args: seq<Arg>): seq<Arg>
    requires FitsLetter(letter, args)
  {
    if letter in "sdx" then args[1..] else args
  }

  /** The arguments are there, of the right kind, and no %d takes INT_MIN. */
  predicate Fits(fmt: string, args: seq<Arg>) {
    if fmt == [] then true
    else if fmt[0] != '%' then Fits(fmt[1..], args)
    else if |fmt| == 1 then true
    else FitsLetter(fmt[1], args) && Fits(fmt[2..], AfterLetter(fmt[1], args))
  }

  /** The text of a format and its arguments.  An unknown letter is dropped with its percent
      sign, and so is a percent sign at the end. */
  function Render(fmt: string, args: seq<Arg>): string
    requires Fits(fmt, args)
  {
    if fmt == [] then []
    else if fmt[0] != '%' then [fmt[0]] + Render(fmt[1..], args)
    else if |fmt| == 1 then []
    else RenderLetter(fmt[1], args) + Render(fmt[2..], AfterLetter(fmt[1], args))
  }
}

module StringProofs {
  import opened Words
  import opened StringSpec

  // ---- C strings ----

  lemma {:induction false} TextEnds(m: seq<char>)
    requires Terminated(m)
    ensures |Text(m)| < |m| && m[|Text(m)|] == NUL
    ensures Text(m) == m[..|Text(m)|] && IsCString(Text(m))
  {
    if m[0] != NUL {
      TextEnds(m[1..]);
      assert m[..|Text(m)|] == [m[0]] + m[1..][..|Text(m[1..])|];
    }
  }

  lemma {:induction false} TextIsPrefix(m: seq<char>, k: nat)
    requires k < |m| && IsCString(m[..k]) && m[k] == NUL
    ensures Text(m) == m[..k]
  {
    if k > 0 {
      assert m[0] in m[..k];
      assert m[1..][..k - 1] == m[..k][1..];
      TextIsPrefix(m[1..], k - 1);
    }
  }

  /** Moving a char pointer past one character of its string. */
  lemma TextStep(m: seq<char>, p: nat)
    requires p < |m| && Terminated(m[p..])
    ensures m[p] == NUL <==> Text(m[p..]) == []
    ensures m[p] != NUL ==> Text(m[p..]) == [m[p]] + Text(m[p + 1..]) && Terminated(m[p + 1..])
  {
    if m[p] != NUL {
      assert m[p..][1..] == m[p + 1..];
      assert m[p..] == [m[p]] + m[p + 1..];
    }
  }

  // ---- reversal ----

  lemma {:induction false} ReverseAt<T>(s: seq<T>, k: nat)
    requires k < |s|
    ensures Reverse(s)[k] == s[|s| - 1 - k]
  {
    if k < |s| - 1 {
      ReverseAt(s[1..], k);
    }
  }

  lemma ReverseTwice<T>(s: seq<T>)
    ensures Reverse(Reverse(s)) == s
  {
    forall k | 0 <= k < |s| ensures Reverse(Reverse(s))[k] == s[k] {
      ReverseAt(Reverse(s), k);
      ReverseAt(s, |s| - 1 - k);
    }
  }

  lemma {:induction false} ReverseLast<T>(s: seq<T>, x: T)
    ensures Reverse(s + [x]) == [x] + Reverse(s)
  {
    if s == [] {
      assert [x][1..] == [];
    } else {
      ReverseLast(s[1..], x);
      assert (s + [x])[1..] == s[1..] + [x];
    }
  }

  // ---- numbers ----

  function DigitValue(c: char): int {
    if '0' <= c <= '9' then c as int - '0' as int
    else if 'A' <= c <= 'F' then c as int - 'A' as int + 10
    else -1
  }

  /** A text read as a number, last digit least significant. */
  function Value(s: string, radix: nat): int {
    if s == [] then 0 else Value(s[..|s| - 1], radix) * radix + DigitValue(s[|s| - 1])
  }

  function SignedValue(s: string, radix: nat): int {
    if s != [] && s[0] == '-' then -Value(s[1..], radix) else Value(s, radix)
  }

  function Power(b: nat, e: nat): nat {
    if e == 0 then 1 else Power(b, e - 1) * b
  }

  lemma Division(n: nat, radix: nat) returns (q: nat, r: nat)
    requires radix > 0
    ensures q == n / radix && r == n % radix
    ensures n == q * radix + r && r < radix
  {
    q, r := n / radix, n % radix;
  }

  /** The last digit and the number before it. */
  lemma LastDigit(n: nat, radix: nat) returns (q: nat, r: nat)
    requires 2 <= radix <= 16 && n > 0
    ensures n == q * radix + r && r < radix && q <= n / 2
    ensures Digits(n, radix) == Digits(q, radix) + [Digit(r)]
  {
    q, r := Division(n, radix);
    Quotient(n, radix);
  }

  lemma Quotient(n: nat, radix: nat)
    requires radix >= 2
    ensures n / radix <= n / 2
  {
    var q, r := Division(n, radix);
    Scaled(2, radix, q);
  }

  lemma Scaled(a: nat, b: nat, c: nat)
    requires a <= b
    ensures a * c <= b * c
  {
  }

  lemma DigitsAreDigits(d: nat)
    requires d < 16
    ensures DigitValue(Digit(d)) == d && Digit(d) != NUL && Digit(d) != '-'
    ensures d > 0 ==> Digit(d) != '0'
  {
  }

  lemma ValueOfLast(s: string, c: char, radix: nat)
    ensures Value(s + [c], radix) == Value(s, radix) * radix + DigitValue(c)
  {
    assert (s + [c])[..|s|] == s;
  }

  /** The digits of n read as a number give n. */
  lemma {:induction false} DigitsRoundTrip(n: nat, radix: nat)
    requires 2 <= radix <= 16
    ensures Value(Digits(n, radix), radix) == n
    decreases n
  {
    if n > 0 {
      var q, r := LastDigit(n, radix);
      DigitsRoundTrip(q, radix);
      DigitsAreDigits(r);
      ValueOfLast(Digits(q, radix), Digit(r), radix);
    }
  }

  lemma MoreDigits(n: nat, q: nat, r: nat, radix: nat, low: nat, high: nat)
    requires n == q * radix + r && r < radix
    ensures q < high ==> n < high * radix
    ensures low <= q ==> low * radix <= n
  {
    if q < high {
      Scaled(q + 1, high, radix);
    }
    if low <= q {
      Scaled(low, q, radix);
    }
  }

  /** No leading zero, and exactly as many digits as the size of n calls for. */
  lemma {:induction false} DigitsAreMinimal(n: nat, radix: nat)
    requires 2 <= radix <= 16
    ensures n < Power(radix, |Digits(n, radix)|)
    ensures n > 0 ==> |Digits(n, radix)| > 0 && Power(radix, |Digits(n, radix)| - 1) <= n
    decreases n
  {
    if n > 0 {
      var q, r := LastDigit(n, radix);
      DigitsAreMinimal(q, radix);
      var k := |Digits(q, radix)|;
      assert |Digits(n, radix)| == k + 1;
      MoreDigits(n, q, r, radix, if k > 0 then Power(radix, k - 1) else 0, Power(radix, k));
    }
  }

  lemma {:induction false} NoLeadingZero(n: nat, radix: nat)
    requires 2 <= radix <= 16 && n > 0
    ensures |Digits(n, radix)| > 0 && Digits(n, radix)[0] != '0'
    decreases n
  {
    var q, r := LastDigit(n, radix);
    DigitsAreDigits(r);
    if q > 0 {
      NoLeadingZero(q, radix);
    }
  }

  lemma {:induction false} DigitsAreFew(n: nat, radix: nat, bits: nat)
    requires 2 <= radix <= 16 && n < Power(2, bits)
    ensures |Digits(n, radix)| <= bits
    decreases n
  {
    if n > 0 {
      var q, r := LastDigit(n, radix);
      DigitsAreFew(q, radix, bits - 1);
    }
  }

  lemma {:induction false} DigitsArePlain(n: nat, radix: nat)
    requires 2 <= radix <= 16
    ensures IsCString(Digits(n, radix)) && '-' !in Digits(n, radix)
    decreases n
  {
    if n > 0 {
      var q, r := LastDigit(n, radix);
      DigitsArePlain(q, radix);
      DigitsAreDigits(r);
    }
  }

  /** The text of a word has no terminator inside and fits in the 256 characters that
      k_sprintf keeps for it. */
  lemma NumberTextFits(n: int, radix: nat)
    requires 2 <= radix <= 16 && -WORD_MODULUS < n < WORD_MODULUS
    ensures |Signed(n, radix)| <= 33 && IsCString(Signed(n, radix))
  {
    var m := if n < 0 then -n else n;
    assert Power(2, 8) == 256 && Power(2, 16) == 0x1_0000;
    assert Power(2, 24) == 0x100_0000 && Power(2, 32) == 0x1_0000_0000;
    DigitsAreFew(m, radix, 32);
    DigitsArePlain(m, radix);
  }

  /** Number texts read back as the number, signed ones too. */
  lemma NumbersRoundTrip(n: int, radix: nat)
    requires 2 <= radix <= 16
    ensures SignedValue(Signed(n, radix), radix) == n
    ensures n >= 0 ==> Value(Unsigned(n, radix), radix) == n
  {
    var m := if n < 0 then -n else n;
    DigitsRoundTrip(m, radix);
    DigitsArePlain(m, radix);
    ValueOfLast("", '0', radix);
    assert "" + ['0'] == "0";
    if n < 0 {
      assert Signed(n, radix)[1..] == Digits(m, radix);
    } else if n > 0 {
      assert Digits(m, radix)[0] in Digits(m, radix);
    }
  }

  // ---- numerals ----

  /** The text is how n is written: digits of this base, with that value, and no zero in front. */
  ghost predicate IsNumeral(text: string, n: nat, radix: nat) {
    && text != [] && (forall i :: 0 <= i < |text| ==> 0 <= DigitValue(text[i]) < radix)
    && Value(text, radix) == n && (text[0] == '0' ==> |text| == 1)
  }

  lemma {:induction false} DigitsInBase(n: nat, radix: nat)
    requires 2 <= radix <= 16
    ensures forall i :: 0 <= i < |Digits(n, radix)| ==> 0 <= DigitValue(Digits(n, radix)[i]) < radix
    decreases n
  {
    if n > 0 {
      var q, r := LastDigit(n, radix);
      DigitsInBase(q, radix);
      DigitsAreDigits(r);
    }
  }

  lemma UnsignedIsNumeral(n: nat, radix: nat)
    requires 2 <= radix <= 16
    ensures IsNumeral(Unsigned(n, radix), n, radix)
  {
    NumbersRoundTrip(n, radix);
    if n > 0 {
      DigitsInBase(n, radix);
      NoLeadingZero(n, radix);
    } else {
      assert Unsigned(n, radix) == "0";
    }
  }

  lemma SameQuotient(q: nat, d: nat, q': nat, d': nat, radix: nat)
    requires q * radix + d == q' * radix + d' && d < radix && d' < radix
    ensures q == q' && d == d'
  {
    if q < q' {
      Scaled(q + 1, q', radix);
    } else if q > q' {
      Scaled(q' + 1, q, radix);
    }
  }

  lemma {:induction false} ValueIsNatural(text: string, radix: nat)
    requires forall i :: 0 <= i < |text| ==> 0 <= DigitValue(text[i]) < radix
    ensures Value(text, radix) >= 0
    ensures text != [] && text[0] != '0' ==> Value(text, radix) > 0
  {
    if text != [] {
      ValueIsNatural(text[..|text| - 1], radix);
      var before := Value(text[..|text| - 1], radix);
      Scaled(if before > 0 then 1 else 0, before, radix);
      if |text| == 1 {
        assert Value(text[..0], radix) == 0;
        if DigitValue(text[0]) == 0 { SameDigit(text[0], '0'); }
      }
    }
  }

  lemma SameDigit(c: char, d: char)
    requires DigitValue(c) == DigitValue(d) >= 0
    ensures c == d
  {
  }

  lemma {:induction false} SameDigits(text: string, other: string, radix: nat)
    requires (forall i :: 0 <= i < |text| ==> 0 <= DigitValue(text[i]) < radix)
    requires (forall i :: 0 <= i < |other| ==> 0 <= DigitValue(other[i]) < radix)
    requires text != [] ==> text[0] != '0'
    requires other != [] ==> other[0] != '0'
    requires Value(text, radix) == Value(other, radix)
    ensures text == other
    decreases |text|
  {
    ValueIsNatural(text, radix);
    ValueIsNatural(other, radix);
    if text != [] && other != [] {
      var a, b := text[..|text| - 1], other[..|other| - 1];
      ValueIsNatural(a, radix);
      ValueIsNatural(b, radix);
      SameQuotient(Value(a, radix), DigitValue(text[|text| - 1]),
                   Value(b, radix), DigitValue(other[|other| - 1]), radix);
      SameDigits(a, b, radix);
      SameDigit(text[|text| - 1], other[|other| - 1]);
      assert text == a + [text[|text| - 1]] && other == b + [other[|other| - 1]];
    }
  }

  /** There is only one way to write a number. */
  lemma NumeralIsUnique(text: string, other: string, n: nat, radix: nat)
    requires IsNumeral(text, n, radix) && IsNumeral(other, n, radix)
    ensures text == other
  {
    if text[0] == '0' || other[0] == '0' {
      ValueIsNatural(text, radix);
      ValueIsNatural(other, radix);
      assert text[0] == '0' ==> text == "0" && text[..0] == "" && Value(text, radix) == 0;
      assert other[0] == '0' ==> other == "0" && other[..0] == "" && Value(other, radix) == 0;
    } else {
      SameDigits(text, other, radix);
    }
  }

  /** The base of a number text is the base asked for, and 16 for larger ones. */
  lemma RadixIsBase(n: nat, base: int)
    requires base >= 2
    ensures IsNumeral(Unsigned(n, Radix(base)), n, if base <= 16 then base else 16)
  {
    UnsignedIsNumeral(n, Radix(base));
  }

  // ---- what a format stands for, piece by piece ----

  lemma RenderNothing(args: seq<Arg>)
    ensures Fits("", args) && Render("", args) == "" && Fits("%", args) && Render("%", args) == ""
  {
  }

  lemma RenderPlain(ch: char, rest: string, args: seq<Arg>)
    requires ch != '%' && Fits(rest, args)
    ensures Fits([ch] + rest, args) && Render([ch] + rest, args) == [ch] + Render(rest, args)
  {
    assert ([ch] + rest)[1..] == rest;
  }

  lemma AfterPercent(letter: char, rest: string, args: seq<Arg>)
    requires FitsLetter(letter, args) && Fits(rest, AfterLetter(letter, args))
    ensures var fmt := ['%', letter] + rest;
            && Fits(fmt, args)
            && Render(fmt, args) == RenderLetter(letter, args) + Render(rest, AfterLetter(letter, args))
  {
    var fmt := ['%', letter] + rest;
    assert fmt[2..] == rest && fmt[0] == '%' && fmt[1] == letter;
  }

  /** Two percent signs are one. */
  lemma RenderPercent(rest: string, args: seq<Arg>)
    requires Fits(rest, args)
    ensures Fits("%%" + rest, args) && Render("%%" + rest, args) == "%" + Render(rest, args)
  {
    AfterPercent('%', rest, args);
    assert "%%" == ['%', '%'];
  }

  /** A letter without a meaning stands for nothing and takes no argument. */
  lemma RenderUnknown(letter: char, rest: string, args: seq<Arg>)
    requires letter != '%' && letter != 's' && letter != 'd' && letter != 'x' && Fits(rest, args)
    ensures Fits(['%', letter] + rest, args) && Render(['%', letter] + rest, args) == Render(rest, args)
  {
    AfterPercent(letter, rest, args);
  }

  /** %s stands for the characters before the terminator. */
  lemma RenderString(m: seq<char>, k: nat, rest: string, args: seq<Arg>)
    requires k < |m| && m[k] == '\0' && '\0' !in m[..k] && Fits(rest, args)
    ensures var all := [Str(m)] + args;
            Fits("%s" + rest, all) && Render("%s" + rest, all) == m[..k] + Render(rest, args)
  {
    var all := [Str(m)] + args;
    assert all[1..] == args;
    TextIsPrefix(m, k);
    AfterPercent('s', rest, all);
    assert "%s" == ['%', 's'];
  }

  /** %x stands for the word in base 16. */
  lemma RenderHex(w: nat, rest: string, args: seq<Arg>) returns (u: string)
    requires w < 0x1_0000_0000 && Fits(rest, args)
    ensures var all := [Word(w)] + args;
            Fits("%x" + rest, all) && Render("%x" + rest, all) == u + Render(rest, args)
    ensures IsNumeral(u, w, 16)
  {
    hide IsNumeral, Unsigned, Render, Fits;
    var all := [Word(w)] + args;
    assert all[1..] == args;
    AfterPercent('x', rest, all);
    assert "%x" == ['%', 'x'];
    u := RenderLetter('x', all);
    UnsignedIsNumeral(w, 16);
  }

  /** %d stands for the word as a signed number in base 10. */
  lemma RenderDecimal(w: nat, rest: string, args: seq<Arg>) returns (u: string)
    requires w < 0x1_0000_0000 && w != 0x8000_0000 && Fits(rest, args)
    ensures var all := [Word(w)] + args;
            Fits("%d" + rest, all) && Render("%d" + rest, all) == u + Render(rest, args)
    ensures if w < 0x8000_0000 then IsNumeral(u, w, 10)
            else u != [] && u[0] == '-' && IsNumeral(u[1..], 0x1_0000_0000 - w, 10)
  {
    hide IsNumeral, Signed, Render, Fits;
    var all := [Word(w)] + args;
    assert all[1..] == args;
    AfterPercent('d', rest, all);
    assert "%d" == ['%', 'd'];
    u := RenderLetter('d', all);
    SignedIsNumeral(w);
  }

  lemma SignedIsNumeral(w: nat)
    requires w < 0x1_0000_0000
    ensures var u := Signed(AsInt(w), 10);
            if w < 0x8000_0000 then IsNumeral(u, w, 10)
            else u != [] && u[0] == '-' && IsNumeral(u[1..], 0x1_0000_0000 - w, 10)
  {
    if w < 0x8000_0000 {
      UnsignedIsNumeral(w, 10);
    } else {
      UnsignedIsNumeral(0x1_0000_0000 - w, 10);
      assert Signed(AsInt(w), 10)[1..] == Unsigned(0x1_0000_0000 - w, 10);
    }
  }

  lemma {:induction false} RenderHasNoNul(fmt: string, args: seq<Arg>)
    requires IsCString(fmt) && Fits(fmt, args)
    ensures IsCString(Render(fmt, args))
    decreases |fmt|
  {
    if fmt == [] {
    } else if fmt[0] != '%' {
      RenderHasNoNul(fmt[1..], args);
    } else if |fmt| > 1 {
      LetterHasNoNul(fmt[1], args);
      RenderHasNoNul(fmt[2..], AfterLetter(fmt[1], args));
    }
  }

  lemma LetterHasNoNul(letter: char, args: seq<Arg>)
    requires FitsLetter(letter, args)
    ensures IsCString(RenderLetter(letter, args))
  {
    match letter {
      case 's' => TextEnds(args[0].s);
      case 'd' => NumberTextFits(AsInt(args[0].w), 10);
      case 'x' => NumberTextFits(args[0].w, 16);
      case _ =>
    }
  }
}

/** kstring.c on char buffers. */
module KString {
  import opened Words
  import opened StringSpec
  import opened StringProofs

  /** k_memrev. */
  method KMemrev(ptr: array<char>, num: nat)
    requires num <= ptr.Length
    modifies ptr
    ensures ptr[..num] == Reverse(old(ptr[..num]))
    ensures forall k :: num <= k < ptr.Length ==> ptr[k] == old(ptr[k])
  {
    var ph, pt := 0, num - 1;
    while ph < pt
      invariant 0 <= ph && ph + pt == num - 1 && pt >= ph - 1
      invariant forall k :: 0 <= k < ph || pt < k < num ==> ptr[k] == old(ptr[num - 1 - k])
      invariant forall k :: ph <= k <= pt || num <= k < ptr.Length ==> ptr[k] == old(ptr[k])
    {
      ptr[ph], ptr[pt] := ptr[pt], ptr[ph];
      ph, pt := ph + 1, pt - 1;
    }
    ghost var was := old(ptr[..num]);
    forall k | 0 <= k < num ensures ptr[..num][k] == Reverse(was)[k] {
      ReverseAt(was, k);
    }
  }

  /** The next digit and what is left of the number. */
  method DivideBy(num: nat, base: nat) returns (q: nat, r: nat)
    requires 2 <= base <= 16 && num > 0
    ensures q < num && r < base
    ensures Digits(num, base) == Digits(q, base) + [Digit(r)]
  {
    r := num % base;
    q := num / base;
    ghost var _, _ := Division(num, base);
    Quotient(num, base);
  }

  /** The digit loop of k_utoa and k_itoa: least significant digit first. */
  method PutDigits(num: nat, str: array<char>, radix: nat) returns (i: nat)
    requires 2 <= radix <= 16 && |Digits(num, radix)| < str.Length
    modifies str
    ensures i == |Digits(num, radix)| && Reverse(str[..i]) == Digits(num, radix)
    ensures forall k :: i <= k < str.Length ==> str[k] == old(str[k])
  {
    i := 0;
    var n: nat := num;
    while n != 0
      invariant i + |Digits(n, radix)| == |Digits(num, radix)|
      invariant Digits(num, radix) == Digits(n, radix) + Reverse(str[..i])
      invariant forall k :: i <= k < str.Length ==> str[k] == old(str[k])
    {
      ghost var before := str[..i];
      var q, r := DivideBy(n, radix);
      str[i] := NUM_MAP[r];
      ReverseLast(before, Digit(r));
      assert str[..i + 1] == before + [Digit(r)];
      i, n := i + 1, q;
    }
  }

  /** The text stands at the start of the buffer with its terminator; the rest is as it was. */
  twostate predicate Wrote(str: array<char>, text: string)
    reads str
  {
    && |text| < str.Length
    && str[..|text|] == text && str[|text|] == NUL
    && forall k :: |text| < k < str.Length ==> str[k] == old(str[k])
  }

  /** k_utoa. */
  method KUtoa(num: nat, str: array?<char>, base: int) returns (r: array?<char>)
    requires num < WORD_MODULUS && base >= 2
    requires str != null ==> |Unsigned(num, Radix(base))| < str.Length
    modifies str
    ensures r == str
    ensures str != null ==> Wrote(str, Unsigned(num, Radix(base)))
  {
    if str == null {
      return null;
    }
    var radix := Radix(base);
    if num == 0 {
      str[0], str[1] := NUM_MAP[num], NUL;
      return str;
    }
    var i := PutDigits(num, str, radix);
    str[i] := NUL;
    ghost var text := str[..i];
    KMemrev(str, i);
    return str;
  }

  /** k_itoa.  A negative number in a base other than 10 would index before the digit table. */
  method KItoa(num: int, str: array?<char>, base: int) returns (r: array?<char>)
    requires INT_MIN < num < 0x8000_0000 && base >= 2 && (num >= 0 || base == 10)
    requires str != null ==> |Signed(num, Radix(base))| < str.Length
    modifies str
    ensures r == str
    ensures str != null ==> Wrote(str, Signed(num, Radix(base)))
  {
    if str == null {
      return null;
    }
    var radix := Radix(base);
    if num == 0 {
      str[0], str[1] := '0', NUL;
      return str;
    }
    var isNeg := num < 0 && base == 10;
    var n := if isNeg then -num else num;
    var i := PutDigits(n, str, radix);
    if isNeg {
      ReverseLast(str[..i], '-');
      str[i] := '-';
      assert str[..i + 1] == str[..i] + ['-'];
      i := i + 1;
    }
    str[i] := NUL;
    KMemrev(str, i);
    return str;
  }

  /** k_strlen. */
  method KStrlen(str: seq<char>) returns (l: nat)
    requires Terminated(str)
    ensures l == |Text(str)|
  {
    l := 0;
    while str[l] != NUL
      invariant l < |str| && Terminated(str[l..])
      invariant l + |Text(str[l..])| == |Text(str)|
      decreases |str| - l
    {
      TextStep(str, l);
      l := l + 1;
    }
    TextStep(str, l);
  }

  /** k_strcat. */
  method KStrcat(destination: array<char>, source: seq<char>)
    requires Terminated(destination[..]) && Terminated(source)
    requires |Text(destination[..])| + |Text(source)| < destination.Length
    modifies destination
    ensures Wrote(destination, old(Text(destination[..])) + Text(source))
  {
    ghost var head := Text(destination[..]);
    TextEnds(destination[..]);
    TextEnds(source);
    var d := 0;
    while destination[d] != NUL
      invariant d <= |head|
      decreases |head| - d
    {
      assert destination[d] != NUL;
      d := d + 1;
    }
    assert d == |head|;
    var k := 0;
    while source[k] != NUL
      invariant 0 <= k <= |Text(source)| && d == |head| + k
      invariant destination[..d] == head + Text(source)[..k]
      invariant forall j :: d < j < destination.Length ==> destination[j] == old(destination[j])
      decreases |source| - k
    {
      destination[d] := source[k];
      assert destination[..d + 1] == destination[..d] + [source[k]];
      d, k := d + 1, k + 1;
    }
    assert k == |Text(source)|;
    destination[d] := NUL;
  }

  /** The three statements by which k_sprintf appends a string: terminate, k_strcat, k_strlen. */
  method Append(str: array<char>, l: nat, source: seq<char>) returns (end: nat)
    requires Terminated(source)
    requires l + |Text(source)| < str.Length && IsCString(str[..l])
    modifies str
    ensures end == l + |Text(source)| && str[..end] == old(str[..l]) + Text(source)
    ensures forall k :: end < k < str.Length ==> str[k] == old(str[k])
  {
    str[l] := NUL;
    assert str[..][l] in str[..];
    assert str[..][..l] == old(str[..l]);
    TextIsPrefix(str[..], l);
    KStrcat(str, source);
    var length := KStrlen(source);
    end := l + length;
  }

  /** The switch of k_sprintf: what one letter after a percent sign appends. */
  method PutLetter(str: array<char>, l: nat, letter: char, args: seq<Arg>) returns (end: nat)
    requires FitsLetter(letter, args)
    requires l + |RenderLetter(letter, args)| < str.Length && IsCString(str[..l])
    modifies str
    ensures end == l + |RenderLetter(letter, args)|
    ensures str[..end] == old(str[..l]) + RenderLetter(letter, args)
    ensures forall k :: end < k < str.Length ==> str[k] == old(str[k])
  {
    match letter {
      case '%' =>
        str[l] := letter;
        end := l + 1;
      case 's' =>
        end := Append(str, l, args[0].s);
      case 'd' =>
        var buffer := new char[256];
        NumberTextFits(AsInt(args[0].w), 10);
        var _ := KItoa(AsInt(args[0].w), buffer, 10);
        TextOfBuffer(buffer[..], Signed(AsInt(args[0].w), 10));
        end := Append(str, l, buffer[..]);
      case 'x' =>
        var buffer := new char[256];
        NumberTextFits(args[0].w, 16);
        var _ := KUtoa(args[0].w, buffer, 16);
        TextOfBuffer(buffer[..], Unsigned(args[0].w, 16));
        end := Append(str, l, buffer[..]);
      case _ =>
        end := l;
    }
  }

  lemma TextOfBuffer(m: seq<char>, text: string)
    requires |text| < |m| && m[..|text|] == text && m[|text|] == NUL && IsCString(text)
    ensures Terminated(m) && Text(m) == text
  {
    TextIsPrefix(m, |text|);
  }

  /** A pointer into the format with the arguments not yet taken. */
  datatype Cursor = Cursor(p: nat, va: seq<Arg>)

  /** The cursor stands in the format with arguments that fit the rest of it. */
  predicate Ready(fmt: seq<char>, c: Cursor) {
    c.p < |fmt| && Terminated(fmt[c.p..]) && Fits(Text(fmt[c.p..]), c.va)
  }

  function ToCome(fmt: seq<char>, c: Cursor): string
    requires Ready(fmt, c)
  {
    Render(Text(fmt[c.p..]), c.va)
  }

  /** One round of the loop of k_sprintf.  A percent sign at the end leaves the cursor on the
      terminator, which ends the loop. */
  method PutNext(str: array<char>, l: nat, fmt: seq<char>, at: Cursor) returns (end: nat, next: Cursor)
    requires Ready(fmt, at) && fmt[at.p] != NUL
    requires l + |ToCome(fmt, at)| < str.Length && IsCString(str[..l])
    modifies str
    ensures Ready(fmt, next) && next.p > at.p
    ensures end + |ToCome(fmt, next)| == l + |ToCome(fmt, at)|
    ensures str[..end] + ToCome(fmt, next) == old(str[..l]) + ToCome(fmt, at)
    ensures forall k :: end < k < str.Length ==> str[k] == old(str[k])
  {
    NextIsReady(fmt, at);
    ghost var before := str[..l];
    var ch, p := fmt[at.p], at.p + 1;
    if ch != '%' {
      end, next := l + 1, Cursor(p, at.va);
      PlainCharacter(fmt, at, next);
      str[l] := ch;
      assert str[..end] == before + [ch];
      Regroup(before, [ch], ToCome(fmt, next));
    } else if fmt[p] == NUL {
      end, next := l, Cursor(p, at.va);
      PercentAtEnd(fmt, at, next);
    } else {
      ch := fmt[p];
      LetterFits(fmt, at);
      next := Cursor(p + 1, AfterLetter(ch, at.va));
      PercentAndLetter(fmt, at, next);
      end := PutLetter(str, l, ch, at.va);
      Regroup(before, RenderLetter(ch, at.va), ToCome(fmt, next));
    }
  }

  lemma Regroup(a: string, b: string, c: string)
    ensures (a + b) + c == a + (b + c)
  {
  }

  /** k_sprintf: the buffer ends up with exactly the rendered text and the result is its length. */
  method KSprintf(str: array<char>, fmt: seq<char>, args: seq<Arg>) returns (l: nat)
    requires Terminated(fmt) && Fits(Text(fmt), args)
    requires |Render(Text(fmt), args)| < str.Length
    modifies str
    ensures l == |Render(Text(fmt), args)|
    ensures Wrote(str, Render(Text(fmt), args)) && Text(str[..]) == Render(Text(fmt), args)
  {
    ghost var text := Render(Text(fmt), args);
    TextEnds(fmt);
    RenderHasNoNul(Text(fmt), args);
    assert fmt[0..] == fmt;
    l := 0;
    var at := Cursor(0, args);
    while fmt[at.p] != NUL
      invariant Ready(fmt, at) && l + |ToCome(fmt, at)| == |text|
      invariant text == str[..l] + ToCome(fmt, at)
      invariant forall k :: |text| < k < str.Length ==> str[k] == old(str[k])
      decreases |fmt| - at.p
    {
      l, at := PutNext(str, l, fmt, at);
    }
    TextStep(fmt, at.p);
    assert text == str[..l];
    str[l] := NUL;
    TextOfBuffer(str[..], text);
  }

  lemma NextIsReady(fmt: seq<char>, at: Cursor)
    requires at.p < |fmt| && Terminated(fmt[at.p..]) && fmt[at.p] != NUL
    ensures at.p + 1 < |fmt| && Terminated(fmt[at.p + 1..])
  {
    TextStep(fmt, at.p);
  }

  lemma PlainCharacter(fmt: seq<char>, at: Cursor, next: Cursor)
    requires Ready(fmt, at) && fmt[at.p] != '%' && fmt[at.p] != NUL
    requires next == Cursor(at.p + 1, at.va)
    ensures Ready(fmt, next) && ToCome(fmt, at) == [fmt[at.p]] + ToCome(fmt, next)
  {
    TextStep(fmt, at.p);
    assert Text(fmt[at.p..])[1..] == Text(fmt[next.p..]);
  }

  lemma PercentAtEnd(fmt: seq<char>, at: Cursor, next: Cursor)
    requires Ready(fmt, at) && fmt[at.p] == '%'
    requires next == Cursor(at.p + 1, at.va) && next.p < |fmt| && fmt[next.p] == NUL
    ensures Ready(fmt, next) && ToCome(fmt, at) == [] && ToCome(fmt, next) == []
  {
    TextStep(fmt, at.p);
    TextStep(fmt, next.p);
  }

  lemma LetterFits(fmt: seq<char>, at: Cursor)
    requires Ready(fmt, at) && fmt[at.p] == '%' && at.p + 1 < |fmt| && fmt[at.p + 1] != NUL
    ensures FitsLetter(fmt[at.p + 1], at.va)
  {
    TextStep(fmt, at.p);
    TextStep(fmt, at.p + 1);
  }

  lemma PercentAndLetter(fmt: seq<char>, at: Cursor, next: Cursor)
    requires Ready(fmt, at) && fmt[at.p] == '%' && at.p + 1 < |fmt| && fmt[at.p + 1] != NUL
    requires FitsLetter(fmt[at.p + 1], at.va)
    requires next == Cursor(at.p + 2, AfterLetter(fmt[at.p + 1], at.va))
    ensures Ready(fmt, next)
    ensures ToCome(fmt, at) == RenderLetter(fmt[at.p + 1], at.va) + ToCome(fmt, next)
  {
    TextStep(fmt, at.p);
    TextStep(fmt, at.p + 1);
    var text := Text(fmt[at.p..]);
    assert text[1] == fmt[at.p + 1] && text[2..] == Text(fmt[at.p + 2..]);
  }
}
