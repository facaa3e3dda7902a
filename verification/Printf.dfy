/** kernel/lib/printf.c: the formatter, into the bounded buffer of ksnprintf. */
module Printf {
  import opened Words

  const LOWER: string := "0123456789abcdef"
  const UPPER: string := "0123456789ABCDEF"
  const MAX_DIGITS: nat := 32

  // ----- Numbers as text

  function DigitChar(d: nat, upper: bool): char
    requires d < 16
  {
    if upper then UPPER[d] else LOWER[d]
  }

  /** Positional notation without leading zeros. */
  function Digits(value: nat, base: nat, upper: bool): (s: string)
    requires 2 <= base <= 16
    ensures |s| > 0
    decreases value
  {
    if value < base then [DigitChar(value, upper)]
    else
      QuotientShrinks(value, base);
      Digits(value / base, base, upper) + [DigitChar(value % base, upper)]
  }

  lemma QuotientShrinks(value: nat, base: nat)
    requires 2 <= base && value > 0
    ensures value / base < value
  {
  }

  function DigitValue(c: char): Option<nat> {
    if '0' <= c <= '9' then Some(c as nat - '0' as nat)
    else if 'a' <= c <= 'f' then Some(c as nat - 'a' as nat + 10)
    else if 'A' <= c <= 'F' then Some(c as nat - 'A' as nat + 10)
    else None
  }

  /** Reads a number; None if there is a character that is not a digit. */
  function Parse(s: string, base: nat): Option<nat>
    decreases |s|
  {
    if s == "" then Some(0) else Extended(Parse(s[..|s| - 1], base), s[|s| - 1], base)
  }

  /** The number with one more digit. */
  function Extended(high: Option<nat>, c: char, base: nat): Option<nat> {
    var low := DigitValue(c);
    if high.Some? && low.Some? && low.value < base then Some(high.value * base + low.value) else None
  }

  lemma ParseAppend(s: string, c: char, base: nat)
    ensures Parse(s + [c], base) == Extended(Parse(s, base), c, base)
  {
    assert (s + [c])[..|s|] == s;
  }

  function ParseSigned(s: string): Option<int> {
    var negative := s != "" && s[0] == '-';
    var n := Parse(if negative then s[1..] else s, 10);
    if n.None? then None
    else
      var magnitude: int := n.value;
      Some(if negative then -magnitude else magnitude)
  }

  lemma DigitComesBack(d: nat, upper: bool)
    requires d < 16
    ensures DigitValue(DigitChar(d, upper)) == Some(d)
  {
  }

  lemma Euclid(value: nat, base: nat)
    requires base > 0
    ensures value / base * base + value % base == value && value % base < base
  {
  }

  lemma LastDigit(high: string, value: nat, digit: char, low: nat, base: nat)
    requires Parse(high, base) == Some(value) && DigitValue(digit) == Some(low) && low < base
    ensures Parse(high + [digit], base) == Some(value * base + low)
  {
    ParseAppend(high, digit, base);
  }

  lemma EmptyIsZero(base: nat)
    ensures Parse("", base) == Some(0)
  {
  }

  lemma {:induction false} DigitsComeBack(value: nat, base: nat, upper: bool)
    requires 2 <= base <= 16
    ensures Parse(Digits(value, base, upper), base) == Some(value)
    decreases value
  {
    hide Parse, DigitValue, DigitChar;
    EmptyIsZero(base);
    if value < base {
      DigitComesBack(value, upper);
      LastDigit("", 0, DigitChar(value, upper), value, base);
      assert "" + [DigitChar(value, upper)] == [DigitChar(value, upper)];
    } else {
      QuotientShrinks(value, base);
      Euclid(value, base);
      DigitsComeBack(value / base, base, upper);
      DigitComesBack(value % base, upper);
      LastDigit(Digits(value / base, base, upper), value / base, DigitChar(value % base, upper), value % base, base);
    }
  }

  function Repeat(c: char, n: nat): (s: string)
    ensures |s| == n && forall k :: 0 <= k < n ==> s[k] == c
  {
    seq(n, _ => c)
  }

  /** Right-aligned in a field of the given width. */
  function Padded(s: string, width: nat, zeroPad: bool): string {
    Repeat(if zeroPad then '0' else ' ', if width > |s| then width - |s| else 0) + s
  }

  lemma {:induction false} ZerosAreZero(n: nat, base: nat)
    requires 2 <= base
    ensures Parse(Repeat('0', n), base) == Some(0)
  {
    if n > 0 {
      ZerosAreZero(n - 1, base);
      ParseAppend(Repeat('0', n - 1), '0', base);
      assert Repeat('0', n) == Repeat('0', n - 1) + ['0'];
    }
  }

  lemma {:induction false} LeadingZeros(n: nat, s: string, base: nat)
    requires 2 <= base
    ensures Parse(Repeat('0', n) + s, base) == Parse(s, base)
    decreases |s|
  {
    if s == "" {
      ZerosAreZero(n, base);
      assert Repeat('0', n) + s == Repeat('0', n);
    } else {
      var init, last := s[..|s| - 1], s[|s| - 1];
      LeadingZeros(n, init, base);
      ParseAppend(Repeat('0', n) + init, last, base);
      assert Repeat('0', n) + s == (Repeat('0', n) + init) + [last];
    }
  }

  function UnsignedText(value: nat, base: nat, upper: bool, width: nat, zeroPad: bool): string
    requires 2 <= base <= 16
  {
    Padded(Digits(value, base, upper), width, zeroPad)
  }

  function SignedText(value: int, width: nat, zeroPad: bool): string {
    if value < 0 then "-" + UnsignedText(-value, 10, false, if width > 0 then width - 1 else 0, zeroPad)
    else UnsignedText(value, 10, false, width, zeroPad)
  }

  /** What can be read holds digits only: no sign and no space. */
  lemma {:induction false} OnlyDigits(s: string, base: nat)
    requires Parse(s, base).Some?
    ensures '-' !in s && ' ' !in s
  {
    if s != "" {
      OnlyDigits(s[..|s| - 1], base);
      assert s == s[..|s| - 1] + [s[|s| - 1]];
    }
  }

  /** A number can be read back exactly if it was not padded with spaces. */
  lemma UnsignedComesBack(value: nat, base: nat, upper: bool, width: nat, zeroPad: bool)
    requires 2 <= base <= 16
    ensures var n := Parse(UnsignedText(value, base, upper, width, zeroPad), base);
            if zeroPad || width <= |Digits(value, base, upper)| then n == Some(value) else n == None
  {
    var digits, text := Digits(value, base, upper), UnsignedText(value, base, upper, width, zeroPad);
    if zeroPad || width <= |digits| {
      DigitsComeBack(value, base, upper);
      LeadingZeros(if width > |digits| then width - |digits| else 0, digits, base);
      if width <= |digits| {
        assert text == digits;
      }
    } else if Parse(text, base).Some? {
      assert text[0] == ' ';
      OnlyDigits(text, base);
    }
  }

  lemma SignedComesBack(value: int, width: nat, zeroPad: bool)
    ensures ParseSigned(SignedText(value, width, zeroPad)) == Some(value)
            <==> zeroPad || width <= |SignedText(value, 0, false)|
  {
    hide Digits, Parse;
    if value < 0 {
      NegativeComesBack(-value, if width > 0 then width - 1 else 0, zeroPad);
    } else {
      var text := UnsignedText(value, 10, false, width, zeroPad);
      UnsignedComesBack(value, 10, false, width, zeroPad);
      if Parse(text, 10).Some? {
        OnlyDigits(text, 10);
      }
    }
  }

  lemma NegativeComesBack(magnitude: nat, width: nat, zeroPad: bool)
    requires magnitude > 0
    ensures ParseSigned("-" + UnsignedText(magnitude, 10, false, width, zeroPad)) == Some(-(magnitude as int))
            <==> zeroPad || width <= |Digits(magnitude, 10, false)|
  {
    hide Digits, Parse, UnsignedText;
    var text := UnsignedText(magnitude, 10, false, width, zeroPad);
    UnsignedComesBack(magnitude, 10, false, width, zeroPad);
    assert ("-" + text)[1..] == text;
  }

  function Pow4(n: nat): (p: nat)
    ensures p > 0
  {
    if n == 0 then 1 else 4 * Pow4(n - 1)
  }

  lemma MaxWord()
    ensures Pow4(MAX_DIGITS) == TWO_64
  {
    assert Pow4(8) == 0x1_0000;
    Pow4Adds(8, 8);
    Pow4Adds(16, 16);
  }

  lemma {:induction false} Pow4Adds(a: nat, b: nat)
    ensures Pow4(a + b) == Pow4(a) * Pow4(b)
  {
    if a > 0 {
      Pow4Adds(a - 1, b);
      assert Pow4(a + b) == 4 * Pow4(a - 1 + b);
    }
  }

  lemma AtLeastFour(q: nat, base: nat)
    requires base >= 4
    ensures q * base >= q * 4
  {
  }

  /** In base 4 and above every digit takes at least two bits. */
  lemma QuotientFits(value: nat, base: nat, n: nat)
    requires base >= 4 && n > 0 && value < Pow4(n)
    ensures 0 <= value / base < Pow4(n - 1) && (n == 1 ==> value / base == 0)
  {
    Euclid(value, base);
    AtLeastFour(value / base, base);
  }

  function Backwards(s: string): (r: string)
    ensures |r| == |s| && forall k :: 0 <= k < |s| ==> r[k] == s[|s| - 1 - k]
  {
    if s == "" then "" else [s[|s| - 1]] + Backwards(s[..|s| - 1])
  }

  lemma BackwardsAppend(s: string, c: char)
    ensures Backwards(s + [c]) == [c] + Backwards(s)
  {
    assert (s + [c])[..|s|] == s;
  }

  /** One more digit has been split off. */
  lemma DigitSplitOff(text: string, v: nat, base: nat, upper: bool, done: string)
    requires 2 <= base <= 16 && text == Digits(v, base, upper) + Backwards(done)
    ensures text == Rest(v / base, base, upper) + Backwards(done + [DigitChar(v % base, upper)])
  {
    BackwardsAppend(done, DigitChar(v % base, upper));
    LastDigitOf(v, base, upper);
  }

  lemma LastDigitOf(v: nat, base: nat, upper: bool)
    requires 2 <= base <= 16
    ensures Digits(v, base, upper) == Rest(v / base, base, upper) + [DigitChar(v % base, upper)]
  {
    if v < base {
      DivModUnique(v, base, 0, v);
      assert Digits(v, base, upper) == "" + [DigitChar(v, upper)];
    } else {
      QuotientPositive(v, base);
    }
  }

  lemma QuotientPositive(v: nat, base: nat)
    requires 0 < base <= v
    ensures v / base > 0
  {
  }

  /** The digits before the ones already split off. */
  function Rest(v: nat, base: nat, upper: bool): string
    requires 2 <= base <= 16
  {
    if v == 0 then "" else Digits(v, base, upper)
  }

  // ----- Format strings

  /** One variadic argument, as the machine word passed, or a C string that may be NULL. */
  datatype Arg = Word32(w32: nat) | Word64(w64: nat) | Str(s: Option<string>)

  function Signed(w: nat, bits: nat): int
    requires bits == 32 || bits == 64
  {
    if bits == 32 then (if w < 0x8000_0000 then w else w - 0x1_0000_0000)
    else (if w < 0x8000_0000_0000_0000 then w else w - TWO_64)
  }

  /** The character at p; the zero byte that ends a C string is at |fmt|. */
  function CharAt(fmt: string, p: nat): char { if p < |fmt| then fmt[p] else '\0' }

  predicate IsDigit(c: char) { '0' <= c <= '9' }

  function FlagEnd(fmt: string, p: nat): nat { if CharAt(fmt, p) == '0' then p + 1 else p }

  function WidthEnd(fmt: string, p: nat): (q: nat)
    ensures p <= q && !IsDigit(CharAt(fmt, q))
    decreases |fmt| - p
  {
    if IsDigit(CharAt(fmt, p)) then WidthEnd(fmt, p + 1) else p
  }

  /** The number that the digits from p on extend. */
  function Width(fmt: string, p: nat, before: nat): nat
    decreases |fmt| - p
  {
    if IsDigit(CharAt(fmt, p)) then Width(fmt, p + 1, before * 10 + (fmt[p] as nat - '0' as nat)) else before
  }

  function LengthEnd(fmt: string, p: nat): (q: nat)
    ensures p <= q && CharAt(fmt, q) != 'l'
    decreases |fmt| - p
  {
    if CharAt(fmt, p) == 'l' then LengthEnd(fmt, p + 1) else p
  }

  datatype Directive = Directive(zeroPad: bool, width: nat, isLong: bool, conversion: char, at: nat)

  /** The directive whose '%' is just before p. */
  function DirectiveAt(fmt: string, p: nat): (d: Directive)
    ensures p <= d.at
  {
    var w := FlagEnd(fmt, p);
    var l := WidthEnd(fmt, w);
    var c := LengthEnd(fmt, l);
    Directive(CharAt(fmt, p) == '0', Width(fmt, w, 0), c > l, CharAt(fmt, c), c)
  }

  predicate TakesArgument(c: char) {
    c == 'd' || c == 'i' || c == 'u' || c == 'x' || c == 'X' || c == 'p' || c == 's' || c == 'c'
  }

  /** The argument has the type that the directive reads. */
  predicate Fits(d: Directive, arg: Arg) {
    match d.conversion
    case 's' => arg.Str?
    case 'p' => arg.Word64? && arg.w64 < TWO_64
    case 'c' => arg.Word32? && arg.w32 < 0x1_0000_0000
    case _ => if d.isLong then arg.Word64? && arg.w64 < TWO_64 else arg.Word32? && arg.w32 < 0x1_0000_0000
  }

  /** What one directive prints. */
  function Converted(d: Directive, arg: Arg): string
    requires TakesArgument(d.conversion) && Fits(d, arg)
  {
    var word := if arg.Word64? then arg.w64 else if arg.Word32? then arg.w32 else 0;
    match d.conversion
    case 'd' => SignedText(Signed(word, if d.isLong then 64 else 32), d.width, d.zeroPad)
    case 'i' => SignedText(Signed(word, if d.isLong then 64 else 32), d.width, d.zeroPad)
    case 'u' => UnsignedText(word, 10, false, d.width, d.zeroPad)
    case 'x' => UnsignedText(word, 16, false, d.width, d.zeroPad)
    case 'X' => UnsignedText(word, 16, true, d.width, d.zeroPad)
    case 'p' => "0x" + UnsignedText(word, 16, false, 16, true)
    case 's' => Padded(if arg.s.Some? then arg.s.value else "(null)", d.width, false)
    case _ => [(word % 256) as char]
  }

  /** The next argument, if the directive reads one, is there and has the right type. */
  predicate Served(d: Directive, args: seq<Arg>) {
    TakesArgument(d.conversion) ==> args != [] && Fits(d, args[0])
  }

  function Remaining(d: Directive, args: seq<Arg>): seq<Arg> {
    if TakesArgument(d.conversion) && args != [] then args[1..] else args
  }

  /** The format ends outside a directive, or right after a '%', and the arguments suit it. */
  predicate Suits(fmt: string, p: nat, args: seq<Arg>)
    decreases |fmt| - p
  {
    if p >= |fmt| then true
    else if fmt[p] != '%' then Suits(fmt, p + 1, args)
    else if p + 1 == |fmt| then true
    else
      var d := DirectiveAt(fmt, p + 1);
      d.at < |fmt| && Served(d, args) && Suits(fmt, d.at + 1, Remaining(d, args))
  }

  /** What one directive prints, with or without an argument. */
  function DirectiveText(d: Directive, args: seq<Arg>): string
    requires Served(d, args)
  {
    if TakesArgument(d.conversion) then Converted(d, args[0])
    else if d.conversion == '%' then "%"
    else ['%', d.conversion]
  }

  /** What the format prints from p on. */
  function Formatted(fmt: string, p: nat, args: seq<Arg>): string
    requires Suits(fmt, p, args)
    decreases |fmt| - p
  {
    if p >= |fmt| then ""
    else if fmt[p] != '%' then [fmt[p]] + Formatted(fmt, p + 1, args)
    else if p + 1 == |fmt| then ""
    else
      var d := DirectiveAt(fmt, p + 1);
      DirectiveText(d, args) + Formatted(fmt, d.at + 1, Remaining(d, args))
  }

  /** What is left to print after a directive. */
  lemma DirectiveDone(fmt: string, p: nat, d: Directive, args: seq<Arg>, before: string, all: string)
    requires Suits(fmt, p, args) && p + 1 < |fmt| && fmt[p] == '%' && all == before + Formatted(fmt, p, args)
    requires d == DirectiveAt(fmt, p + 1) && d.at < |fmt| &&
             Served(d, args) && Suits(fmt, d.at + 1, Remaining(d, args))
    ensures all == before + DirectiveText(d, args) + Formatted(fmt, d.at + 1, Remaining(d, args))
  {
    hide Suits, Served, Remaining, DirectiveText;
    Associative(before, DirectiveText(d, args), Formatted(fmt, d.at + 1, Remaining(d, args)));
  }

  lemma Associative(a: string, b: string, c: string)
    ensures (a + b) + c == a + (b + c)
  {
  }

  // ----- What a directive shows

  /** k padding characters and then a numeral without leading zeros, in no more room than the width asks for. */
  ghost predicate NumeralAt(out: string, k: nat, width: nat, zeroPad: bool, value: nat, base: nat) {
    && k < |out| && (forall i :: 0 <= i < k ==> out[i] == if zeroPad then '0' else ' ')
    && Parse(out[k..], base) == Some(value) && (k + 1 < |out| ==> out[k] != '0')
    && width <= |out| && (k > 0 ==> |out| == width)
  }

  ghost predicate ShowsUnsigned(out: string, width: nat, zeroPad: bool, value: nat, base: nat) {
    && (exists k :: NumeralAt(out, k, width, zeroPad, value, base))
    && (zeroPad || width < |out| ==> Parse(out, base) == Some(value))
  }

  /** The sign is in front of the padding and takes one place of the width. */
  ghost predicate ShowsSigned(out: string, width: nat, zeroPad: bool, value: int) {
    && (if value >= 0 then ShowsUnsigned(out, width, zeroPad, value, 10)
        else
          && out != "" && out[0] == '-'
          && ShowsUnsigned(out[1..], if width > 0 then width - 1 else 0, zeroPad, -value, 10))
    && (zeroPad || width < |out| ==> ParseSigned(out) == Some(value))
  }

  predicate HasUpperCase(s: string) { exists c :: c in s && 'A' <= c <= 'Z' }

  predicate HasLowerCase(s: string) { exists c :: c in s && 'a' <= c <= 'z' }

  /** Right-aligned with spaces. */
  predicate ShowsText(out: string, width: nat, text: string) {
    && |out| == (if width > |text| then width else |text|)
    && out[|out| - |text|..] == text
    && forall i :: 0 <= i < |out| - |text| ==> out[i] == ' '
  }

  /** What the conversion c promises to print of its argument. */
  ghost predicate Shows(out: string, c: char, isLong: bool, zeroPad: bool, width: nat, arg: Arg) {
    if c == 'd' || c == 'i' then
      if isLong then
        arg.Word64? && ShowsSigned(out, width, zeroPad,
                                   if arg.w64 < 0x8000_0000_0000_0000 then arg.w64
                                   else arg.w64 - 0x1_0000_0000_0000_0000)
      else
        arg.Word32? && ShowsSigned(out, width, zeroPad,
                                   if arg.w32 < 0x8000_0000 then arg.w32 else arg.w32 - 0x1_0000_0000)
    else if c == 'p' then
      arg.Word64? && |out| == 18 && out[..2] == "0x" && Parse(out[2..], 16) == Some(arg.w64) && !HasUpperCase(out)
    else if c == 's' then
      arg.Str? && ShowsText(out, width, if arg.s.Some? then arg.s.value else "(null)")
    else if c == 'c' then
      arg.Word32? && |out| == 1 && out[0] as nat == arg.w32 % 256
    else
      && (if isLong then arg.Word64? else arg.Word32?)
      && ShowsUnsigned(out, width, zeroPad, if isLong then arg.w64 else arg.w32, if c == 'u' then 10 else 16)
      && (c == 'x' ==> !HasUpperCase(out)) && (c == 'X' ==> !HasLowerCase(out))
  }

  lemma {:induction false} FirstDigit(value: nat, base: nat, upper: bool)
    requires 2 <= base <= 16
    ensures |Digits(value, base, upper)| > 1 ==> Digits(value, base, upper)[0] != '0'
    ensures value > 0 ==> Digits(value, base, upper)[0] != '0'
    decreases value
  {
    if value >= base {
      QuotientShrinks(value, base);
      QuotientPositive(value, base);
      FirstDigit(value / base, base, upper);
    }
  }

  lemma {:induction false} DigitsCase(value: nat, base: nat, upper: bool)
    requires 2 <= base <= 16
    ensures if upper then !HasLowerCase(Digits(value, base, upper)) else !HasUpperCase(Digits(value, base, upper))
    decreases value
  {
    if value >= base {
      QuotientShrinks(value, base);
      DigitsCase(value / base, base, upper);
    }
  }

  lemma {:induction false} DigitsFit(value: nat, n: nat)
    requires n > 0 && value < Pow4(2 * n)
    ensures |Digits(value, 16, false)| <= n
    decreases n
  {
    if value >= 16 {
      assert Pow4(2 * n) == 16 * Pow4(2 * n - 2);
      DigitsFit(value / 16, n - 1);
    }
  }

  lemma PaddedDigits(value: nat, base: nat, upper: bool, width: nat, zeroPad: bool)
    requires 2 <= base <= 16
    ensures var out := UnsignedText(value, base, upper, width, zeroPad);
            ShowsUnsigned(out, width, zeroPad, value, base) && !(if upper then HasLowerCase(out) else HasUpperCase(out))
  {
    hide Parse, Digits;
    var digits, out := Digits(value, base, upper), UnsignedText(value, base, upper, width, zeroPad);
    var k := |out| - |digits|;
    DigitsComeBack(value, base, upper);
    FirstDigit(value, base, upper);
    DigitsCase(value, base, upper);
    UnsignedComesBack(value, base, upper, width, zeroPad);
    assert out[k..] == digits;
    assert NumeralAt(out, k, width, zeroPad, value, base);
  }

  lemma SignedShows(value: int, width: nat, zeroPad: bool)
    ensures ShowsSigned(SignedText(value, width, zeroPad), width, zeroPad, value)
  {
    hide UnsignedText, ShowsUnsigned, ParseSigned;
    var out := SignedText(value, width, zeroPad);
    SignedComesBack(value, width, zeroPad);
    SignedLength(value, width, zeroPad);
    if value < 0 {
      var rest := if width > 0 then width - 1 else 0;
      PaddedDigits(-value, 10, false, rest, zeroPad);
      assert out[1..] == UnsignedText(-value, 10, false, rest, zeroPad);
    } else {
      PaddedDigits(value, 10, false, width, zeroPad);
    }
  }

  lemma SignedLength(value: int, width: nat, zeroPad: bool)
    ensures var natural := |SignedText(value, 0, false)|;
            |SignedText(value, width, zeroPad)| == if width > natural then width else natural
  {
    hide Digits;
  }

  /** What one directive prints is what its conversion promises. */
  lemma ConversionShows(d: Directive, arg: Arg)
    requires TakesArgument(d.conversion) && Fits(d, arg)
    ensures Shows(Converted(d, arg), d.conversion, d.isLong, d.zeroPad, d.width, arg)
  {
    hide ShowsUnsigned, ShowsSigned, SignedText, UnsignedText, Padded, ShowsText, HasUpperCase, HasLowerCase;
    var word := if arg.Word64? then arg.w64 else if arg.Word32? then arg.w32 else 0;
    if d.conversion == 'd' || d.conversion == 'i' {
      SignedShows(Signed(word, if d.isLong then 64 else 32), d.width, d.zeroPad);
    } else if d.conversion == 'u' {
      PaddedDigits(word, 10, false, d.width, d.zeroPad);
    } else if d.conversion == 'x' {
      PaddedDigits(word, 16, false, d.width, d.zeroPad);
    } else if d.conversion == 'X' {
      PaddedDigits(word, 16, true, d.width, d.zeroPad);
    } else if d.conversion == 'p' {
      PointerShows(word);
    } else if d.conversion == 's' {
      PaddedShows(if arg.s.Some? then arg.s.value else "(null)", d.width);
    }
  }

  lemma PaddedShows(text: string, width: nat)
    ensures ShowsText(Padded(text, width, false), width, text)
  {
  }

  lemma PointerShows(word: nat)
    requires word < TWO_64
    ensures var out := "0x" + UnsignedText(word, 16, false, 16, true);
            |out| == 18 && out[..2] == "0x" && Parse(out[2..], 16) == Some(word) && !HasUpperCase(out)
  {
    hide Digits, Parse, ShowsUnsigned;
    var digits := UnsignedText(word, 16, false, 16, true);
    MaxWord();
    DigitsFit(word, 16);
    PaddedDigits(word, 16, false, 16, true);
    UnsignedComesBack(word, 16, false, 16, true);
    assert ("0x" + digits)[2..] == digits;
  }

  /** A '%', digits up to w, any number of 'l's up to l, and the conversion. */
  predicate DirectiveIn(fmt: string, w: nat, l: nat) {
    && 1 <= w <= l < |fmt| && fmt[0] == '%'
    && (forall k :: 1 <= k < w ==> '0' <= fmt[k] <= '9') && (forall k :: w <= k < l ==> fmt[k] == 'l')
    && !('0' <= fmt[l] <= '9') && fmt[l] != 'l'
  }

  lemma {:induction false} WidthIsRead(fmt: string, s: nat, p: nat, e: nat, n: nat)
    requires s <= p <= e < |fmt| && (forall k :: p <= k < e ==> '0' <= fmt[k] <= '9') && !('0' <= fmt[e] <= '9')
    requires Parse(fmt[s..p], 10) == Some(n)
    ensures WidthEnd(fmt, p) == e && Parse(fmt[s..e], 10) == Some(Width(fmt, p, n))
    decreases e - p
  {
    hide Parse;
    if p < e {
      var next := n * 10 + (fmt[p] as nat - '0' as nat);
      LastDigit(fmt[s..p], n, fmt[p], fmt[p] as nat - '0' as nat, 10);
      assert fmt[s..p] + [fmt[p]] == fmt[s..p + 1];
      WidthIsRead(fmt, s, p + 1, e, next);
    }
  }

  lemma {:induction false} LengthIsRead(fmt: string, p: nat, e: nat)
    requires p <= e < |fmt| && (forall k :: p <= k < e ==> fmt[k] == 'l') && fmt[e] != 'l'
    ensures LengthEnd(fmt, p) == e
    decreases e - p
  {
    if p < e {
      LengthIsRead(fmt, p + 1, e);
    }
  }

  /** The scanner finds the parts: the digits are the width in base 10, and a zero in front asks for zeros. */
  lemma DirectiveIsRead(fmt: string, w: nat, l: nat)
    requires DirectiveIn(fmt, w, l)
    ensures var d := DirectiveAt(fmt, 1);
            && d.at == l && d.conversion == fmt[l] && d.isLong == (l > w) && d.zeroPad == (fmt[1] == '0')
            && Parse(fmt[1..w], 10) == Some(d.width)
  {
    hide Parse;
    EmptyIsZero(10);
    if fmt[1] == '0' {
      LastDigit("", 0, '0', 0, 10);
      assert "" + ['0'] == fmt[1..2];
      WidthIsRead(fmt, 1, 2, w, 0);
    } else {
      assert fmt[1..1] == "";
      WidthIsRead(fmt, 1, 1, w, 0);
    }
    LengthIsRead(fmt, w, l);
  }

  lemma {:induction false} ScanFromLater(fmt: string, n: nat, p: nat, before: nat)
    requires n <= |fmt|
    ensures WidthEnd(fmt, n + p) == n + WidthEnd(fmt[n..], p) && LengthEnd(fmt, n + p) == n + LengthEnd(fmt[n..], p)
    ensures Width(fmt, n + p, before) == Width(fmt[n..], p, before)
    decreases |fmt| - p
  {
    if n + p < |fmt| {
      ScanFromLater(fmt, n, p + 1, before);
      if IsDigit(fmt[n + p]) {
        ScanFromLater(fmt, n, p + 1, before * 10 + (fmt[n + p] as nat - '0' as nat));
      }
    }
  }

  lemma DirectiveFromLater(fmt: string, n: nat, p: nat)
    requires n <= |fmt|
    ensures var d := DirectiveAt(fmt[n..], p); DirectiveAt(fmt, n + p) == d.(at := n + d.at)
  {
    hide WidthEnd, Width, LengthEnd;
    var w := FlagEnd(fmt[n..], p);
    ScanFromLater(fmt, n, w, 0);
    ScanFromLater(fmt, n, WidthEnd(fmt[n..], w), 0);
  }

  lemma PlaceIsIrrelevant(d: Directive, at: nat, args: seq<Arg>)
    ensures var there := d.(at := at);
            && Served(there, args) == Served(d, args) && Remaining(there, args) == Remaining(d, args)
            && (Served(d, args) ==> DirectiveText(there, args) == DirectiveText(d, args))
  {
  }

  lemma AtDirective(fmt: string, p: nat, d: Directive, args: seq<Arg>)
    requires p + 1 < |fmt| && fmt[p] == '%' && d == DirectiveAt(fmt, p + 1)
    ensures Suits(fmt, p, args) == (d.at < |fmt| && Served(d, args) && Suits(fmt, d.at + 1, Remaining(d, args)))
    ensures Suits(fmt, p, args) ==>
              Formatted(fmt, p, args) == DirectiveText(d, args) + Formatted(fmt, d.at + 1, Remaining(d, args))
  {
    hide DirectiveAt, DirectiveText, Served, Remaining;
  }

  lemma AtCharacter(fmt: string, p: nat, args: seq<Arg>)
    requires p < |fmt| && fmt[p] != '%'
    ensures Suits(fmt, p, args) == Suits(fmt, p + 1, args)
    ensures Suits(fmt, p, args) ==> Formatted(fmt, p, args) == [fmt[p]] + Formatted(fmt, p + 1, args)
  {
  }

  lemma AtEnd(fmt: string, p: nat, args: seq<Arg>)
    requires p >= |fmt| || (p + 1 == |fmt| && fmt[p] == '%')
    ensures Suits(fmt, p, args) && Formatted(fmt, p, args) == ""
  {
  }

  /** Only the rest of the format matters. */
  lemma {:induction false} RestOfFormat(fmt: string, n: nat, p: nat, args: seq<Arg>)
    requires n <= |fmt| && Suits(fmt, n + p, args)
    ensures Suits(fmt[n..], p, args) && Formatted(fmt, n + p, args) == Formatted(fmt[n..], p, args)
    decreases |fmt| - p
  {
    hide Suits, Formatted, DirectiveAt, DirectiveText, Served, Remaining;
    if n + p >= |fmt| || (n + p + 1 == |fmt| && fmt[n + p] == '%') {
      AtEnd(fmt, n + p, args);
      AtEnd(fmt[n..], p, args);
    } else if fmt[n + p] != '%' {
      AtCharacter(fmt, n + p, args);
      RestOfFormat(fmt, n, p + 1, args);
      AtCharacter(fmt[n..], p, args);
    } else {
      DirectiveFromLater(fmt, n, p + 1);
      var d := DirectiveAt(fmt[n..], p + 1);
      PlaceIsIrrelevant(d, n + d.at, args);
      AtDirective(fmt, n + p, d.(at := n + d.at), args);
      RestOfFormat(fmt, n, d.at + 1, Remaining(d, args));
      AtDirective(fmt[n..], p, d, args);
    }
  }

  /** A format that starts with a directive: what the directive prints, and what the rest of the format
      prints of the other arguments. */
  lemma DirectivePrints(fmt: string, w: nat, l: nat, args: seq<Arg>) returns (out: string, rest: seq<Arg>)
    requires DirectiveIn(fmt, w, l) && Suits(fmt, 0, args)
    ensures Suits(fmt[l + 1..], 0, rest) && Formatted(fmt, 0, args) == out + Formatted(fmt[l + 1..], 0, rest)
    ensures if fmt[l] in "diuxXpsc" then args != [] && rest == args[1..] else rest == args
    ensures fmt[l] in "diuxXpsc" ==>
              && Parse(fmt[1..w], 10).Some?
              && Shows(out, fmt[l], l > w, fmt[1] == '0', Parse(fmt[1..w], 10).value, args[0])
    ensures fmt[l] !in "diuxXpsc" ==> out == if fmt[l] == '%' then "%" else ['%', fmt[l]]
  {
    hide DirectiveAt, Parse, Shows, Converted, Fits;
    DirectiveIsRead(fmt, w, l);
    var d := DirectiveAt(fmt, 1);
    out, rest := DirectiveText(d, args), Remaining(d, args);
    RestOfFormat(fmt, l + 1, 0, rest);
    if TakesArgument(d.conversion) {
      ConversionShows(d, args[0]);
    }
  }

  /** Any other character is printed as it is. */
  lemma CharacterPrints(fmt: string, args: seq<Arg>)
    requires fmt != "" && fmt[0] != '%' && Suits(fmt, 0, args)
    ensures Suits(fmt[1..], 0, args) && Formatted(fmt, 0, args) == [fmt[0]] + Formatted(fmt[1..], 0, args)
  {
    RestOfFormat(fmt, 1, 0, args);
  }

  /** Nothing is printed at the end of the format, nor for a single '%' there. */
  lemma EndPrintsNothing(args: seq<Arg>)
    ensures Formatted("", 0, args) == "" && Formatted("%", 0, args) == ""
  {
  }

  /** What a format of one directive promises. */
  ghost predicate ShowsOne(out: string, fmt: string, w: nat, l: nat, args: seq<Arg>)
    requires DirectiveIn(fmt, w, l)
  {
    if fmt[l] in "diuxXpsc" then
      && args != [] && Parse(fmt[1..w], 10).Some?
      && Shows(out, fmt[l], l > w, fmt[1] == '0', Parse(fmt[1..w], 10).value, args[0])
    else
      out == if fmt[l] == '%' then "%" else ['%', fmt[l]]
  }

  lemma OneDirectivePrints(fmt: string, w: nat, l: nat, args: seq<Arg>)
    requires DirectiveIn(fmt, w, l) && l + 1 == |fmt| && Suits(fmt, 0, args)
    ensures ShowsOne(Formatted(fmt, 0, args), fmt, w, l, args)
  {
    hide Shows, Parse, Suits, Formatted;
    var out, rest := DirectivePrints(fmt, w, l, args);
    EndPrintsNothing(rest);
    assert fmt[l + 1..] == "" && out + "" == out;
  }

  /** Which arguments a format of one directive needs. */
  lemma OneDirectiveNeeds(fmt: string, w: nat, l: nat, args: seq<Arg>)
    requires DirectiveIn(fmt, w, l) && l + 1 == |fmt|
    ensures Suits(fmt, 0, args) <==>
            (fmt[l] in "diuxXpsc" ==>
               && args != []
               && (if fmt[l] == 's' then args[0].Str?
                   else if fmt[l] == 'p' || (l > w && fmt[l] != 'c') then args[0].Word64? && args[0].w64 < TWO_64
                   else args[0].Word32? && args[0].w32 < 0x1_0000_0000))
  {
    hide DirectiveAt, Parse;
    DirectiveIsRead(fmt, w, l);
  }

  // ----- The code

  /** The do-while loop of emit_unsigned; the limit of 32 digits is never what ends it. */
  method SplitDigits(value: nat, base: nat, upper: bool, digits: array<char>) returns (len: nat)
    requires 4 <= base <= 16 && value < TWO_64 && digits.Length == MAX_DIGITS
    modifies digits
    ensures len <= MAX_DIGITS && Backwards(digits[..len]) == Digits(value, base, upper)
  {
    var table := if upper then UPPER else LOWER;
    len := 0;
    var v := value;
    var more := true;
    MaxWord();
    ghost var text := Digits(value, base, upper);
    assert text == text + Backwards(digits[..0]);
    while more
      invariant len <= MAX_DIGITS && v >= 0 && v < Pow4(MAX_DIGITS - len) && (more ==> len < MAX_DIGITS)
      invariant more ==> text == Digits(v, base, upper) + Backwards(digits[..len])
      invariant !more ==> text == Backwards(digits[..len])
      decreases more, MAX_DIGITS - len
    {
      len, v, more := SplitDigit(v, base, upper, table, digits, len, text);
    }
  }

  method SplitDigit(v: nat, base: nat, upper: bool, table: string, digits: array<char>, len: nat, ghost text: string)
    returns (len': nat, rest: nat, more: bool)
    requires 4 <= base <= 16 && digits.Length == MAX_DIGITS && len < MAX_DIGITS && v < Pow4(MAX_DIGITS - len)
    requires table == if upper then UPPER else LOWER
    requires text == Digits(v, base, upper) + Backwards(digits[..len])
    modifies digits
    ensures len' == len + 1 && rest < Pow4(MAX_DIGITS - len') && (more ==> len' < MAX_DIGITS)
    ensures more ==> text == Digits(rest, base, upper) + Backwards(digits[..len'])
    ensures !more ==> text == Backwards(digits[..len'])
  {
    hide Digits, Backwards, Pow4;
    ghost var done := digits[..len];
    DigitSplitOff(text, v, base, upper, done);
    QuotientFits(v, base, MAX_DIGITS - len);
    Euclid(v, base);
    digits[len] := table[v % base];
    len' := len + 1;
    assert digits[..len'] == done + [DigitChar(v % base, upper)];
    rest := v / base;
    more := rest != 0 && len' < MAX_DIGITS;
  }

  /** The digits of emit_unsigned in the order in which they are emitted. */
  method NumberText(value: nat, base: nat, upper: bool) returns (reversed: array<char>, len: nat)
    requires 4 <= base <= 16 && value < TWO_64
    ensures fresh(reversed) && len <= reversed.Length && reversed[..len] == Digits(value, base, upper)
  {
    var digits := new char[MAX_DIGITS];
    len := SplitDigits(value, base, upper, digits);
    reversed := new char[MAX_DIGITS];
    ReverseDigits(digits, len, reversed);
  }

  method ReverseDigits(digits: array<char>, len: nat, reversed: array<char>)
    requires len <= digits.Length && len <= reversed.Length && reversed != digits
    modifies reversed
    ensures reversed[..len] == Backwards(digits[..len])
  {
    ghost var back := Backwards(digits[..len]);
    for i := 0 to len
      invariant forall k :: 0 <= k < i ==> reversed[k] == back[k]
    {
      reversed[i] := digits[len - 1 - i];
    }
    assert reversed[..len] == back;
  }

  /** struct snprintf_ctx, with all that was ever emitted. */
  class Buffer {
    const buf: array<char>
    const size: nat
    var written: nat
    ghost var output: string

    /** The buffer holds the output as far as it fits with a zero byte behind it. */
    ghost predicate Valid()
      reads this, buf
    {
      && size <= buf.Length && written == |output|
      && forall k :: 0 <= k < written && k + 1 < size ==> buf[k] == output[k]
    }

    constructor (buf: array<char>, size: nat)
      requires size <= buf.Length
      ensures Valid() && this.buf == buf && this.size == size && output == ""
    {
      this.buf, this.size, written, output := buf, size, 0, "";
    }

    /** snprintf_emit */
    method Emit(c: char)
      requires Valid()
      modifies this, buf
      ensures Valid() && output == old(output) + [c]
      ensures forall k :: 0 <= k < buf.Length && k + 1 >= size ==> buf[k] == old(buf[k])
    {
      if written + 1 < size {
        buf[written] := c;
      }
      written := written + 1;
      output := output + [c];
    }

    method EmitPadded(digits: string, width: nat, zeroPad: bool)
      requires Valid()
      modifies this, buf
      ensures Valid() && output == old(output) + Padded(digits, width, zeroPad)
      ensures forall k :: 0 <= k < buf.Length && k + 1 >= size ==> buf[k] == old(buf[k])
    {
      var pad := if width > |digits| then width - |digits| else 0;
      var c := if zeroPad then '0' else ' ';
      for i := 0 to pad
        invariant Valid() && output == old(output) + Repeat(c, i)
        invariant forall k :: 0 <= k < buf.Length && k + 1 >= size ==> buf[k] == old(buf[k])
      {
        Emit(c);
        assert Repeat(c, i + 1) == Repeat(c, i) + [c];
      }
      for i := 0 to |digits|
        invariant Valid() && output == old(output) + Repeat(c, pad) + digits[..i]
        invariant forall k :: 0 <= k < buf.Length && k + 1 >= size ==> buf[k] == old(buf[k])
      {
        Emit(digits[i]);
        assert digits[..i + 1] == digits[..i] + [digits[i]];
      }
      assert digits[..|digits|] == digits;
    }

    method EmitUnsigned(value: nat, base: nat, upper: bool, width: nat, zeroPad: bool)
      requires Valid() && 4 <= base <= 16 && value < TWO_64
      modifies this, buf
      ensures Valid() && output == old(output) + UnsignedText(value, base, upper, width, zeroPad)
      ensures forall k :: 0 <= k < buf.Length && k + 1 >= size ==> buf[k] == old(buf[k])
    {
      var text, len := NumberText(value, base, upper);
      EmitPadded(text[..len], width, zeroPad);
    }

    method EmitSigned(value: int, width: nat, zeroPad: bool)
      requires Valid() && -0x8000_0000_0000_0000 <= value < 0x8000_0000_0000_0000
      modifies this, buf
      ensures Valid() && output == old(output) + SignedText(value, width, zeroPad)
      ensures forall k :: 0 <= k < buf.Length && k + 1 >= size ==> buf[k] == old(buf[k])
    {
      if value < 0 {
        Emit('-');
        var magnitude := -(value + 1) + 1;
        var rest := if width > 0 then width - 1 else 0;
        EmitUnsigned(magnitude, 10, false, rest, zeroPad);
        Associative(old(output), "-", UnsignedText(-value, 10, false, rest, zeroPad));
      } else {
        EmitUnsigned(value, 10, false, width, zeroPad);
      }
    }

    /** The switch of kvprintf, for a conversion that takes an argument. */
    method EmitConverted(d: Directive, arg: Arg)
      requires Valid() && TakesArgument(d.conversion) && Fits(d, arg)
      modifies this, buf
      ensures Valid() && output == old(output) + Converted(d, arg)
      ensures forall k :: 0 <= k < buf.Length && k + 1 >= size ==> buf[k] == old(buf[k])
    {
      hide UnsignedText, SignedText, Padded;
      if d.conversion == 'd' || d.conversion == 'i' {
        EmitSigned(if d.isLong then Signed(arg.w64, 64) else Signed(arg.w32, 32), d.width, d.zeroPad);
      } else if d.conversion == 'u' {
        EmitUnsigned(if d.isLong then arg.w64 else arg.w32, 10, false, d.width, d.zeroPad);
      } else if d.conversion == 'x' || d.conversion == 'X' {
        EmitUnsigned(if d.isLong then arg.w64 else arg.w32, 16, d.conversion == 'X', d.width, d.zeroPad);
      } else if d.conversion == 'p' {
        Emit('0');
        Emit('x');
        EmitUnsigned(arg.w64, 16, false, 16, true);
        assert "0x" == ['0'] + ['x'];
      } else if d.conversion == 's' {
        EmitPadded(if arg.s.Some? then arg.s.value else "(null)", d.width, false);
      } else {
        Emit((arg.w32 % 256) as char);
      }
    }

    /** kvprintf */
    method Kvprintf(fmt: string, args: seq<Arg>)
      requires Valid() && Suits(fmt, 0, args)
      modifies this, buf
      ensures Valid() && output == old(output) + Formatted(fmt, 0, args)
      ensures forall k :: 0 <= k < buf.Length && k + 1 >= size ==> buf[k] == old(buf[k])
    {
      var p, rest := 0, args;
      ghost var all := output + Formatted(fmt, 0, args);
      while p < |fmt|
        invariant Valid() && p <= |fmt| && Suits(fmt, p, rest) && all == output + Formatted(fmt, p, rest)
        invariant forall k :: 0 <= k < buf.Length && k + 1 >= size ==> buf[k] == old(buf[k])
      {
        p, rest := EmitNext(fmt, p, rest, all);
      }
    }

    /** One character of the format, or one directive. */
    method EmitNext(fmt: string, p: nat, args: seq<Arg>, ghost all: string) returns (next: nat, rest: seq<Arg>)
      requires Valid() && p < |fmt| && Suits(fmt, p, args) && all == output + Formatted(fmt, p, args)
      modifies this, buf
      ensures Valid() && p < next <= |fmt| && Suits(fmt, next, rest) &&
              all == output + Formatted(fmt, next, rest)
      ensures forall k :: 0 <= k < buf.Length && k + 1 >= size ==> buf[k] == old(buf[k])
    {
      next, rest := p + 1, args;
      if fmt[p] != '%' {
        ghost var before := output;
        Emit(fmt[p]);
        Associative(before, [fmt[p]], Formatted(fmt, next, rest));
      } else if next < |fmt| {
        next, rest := EmitAfterPercent(fmt, next, args, all);
      }
    }

    method EmitAfterPercent(fmt: string, p: nat, args: seq<Arg>, ghost all: string) returns (next: nat, rest: seq<Arg>)
      requires Valid() && 0 < p < |fmt| && fmt[p - 1] == '%' && Suits(fmt, p - 1, args)
      requires all == output + Formatted(fmt, p - 1, args)
      modifies this, buf
      ensures Valid() && p < next <= |fmt| && Suits(fmt, next, rest) &&
              all == output + Formatted(fmt, next, rest)
      ensures forall k :: 0 <= k < buf.Length && k + 1 >= size ==> buf[k] == old(buf[k])
    {
      hide *;
      var d := ScanDirective(fmt, p);
      AtDirective(fmt, p - 1, d, args);
      DirectiveDone(fmt, p - 1, d, args, output, all);
      EmitDirective(d, args);
      next, rest := d.at + 1, Remaining(d, args);
    }

    method EmitDirective(d: Directive, args: seq<Arg>)
      requires Valid() && Served(d, args)
      modifies this, buf
      ensures Valid() && output == old(output) + DirectiveText(d, args)
      ensures forall k :: 0 <= k < buf.Length && k + 1 >= size ==> buf[k] == old(buf[k])
    {
      if TakesArgument(d.conversion) {
        EmitConverted(d, args[0]);
      } else if d.conversion == '%' {
        Emit('%');
      } else {
        Emit('%');
        Emit(d.conversion);
        assert ['%', d.conversion] == ['%'] + [d.conversion];
      }
    }
  }

  /** The flag, the width and the length modifier of a directive. */
  method ScanDirective(fmt: string, p: nat) returns (d: Directive)
    requires p < |fmt|
    ensures d == DirectiveAt(fmt, p)
  {
    var at := p;
    var zeroPad := false;
    if CharAt(fmt, at) == '0' {
      zeroPad := true;
      at := at + 1;
    }
    ghost var start := at;
    var width: nat := 0;
    while IsDigit(CharAt(fmt, at))
      invariant Width(fmt, start, 0) == Width(fmt, at, width) && WidthEnd(fmt, start) == WidthEnd(fmt, at)
      decreases |fmt| - at
    {
      width := width * 10 + (fmt[at] as nat - '0' as nat);
      at := at + 1;
    }
    ghost var widthEnd := at;
    var length := 0;
    while CharAt(fmt, at) == 'l'
      invariant at == widthEnd + length && LengthEnd(fmt, widthEnd) == LengthEnd(fmt, at)
      decreases |fmt| - at
    {
      length := length + 1;
      at := at + 1;
    }
    d := Directive(zeroPad, width, length > 0, CharAt(fmt, at), at);
  }

  function Min(a: nat, b: nat): nat { if a < b then a else b }

  /** ksnprintf: the output as far as it fits, always with a zero byte behind it, and the length of all of it. */
  method Ksnprintf(buf: array<char>, size: nat, fmt: string, args: seq<Arg>) returns (length: nat)
    requires size <= buf.Length && Suits(fmt, 0, args)
    modifies buf
    ensures length == |Formatted(fmt, 0, args)|
    ensures size > 0 ==>
              var n := Min(length, size - 1);
              buf[..n] == Formatted(fmt, 0, args)[..n] && buf[n] == '\0'
    ensures forall w: nat, l: nat :: DirectiveIn(fmt, w, l) && l + 1 == |fmt| ==>
              ShowsOne(Formatted(fmt, 0, args), fmt, w, l, args)
    ensures forall k :: size <= k < buf.Length ==> buf[k] == old(buf[k])
  {
    hide Suits, Formatted, DirectiveIn, ShowsOne;
    var ctx := new Buffer(buf, size);
    ctx.Kvprintf(fmt, args);
    assert ctx.output == Formatted(fmt, 0, args);
    forall w: nat, l: nat | DirectiveIn(fmt, w, l) && l + 1 == |fmt|
      ensures ShowsOne(Formatted(fmt, 0, args), fmt, w, l, args)
    {
      OneDirectivePrints(fmt, w, l, args);
    }
    if size > 0 {
      var term := if ctx.written < size - 1 then ctx.written else size - 1;
      buf[term] := '\0';
    }
    length := ctx.written;
  }
}
