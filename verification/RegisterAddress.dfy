/** Register addresses such as "h100": what configuration validation accepts and what the device handler parses. */
module RegisterAddress {
  import opened Basics

  datatype RegisterType = Coil | Discrete | Input | Holding

  // ---------------------------------------------------------------- strings as Rust sees them

  /** The Unicode property White_Space. */
  predicate IsWhite(c: char) {
    var n := c as int;
    || 0x09 <= n <= 0x0D || n == 0x20 || n == 0x85 || n == 0xA0 || n == 0x1680 || 0x2000 <= n <= 0x200A
    || n == 0x2028 || n == 0x2029 || n == 0x202F || n == 0x205F || n == 0x3000
  }

  function TrimStart(s: string): string {
    if s != "" && IsWhite(s[0]) then TrimStart(s[1..]) else s
  }

  function TrimEnd(s: string): string {
    if s != "" && IsWhite(s[|s| - 1]) then TrimEnd(s[..|s| - 1]) else s
  }

  function Trim(s: string): string { TrimEnd(TrimStart(s)) }

  /** The bytes of a character in UTF-8. */
  function Width(c: char): nat {
    var n := c as int;
    if n < 0x80 then 1 else if n < 0x800 then 2 else if n < 0x1_0000 then 3 else 4
  }

  function ByteLength(s: string): nat {
    if s == "" then 0 else Width(s[0]) + ByteLength(s[1..])
  }

  predicate IsDigit(c: char) { '0' <= c <= '9' }

  function DigitOf(c: char): nat
    requires IsDigit(c)
  {
    c as int - '0' as int
  }

  /** `parse::<u16>()` and `parse::<u32>()`: an optional plus, then digits, with every step checked against the
      largest value of the type. */
  function ParseUnsigned(s: string, max: nat): Option<nat> {
    if s == "" || s == "+" || s == "-" then None
    else ParseDigits(if s[0] == '+' then s[1..] else s, 0, max)
  }

  function ParseDigits(s: string, value: nat, max: nat): Option<nat> {
    if s == "" then Some(value)
    else if value * 10 > max || !IsDigit(s[0]) || value * 10 + DigitOf(s[0]) > max then None
    else ParseDigits(s[1..], value * 10 + DigitOf(s[0]), max)
  }

  // ---------------------------------------------------------------- what a decimal numeral means

  predicate AllDigits(s: string) { forall i :: 0 <= i < |s| ==> IsDigit(s[i]) }

  function Decimal(s: string, value: nat): nat
    requires AllDigits(s)
  {
    if s == "" then value else Decimal(s[1..], value * 10 + DigitOf(s[0]))
  }

  lemma {:induction false} DecimalGrows(s: string, value: nat)
    requires AllDigits(s)
    ensures Decimal(s, value) >= value
  {
    if s == "" {
    } else {
      DecimalGrows(s[1..], value * 10 + DigitOf(s[0]));
    }
  }

  /** Checking at every step is checking the result. */
  lemma {:induction false} ParseDigitsIsDecimal(s: string, value: nat, max: nat)
    requires value <= max
    ensures ParseDigits(s, value, max)
         == if AllDigits(s) && Decimal(s, value) <= max then Some(Decimal(s, value)) else None
  {
    if s != "" && IsDigit(s[0]) {
      var next := value * 10 + DigitOf(s[0]);
      if next <= max {
        ParseDigitsIsDecimal(s[1..], next, max);
        assert AllDigits(s) <==> AllDigits(s[1..]);
      } else if AllDigits(s) {
        DecimalGrows(s[1..], next);
      }
    }
  }

  /** Parsing in 32 bits and checking the range afterwards accepts the same texts as parsing in 16 bits. */
  lemma WideThenRangeIsNarrow(s: string, wide: nat, narrow: nat)
    requires narrow <= wide
    ensures ParseUnsigned(s, narrow)
         == var w := ParseUnsigned(s, wide); if w.Some? && w.value <= narrow then w else None
  {
    if s != "" {
      var digits := if s[0] == '+' then s[1..] else s;
      ParseDigitsIsDecimal(digits, 0, wide);
      ParseDigitsIsDecimal(digits, 0, narrow);
    }
  }

  // ---------------------------------------------------------------- the two readers of an address

  /** The type of an address prefix, in either case. */
  function TypeOf(c: char): Option<RegisterType> {
    match c
    case 'h' | 'H' => Some(Holding)
    case 'i' | 'I' => Some(Input)
    case 'c' | 'C' => Some(Coil)
    case 'd' | 'D' => Some(Discrete)
    case _ => None
  }

  function ParseRegisterAddress(text: string): Option<(RegisterType, register)> {
    var s := Trim(text);
    if s == "" then None
    else
      var t := TypeOf(s[0]);
      var n := ParseUnsigned(if t.Some? then s[1..] else s, 0xFFFF);
      if n.None? || n.value > 0xFFFF then None
      else Some((if t.Some? then t.value else Holding, n.value))
  }

  /** What validation says of an address; `SliceCrash` is a slice inside a character. */
  datatype Verdict = Accepted | BadFormat | OutOfRange(num: nat) | SliceCrash

  function AddressVerdict(text: string): Verdict {
    var s := Trim(text);
    if ByteLength(s) < 2 then BadFormat
    else if Width(s[0]) > 1 then SliceCrash
    else if TypeOf(s[0]).None? then BadFormat
    else
      match ParseUnsigned(s[1..], 0xFFFF_FFFF)
      case None => BadFormat
      case Some(n) => if n > 0xFFFF then OutOfRange(n) else Accepted
  }

  lemma {:induction false} ParsedIsBounded(s: string, max: nat)
    ensures ParseUnsigned(s, max).Some? ==> ParseUnsigned(s, max).value <= max
  {
    if s == "" {
    } else {
      ParseDigitsIsDecimal(if s[0] == '+' then s[1..] else s, 0, max);
    }
  }

  /** Validation accepts exactly the addresses that the handler parses and that carry a prefix; the handler then
      finds the type of the prefix and the number that validation read. */
  lemma AcceptedExactlyWhenParsed(text: string)
    ensures AddressVerdict(text) == Accepted <==>
      Trim(text) != "" && TypeOf(Trim(text)[0]).Some? && ParseRegisterAddress(text).Some?
    ensures AddressVerdict(text) == Accepted ==>
      var s := Trim(text);
      && ParseRegisterAddress(text).value.0 == TypeOf(s[0]).value
      && ParseUnsigned(s[1..], 0xFFFF_FFFF) == Some(ParseRegisterAddress(text).value.1 as nat)
  {
    var s := Trim(text);
    if s != "" {
      WideThenRangeIsNarrow(s[1..], 0xFFFF_FFFF, 0xFFFF);
      ParsedIsBounded(s[1..], 0xFFFF);
      hide ParseUnsigned, Trim;
      if ByteLength(s) < 2 { ShortIsOneCharacter(s); }
    }
  }

  lemma ShortIsOneCharacter(s: string)
    requires s != "" && ByteLength(s) < 2
    ensures s[1..] == "" && ParseUnsigned(s[1..], 0xFFFF) == None
  {
    if |s| > 1 { TwoCharactersAreTwoBytes(s); }
  }

  lemma TwoCharactersAreTwoBytes(s: string)
    requires |s| > 1
    ensures ByteLength(s) >= 2
  {
    assert ByteLength(s[1..]) >= Width(s[1]);
  }

  /** Some addresses are out of range, not malformed: the numerals between 2^16 and 2^32. */
  lemma OutOfRangeExactly(text: string, n: nat)
    ensures AddressVerdict(text) == OutOfRange(n) <==>
      var s := Trim(text);
      s != "" && TypeOf(s[0]).Some? && ParseUnsigned(s[1..], 0xFFFF_FFFF) == Some(n) && n > 0xFFFF
  {
    var s := Trim(text);
    hide Trim;
    if s != "" && ByteLength(s) < 2 {
      ShortIsOneCharacter(s);
      assert ParseUnsigned(s[1..], 0xFFFF_FFFF) == None;
    }
  }

  /** The handler parses more than validation lets through: exactly the 16-bit numerals without a prefix, which it
      takes for holding registers. */
  lemma BareNumberIsOnlyParsed(text: string)
    ensures ParseRegisterAddress(text).Some? && AddressVerdict(text) != Accepted <==>
      var s := Trim(text);
      s != "" && TypeOf(s[0]).None? && ParseUnsigned(s, 0xFFFF).Some?
    ensures ParseRegisterAddress(text).Some? && AddressVerdict(text) != Accepted ==>
      ParseRegisterAddress(text).value.0 == Holding
      && ParseUnsigned(Trim(text), 0xFFFF) == Some(ParseRegisterAddress(text).value.1 as nat)
  {
    AcceptedExactlyWhenParsed(text);
    var s := Trim(text);
    if s != "" { ParsedIsBounded(s, 0xFFFF); }
    hide Trim, AddressVerdict, ParseUnsigned;
  }

  /** Validation itself stops in a slice exactly when the trimmed address begins with a character of several bytes. */
  lemma SliceCrashExactly(text: string)
    ensures AddressVerdict(text) == SliceCrash <==> Trim(text) != "" && Width(Trim(text)[0]) > 1
  {
    var s := Trim(text);
    hide Trim, ParseUnsigned;
    if s != "" && Width(s[0]) > 1 { assert ByteLength(s) >= Width(s[0]); }
  }

  lemma AccentedAddressCrashes()
    ensures AddressVerdict("\U{E9}1") == SliceCrash
  {
    var s := "\U{E9}1";
    assert TrimStart(s) == s && TrimEnd(s) == s;
    SliceCrashExactly(s);
  }

  // ---------------------------------------------------------------- how an address is written

  const DIGITS: string := "0123456789"

  /** The decimal numeral of a number. */
  function Numeral(n: nat): string { (if n < 10 then "" else Numeral(n / 10)) + [DIGITS[n % 10]] }

  /** The characters of the Unicode property White_Space. */
  const BLANKS: string := "\t\n\U{B}\U{C}\r \U{85}\U{A0}\U{1680}\U{2000}\U{2001}\U{2002}\U{2003}\U{2004}\U{2005}" +
    "\U{2006}\U{2007}\U{2008}\U{2009}\U{200A}\U{2028}\U{2029}\U{202F}\U{205F}\U{3000}"

  function Letters(t: RegisterType): string {
    match t
    case Holding => "hH"
    case Input => "iI"
    case Coil => "cC"
    case Discrete => "dD"
  }

  function ZeroDigits(k: nat): string { if k == 0 then "" else ZeroDigits(k - 1) + "0" }

  /** A numeral, perhaps behind zeros and a plus. */
  ghost predicate Spells(s: string, n: nat) {
    exists k: nat :: s == ZeroDigits(k) + Numeral(n) || s == "+" + (ZeroDigits(k) + Numeral(n))
  }

  predicate Blank(s: string) { forall i :: 0 <= i < |s| ==> s[i] in BLANKS }

  /** `body` with blanks around it. */
  ghost predicate Holds(text: string, body: string) {
    exists before: string, after: string :: Blank(before) && Blank(after) && text == before + body + after
  }

  /** The letter of a type and a numeral. */
  ghost predicate Prefixed(text: string, t: RegisterType, n: nat) {
    exists body: string :: body != "" && Holds(text, body) && body[0] in Letters(t) && Spells(body[1..], n)
  }

  ghost predicate Bare(text: string, n: nat) {
    exists body: string :: Holds(text, body) && Spells(body, n)
  }

  lemma DigitIs(c: char)
    ensures IsDigit(c) <==> c in DIGITS
    ensures IsDigit(c) ==> DIGITS[DigitOf(c)] == c
    ensures forall d :: 0 <= d < 10 ==> IsDigit(DIGITS[d]) && DigitOf(DIGITS[d]) == d
  {}

  lemma {:induction false} DecimalSnoc(s: string, c: char, value: nat)
    requires AllDigits(s) && IsDigit(c)
    ensures AllDigits(s + [c]) && Decimal(s + [c], value) == 10 * Decimal(s, value) + DigitOf(c)
  {
    if s == "" {
      assert [c][1..] == "";
    } else {
      assert (s + [c])[1..] == s[1..] + [c];
      DecimalSnoc(s[1..], c, value * 10 + DigitOf(s[0]));
    }
  }

  lemma {:induction false} DecimalBehindZeros(k: nat, s: string)
    requires AllDigits(s)
    ensures AllDigits(ZeroDigits(k) + s) && Decimal(ZeroDigits(k) + s, 0) == Decimal(s, 0)
    decreases k
  {
    if k == 0 {
      assert ZeroDigits(0) + s == s;
    } else {
      assert ZeroDigits(k) + s == ZeroDigits(k - 1) + ("0" + s);
      assert ("0" + s)[1..] == s;
      DecimalBehindZeros(k - 1, "0" + s);
    }
  }

  /** A numeral means its number. */
  lemma {:induction false} NumeralMeans(n: nat)
    ensures AllDigits(Numeral(n)) && Decimal(Numeral(n), 0) == n
  {
    DigitIs('0');
    var c := DIGITS[n % 10];
    if n < 10 {
      assert [c][1..] == "";
    } else {
      NumeralMeans(n / 10);
      DecimalSnoc(Numeral(n / 10), c, 0);
    }
  }

  /** Digits are the numeral of what they mean, behind zeros. */
  lemma {:induction false} DigitsAreNumeral(s: string) returns (k: nat)
    requires s != "" && AllDigits(s)
    ensures s == ZeroDigits(k) + Numeral(Decimal(s, 0))
  {
    var n := |s| - 1;
    var r, c := s[..n], s[n];
    assert s == r + [c];
    if r == "" {
      k := 0;
      OneDigit(c);
    } else {
      k := DigitsAreNumeral(r);
      DecimalSnoc(r, c, 0);
      hide Decimal, ZeroDigits, Numeral, AllDigits;
      k := OneMoreDigit(Decimal(r, 0), c, k);
    }
  }

  lemma OneDigit(c: char)
    requires IsDigit(c)
    ensures Decimal([c], 0) == DigitOf(c) && [c] == ZeroDigits(0) + Numeral(DigitOf(c))
  {
    DigitIs(c);
    assert [c][1..] == "";
  }

  lemma OneMoreDigit(m: nat, c: char, k: nat) returns (more: nat)
    requires IsDigit(c)
    ensures ZeroDigits(k) + Numeral(m) + [c] == ZeroDigits(more) + Numeral(10 * m + DigitOf(c))
  {
    DigitIs(c);
    if m == 0 {
      more := k + 1;
      assert Numeral(0) == "0" && Numeral(DigitOf(c)) == [c] && ZeroDigits(more) == ZeroDigits(k) + "0";
    } else {
      more := k;
      var n := 10 * m + DigitOf(c);
      assert n / 10 == m && n % 10 == DigitOf(c);
      assert Numeral(n) == Numeral(m) + [c];
      hide Numeral, ZeroDigits;
      assert ZeroDigits(k) + Numeral(m) + [c] == ZeroDigits(k) + (Numeral(m) + [c]);
    }
  }

  lemma NumeralStarts(k: nat, n: nat)
    ensures var s := ZeroDigits(k) + Numeral(n);
      && s != "" && AllDigits(s) && Decimal(s, 0) == n && s[0] in DIGITS && s[|s| - 1] in DIGITS
  {
    NumeralMeans(n);
    DecimalBehindZeros(k, Numeral(n));
    var s := ZeroDigits(k) + Numeral(n);
    DigitIs(s[0]);
    DigitIs(s[|s| - 1]);
  }

  lemma SpelledParses(s: string, max: nat, n: nat)
    requires Spells(s, n)
    ensures ParseUnsigned(s, max) == if n <= max then Some(n) else None
  {
    var k: nat :| s == ZeroDigits(k) + Numeral(n) || s == "+" + (ZeroDigits(k) + Numeral(n));
    NumeralStarts(k, n);
    var digits := ZeroDigits(k) + Numeral(n);
    DigitIs('+');
    DigitIs('-');
    ParseDigitsIsDecimal(digits, 0, max);
    hide ZeroDigits, Numeral, Decimal, ParseDigits;
    if s != digits { assert s[1..] == digits && s[0] == '+'; }
  }

  /** What is parsed is exactly a numeral in range, perhaps behind zeros and a plus. */
  lemma ParsedExactlyWhenSpelled(s: string, max: nat, n: nat)
    ensures ParseUnsigned(s, max) == Some(n) <==> n <= max && Spells(s, n)
  {
    if ParseUnsigned(s, max) == Some(n) {
      var digits := if s[0] == '+' then s[1..] else s;
      ParseDigitsIsDecimal(digits, 0, max);
      var k := DigitsAreNumeral(digits);
      assert s == digits || s == "+" + digits;
    }
    hide ParseUnsigned;
    if Spells(s, n) { SpelledParses(s, max, n); }
  }

  lemma BlankIs(c: char)
    ensures IsWhite(c) <==> c in BLANKS
  {}

  lemma {:induction false} TrimStartIs(before: string, rest: string)
    requires Blank(before) && (rest == "" || rest[0] !in BLANKS)
    ensures TrimStart(before + rest) == rest
    decreases before
  {
    if before == "" {
      assert before + rest == rest;
      if rest != "" { BlankIs(rest[0]); }
    } else {
      BlankIs(before[0]);
      assert (before + rest)[1..] == before[1..] + rest;
      TrimStartIs(before[1..], rest);
    }
  }

  lemma {:induction false} TrimEndIs(rest: string, after: string)
    requires Blank(after) && (rest == "" || rest[|rest| - 1] !in BLANKS)
    ensures TrimEnd(rest + after) == rest
    decreases after
  {
    if after == "" {
      assert rest + after == rest;
      if rest != "" { BlankIs(rest[|rest| - 1]); }
    } else {
      var n := |after| - 1;
      BlankIs(after[n]);
      assert (rest + after)[..|rest + after| - 1] == rest + after[..n];
      TrimEndIs(rest, after[..n]);
    }
  }

  /** Trimming finds a text between blanks. */
  lemma TrimIs(text: string, body: string)
    requires Holds(text, body) && body != "" && body[0] !in BLANKS && body[|body| - 1] !in BLANKS
    ensures Trim(text) == body
  {
    var before: string, after: string :| Blank(before) && Blank(after) && text == before + body + after;
    assert text == before + (body + after);
    TrimStartIs(before, body + after);
    TrimEndIs(body, after);
  }

  lemma BlankJoin(a: string, b: string)
    ensures Blank(a) && Blank(b) ==> Blank(a + b)
    ensures Blank("")
  {
    hide BLANKS;
  }

  lemma OneBlank(c: char)
    ensures IsWhite(c) <==> Blank([c])
    ensures !IsWhite(c) <==> c !in BLANKS
  {
    BlankIs(c);
    hide BLANKS, IsWhite;
    assert [c][0] == c;
  }

  lemma {:induction false} TrimStartLeaves(s: string) returns (before: string)
    ensures Blank(before) && s == before + TrimStart(s)
    ensures TrimStart(s) != "" ==> TrimStart(s)[0] !in BLANKS
  {
    hide Blank, BLANKS, IsWhite;
    if s != "" { OneBlank(s[0]); }
    if s != "" && IsWhite(s[0]) {
      var rest := TrimStartLeaves(s[1..]);
      BlankJoin([s[0]], rest);
      before := [s[0]] + rest;
    } else {
      BlankJoin("", "");
      before := "";
    }
  }

  lemma {:induction false} TrimEndLeaves(s: string) returns (after: string)
    ensures Blank(after) && s == TrimEnd(s) + after
    ensures TrimEnd(s) != "" ==> TrimEnd(s)[|TrimEnd(s)| - 1] !in BLANKS
  {
    hide Blank, BLANKS, IsWhite;
    var n := |s| - 1;
    if s != "" { OneBlank(s[n]); }
    if s != "" && IsWhite(s[n]) {
      var rest := TrimEndLeaves(s[..n]);
      BlankJoin(rest, [s[n]]);
      after := rest + [s[n]];
    } else {
      BlankJoin("", "");
      after := "";
    }
  }

  lemma TrimLeaves(text: string)
    ensures Holds(text, Trim(text))
    ensures Trim(text) != "" ==> Trim(text)[0] !in BLANKS
  {
    var before := TrimStartLeaves(text);
    var after := TrimEndLeaves(TrimStart(text));
    hide TrimStart, TrimEnd, Blank;
    assert text == before + Trim(text) + after;
    if Trim(text) != "" { assert TrimStart(text)[0] == Trim(text)[0]; }
  }

  lemma LettersAre(c: char, t: RegisterType)
    ensures TypeOf(c) == Some(t) <==> c in Letters(t)
    ensures c in Letters(t) || c in DIGITS || c == '+' ==> c !in BLANKS && c as int < 0x80
    ensures c in DIGITS || c == '+' ==> TypeOf(c).None?
  {
    BlankIs(c);
    DigitIs(c);
    hide BLANKS, DIGITS;
  }

  /** A numeral, with or without a letter, has nothing to trim. */
  lemma SpelledEnds(s: string, n: nat)
    requires Spells(s, n)
    ensures s != "" && (s[0] in DIGITS || s[0] == '+') && s[|s| - 1] in DIGITS
  {
    var k: nat :| s == ZeroDigits(k) + Numeral(n) || s == "+" + (ZeroDigits(k) + Numeral(n));
    NumeralStarts(k, n);
  }

  lemma PrefixedIs(text: string, t: RegisterType, n: nat)
    ensures Prefixed(text, t, n) <==>
      var s := Trim(text); s != "" && TypeOf(s[0]) == Some(t) && Spells(s[1..], n)
  {
    hide Holds, Spells, Trim, Letters, TypeOf;
    var s := Trim(text);
    TrimLeaves(text);
    if s != "" { LettersAre(s[0], t); }
    if Prefixed(text, t, n) {
      var body: string :| body != "" && Holds(text, body) && body[0] in Letters(t) && Spells(body[1..], n);
      SpelledEnds(body[1..], n);
      LettersAre(body[0], t);
      LettersAre(body[|body| - 1], t);
      TrimIs(text, body);
    }
  }

  lemma BareIs(text: string, n: nat)
    ensures Bare(text, n) <==> Spells(Trim(text), n)
  {
    hide Holds, Spells, Trim;
    TrimLeaves(text);
    if Bare(text, n) {
      var body: string :| Holds(text, body) && Spells(body, n);
      SpelledEnds(body, n);
      LettersAre(body[0], Holding);
      LettersAre(body[|body| - 1], Holding);
      TrimIs(text, body);
    }
  }

  /** The handler reads exactly the texts that hold, between blanks, a letter of the type and a 16-bit numeral; a
      numeral alone is a holding register. */
  lemma ParsedExactly(text: string, t: RegisterType, n: register)
    ensures ParseRegisterAddress(text) == Some((t, n)) <==> Prefixed(text, t, n) || (t == Holding && Bare(text, n))
  {
    PrefixedIs(text, t, n);
    BareIs(text, n);
    var s := Trim(text);
    hide Trim, Prefixed, Bare, ParseUnsigned, TypeOf;
    if s != "" {
      ParsedExactlyWhenSpelled(s[1..], 0xFFFF, n);
      ParsedExactlyWhenSpelled(s, 0xFFFF, n);
      LettersAre(s[0], t);
      if Spells(s, n) { SpelledEnds(s, n); }
    } else if Spells(s, n) {
      SpelledEnds(s, n);
    }
    hide Spells;
  }

  /** The text begins, behind blanks, with a character outside ASCII. */
  ghost predicate BeginsWide(text: string) {
    exists before: string, rest: string ::
      Blank(before) && rest != "" && text == before + rest && rest[0] !in BLANKS && rest[0] as int >= 0x80
  }

  lemma PrefixedVerdict(text: string, t: RegisterType, n: nat)
    requires Prefixed(text, t, n)
    ensures AddressVerdict(text)
         == if n <= 0xFFFF then Accepted else if n <= 0xFFFF_FFFF then OutOfRange(n) else BadFormat
  {
    var s := Trim(text);
    PrefixedIs(text, t, n);
    LettersAre(s[0], t);
    SpelledEnds(s[1..], n);
    SpelledParses(s[1..], 0xFFFF_FFFF, n);
    hide Trim, Prefixed, ParseUnsigned, TypeOf, Spells, ByteLength;
    TwoCharactersAreTwoBytes(s);
  }

  lemma VerdictIsPrefixed(text: string, n: nat)
    requires AddressVerdict(text).Accepted? || AddressVerdict(text) == OutOfRange(n)
    ensures exists t: RegisterType, m: nat ::
      && Prefixed(text, t, m)
      && if AddressVerdict(text).Accepted? then m <= 0xFFFF else m == n && 0xFFFF < n <= 0xFFFF_FFFF
  {
    var s := Trim(text);
    AcceptedExactlyWhenParsed(text);
    OutOfRangeExactly(text, n);
    var m := ParseUnsigned(s[1..], 0xFFFF_FFFF).value;
    ParsedExactlyWhenSpelled(s[1..], 0xFFFF_FFFF, m);
    PrefixedIs(text, TypeOf(s[0]).value, m);
  }

  lemma WideIs(text: string)
    ensures BeginsWide(text) <==> Trim(text) != "" && Width(Trim(text)[0]) > 1
  {
    var s := TrimStart(text);
    var before := TrimStartLeaves(text);
    TrimEndKeepsFirst(s);
    if BeginsWide(text) {
      var b: string, rest: string :|
        Blank(b) && rest != "" && text == b + rest && rest[0] !in BLANKS && rest[0] as int >= 0x80;
      TrimStartIs(b, rest);
    }
    hide TrimStart, TrimEnd, Blank;
  }

  lemma TrimEndKeepsFirst(s: string)
    requires s != "" ==> s[0] !in BLANKS
    ensures s != "" ==> TrimEnd(s) != "" && TrimEnd(s)[0] == s[0]
    ensures s == "" ==> TrimEnd(s) == ""
  {
    var after := TrimEndLeaves(s);
    hide TrimEnd;
    assert TrimEnd(s) == "" ==> s == after;
  }

  /** Validation accepts exactly those with a letter, calls out of range exactly those with a larger 32-bit numeral,
      and stops in a slice exactly at a first character outside ASCII; everything else is a bad format. */
  lemma VerdictExactly(text: string, n: nat)
    ensures AddressVerdict(text) == Accepted <==>
      exists t: RegisterType, m: nat :: Prefixed(text, t, m) && m <= 0xFFFF
    ensures AddressVerdict(text) == OutOfRange(n) <==>
      0xFFFF < n <= 0xFFFF_FFFF && exists t: RegisterType :: Prefixed(text, t, n)
    ensures AddressVerdict(text) == SliceCrash <==> BeginsWide(text)
  {
    hide Prefixed, AddressVerdict, BeginsWide, Trim;
    if t: RegisterType, m: nat :| Prefixed(text, t, m) && m <= 0xFFFF { PrefixedVerdict(text, t, m); }
    if t: RegisterType :| Prefixed(text, t, n) { PrefixedVerdict(text, t, n); }
    if AddressVerdict(text).Accepted? || AddressVerdict(text) == OutOfRange(n) { VerdictIsPrefixed(text, n); }
    WideIs(text);
    SliceCrashExactly(text);
  }

  lemma AcceptedIsParsed(text: string)
    requires AddressVerdict(text) == Accepted
    ensures ParseRegisterAddress(text).Some?
    ensures Prefixed(text, ParseRegisterAddress(text).value.0, ParseRegisterAddress(text).value.1)
  {
    hide Prefixed, AddressVerdict, ParseRegisterAddress;
    VerdictExactly(text, 0);
    var t: RegisterType, m: nat :| Prefixed(text, t, m) && m <= 0xFFFF;
    ParsedExactly(text, t, m);
  }

  /** For example, every number has its address with every letter. */
  lemma EveryNumberHasItsAddress(t: RegisterType, c: char, n: nat)
    requires c in Letters(t)
    ensures n <= 0xFFFF ==> ParseRegisterAddress([c] + Numeral(n)) == Some((t, n))
    ensures AddressVerdict([c] + Numeral(n))
         == if n <= 0xFFFF then Accepted else if n <= 0xFFFF_FFFF then OutOfRange(n) else BadFormat
  {
    var text := [c] + Numeral(n);
    assert Holds(text, text) by { assert Blank("") && text == "" + text + ""; }
    assert text[1..] == ZeroDigits(0) + Numeral(n);
    assert Spells(text[1..], n) && Prefixed(text, t, n);
    hide Prefixed;
    if n <= 0xFFFF { ParsedExactly(text, t, n); }
    PrefixedVerdict(text, t, n);
  }
}
