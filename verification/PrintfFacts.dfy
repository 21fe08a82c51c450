/** What a reader of the printed numbers may rely on, and where printf.c breaks it. */
module PrintfFacts {
  import opened DivMod
  import opened Division
  import opened PrintfText
  import opened Words

  function DigitValue(c: char): nat {
    if '0' <= c <= '9' then (c - '0') as nat
    else if 'a' <= c <= 'z' then (c - 'a') as nat + 10
    else if 'A' <= c <= 'Z' then (c - 'A') as nat + 10
    else 0
  }

  /** The number a digit string denotes, most significant digit first. */
  function Parse(s: string, base: nat): nat {
    if s == [] then 0 else base * Parse(s[..|s| - 1], base) + DigitValue(s[|s| - 1])
  }

  /** The number in the scratch buffer, least significant digit first. */
  function ParseBack(s: string, base: nat): nat {
    if s == [] then 0 else DigitValue(s[0]) + base * ParseBack(s[1..], base)
  }

  lemma {:induction false} ParseBackwards(s: string, base: nat)
    ensures Parse(Backwards(s), base) == ParseBack(s, base)
  {
    if s != [] {
      var t := Backwards(s);
      assert t[..|t| - 1] == Backwards(s[1..]);
      ParseBackwards(s[1..], base);
    }
  }

  lemma DigitCharValue(d: nat, upper: bool)
    requires d < 16
    ensures DigitValue(DigitChar(d, upper)) == d
    ensures DigitChar(d, upper) == '0' <==> d == 0
  {}

  lemma QuotientShrinks(v: nat, base: nat)
    requires 2 <= base
    ensures v < base ==> v / base == 0 && v % base == v
    ensures v >= base ==> 0 < v / base < v
    ensures base * (v / base) + v % base == v
  {
    if v < base {
      DivModUnique(v, base, 0, v);
    } else {
      QuotientBelow(v, base, 1);
      QuotientBelow(v, base, v);
      MulGap(v, base, 1);
    }
  }

  lemma DigitsUnfold(v: nat, base: nat, upper: bool)
    requires 2 <= base <= 16
    ensures var s := Digits(v, base, upper);
            s[0] == DigitChar(v % base, upper) && s[1..] == if v < base then [] else Digits(v / base, base, upper)
  {
    hide DigitChar;
    QuotientShrinks(v, base);
  }

  /** The digits of a number denote it, and the most significant one is not zero. */
  lemma {:induction false} DigitsDenote(v: nat, base: nat, upper: bool)
    requires 2 <= base <= 16
    ensures ParseBack(Digits(v, base, upper), base) == v
    ensures v > 0 ==> var s := Digits(v, base, upper); DigitValue(s[|s| - 1]) > 0
    decreases v
  {
    DigitsUnfold(v, base, upper);
    QuotientShrinks(v, base);
    DigitCharValue(v % base, upper);
    hide DigitChar, DigitValue, Digits;
    var s := Digits(v, base, upper);
    var rest := if v < base then 0 else v / base;
    if v >= base {
      DigitsDenote(v / base, base, upper);
      assert s[|s| - 1] == s[1..][|s| - 2];
    }
    assert ParseBack(s[1..], base) == rest;
    assert rest == v / base;
  }

  /** A digit string with zeros above it denotes the same number. */
  lemma {:induction false} ZerosAbove(s: string, n: nat, base: nat)
    ensures ParseBack(s + Repeat('0', n), base) == ParseBack(s, base)
  {
    if s != [] {
      assert (s + Repeat('0', n))[1..] == s[1..] + Repeat('0', n);
      ZerosAbove(s[1..], n, base);
    } else if n > 0 {
      assert s + Repeat('0', n) == Repeat('0', n);
      assert Repeat('0', n)[1..] == [] + Repeat('0', n - 1);
      ZerosAbove([], n - 1, base);
    }
  }

  lemma {:induction false} BackwardsOfSum(s: string, t: string)
    ensures Backwards(s + t) == Backwards(t) + Backwards(s)
  {
    if s == [] {
      assert s + t == t;
    } else {
      assert (s + t)[1..] == s[1..] + t;
      BackwardsOfSum(s[1..], t);
    }
  }

  /** Leading zeros extend the digits to a length given in closed form. */
  function FieldDigits(n: nat, prec: nat, width: nat, f: Flags): nat {
    if f.left then n
    else
      var p := Max(n, Min(prec, 32));
      if f.zeropad then Max(p, Min(width, 32)) else p
  }

  lemma LeadingZerosAre(s: string, prec: nat, width: nat, f: Flags)
    ensures var n := FieldDigits(|s|, prec, width, f);
            n >= |s| && LeadingZeros(s, prec, width, f) == s + Repeat('0', n - |s|)
  {
    PadZerosAre(s, prec);
    PadZerosAre(PadZeros(s, prec), width);
    var p := Max(|s|, Min(prec, SCRATCH));
    var n := Max(p, Min(width, SCRATCH));
    assert Repeat('0', p - |s|) + Repeat('0', n - p) == Repeat('0', n - |s|);
    assert s + Repeat('0', 0) == s;
    assert s + (Repeat('0', p - |s|) + Repeat('0', n - p)) == s + Repeat('0', p - |s|) + Repeat('0', n - p);
  }

  lemma PadZerosAre(s: string, want: nat)
    ensures PadZeros(s, want) == s + Repeat('0', Max(|s|, Min(want, SCRATCH)) - |s|)
  {}

  /** Digits of an unsigned conversion: none for value 0 under an explicit precision. */
  function ValueDigits(value: Word, base: nat, f: Flags): string
    requires 2 <= base <= 16
  {
    if !f.precision || value != 0 then Digits(value, base, f.uppercase) else []
  }

  /** Without '#' and a sign, the scratch buffer holds the zero-padded digits. */
  lemma UnsignedBody(ds: string, base: nat, prec: nat, width: nat, f: Flags)
    requires !f.hash && !f.plus && !f.space
    ensures var n := FieldDigits(|ds|, prec, width, f);
            n >= |ds| && Body(ds, false, base, prec, width, f) == ds + Repeat('0', n - |ds|)
  {
    LeadingZerosAre(ds, prec, width, f);
    hide LeadingZeros, FieldDigits, Repeat;
  }

  lemma UnsignedNumber(value: Word, base: nat, prec: nat, width: nat, f: Flags)
    requires 2 <= base <= 16 && !f.hash && !f.plus && !f.space
    ensures var body := Body(ValueDigits(value, base, f), false, base, prec, width, f);
            |body| == FieldDigits(|ValueDigits(value, base, f)|, prec, width, f)
            && Parse(Backwards(body), base) == value && Spells(Backwards(body), f.uppercase)
            && NumberText(value, false, base, prec, width, f) == Field(body, width, f)
  {
    hide *;
    var ds := ValueDigits(value, base, f);
    UnsignedBody(ds, base, prec, width, f);
    NumberTextIs(value, false, base, prec, width, f);
    ValueDenoted(value, base, f, FieldDigits(|ds|, prec, width, f) - |ds|);
    ValueSpells(value, base, f, FieldDigits(|ds|, prec, width, f) - |ds|);
  }

  lemma NumberTextIs(value: Word, negative: bool, base: nat, prec: nat, width: nat, f: Flags)
    requires 2 <= base <= 16 && !f.hash
    ensures NumberText(value, negative, base, prec, width, f)
         == Field(Body(ValueDigits(value, base, f), negative, base, prec, width, f), width, f)
  {
    hide Digits, Field, Body;
    assert f.(hash := false) == f;
  }

  lemma ValueDenoted(value: Word, base: nat, f: Flags, n: nat)
    requires 2 <= base <= 16
    ensures var s := ValueDigits(value, base, f) + Repeat('0', n);
            |s| == |ValueDigits(value, base, f)| + n && Parse(Backwards(s), base) == value
  {
    var ds := ValueDigits(value, base, f);
    DigitsDenote(value, base, f.uppercase);
    ZerosAbove(ds, n, base);
    ParseBackwards(ds + Repeat('0', n), base);
    hide Digits, DigitValue, Backwards, Parse;
  }

  /** An unsigned conversion without '#' prints a digit string that denotes the value, with spaces
      on one side; digit count, precision, width and flags give its length and the total length.
      Zero padding stops at the 32 characters of the scratch buffer, spaces do not. */
  lemma UnsignedField(value: Word, base: nat, prec: nat, width: nat, f: Flags) returns (number: string)
    requires 2 <= base <= 16 && !f.hash && !f.plus && !f.space
    ensures Parse(number, base) == value
    ensures |number| == FieldDigits(|ValueDigits(value, base, f)|, prec, width, f)
    ensures Spells(number, f.uppercase)
    ensures var text, gap := NumberText(value, false, base, prec, width, f), Repeat(' ', Gap(|number|, width));
            text == (if f.left then number + gap else if f.zeropad then number else gap + number)
            && |text| == if f.zeropad && !f.left then |number| else Max(|number|, width)
  {
    UnsignedNumber(value, base, prec, width, f);
    hide NumberText, Body, ValueDigits, FieldDigits, Parse, Spells;
    number := Backwards(Body(ValueDigits(value, base, f), false, base, prec, width, f));
  }

  /** Letters among the digits are capital ones exactly if that is asked for. */
  ghost predicate Spells(number: string, upper: bool) {
    forall d | d in number :: '0' <= d <= '9' || (if upper then 'A' <= d <= 'F' else 'a' <= d <= 'f')
  }

  lemma DigitCharSpells(d: nat, upper: bool)
    requires d < 16
    ensures Spells([DigitChar(d, upper)], upper)
  {}

  lemma {:induction false} DigitsSpell(v: nat, base: nat, upper: bool)
    requires 2 <= base <= 16
    ensures Spells(Digits(v, base, upper), upper)
    decreases v
  {
    DigitsUnfold(v, base, upper);
    QuotientShrinks(v, base);
    DigitCharSpells(v % base, upper);
    var s := Digits(v, base, upper);
    assert s == [s[0]] + s[1..];
    hide Digits, DigitChar;
    if v >= base {
      DigitsSpell(v / base, base, upper);
    }
    assert [DigitChar(v % base, upper)][0] in [DigitChar(v % base, upper)];
  }

  lemma {:induction false} BackwardsSpell(s: string, upper: bool)
    requires Spells(s, upper)
    ensures Spells(Backwards(s), upper)
  {
    if s != [] {
      assert forall d :: d in s[1..] ==> d in s;
      BackwardsSpell(s[1..], upper);
      assert s[0] in s;
    }
  }

  lemma ValueSpells(value: Word, base: nat, f: Flags, n: nat)
    requires 2 <= base <= 16
    ensures Spells(Backwards(ValueDigits(value, base, f) + Repeat('0', n)), f.uppercase)
  {
    DigitsSpell(value, base, f.uppercase);
    hide Digits;
    BackwardsSpell(ValueDigits(value, base, f) + Repeat('0', n), f.uppercase);
  }

  /** %u %x %X %o %b without '#': whatever other flags, width, precision and length are given, the
      digits printed denote the argument cut to its length, and nothing but spaces surrounds them. */
  lemma UnsignedConversion(c: char, w: Word, prec: nat, width: nat, f: Flags) returns (number: string)
    requires c in "uxXob" && !f.hash && f.length != LongLong
    ensures var v := if f.length == Char then w % 0x100 else if f.length == Short then w % 0x10000 else w;
            Parse(number, if c == 'x' || c == 'X' then 16 else if c == 'o' then 8 else if c == 'b' then 2 else 10) == v
    ensures Spells(number, f.uppercase || c == 'X')
    ensures var text, gap := IntegerText(c, w, prec, width, f), Repeat(' ', Gap(|number|, width));
            text == (if f.left then number + gap else if f.zeropad && !f.precision then number else gap + number)
  {
    hide NumberText, Parse, ValueDigits, FieldDigits, Spells;
    number := UnsignedField(UnsignedValue(w, f.length), BaseOf(c), prec, width, IntegerFlags(c, f));
  }

  function BasePrefix(c: char, upper: bool): string {
    if c == 'o' then "0" else if c == 'b' then "0b" else if upper then "0X" else "0x"
  }

  /** With '#' and a value other than 0, but neither width nor precision, the base is put before the
      digits, as long as the 32 characters of the scratch buffer have room for it: always, except for
      binary numbers of more than 30 digits. */
  lemma HashedConversion(c: char, w: Word, f: Flags) returns (number: string)
    requires c in "xXob" && f.hash && !f.precision && f.length != LongLong
    ensures var v := if f.length == Char then w % 0x100 else if f.length == Short then w % 0x10000 else w;
            Parse(number, if c == 'x' || c == 'X' then 16 else if c == 'o' then 8 else 2) == v
            && (v > 0 ==> (IntegerText(c, w, 0, 0, f) == BasePrefix(c, f.uppercase || c == 'X') + number
                           <==> c != 'b' || v < 0x4000_0000))
            && (v == 0 ==> IntegerText(c, w, 0, 0, f) == number)
    ensures Spells(number, f.uppercase || c == 'X')
  {
    var base := if c == 'x' || c == 'X' then 16 else if c == 'o' then 8 else 2;
    var upper := f.uppercase || c == 'X';
    var v := UnsignedValue(w, f.length);
    var ds := Digits(v, base, upper);
    DigitsDenote(v, base, upper);
    ParseBackwards(ds, base);
    DigitsSpell(v, base, upper);
    BackwardsSpell(ds, upper);
    RoomForBase(v, base, upper);
    number := Backwards(ds);
    HashedText(c, w, f, ds);
    hide *;
  }

  /** The prefix as the scratch buffer holds it. */
  lemma PrefixBackwards(c: char, upper: bool) returns (tail: string)
    ensures tail == if c == 'o' then "0" else if c == 'b' then "b0" else if upper then "X0" else "x0"
    ensures Backwards(tail) == BasePrefix(c, upper)
  {
    tail := if c == 'o' then "0" else if c == 'b' then "b0" else if upper then "X0" else "x0";
    assert tail[1..] == if c == 'o' then "" else "0";
    assert Backwards("0") == "0" by { assert "0"[1..] == ""; }
  }

  lemma HashedBody(c: char, ds: string, f: Flags, tail: string)
    requires c in "xXob" && f.hash && !f.precision && !f.plus && !f.space && 0 < |ds| <= 32
    requires tail == if c == 'o' then "0" else if c == 'b' then "b0" else if f.uppercase then "X0" else "x0"
    ensures var body := Body(ds, false, BaseOf(c), 0, 0, f);
            if |ds| + |tail| <= 32 then body == ds + tail else |body| == 32
  {
    assert LeadingZeros(ds, 0, 0, f) == ds by { assert PadZeros(ds, 0) == ds; }
    assert HashRoom(ds, BaseOf(c), 0, 0, f) == ds;
    hide LeadingZeros, HashRoom;
  }

  lemma HashedText(c: char, w: Word, f: Flags, ds: string)
    requires c in "xXob" && f.hash && !f.precision && f.length != LongLong
    requires ds == Digits(UnsignedValue(w, f.length), BaseOf(c), f.uppercase || c == 'X') && 0 < |ds| <= 32
    ensures var base := BasePrefix(c, f.uppercase || c == 'X');
            UnsignedValue(w, f.length) > 0 ==>
              (IntegerText(c, w, 0, 0, f) == base + Backwards(ds) <==> |ds| + |base| <= 32)
    ensures UnsignedValue(w, f.length) == 0 ==> IntegerText(c, w, 0, 0, f) == Backwards(ds)
  {
    hide Digits, Body, Backwards, UnsignedValue;
    var v := UnsignedValue(w, f.length);
    var g := IntegerFlags(c, f);
    var tail := PrefixBackwards(c, g.uppercase);
    HashedBody(c, ds, g, tail);
    var h := g.(hash := v > 0);
    var b := Body(ds, false, BaseOf(c), 0, 0, h);
    BackwardsOfSum(ds, tail);
    NoGap(Backwards(b));
    NoPrefix(ds, BaseOf(c), g.(hash := false));
    assert NumberText(v, false, BaseOf(c), 0, 0, g) == Backwards(b);
  }

  lemma NoPrefix(ds: string, base: nat, f: Flags)
    requires !f.hash && !f.precision && !f.plus && !f.space
    ensures Body(ds, false, base, 0, 0, f) == ds
  {
    assert LeadingZeros(ds, 0, 0, f) == ds by { assert PadZeros(ds, 0) == ds; }
    hide LeadingZeros;
  }

  lemma NoGap(s: string)
    ensures s + Repeat(' ', 0) == s && Repeat(' ', 0) + s == s
  {}

  lemma RoomForBase(w: Word, base: nat, upper: bool)
    requires base in {2, 8, 16}
    ensures base == 16 ==> |Digits(w, base, upper)| <= 8
    ensures base == 8 ==> |Digits(w, base, upper)| <= 11
    ensures base == 2 ==> |Digits(w, base, upper)| <= 32 && (|Digits(w, base, upper)| <= 30 <==> w < 0x4000_0000)
  {
    hide Digits;
    if base == 2 {
      DigitsExactly(w, 2, upper, 30);
      DigitsExactly(w, 2, upper, 32);
    } else if base == 8 {
      DigitsExactly(w, 8, upper, 11);
    } else {
      DigitsExactly(w, 16, upper, 8);
    }
    Powers();
  }

  function Power(base: nat, k: nat): nat { if k == 0 then 1 else base * Power(base, k - 1) }

  lemma Powers()
    ensures Power(2, 30) == 0x4000_0000 && Power(2, 32) == TWO32 && Power(8, 11) == 2 * TWO32 && Power(16, 8) == TWO32
  {
    assert Power(2, 10) == 0x400;
    assert Power(2, 20) == 0x10_0000;
    assert Power(8, 5) == 0x8000;
    assert Power(8, 8) == 0x100_0000;
    assert Power(16, 4) == 0x1_0000;
  }

  /** A positive number has at most k digits exactly if it is below the k-th power of the base. */
  lemma {:induction false} DigitsExactly(v: nat, base: nat, upper: bool, k: nat)
    requires 2 <= base <= 16 && k >= 1
    ensures |Digits(v, base, upper)| <= k <==> v < Power(base, k)
    decreases v
  {
    DigitsUnfold(v, base, upper);
    QuotientShrinks(v, base);
    hide Digits;
    if v >= base && k > 1 {
      DigitsExactly(v / base, base, upper, k - 1);
      QuotientBelow(v, base, Power(base, k - 1));
    } else if k > 1 {
      AtLeastBase(base, k);
    } else {
      assert Power(base, 1) == base * Power(base, 0);
    }
  }

  lemma AtLeastBase(base: nat, k: nat)
    requires base >= 1 && k >= 1
    ensures Power(base, k) >= base
  {
    if k > 1 {
      AtLeastBase(base, k - 1);
      assert base * Power(base, k - 1) >= base * 1;
    } else {
      assert Power(base, 1) == base * Power(base, 0);
    }
  }

  // ---- Signed conversions ----

  function SignChar(negative: bool, f: Flags): char { if negative then '-' else if f.plus then '+' else ' ' }

  predicate HasSign(negative: bool, f: Flags) { negative || f.plus || f.space }

  /** The scratch buffer holds the sign, where there is one, above digits that denote the value; only a
      zero that is to have no digits may have none. */
  ghost predicate Shows(body: string, value: nat, negative: bool, base: nat, digits: nat, f: Flags) {
    if HasSign(negative, f) then
      |body| >= (if digits > 0 then 2 else 1) && body[|body| - 1] == SignChar(negative, f)
      && ParseBack(body[..|body| - 1], base) == value
    else ParseBack(body, base) == value
  }

  /** The sign displaces a digit when the digits alone fill the width exactly, and is itself
      dropped when padding has filled the scratch buffer past the width. */
  predicate SignCollides(digits: nat, prec: nat, width: nat, f: Flags) {
    var n := FieldDigits(digits, prec, width, f);
    0 < digits == n == width || (n == 32 && width != 32)
  }

  lemma {:induction false} TopDigitMatters(s: string, base: nat)
    requires |s| >= 1 && base >= 1 && DigitValue(s[|s| - 1]) > 0
    ensures ParseBack(s[..|s| - 1], base) < ParseBack(s, base)
  {
    hide DigitValue;
    if |s| > 1 {
      TopDigitMatters(s[1..], base);
      assert s[..|s| - 1][1..] == s[1..][..|s| - 2];
      MulGap(base, ParseBack(s[1..], base), ParseBack(s[1..][..|s| - 2], base));
    }
  }

  lemma DigitsShape(v: nat, base: nat, upper: bool)
    requires 2 <= base <= 16
    ensures var s := Digits(v, base, upper);
            (|s| >= 2 ==> DigitValue(s[|s| - 1]) > 0)
            && s[|s| - 1] != '-' && s[|s| - 1] != '+' && s[|s| - 1] != ' '
    decreases v
  {
    DigitsUnfold(v, base, upper);
    QuotientShrinks(v, base);
    var s := Digits(v, base, upper);
    if v >= base {
      DigitsDenote(v, base, upper);
      DigitsShape(v / base, base, upper);
      assert s[|s| - 1] == s[1..][|s| - 2];
    }
    hide Digits;
  }

  /** Padded digits denote the value, and still do without their top character exactly when that
      is a padding zero; the top character is never a sign. */
  lemma PaddedDigits(value: Word, base: nat, upper: bool, n: nat) returns (p: string)
    requires 2 <= base <= 16 && n >= |Digits(value, base, upper)|
    ensures var ds := Digits(value, base, upper);
            p == ds + Repeat('0', n - |ds|) && |p| == n && ParseBack(p, base) == value
            && (n > 1 ==> (ParseBack(p[..n - 1], base) == value <==> n > |ds|))
    ensures p[n - 1] != '-' && p[n - 1] != '+' && p[n - 1] != ' '
  {
    hide Digits, DigitValue, ParseBack;
    var ds := Digits(value, base, upper);
    DigitsDenote(value, base, upper);
    DigitsShape(value, base, upper);
    ZerosAbove(ds, n - |ds|, base);
    p := ds + Repeat('0', n - |ds|);
    if n > |ds| {
      ZerosAbove(ds, n - |ds| - 1, base);
      assert p[..n - 1] == ds + Repeat('0', n - |ds| - 1);
    } else {
      assert p == ds;
      if n > 1 {
        TopDigitMatters(ds, base);
      }
    }
  }

  /** A word has at most 32 digits in any base from two up. */
  lemma {:induction false} DigitsFit(v: nat, base: nat, upper: bool, k: nat)
    requires 2 <= base <= 16 && k >= 1 && v < Pow2(k)
    ensures |Digits(v, base, upper)| <= k
    decreases v
  {
    DigitsUnfold(v, base, upper);
    QuotientShrinks(v, base);
    Halves(v, base);
    hide Digits;
    if v >= base && k > 1 {
      DigitsFit(v / base, base, upper, k - 1);
    }
  }

  /** A conversion without '#' shows value and sign exactly when the sign does not collide. */
  lemma SignedField(value: Word, negative: bool, base: nat, prec: nat, width: nat, f: Flags)
    requires 2 <= base <= 16 && !f.hash
    ensures var ds := ValueDigits(value, base, f);
            Shows(Body(ds, negative, base, prec, width, f), value, negative, base, |ds|, f)
            <==> !(HasSign(negative, f) && SignCollides(|ds|, prec, width, f))
  {
    hide Digits, ParseBack, LeadingZeros, Repeat, Pow2, Shows, SignCollides, Sign;
    Pow2Of32();
    DigitsFit(value, base, f.uppercase, SCRATCH);
    var ds := ValueDigits(value, base, f);
    LeadingZerosAre(ds, prec, width, f);
    var n := FieldDigits(|ds|, prec, width, f);
    var p := "";
    if ds == [] {
      p := NoDigits(base, n);
    } else {
      p := PaddedDigits(value, base, f.uppercase, n);
    }
    SignOnTop(p, value, negative, base, |ds|, prec, width, f);
  }

  /** Putting the sign on top of padded digits. */
  lemma SignOnTop(p: string, value: nat, negative: bool, base: nat, digits: nat, prec: nat, width: nat, f: Flags)
    requires |p| == FieldDigits(digits, prec, width, f) <= SCRATCH && digits <= |p| && ParseBack(p, base) == value
    requires |p| > 0 ==> p[|p| - 1] != '-' && p[|p| - 1] != '+' && p[|p| - 1] != ' '
    requires |p| > 1 || digits == 0 < |p| ==> (ParseBack(p[..|p| - 1], base) == value <==> |p| > digits)
    ensures Shows(Sign(p, negative, width, f), value, negative, base, digits, f)
            <==> !(HasSign(negative, f) && SignCollides(digits, prec, width, f))
  {
    hide ParseBack, FieldDigits;
    var n, c := |p|, SignChar(negative, f);
    assert n > 0 ==> (p[..n - 1] + [c])[..n - 1] == p[..n - 1];
    assert (p + [c])[..n] == p;
  }

  /** Padding alone denotes zero, and still does without one of its zeros. */
  lemma NoDigits(base: nat, n: nat) returns (p: string)
    ensures p == [] + Repeat('0', n) && |p| == n && ParseBack(p, base) == 0
    ensures n > 0 ==> ParseBack(p[..n - 1], base) == 0 && p[n - 1] == '0'
  {
    p := Repeat('0', n);
    ZerosAbove([], n, base);
    assert [] + p == p;
    if n > 0 {
      ZerosAbove([], n - 1, base);
      assert p[..n - 1] == [] + Repeat('0', n - 1);
    }
  }

  /** A reader of what is printed sees the sign that is asked for and digits that denote the value. */
  ghost predicate Reads(number: string, v: int, base: nat, digits: nat, f: Flags) {
    var magnitude := if v < 0 then -v else v;
    if HasSign(v < 0, f) then
      |number| >= (if digits > 0 then 2 else 1) && number[0] == SignChar(v < 0, f) && Parse(number[1..], base) == magnitude
    else Parse(number, base) == magnitude
  }

  lemma ShownIsRead(body: string, v: int, base: nat, digits: nat, f: Flags)
    ensures Reads(Backwards(body), v, base, digits, f) <==> Shows(body, Magnitude(v), v < 0, base, digits, f)
  {
    hide DigitValue;
    ParseBackwards(body, base);
    if body != [] {
      var below, top := body[..|body| - 1], body[|body| - 1];
      ParseBackwards(below, base);
      BackwardsOfSum(below, [top]);
      assert body == below + [top];
      assert Backwards([top]) == [top] by { assert Backwards([]) == []; }
      assert Backwards(body)[1..] == Backwards(below);
    }
  }

  lemma SignedLiterally(c: char, w: Word, f: Flags)
    requires c in "di" && f.length != LongLong
    ensures SignedValue(w, f.length)
         == if f.length == Char then w % 0x100
            else if f.length == Short then (w + 0x8000) % 0x10000 - 0x8000
            else if w < 0x8000_0000 then w else w - 0x1_0000_0000
    ensures IntegerFlags(c, f) == f.(hash := false, zeropad := f.zeropad && !f.precision) && BaseOf(c) == 10
    ensures var v := SignedValue(w, f.length); -0x8000_0000 <= v < 0x1_0000_0000 && Magnitude(v) == if v < 0 then -v else v
  {}

  /** %d %i: the argument, cut to its length, is printed with its sign and all its digits, and nothing but
      spaces around them, if and only if no sign is asked for or it does not collide with the digits. */
  lemma SignedConversion(c: char, w: Word, prec: nat, width: nat, f: Flags) returns (number: string)
    requires c in "di" && f.length != LongLong
    ensures var v := if f.length == Char then w % 0x100
                     else if f.length == Short then (w + 0x8000) % 0x10000 - 0x8000
                     else if w < 0x8000_0000 then w else w - 0x1_0000_0000;
            var g := f.(hash := false, zeropad := f.zeropad && !f.precision);
            var digits := |ValueDigits(if v < 0 then -v else v, 10, g)|;
            Reads(number, v, 10, digits, g) <==> !(HasSign(v < 0, g) && SignCollides(digits, prec, width, g))
    ensures var text, gap := IntegerText(c, w, prec, width, f), Repeat(' ', Gap(|number|, width));
            text == (if f.left then number + gap else if f.zeropad && !f.precision then number else gap + number)
  {
    SignedLiterally(c, w, f);
    hide Body, ValueDigits, Digits, Reads, Shows, SignCollides, NumberText, SignedValue, IntegerFlags, BaseOf;
    var v, g := SignedValue(w, f.length), IntegerFlags(c, f);
    var body := Body(ValueDigits(Magnitude(v), 10, g), v < 0, 10, prec, width, g);
    SignedField(Magnitude(v), v < 0, 10, prec, width, g);
    NumberTextIs(Magnitude(v), v < 0, 10, prec, width, g);
    ShownIsRead(body, v, 10, |ValueDigits(Magnitude(v), 10, g)|, g);
    number := Backwards(body);
  }

  /** The smallest format that goes wrong: "%2d" prints -12 as "-2". */
  lemma SignDropsDigit()
    ensures Render("%2d", [Int(TWO32 - 12)], 0, 0) == "-2"
  {
    MinusTwelveInTwo();
    hide NumberText;
    assert DigitRun("%2d", 1) == "2" by { assert DigitRun("%2d", 2) == ""; }
    assert Atoi("%2d", 1) == 2 by { assert Decimal("") == 0; }
    assert ItemAt("%2d", [Int(TWO32 - 12)], 0, 0) == Item("-2", 3, 1);
  }

  lemma MinusTwelveInTwo()
    ensures NumberText(12, true, 10, 0, 2, NO_FLAGS) == "-2"
  {
    assert Digits(12, 10, false) == "21" by { assert Digits(1, 10, false) == "1"; }
    assert Body("21", true, 10, 0, 2, NO_FLAGS) == "2-";
    assert Backwards("2-") == "-2" by { assert Backwards("-") == "-"; }
  }
}
