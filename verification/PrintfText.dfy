/** The text that printf.c produces, as a function of format and arguments alone. */
module PrintfText {
  import opened Division
  import opened Words

  /** One variadic argument: a 32-bit word or a string. */
  datatype Arg = Int(word: Word) | Str(text: string)

  /** FLAGS_CHAR (set together with FLAGS_SHORT) to FLAGS_LONG_LONG (with FLAGS_LONG). */
  datatype Length = Plain | Char | Short | Long | LongLong

  datatype Flags = Flags(zeropad: bool, left: bool, plus: bool, space: bool, hash: bool, uppercase: bool,
                         length: Length, precision: bool)

  const NO_FLAGS := Flags(false, false, false, false, false, false, Plain, false)

  /** PRINTF_NTOA_BUFFER_SIZE. */
  const SCRATCH := 32

  function Repeat(c: char, n: nat): (s: string)
    ensures |s| == n
  {
    seq(n, _ => c)
  }

  function Gap(have: nat, want: nat): nat { if have < want then want - have else 0 }

  function Min(x: nat, y: nat): nat { if x < y then x else y }

  function Max(x: nat, y: nat): nat { if x < y then y else x }

  function Backwards(s: string): (r: string)
    ensures |r| == |s|
  {
    if s == [] then [] else Backwards(s[1..]) + [s[0]]
  }

  // ---- Numbers ----

  function DigitChar(d: nat, upper: bool): char
    requires d < 16
  {
    if d < 10 then '0' + d as char else (if upper then 'A' else 'a') + (d - 10) as char
  }

  /** The digits of a number, least significant first; zero has one digit. */
  function Digits(value: nat, base: nat, upper: bool): (s: string)
    requires 2 <= base <= 16
    ensures |s| >= 1
  {
    [DigitChar(value % base, upper)] + (if value / base == 0 then [] else Digits(value / base, base, upper))
  }

  // The scratch buffer of _ntoa_format, as the string it holds (still reversed).

  function Push(s: string, c: char): string { if |s| < SCRATCH then s + [c] else s }

  function PadZeros(s: string, want: nat): string { s + Repeat('0', Gap(|s|, Min(want, SCRATCH))) }

  function LeadingZeros(s: string, prec: nat, width: nat, f: Flags): string {
    if f.left then s
    else if f.zeropad then PadZeros(PadZeros(s, prec), width)
    else PadZeros(s, prec)
  }

  /** The '#' step: make room by dropping what was padded in, then add the prefix. */
  function HashRoom(s: string, base: nat, prec: nat, width: nat, f: Flags): string {
    if !f.precision && |s| > 0 && (|s| == prec || |s| == width) then
      if |s| > 1 && base == 16 then s[..|s| - 2] else s[..|s| - 1]
    else s
  }

  function Hash(s: string, base: nat, prec: nat, width: nat, f: Flags): string {
    if !f.hash then s
    else
      var t := HashRoom(s, base, prec, width, f);
      var u := if base == 16 then Push(t, if f.uppercase then 'X' else 'x')
               else if base == 2 then Push(t, 'b')
               else t;
      Push(u, '0')
  }

  function Sign(s: string, negative: bool, width: nat, f: Flags): string {
    var t := if |s| > 0 && |s| == width && (negative || f.plus || f.space) then s[..|s| - 1] else s;
    if negative then Push(t, '-') else if f.plus then Push(t, '+') else if f.space then Push(t, ' ') else t
  }

  /** The scratch buffer when output begins. */
  function Body(digits: string, negative: bool, base: nat, prec: nat, width: nat, f: Flags): string {
    Sign(Hash(LeadingZeros(digits, prec, width, f), base, prec, width, f), negative, width, f)
  }

  /** The output of _ntoa_format: the scratch buffer reversed, and spaces on one side. */
  function Field(body: string, width: nat, f: Flags): string {
    var text, gap := Backwards(body), Repeat(' ', Gap(|body|, width));
    if f.left then text + gap else if f.zeropad then text else gap + text
  }

  /** The output of _ntoa_long. */
  function NumberText(value: Word, negative: bool, base: nat, prec: nat, width: nat, flags: Flags): string
    requires 2 <= base <= 16
  {
    var f := if value == 0 then flags.(hash := false) else flags;
    var digits := if !f.precision || value != 0 then Digits(value, base, f.uppercase) else [];
    Field(Body(digits, negative, base, prec, width, f), width, f)
  }

  // ---- Strings and characters ----

  /** A C string ends at its first NUL. */
  function Terminated(s: string): (t: string)
    ensures '\0' !in t
  {
    if s == [] || s[0] == '\0' then [] else [s[0]] + Terminated(s[1..])
  }

  function Aligned(body: string, width: nat, left: bool): string {
    if left then body + Repeat(' ', Gap(|body|, width)) else Repeat(' ', Gap(|body|, width)) + body
  }

  /** %s: the string, cut to the precision if there is one, in a field of the given width. */
  function StringText(s: string, prec: nat, width: nat, f: Flags): string {
    var t := Terminated(s);
    Aligned(if f.precision then t[..Min(|t|, prec)] else t, width, f.left)
  }

  // ---- Format items ----

  /** The format's characters; whatever follows the string reads as its terminator. */
  function At(fmt: string, i: nat): char { if i < |fmt| then fmt[i] else '\0' }

  predicate IsDigit(c: char) { '0' <= c <= '9' }

  function FlagOf(c: char, f: Flags): Flags {
    match c
    case '0' => f.(zeropad := true)
    case '-' => f.(left := true)
    case '+' => f.(plus := true)
    case ' ' => f.(space := true)
    case '#' => f.(hash := true)
    case _ => f
  }

  predicate IsFlag(c: char) { c == '0' || c == '-' || c == '+' || c == ' ' || c == '#' }

  /** Flags from position i on, and where they end. */
  function ParseFlags(fmt: string, i: nat, f: Flags): (r: (Flags, nat))
    ensures r.1 >= i
    decreases Gap(i, |fmt|)
  {
    if IsFlag(At(fmt, i)) then ParseFlags(fmt, i + 1, FlagOf(At(fmt, i), f)) else (f, i)
  }

  /** The run of digits from position i on. */
  function DigitRun(fmt: string, i: nat): (s: string)
    ensures forall c | c in s :: IsDigit(c)
    ensures i + |s| <= |fmt| || s == []
    decreases Gap(i, |fmt|)
  {
    if IsDigit(At(fmt, i)) then [At(fmt, i)] + DigitRun(fmt, i + 1) else []
  }

  /** The number a run of decimal digits denotes. */
  function Decimal(s: string): nat
    requires forall c | c in s :: IsDigit(c)
  {
    if s == [] then 0
    else
      assert IsDigit(s[|s| - 1]) by { assert s[|s| - 1] in s; }
      10 * Decimal(s[..|s| - 1]) + (s[|s| - 1] - '0') as nat
  }

  /** What _atoi yields: the denoted number modulo 2^32. */
  function Atoi(fmt: string, i: nat): Word { Decimal(DigitRun(fmt, i)) % TWO32 }

  // va_arg. A missing argument, or one of the other kind, reads as 0 or the empty string.

  function WordArg(args: seq<Arg>, k: nat): Word { if k < |args| && args[k].Int? then args[k].word else 0 }

  function StringArg(args: seq<Arg>, k: nat): string { if k < |args| && args[k].Str? then args[k].text else [] }

  function Signed(w: Word): int { if w < TWO31 then w else w - TWO32 }

  /** The state of the parser of one conversion: flags, a number, position, next argument. */
  datatype Cursor = Cursor(f: Flags, n: Word, i: nat, k: nat)

  function ParseWidth(fmt: string, args: seq<Arg>, f: Flags, i: nat, k: nat): (r: Cursor)
    ensures r.i >= i
  {
    if IsDigit(At(fmt, i)) then Cursor(f, Atoi(fmt, i), i + |DigitRun(fmt, i)|, k)
    else if At(fmt, i) == '*' then
      var w := Signed(WordArg(args, k));
      if w < 0 then Cursor(f.(left := true), -w, i + 1, k + 1) else Cursor(f, w, i + 1, k + 1)
    else Cursor(f, 0, i, k)
  }

  function ParsePrecision(fmt: string, args: seq<Arg>, f: Flags, i: nat, k: nat): (r: Cursor)
    ensures r.i >= i
  {
    if At(fmt, i) != '.' then Cursor(f, 0, i, k)
    else
      var g := f.(precision := true);
      if IsDigit(At(fmt, i + 1)) then Cursor(g, Atoi(fmt, i + 1), i + 1 + |DigitRun(fmt, i + 1)|, k)
      else if At(fmt, i + 1) == '*' then
        Cursor(g, if Signed(WordArg(args, k)) > 0 then Signed(WordArg(args, k)) else 0, i + 2, k + 1)
      else Cursor(g, 0, i + 1, k)
  }

  function ParseLength(fmt: string, i: nat): (r: (Length, nat))
    ensures r.1 >= i
  {
    match At(fmt, i)
    case 'l' => if At(fmt, i + 1) == 'l' then (LongLong, i + 2) else (Long, i + 1)
    case 'h' => if At(fmt, i + 1) == 'h' then (Char, i + 2) else (Short, i + 1)
    case 'j' => (LongLong, i + 1)  // intmax_t is wider than long
    case 'z' => (Long, i + 1)      // size_t is as wide as long
    case _ => (Plain, i)
  }

  predicate IsInteger(c: char) { c in "diuxXob" }

  function BaseOf(c: char): nat { if c == 'x' || c == 'X' then 16 else if c == 'o' then 8 else if c == 'b' then 2 else 10 }

  /** Flag adjustments that depend on the conversion. */
  function IntegerFlags(c: char, f: Flags): Flags {
    f.(hash := f.hash && BaseOf(c) != 10,
       uppercase := f.uppercase || c == 'X',
       plus := f.plus && (c == 'i' || c == 'd'),
       space := f.space && (c == 'i' || c == 'd'),
       zeropad := f.zeropad && !f.precision)
  }

  /** The value of a signed conversion after the length modifier; char is unsigned on ARM. */
  function SignedValue(w: Word, length: Length): int {
    match length
    case Char => w % 0x100
    case Short => if w % 0x10000 < 0x8000 then w % 0x10000 else w % 0x10000 - 0x10000
    case _ => Signed(w)
  }

  function UnsignedValue(w: Word, length: Length): Word {
    match length
    case Char => w % 0x100
    case Short => w % 0x10000
    case _ => w
  }

  function Magnitude(v: int): nat { if v > 0 then v else 0 - v }

  /** %d %i %u %x %X %o %b. Support for long long is compiled out: such a conversion prints
      nothing and takes no argument. */
  function IntegerText(c: char, w: Word, prec: nat, width: nat, flags: Flags): string {
    var f := IntegerFlags(c, flags);
    if f.length == LongLong then []
    else if c == 'i' || c == 'd' then
      var v := SignedValue(w, f.length);
      NumberText(Magnitude(v), v < 0, BaseOf(c), prec, width, f)
    else NumberText(UnsignedValue(w, f.length), false, BaseOf(c), prec, width, f)
  }

  function CharOf(w: Word): char { (w % 0x100) as char }

  /** The text of a conversion, and how many arguments it takes. */
  function ConversionText(c: char, args: seq<Arg>, k: nat, prec: nat, width: nat, f: Flags): (string, nat) {
    if IsInteger(c) then (IntegerText(c, WordArg(args, k), prec, width, f), if f.length == LongLong then 0 else 1)
    else if c == 'c' then (Aligned([CharOf(WordArg(args, k))], width, f.left), 1)
    else if c == 's' then (StringText(StringArg(args, k), prec, width, f), 1)
    else if c == 'p' then
      (NumberText(WordArg(args, k), false, 16, prec, 8, f.(zeropad := true, uppercase := true)), 1)
    else ([c], 0)
  }

  /** One step of the formatter: its text, the next position and the next argument. */
  datatype Item = Item(text: string, i: nat, k: nat)

  function ItemAt(fmt: string, args: seq<Arg>, i: nat, k: nat): (r: Item)
    requires At(fmt, i) != '\0'
    ensures r.i > i
  {
    if At(fmt, i) != '%' then Item([At(fmt, i)], i + 1, k)
    else
      var (f, i1) := ParseFlags(fmt, i + 1, NO_FLAGS);
      var w := ParseWidth(fmt, args, f, i1, k);
      var p := ParsePrecision(fmt, args, w.f, w.i, w.k);
      var (length, i2) := ParseLength(fmt, p.i);
      var (text, taken) := ConversionText(At(fmt, i2), args, p.k, p.n, w.n, p.f.(length := length));
      Item(text, i2 + 1, p.k + taken)
  }

  /** Everything printed from position i and argument k on. */
  function Render(fmt: string, args: seq<Arg>, i: nat, k: nat): string
    decreases Gap(i, |fmt|)
  {
    if At(fmt, i) == '\0' then []
    else
      var r := ItemAt(fmt, args, i, k);
      r.text + Render(fmt, args, r.i, r.k)
  }
}
