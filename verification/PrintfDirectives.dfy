/** The format language that _vsnprintf reads: every conversion specification, spelled out, is read as what it
    says, and what is not a number is printed as it is. */
module PrintfDirectives {
  import opened PrintfFacts
  import opened PrintfText
  import opened Words

  /** A width or precision: left out, written in decimal, or taken from an argument. */
  datatype Amount = Absent | Written(digits: string) | Star

  /** A conversion specification: %, flags, width, precision, length modifier and conversion. A precision
      written without digits is a point alone. */
  datatype Directive = Directive(flags: string, width: Amount, precision: Amount, length: string, c: char)

  function SpellAmount(n: Amount): string {
    match n
    case Absent => ""
    case Written(digits) => digits
    case Star => "*"
  }

  function Spell(d: Directive): string {
    "%" + d.flags + SpellAmount(d.width) + PointAnd(d.precision) + d.length + [d.c]
  }

  function PointAnd(n: Amount): string { if n.Absent? then "" else "." + SpellAmount(n) }

  predicate AllDigits(s: string) { forall j :: 0 <= j < |s| ==> '0' <= s[j] <= '9' }

  /** A width does not begin with 0, which would be a flag. */
  predicate WellFormed(d: Directive) {
    AllFlags(d.flags)
    && (d.width.Written? ==> AllDigits(d.width.digits) && d.width.digits != "" && d.width.digits[0] != '0')
    && (d.precision.Written? ==> AllDigits(d.precision.digits))
    && Converts(d.length, d.c)
  }

  predicate AllFlags(s: string) { forall x | x in s :: x in "0-+ #" }

  predicate Converts(length: string, c: char) { length in {"", "h", "hh", "l", "ll", "j", "z"} && c in "diuxXobcsp%" }

  /** The number an amount stands for; written numbers wrap at 32 bits. */
  ghost function Value(n: Amount, args: seq<Arg>, k: nat): int {
    match n
    case Absent => 0
    case Written(digits) => Parse(digits, 10) % 0x1_0000_0000
    case Star =>
      var w := if k < |args| && args[k].Int? then args[k].word else 0;
      if w < 0x8000_0000 then w else w - 0x1_0000_0000
  }

  function TakenBy(n: Amount): nat { if n.Star? then 1 else 0 }

  /** How many arguments a conversion takes: none if it is long long, which is compiled out, or %. */
  function TakenFor(c: char, length: string): nat {
    if c == '%' || (c in "diuxXob" && (length == "ll" || length == "j")) then 0 else 1
  }

  ghost function Meaning(d: Directive, width: int): Flags {
    Flags('0' in d.flags, '-' in d.flags || width < 0, '+' in d.flags, ' ' in d.flags, '#' in d.flags, false,
          LengthOf(d.length), !d.precision.Absent?)
  }

  function LengthOf(s: string): Length {
    if s == "h" then Short else if s == "hh" then Char else if s == "l" || s == "z" then Long
    else if s == "ll" || s == "j" then LongLong else Plain
  }

  /** Position i of the format is followed by this text. */
  ghost predicate Follows(fmt: string, i: nat, s: string) { i + |s| <= |fmt| && fmt[i..i + |s|] == s }

  lemma FollowedBy(fmt: string, i: nat, s: string, t: string)
    requires Follows(fmt, i, s + t)
    ensures Follows(fmt, i, s) && Follows(fmt, i + |s|, t)
  {
    var all := fmt[i..i + |s + t|];
    assert all[..|s|] == fmt[i..i + |s|] && all[|s|..] == fmt[i + |s|..i + |s| + |t|];
    assert (s + t)[..|s|] == s && (s + t)[|s|..] == t;
  }

  lemma FirstOf(fmt: string, i: nat, s: string)
    requires Follows(fmt, i, s) && s != ""
    ensures At(fmt, i) == s[0] && Follows(fmt, i + 1, s[1..])
  {
    assert fmt[i..i + |s|][0] == s[0];
    assert fmt[i + 1..i + |s|] == fmt[i..i + |s|][1..];
  }

  lemma Cut(fmt: string, i: nat, s: string, t: string)
    requires Follows(fmt, i, s + t) && s + t != ""
    ensures Follows(fmt, i, s) && Follows(fmt, i + |s|, t) && At(fmt, i) == (s + t)[0]
  {
    FollowedBy(fmt, i, s, t);
    FirstOf(fmt, i, s + t);
  }

  ghost function WithFlags(s: string, f: Flags): Flags {
    f.(zeropad := f.zeropad || '0' in s, left := f.left || '-' in s, plus := f.plus || '+' in s,
       space := f.space || ' ' in s, hash := f.hash || '#' in s)
  }

  lemma {:induction false} FlagsRead(fmt: string, i: nat, s: string, f: Flags)
    requires Follows(fmt, i, s) && AllFlags(s) && !IsFlag(At(fmt, i + |s|))
    ensures ParseFlags(fmt, i, f) == (WithFlags(s, f), i + |s|)
    decreases |s|
  {
    hide AllFlags, IsFlag, FlagOf, At, Follows;
    if s != "" {
      FirstOf(fmt, i, s);
      MoreFlags(s, f);
      FlagsRead(fmt, i + 1, s[1..], FlagOf(s[0], f));
    }
  }

  lemma MoreFlags(s: string, f: Flags)
    requires AllFlags(s) && s != ""
    ensures IsFlag(s[0]) && AllFlags(s[1..]) && WithFlags(s[1..], FlagOf(s[0], f)) == WithFlags(s, f)
  {
    assert s == [s[0]] + s[1..];
    assert s[0] in s && forall x :: x in s <==> x == s[0] || x in s[1..];
  }

  lemma {:induction false} DigitsRead(fmt: string, i: nat, s: string)
    requires Follows(fmt, i, s) && AllDigits(s) && !IsDigit(At(fmt, i + |s|))
    ensures DigitRun(fmt, i) == s
    decreases |s|
  {
    if s != "" {
      FirstOf(fmt, i, s);
      assert s == [s[0]] + s[1..];
      DigitsRead(fmt, i + 1, s[1..]);
    }
  }

  lemma {:induction false} DecimalDenotes(s: string)
    requires AllDigits(s)
    ensures (forall x | x in s :: IsDigit(x)) && Decimal(s) == Parse(s, 10)
  {
    if s != "" {
      DecimalDenotes(s[..|s| - 1]);
    }
  }

  lemma NumberRead(fmt: string, i: nat, s: string)
    requires Follows(fmt, i, s) && AllDigits(s) && !IsDigit(At(fmt, i + |s|))
    ensures DigitRun(fmt, i) == s && Atoi(fmt, i) == Parse(s, 10) % 0x1_0000_0000
  {
    DigitsRead(fmt, i, s);
    DecimalDenotes(s);
    hide DigitRun, Decimal, Parse;
  }

  lemma StarIsNoDigit()
    ensures !IsDigit('*')
  {}

  lemma LeadingDigit(fmt: string, i: nat, s: string)
    requires Follows(fmt, i, s) && AllDigits(s) && s != ""
    ensures IsDigit(At(fmt, i)) && At(fmt, i) != '*'
  {
    Head(fmt, i, s);
  }

  lemma Head(fmt: string, i: nat, s: string)
    requires Follows(fmt, i, s) && s != ""
    ensures At(fmt, i) == s[0]
  {
    FirstOf(fmt, i, s);
  }

  lemma WidthRead(fmt: string, i: nat, n: Amount, args: seq<Arg>, f: Flags, k: nat)
    requires Follows(fmt, i, SpellAmount(n)) && (n.Written? ==> AllDigits(n.digits) && n.digits != "")
    requires var c := At(fmt, i + |SpellAmount(n)|); !IsDigit(c) && c != '*'
    ensures var r, v := ParseWidth(fmt, args, f, i, k), Value(n, args, k);
            r == Cursor(f.(left := f.left || v < 0), if v < 0 then -v else v, i + |SpellAmount(n)|, k + TakenBy(n))
  {
    hide DigitRun, Atoi, Parse, Follows, At, IsDigit;
    if n.Written? {
      LeadingDigit(fmt, i, n.digits);
      NumberRead(fmt, i, n.digits);
    } else if n.Star? {
      Head(fmt, i, "*");
      StarIsNoDigit();
    }
    assert f.(left := f.left) == f;
  }

  lemma PrecisionRead(fmt: string, i: nat, n: Amount, args: seq<Arg>, f: Flags, k: nat)
    requires !f.precision && (n.Written? ==> AllDigits(n.digits))
    requires var s := PointAnd(n);
             Follows(fmt, i, s) && !IsDigit(At(fmt, i + |s|)) && At(fmt, i + |s|) !in ".*"
    ensures var r, v := ParsePrecision(fmt, args, f, i, k), Value(n, args, k);
            r == Cursor(f.(precision := !n.Absent?), if v < 0 then 0 else v,
                        i + (if n.Absent? then 0 else 1 + |SpellAmount(n)|), k + TakenBy(n))
  {
    hide DigitRun, Atoi, Parse, Follows, At, IsDigit;
    if !n.Absent? {
      Cut(fmt, i, ".", SpellAmount(n));
    } else {
      assert i + |PointAnd(n)| == i;
    }
    if n.Written? && n.digits != "" {
      LeadingDigit(fmt, i + 1, n.digits);
      NumberRead(fmt, i + 1, n.digits);
    } else if n.Written? {
      NothingWritten();
    } else if n.Star? {
      Head(fmt, i + 1, "*");
      StarIsNoDigit();
    }
  }

  lemma NothingWritten()
    ensures Parse("", 10) == 0
  {}

  lemma LengthRead(fmt: string, i: nat, s: string, c: char)
    requires Converts(s, c) && Follows(fmt, i, s + [c])
    ensures ParseLength(fmt, i) == (LengthOf(s), i + |s|)
    ensures At(fmt, i + |s|) == c
  {
    FollowedBy(fmt, i, s, [c]);
    FirstOf(fmt, i + |s|, [c]);
    if s != "" {
      FirstOf(fmt, i, s);
    }
    if |s| == 2 {
      FirstOf(fmt, i + 1, s[1..]);
    }
  }

  /** How what follows a width, a precision and a length modifier can begin. */
  lemma Heads(d: Directive)
    requires WellFormed(d)
    ensures var w, p, e := SpellAmount(d.width), PointAnd(d.precision), d.length + [d.c];
            !IsFlag((w + (p + e))[0]) && !IsDigit((p + e)[0]) && (p + e)[0] != '*' && !IsDigit(e[0]) && e[0] !in ".*"
  {
    var w, p, e := SpellAmount(d.width), PointAnd(d.precision), d.length + [d.c];
    assert e[0] == (if d.length == "" then d.c else d.length[0]) && e[0] in "diuxXobcsp%hljz";
    assert (p + e)[0] == if d.precision.Absent? then e[0] else '.';
    assert (w + (p + e))[0] == if d.width.Absent? then (p + e)[0] else w[0];
  }

  /** Where the parts of a specification stand, and what follows each. */
  lemma Parts(d: Directive, fmt: string, i: nat)
    requires WellFormed(d) && Follows(fmt, i, Spell(d))
    ensures var w, p := SpellAmount(d.width), PointAnd(d.precision);
            var i1 := i + 1 + |d.flags|;
            var i2 := i1 + |w|;
            At(fmt, i) == '%' && Follows(fmt, i + 1, d.flags) && Follows(fmt, i1, w) && Follows(fmt, i2, p)
            && Follows(fmt, i2 + |p|, d.length + [d.c])
            && !IsFlag(At(fmt, i1)) && !IsDigit(At(fmt, i2)) && At(fmt, i2) != '*'
            && !IsDigit(At(fmt, i2 + |p|)) && At(fmt, i2 + |p|) !in ".*"
  {
    hide *;
    var w, p, e := SpellAmount(d.width), PointAnd(d.precision), d.length + [d.c];
    Regrouped(d);
    Cut(fmt, i, "%", d.flags + (w + (p + e)));
    Cut(fmt, i + 1, d.flags, w + (p + e));
    var i1 := i + 1 + |d.flags|;
    Cut(fmt, i1, w, p + e);
    var i2 := i1 + |w|;
    Cut(fmt, i2, p, e);
    Cut(fmt, i2 + |p|, e, "");
    Heads(d);
  }

  lemma Regrouped(d: Directive)
    ensures var w, p, e := SpellAmount(d.width), PointAnd(d.precision), d.length + [d.c];
            Spell(d) == "%" + (d.flags + (w + (p + e))) && e + "" == e
  {
    hide SpellAmount, PointAnd;
  }

  /** Wherever a conversion specification stands in a format, its flags, width, precision, length and
      conversion are read as written, stars from the next arguments, and the next item begins behind it. */
  lemma DirectiveRead(d: Directive, fmt: string, args: seq<Arg>, i: nat, k: nat)
    requires WellFormed(d) && Follows(fmt, i, Spell(d))
    ensures At(fmt, i) == '%'
    ensures var width := Value(d.width, args, k);
            var k1 := k + TakenBy(d.width);
            var prec := Value(d.precision, args, k1);
            var k2 := k1 + TakenBy(d.precision);
            var r := ItemAt(fmt, args, i, k);
            r.i == i + |Spell(d)|
            && r.text == ConversionText(d.c, args, k2, if prec < 0 then 0 else prec, if width < 0 then -width else width,
                                        Meaning(d, width)).0
            && r.k == k2 + TakenFor(d.c, d.length)
  {
    hide *;
    WellFormedIs(d);
    var i1 := i + 1 + |d.flags|;
    var i2 := i1 + |SpellAmount(d.width)|;
    var i3 := i2 + |PointAnd(d.precision)|;
    Parts(d, fmt, i);
    SpellLength(d);
    var f := WithFlags(d.flags, NO_FLAGS);
    FlagsRead(fmt, i + 1, d.flags, NO_FLAGS);
    WidthRead(fmt, i1, d.width, args, f, k);
    var width := Value(d.width, args, k);
    var k1 := k + TakenBy(d.width);
    MeaningIs(d, width);
    PrecisionRead(fmt, i2, d.precision, args, f.(left := f.left || width < 0), k1);
    LengthRead(fmt, i3, d.length, d.c);
    var prec := Value(d.precision, args, k1);
    ItemIs(fmt, args, i, k, i3 + |d.length|);
    Taken(d, args, k1 + TakenBy(d.precision), if prec < 0 then 0 else prec, if width < 0 then -width else width, width);
  }

  lemma MeaningIs(d: Directive, width: int)
    requires WellFormed(d)
    ensures var f := WithFlags(d.flags, NO_FLAGS);
            !f.precision
            && f.(left := f.left || width < 0, precision := !d.precision.Absent?, length := LengthOf(d.length)) == Meaning(d, width)
  {}

  lemma ItemIs(fmt: string, args: seq<Arg>, i: nat, k: nat, at: nat)
    requires At(fmt, i) == '%'
    requires var (f, i1) := ParseFlags(fmt, i + 1, NO_FLAGS);
             var w := ParseWidth(fmt, args, f, i1, k);
             ParseLength(fmt, ParsePrecision(fmt, args, w.f, w.i, w.k).i).1 == at
    ensures var (f, i1) := ParseFlags(fmt, i + 1, NO_FLAGS);
            var w := ParseWidth(fmt, args, f, i1, k);
            var p := ParsePrecision(fmt, args, w.f, w.i, w.k);
            var length := ParseLength(fmt, p.i).0;
            var (text, taken) := ConversionText(At(fmt, at), args, p.k, p.n, w.n, p.f.(length := length));
            ItemAt(fmt, args, i, k) == Item(text, at + 1, p.k + taken)
  {
    hide ParseFlags, ParseWidth, ParsePrecision, ParseLength, ConversionText, At;
  }

  lemma WellFormedIs(d: Directive)
    requires WellFormed(d)
    ensures AllFlags(d.flags) && Converts(d.length, d.c)
    ensures d.width.Written? ==> AllDigits(d.width.digits) && d.width.digits != ""
    ensures d.precision.Written? ==> AllDigits(d.precision.digits)
  {
    hide AllFlags, Converts, AllDigits;
  }

  lemma SpellLength(d: Directive)
    ensures |PointAnd(d.precision)| == if d.precision.Absent? then 0 else 1 + |SpellAmount(d.precision)|
    ensures |Spell(d)| == 1 + |d.flags| + |SpellAmount(d.width)| + |PointAnd(d.precision)| + |d.length| + 1
  {}

  /** The number of arguments that a conversion takes. */
  lemma Taken(d: Directive, args: seq<Arg>, k: nat, prec: nat, width: nat, w: int)
    requires WellFormed(d)
    ensures ConversionText(d.c, args, k, prec, width, Meaning(d, w)).1
         == TakenFor(d.c, d.length)
  {
    hide IntegerText, StringText, NumberText, Aligned;
  }

  // ---- Conversions other than numbers ----

  /** %s: the string up to its first NUL, or up to the precision if that is shorter, in a field of at least
      the width. */
  lemma StringConversion(args: seq<Arg>, k: nat, s: string, prec: nat, width: nat, f: Flags) returns (body: string)
    requires k < |args| && args[k] == Str(s)
    ensures body <= s && '\0' !in body && (f.precision ==> |body| <= prec)
    ensures |body| == |s| || s[|body|] == '\0' || (f.precision && |body| == prec)
    ensures var text, gap := ConversionText('s', args, k, prec, width, f).0, Repeat(' ', Gap(|body|, width));
            text == (if f.left then body + gap else gap + body) && |text| == if |body| < width then width else |body|
  {
    var t := Terminated(s);
    TerminatedIs(s);
    body := if f.precision then t[..Min(|t|, prec)] else t;
    hide Terminated;
  }

  lemma {:induction false} TerminatedIs(s: string)
    ensures var t := Terminated(s); t <= s && '\0' !in t && (|t| == |s| || s[|t|] == '\0')
  {
    if s != [] && s[0] != '\0' {
      TerminatedIs(s[1..]);
      assert s == [s[0]] + s[1..];
    }
  }

  /** %c: the low byte of the argument, in a field of at least the width. */
  lemma CharConversion(args: seq<Arg>, k: nat, w: Word, prec: nat, width: nat, f: Flags)
    requires k < |args| && args[k] == Int(w)
    ensures var text := ConversionText('c', args, k, prec, width, f).0;
            |text| == (if width > 1 then width else 1)
            && forall i :: 0 <= i < |text| ==>
                 text[i] == if i == (if f.left then 0 else |text| - 1) then (w % 0x100) as char else ' '
  {}

  /** %p without sign flags and '#': the argument in capital hexadecimal digits, eight unless the precision
      asks for more or the field is to the left. */
  lemma PointerConversion(args: seq<Arg>, k: nat, w: Word, prec: nat, width: nat, f: Flags) returns (number: string)
    requires k < |args| && args[k] == Int(w) && !f.hash && !f.plus && !f.space
    ensures var text := ConversionText('p', args, k, prec, width, f).0;
            Parse(number, 16) == w && Spells(number, true)
            && (!f.left ==> text == number && |number| == if prec > 8 then (if prec < 32 then prec else 32) else 8)
            && (f.left ==> text == number + Repeat(' ', Gap(|number|, 8)))
  {
    var g := f.(zeropad := true, uppercase := true);
    number := UnsignedField(w, 16, prec, 8, g);
    RoomForBase(w, 16, true);
    hide NumberText, Parse, Spells, Digits;
  }

  /** Every character that is not part of a conversion specification is printed as it is, and so is %%. */
  lemma Verbatim(fmt: string, args: seq<Arg>, i: nat, k: nat)
    requires i < |fmt| && fmt[i] != '\0'
    ensures fmt[i] != '%' ==> ItemAt(fmt, args, i, k) == Item([fmt[i]], i + 1, k)
    ensures fmt[i] == '%' && i + 1 < |fmt| && fmt[i + 1] == '%' ==> ItemAt(fmt, args, i, k) == Item("%", i + 2, k)
  {}
}
