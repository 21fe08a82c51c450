/** The formatter of printf.c: a format cursor, an output index and a 32-byte scratch buffer,
    all updated in place, writing through an indexed sink. */
module Printf {
  import opened Division
  import opened PrintfText
  import opened Words

  /** One call of the output function, with the number of characters before it: that is the index before it
      wraps as a 32-bit size_t. */
  type Call = (char, nat)

  /** The calls that write `text` to consecutive indices from `at`. */
  function Stamp(text: string, at: nat): (s: seq<Call>)
    ensures |s| == |text|
  {
    seq(|text|, i requires 0 <= i < |text| => (text[i], at + i))
  }

  lemma StampMore(text: string, more: string, at: nat)
    ensures Stamp(text + more, at) == Stamp(text, at) + Stamp(more, at + |text|)
  {}

  datatype Target = Buffer | Nowhere | Console

  /** An output function with its two constant arguments: _out_buffer with a buffer and maxlen,
      _out_null, or _out_char with the console behind _putchar. */
  class Sink {
    const target: Target
    const cells: array<char>
    const maxlen: Word
    var console: string
    ghost var log: seq<Call>
    ghost const blank: seq<char>

    constructor (target: Target, cells: array<char>, maxlen: Word)
      ensures this.target == target && this.cells == cells && this.maxlen == maxlen
      ensures log == [] && blank == cells[..] && console == [] && Valid()
    {
      this.target, this.cells, this.maxlen := target, cells, maxlen;
      log, blank, console := [], cells[..], [];
    }

    /** What the calls so far have left in the buffer. */
    ghost predicate Valid()
      reads this, cells
    {
      cells.Length == |blank|
      && cells[..] == (if target.Buffer? then Stored(log, maxlen, blank) else blank)
      && console == (if target.Console? then Shown(log) else [])
    }

    /** The buffer has a cell for every index below n that the sink would store to. */
    predicate Room(n: nat) {
      target.Buffer? ==> Min(n, maxlen) <= cells.Length
    }

    /** The output function, called with idx as a 32-bit index. */
    method Out(c: char, idx: nat)
      requires Valid()
      requires Room(idx + 1)
      modifies this, cells
      ensures Valid() && log == old(log) + [(c, idx)]
    {
      if target.Buffer? {
        WrapBelow(idx);
        if idx % TWO32 < maxlen {
          cells[idx % TWO32] := c;
        }
      } else if target.Console? {
        if c != '\0' {
          console := console + [c];
        }
      }
      log := log + [(c, idx)];
      assert log[..|log| - 1] == old(log);
    }
  }

  /** A buffer after a sequence of calls of _out_buffer. */
  ghost function Stored(log: seq<Call>, maxlen: nat, blank: seq<char>): (s: seq<char>)
    ensures |s| == |blank|
  {
    if log == [] then blank
    else
      var s := Stored(log[..|log| - 1], maxlen, blank);
      var (c, idx) := log[|log| - 1];
      if idx % TWO32 < maxlen && idx % TWO32 < |s| then s[idx % TWO32 := c] else s
  }

  lemma WrapBelow(idx: nat)
    ensures idx % TWO32 <= idx && (idx < TWO32 ==> idx % TWO32 == idx)
  {}

  /** The console after a sequence of calls of _out_char. */
  ghost function Shown(log: seq<Call>): string {
    if log == [] then []
    else
      var s := Shown(log[..|log| - 1]);
      if log[|log| - 1].0 == '\0' then s else s + [log[|log| - 1].0]
  }

  /** The last of the first n indices that wraps to j. */
  function LastTurn(j: nat, n: nat): (k: nat)
    requires j < n && j < TWO32
    ensures k < n && k % TWO32 == j && n <= k + TWO32
  {
    j + TWO32 * ((n - 1 - j) / TWO32)
  }

  lemma LastTurnNext(j: nat, n: nat)
    requires j < n && j < TWO32
    ensures LastTurn(j, n) == if (n - 1) % TWO32 == j then n - 1 else LastTurn(j, n - 1)
    ensures (n - 1) % TWO32 != j ==> j < n - 1
    ensures n <= TWO32 ==> LastTurn(j, n) == j
  {}

  /** A buffer into which the first n characters of a text are stored one by one: below maxlen each cell has
      the last character whose index wraps to it. */
  function Filled(text: string, n: nat, maxlen: nat, blank: seq<char>): (s: seq<char>)
    requires n <= |text| && maxlen <= TWO32
    ensures |s| == |blank|
  {
    seq(|blank|, j requires 0 <= j < |blank| => if j < n && j < maxlen then text[LastTurn(j, n)] else blank[j])
  }

  /** The calls for a text fill the buffer with it. */
  lemma {:induction false} StoredText(text: string, n: nat, maxlen: nat, blank: seq<char>)
    requires n <= |text| && Min(n, maxlen) <= |blank| && maxlen <= TWO32
    ensures Stored(Stamp(text, 0)[..n], maxlen, blank) == Filled(text, n, maxlen, blank)
  {
    if n > 0 {
      var log := Stamp(text, 0)[..n];
      assert log[..n - 1] == Stamp(text, 0)[..n - 1];
      StoredText(text, n - 1, maxlen, blank);
      hide Stored, Stamp, LastTurn;
      StoredStep(log, maxlen, blank);
      FilledNext(text, n, maxlen, blank);
    }
  }

  lemma StoredStep(log: seq<Call>, maxlen: nat, blank: seq<char>)
    requires log != []
    ensures var s, at := Stored(log[..|log| - 1], maxlen, blank), log[|log| - 1].1 % TWO32;
            Stored(log, maxlen, blank) == if at < maxlen && at < |s| then s[at := log[|log| - 1].0] else s
  {}

  lemma FilledNext(text: string, n: nat, maxlen: nat, blank: seq<char>)
    requires 0 < n <= |text| && Min(n, maxlen) <= |blank| && maxlen <= TWO32
    ensures var s, at := Filled(text, n - 1, maxlen, blank), (n - 1) % TWO32;
            Filled(text, n, maxlen, blank) == if at < maxlen && at < |s| then s[at := text[n - 1]] else s
  {
    hide LastTurn;
    WrapBelow(n - 1);
    forall j | 0 <= j < |blank| && j < n && j < maxlen
      ensures LastTurn(j, n) == (if (n - 1) % TWO32 == j then n - 1 else LastTurn(j, n - 1))
      ensures (n - 1) % TWO32 != j ==> j < n - 1
    {
      LastTurnNext(j, n);
    }
  }

  /** A text that does not wrap is stored as far as it fits. */
  lemma FilledShort(text: string, n: nat, maxlen: nat, blank: seq<char>)
    requires n <= |text| && n <= TWO32 && Min(n, maxlen) <= |blank| && maxlen <= TWO32
    ensures var m := Min(n, maxlen); Filled(text, n, maxlen, blank) == text[..m] + blank[m..]
  {
    hide LastTurn;
    forall j | 0 <= j < |blank| && j < n && j < maxlen
      ensures LastTurn(j, n) == j
    {
      LastTurnNext(j, n);
    }
  }

  /** The console, which is not sent NUL characters. */
  function Printable(text: string): string {
    if text == [] then []
    else
      var s := Printable(text[..|text| - 1]);
      if text[|text| - 1] == '\0' then s else s + [text[|text| - 1]]
  }

  lemma {:induction false} ShownText(text: string, n: nat)
    requires n <= |text|
    ensures Shown(Stamp(text, 0)[..n]) == Printable(text[..n])
  {
    if n > 0 {
      var log := Stamp(text, 0)[..n];
      assert log[..n - 1] == Stamp(text, 0)[..n - 1];
      assert text[..n][..n - 1] == text[..n - 1];
      ShownText(text, n - 1);
    }
  }

  /** out(c, buffer, idx++, maxlen), where `done` has been written since index `at`. */
  method Put(sink: Sink, c: char, idx: nat, ghost done: string, ghost at: nat, ghost base: seq<Call>)
    returns (next: nat)
    requires sink.Valid() && sink.Room(idx + 1)
    requires idx == at + |done| && sink.log == base + Stamp(done, at)
    modifies sink, sink.cells
    ensures sink.Valid() && next == idx + 1
    ensures sink.log == base + Stamp(done + [c], at)
  {
    hide Stored, Shown;
    StampMore(done, [c], at);
    assert Stamp([c], idx) == [(c, idx)];
    sink.Out(c, idx);
    next := idx + 1;
  }

  /** The padding loops: spaces until `have` reaches `width`. */
  method PutSpaces(sink: Sink, idx: nat, have: nat, width: nat) returns (end: nat)
    requires sink.Valid() && sink.Room(idx + Gap(have, width))
    modifies sink, sink.cells
    ensures sink.Valid() && end == idx + Gap(have, width)
    ensures sink.log == old(sink.log) + Stamp(Repeat(' ', Gap(have, width)), idx)
  {
    end := idx;
    var i := have;
    StampNothing(idx);
    assert Repeat(' ', 0) == [];
    hide Stored, Shown, Stamp;
    while i < width
      invariant end == idx + (i - have) && have <= i <= Max(have, width)
      invariant sink.Valid()
      invariant sink.log == old(sink.log) + Stamp(Repeat(' ', i - have), idx)
    {
      assert Repeat(' ', i - have) + [' '] == Repeat(' ', i + 1 - have);
      end := Put(sink, ' ', end, Repeat(' ', i - have), idx, old(sink.log));
      i := i + 1;
    }
  }

  /** The digit loops of _ntoa_format: '0' until the field is `want` long or the buffer full. */
  method FillZeros(buf: array<char>, len0: nat, want: nat) returns (len: nat)
    requires buf.Length == SCRATCH && len0 <= SCRATCH
    modifies buf
    ensures len <= SCRATCH && buf[..len] == PadZeros(old(buf[..len0]), want)
  {
    len := len0;
    while len < want && len < SCRATCH
      invariant len0 <= len <= SCRATCH && len <= Max(len0, want)
      invariant buf[..len] == old(buf[..len0]) + Repeat('0', len - len0)
    {
      buf[len] := '0';
      len := len + 1;
    }
  }

  /** buf[len++] = c where there is room. */
  method Append(buf: array<char>, len0: nat, c: char) returns (len: nat)
    requires buf.Length == SCRATCH && len0 <= SCRATCH
    modifies buf
    ensures len <= SCRATCH && buf[..len] == Push(old(buf[..len0]), c)
  {
    len := len0;
    if len < SCRATCH {
      buf[len] := c;
      len := len + 1;
    }
  }

  /** The '#' part of _ntoa_format. */
  method PutHash(buf: array<char>, len0: nat, base: nat, prec: nat, width: nat, f: Flags) returns (len: nat)
    requires buf.Length == SCRATCH && len0 <= SCRATCH && f.hash
    modifies buf
    ensures len <= SCRATCH && buf[..len] == Hash(old(buf[..len0]), base, prec, width, f)
  {
    len := len0;
    if !f.precision && len > 0 && (len == prec || len == width) {
      len := len - 1;
      if len > 0 && base == 16 {
        len := len - 1;
      }
    }
    assert buf[..len] == HashRoom(old(buf[..len0]), base, prec, width, f);
    hide HashRoom;
    if base == 16 && !f.uppercase && len < SCRATCH {
      len := Append(buf, len, 'x');
    } else if base == 16 && f.uppercase && len < SCRATCH {
      len := Append(buf, len, 'X');
    } else if base == 2 && len < SCRATCH {
      len := Append(buf, len, 'b');
    }
    if len < SCRATCH {
      len := Append(buf, len, '0');
    }
  }

  /** The sign part of _ntoa_format. */
  method PutSign(buf: array<char>, len0: nat, negative: bool, width: nat, f: Flags) returns (len: nat)
    requires buf.Length == SCRATCH && len0 <= SCRATCH
    modifies buf
    ensures len <= SCRATCH && buf[..len] == Sign(old(buf[..len0]), negative, width, f)
  {
    len := len0;
    if len > 0 && len == width && (negative || f.plus || f.space) {
      len := len - 1;
    }
    if len < SCRATCH {
      if negative {
        len := Append(buf, len, '-');
      } else if f.plus {
        len := Append(buf, len, '+');
      } else if f.space {
        len := Append(buf, len, ' ');
      }
    }
  }

  /** _ntoa_format up to the output: padding, '#' and sign, all in the scratch buffer. */
  method Prefix(buf: array<char>, len0: nat, negative: bool, base: nat, prec: nat, width: nat, f: Flags)
    returns (len: nat)
    requires buf.Length == SCRATCH && len0 <= SCRATCH
    modifies buf
    ensures len <= SCRATCH && buf[..len] == Body(old(buf[..len0]), negative, base, prec, width, f)
  {
    len := len0;
    if !f.left {
      len := FillZeros(buf, len, prec);
      if f.zeropad {
        len := FillZeros(buf, len, width);
      }
    }
    if f.hash {
      len := PutHash(buf, len, base, prec, width, f);
    }
    len := PutSign(buf, len, negative, width, f);
  }

  lemma {:induction false} BackwardsAt(s: string, i: nat)
    requires i < |s|
    ensures Backwards(s)[i] == s[|s| - 1 - i]
  {
    if i < |s| - 1 {
      BackwardsAt(s[1..], i);
    }
  }

  /** The reversing loop of _ntoa_format. */
  method PutReversed(sink: Sink, idx: nat, buf: array<char>, len: nat) returns (end: nat)
    requires len <= buf.Length && buf != sink.cells
    requires sink.Valid() && sink.Room(idx + len)
    modifies sink, sink.cells
    ensures sink.Valid() && end == idx + len
    ensures sink.log == old(sink.log) + Stamp(Backwards(buf[..len]), idx)
  {
    end := idx;
    ghost var text := Backwards(buf[..len]);
    var i := 0;
    StampNothing(idx);
    hide Stored, Shown, Stamp;
    while i < len
      invariant i <= len && end == idx + i && buf[..len] == old(buf[..len])
      invariant sink.Valid()
      invariant sink.log == old(sink.log) + Stamp(text[..i], idx)
    {
      BackwardsAt(buf[..len], i);
      assert text[..i] + [text[i]] == text[..i + 1];
      end := Put(sink, buf[len - i - 1], end, text[..i], idx, old(sink.log));
      i := i + 1;
    }
    assert text[..len] == text;
  }

  /** The output loops of _ntoa_format. */
  method PutField(sink: Sink, idx: nat, buf: array<char>, len: nat, width: nat, f: Flags) returns (end: nat)
    requires len <= buf.Length && buf != sink.cells
    requires sink.Valid() && sink.Room(idx + |Field(buf[..len], width, f)|)
    modifies sink, sink.cells
    ensures sink.Valid()
    ensures var text := Field(old(buf[..len]), width, f);
            end == idx + |text| && sink.log == old(sink.log) + Stamp(text, idx)
  {
    hide Stored, Shown, Stamp, Backwards, Repeat;
    ghost var text := Backwards(buf[..len]);
    ghost var gap := Repeat(' ', Gap(len, width));
    StampMore(gap, text, idx);
    StampMore(text, gap, idx);
    end := idx;
    if !f.left && !f.zeropad {
      end := PutSpaces(sink, end, len, width);
    }
    end := PutReversed(sink, end, buf, len);
    if f.left {
      end := PutSpaces(sink, end, end - idx, width);
    }
  }

  /** _ntoa_format. */
  method NtoaFormat(sink: Sink, idx: nat, buf: array<char>, len0: nat, negative: bool, base: nat,
                    prec: nat, width: nat, f: Flags) returns (end: nat)
    requires buf.Length == SCRATCH && len0 <= SCRATCH && buf != sink.cells
    requires sink.Valid()
    requires sink.Room(idx + |Field(Body(buf[..len0], negative, base, prec, width, f), width, f)|)
    modifies sink, sink.cells, buf
    ensures sink.Valid()
    ensures var text := Field(Body(old(buf[..len0]), negative, base, prec, width, f), width, f);
            end == idx + |text| && sink.log == old(sink.log) + Stamp(text, idx)
  {
    hide Stored, Shown, Stamp, Body, Field;
    var len := Prefix(buf, len0, negative, base, prec, width, f);
    end := PutField(sink, idx, buf, len, width, f);
  }

  lemma StampNothing(at: nat)
    ensures Stamp([], at) == []
  {}

  lemma {:induction false} Pow2Grows(j: nat, k: nat)
    requires j <= k
    ensures Pow2(j) <= Pow2(k)
  {
    if j < k {
      Pow2Grows(j, k - 1);
    }
  }

  lemma Scaled(x: nat, y: nat, p: nat)
    requires x <= y
    ensures x * p <= y * p
    ensures x * (2 * p) == 2 * x * p
  {}

  /** Dividing by a base of at least two at least halves: 32 digits are enough for a word. */
  lemma DigitCount(value: nat, value0: Word, base: nat, n: nat)
    requires 2 <= base && value * Pow2(n) <= value0
    ensures value / base * Pow2(n + 1) <= value0
    ensures value > 0 ==> n < 32
  {
    var q := value / base;
    Halves(value, base);
    Scaled(q, q, Pow2(n));
    Scaled(2 * q, value, Pow2(n));
    if value > 0 {
      Scaled(1, value, Pow2(n));
      if n >= 32 {
        Pow2Of32();
        Pow2Grows(32, n);
      }
    }
  }

  /** One pass of the digit loop of _ntoa_long, with its two calls of the software divider,
      which is exact here as the base is at least two. */
  method PutDigit(buf: array<char>, len0: nat, value: Word, base: nat, f: Flags) returns (len: nat, quo: Word)
    requires buf.Length == SCRATCH && len0 < SCRATCH && 2 <= base <= 16
    modifies buf
    ensures len == len0 + 1 && quo == value / base
    ensures buf[..len] == old(buf[..len0]) + [DigitChar(value % base, f.uppercase)]
  {
    hide DigitChar;
    var digit := AeabiUidivmod(value, base);
    buf[len0] := DigitChar(digit, f.uppercase);
    len := len0 + 1;
    quo := AeabiUidiv(value, base);
  }

  /** The digit loop of _ntoa_long: the buffer bound in its condition never cuts a number short. */
  method PutDigits(buf: array<char>, value0: Word, base: nat, f: Flags) returns (len: nat)
    requires buf.Length == SCRATCH && 2 <= base <= 16
    modifies buf
    ensures len <= SCRATCH && buf[..len] == Digits(value0, base, f.uppercase)
  {
    hide Pow2, DigitChar;
    var value: Word := value0;
    len := 0;
    PowZero(value);
    while true
      invariant 0 <= len < SCRATCH
      invariant value * Pow2(len) <= value0
      invariant buf[..len] + Digits(value, base, f.uppercase) == Digits(value0, base, f.uppercase)
      decreases SCRATCH - len
    {
      DigitCount(value, value0, base, len);
      DigitsGrow(buf[..len], value, base, f.uppercase);
      len, value := PutDigit(buf, len, value, base, f);
      DigitCount(value, value0, base, len);
      if !(value != 0 && len < SCRATCH) {
        break;
      }
    }
  }

  lemma DigitsGrow(done: string, value: nat, base: nat, upper: bool)
    requires 2 <= base <= 16
    ensures done + Digits(value, base, upper)
         == done + [DigitChar(value % base, upper)] + (if value / base == 0 then [] else Digits(value / base, base, upper))
  {
    hide DigitChar;
  }

  lemma PowZero(x: nat)
    ensures x * Pow2(0) == x
  {}

  /** _ntoa_long. */
  method NtoaLong(sink: Sink, idx: nat, value: Word, negative: bool, base: nat,
                  prec: nat, width: nat, flags: Flags) returns (end: nat)
    requires 2 <= base <= 16
    requires sink.Valid() && sink.Room(idx + |NumberText(value, negative, base, prec, width, flags)|)
    modifies sink, sink.cells
    ensures sink.Valid()
    ensures var text := NumberText(value, negative, base, prec, width, flags);
            end == idx + |text| && sink.log == old(sink.log) + Stamp(text, idx)
  {
    hide Stored, Shown, Body, Field, Digits;
    var buf := new char[SCRATCH];
    var f := flags;
    if value == 0 {
      f := f.(hash := false);
    }
    var len := 0;
    if !f.precision || value != 0 {
      len := PutDigits(buf, value, base, f);
    }
    assert buf[..len] == if !f.precision || value != 0 then Digits(value, base, f.uppercase) else [];
    end := NtoaFormat(sink, idx, buf, len, negative, base, prec, width, f);
  }

  // ---- Strings ----

  lemma {:induction false} TerminatedAt(s: string, i: nat)
    requires i <= |Terminated(s)|
    ensures |Terminated(s)| <= |s| && Terminated(s)[..i] == s[..i]
    ensures At(s, i) == '\0' <==> i == |Terminated(s)|
  {
    if s != [] && s[0] != '\0' && i > 0 {
      TerminatedAt(s[1..], i - 1);
    } else if s != [] && s[0] != '\0' {
      TerminatedAt(s[1..], 0);
    }
  }

  /** _strnlen_s. */
  method StrnlenS(str: string, maxsize0: Word) returns (n: nat)
    ensures n == Min(|Terminated(str)|, maxsize0)
  {
    n := 0;
    var maxsize: nat := maxsize0;
    TerminatedAt(str, 0);
    while At(str, n) != '\0' && maxsize != 0
      invariant n <= |Terminated(str)| && maxsize + n == maxsize0
      invariant At(str, n) == '\0' <==> n == |Terminated(str)|
      decreases maxsize
    {
      n, maxsize := n + 1, maxsize - 1;
      TerminatedAt(str, n);
    }
  }

  /** After i characters, the loop condition of case 's' says whether the text goes on. */
  lemma StringStep(p: string, precision: Word, f: Flags, i: nat)
    requires i <= |StringText(p, precision, 0, f)|
    ensures At(p, i) != '\0' && (!f.precision || i < precision) <==> i < |StringText(p, precision, 0, f)|
    ensures i < |StringText(p, precision, 0, f)| ==> i < |p| && StringText(p, precision, 0, f)[i] == p[i]
  {
    var t := Terminated(p);
    var n := if f.precision then Min(|t|, precision) else |t|;
    assert StringText(p, precision, 0, f) == t[..n];
    TerminatedAt(p, i);
    if i < n {
      TerminatedAt(p, i + 1);
      assert t[..i + 1][i] == p[..i + 1][i];
    }
  }

  /** One pass of the string output loop. */
  method PutNext(sink: Sink, end: nat, p: string, i: nat, ghost text: string, ghost at: nat, ghost base: seq<Call>)
    returns (next: nat)
    requires i < |text| && i < |p| && text[i] == p[i] && end == at + i
    requires sink.Valid() && sink.Room(at + |text|) && sink.log == base + Stamp(text[..i], at)
    modifies sink, sink.cells
    ensures sink.Valid() && next == end + 1 && sink.log == base + Stamp(text[..i + 1], at)
  {
    hide Stored, Shown, Stamp;
    assert text[..i] + [text[i]] == text[..i + 1];
    next := Put(sink, p[i], end, text[..i], at, base);
  }

  /** The string output loop of case 's'. */
  method PutString(sink: Sink, idx: nat, p: string, precision0: Word, f: Flags) returns (end: nat)
    requires sink.Valid() && sink.Room(idx + |StringText(p, precision0, 0, f)|)
    modifies sink, sink.cells
    ensures sink.Valid()
    ensures var text := StringText(p, precision0, 0, f);
            end == idx + |text| && sink.log == old(sink.log) + Stamp(text, idx)
  {
    hide *;
    end := idx;
    var i, precision: nat := 0, precision0;
    ghost var text := StringText(p, precision0, 0, f);
    StampNothing(idx);
    assert text[..0] == [];
    StringStep(p, precision0, f, 0);
    while At(p, i) != '\0' && (!f.precision || precision != 0)
      invariant i <= |text| && end == idx + i
      invariant f.precision ==> precision + i == precision0
      invariant At(p, i) != '\0' && (!f.precision || i < precision0) <==> i < |text|
      invariant i < |text| ==> i < |p| && text[i] == p[i]
      invariant sink.Valid()
      invariant sink.log == old(sink.log) + Stamp(text[..i], idx)
      decreases |text| - i
    {
      if f.precision {
        precision := precision - 1;
      }
      end := PutNext(sink, end, p, i, text, idx, old(sink.log));
      i := i + 1;
      StringStep(p, precision0, f, i);
    }
    assert text[..i] == text;
  }

  /** The string length bounded by _strnlen_s pads as the full length would. */
  lemma StringFieldIs(p: string, precision: Word, width: Word, f: Flags, l: nat)
    requires !f.precision ==> precision == 0
    requires var n := Min(|Terminated(p)|, if precision != 0 then precision else TWO32 - 1);
             l == if f.precision then Min(n, precision) else n
    ensures var body, gap := StringText(p, precision, 0, f), Repeat(' ', Gap(l, width));
            StringText(p, precision, width, f) == if f.left then body + gap else gap + body
  {
    assert Repeat(' ', 0) == [];
  }

  /** The field length that case 's' pads with. */
  method FieldLength(p: string, precision: Word, ghost width: Word, f: Flags) returns (l: nat)
    requires !f.precision ==> precision == 0
    ensures var body, gap := StringText(p, precision, 0, f), Repeat(' ', Gap(l, width));
            StringText(p, precision, width, f) == if f.left then body + gap else gap + body
  {
    hide StringText, Terminated;
    l := StrnlenS(p, if precision != 0 then precision else TWO32 - 1);
    if f.precision {
      l := if l < precision then l else precision;
    }
    StringFieldIs(p, precision, width, f, l);
  }

  /** Case 's' of _vsnprintf. */
  method PutStringField(sink: Sink, idx: nat, p: string, precision: Word, width: Word, f: Flags) returns (end: nat)
    requires !f.precision ==> precision == 0
    requires sink.Valid() && sink.Room(idx + |StringText(p, precision, width, f)|)
    modifies sink, sink.cells
    ensures sink.Valid()
    ensures var text := StringText(p, precision, width, f);
            end == idx + |text| && sink.log == old(sink.log) + Stamp(text, idx)
  {
    hide Stored, Shown, Stamp, StringText, Terminated, Repeat, Gap, Aligned;
    var l := FieldLength(p, precision, width, f);
    ghost var body := StringText(p, precision, 0, f);
    ghost var gap := Repeat(' ', Gap(l, width));
    StampMore(gap, body, idx);
    StampMore(body, gap, idx);
    end := idx;
    if !f.left {
      end := PutSpaces(sink, end, l, width);
    }
    end := PutString(sink, end, p, precision, f);
    if f.left {
      end := PutSpaces(sink, end, l, width);
    }
  }

  method PutOne(sink: Sink, c: char, idx: nat) returns (end: nat)
    requires sink.Valid() && sink.Room(idx + 1)
    modifies sink, sink.cells
    ensures sink.Valid() && end == idx + 1 && sink.log == old(sink.log) + Stamp([c], idx)
  {
    hide Stored, Shown, Stamp;
    StampNothing(idx);
    assert [] + [c] == [c];
    end := Put(sink, c, idx, [], idx, sink.log);
  }

  /** Case 'c' of _vsnprintf. */
  method PutCharField(sink: Sink, idx: nat, c: char, width: Word, f: Flags) returns (end: nat)
    requires sink.Valid() && sink.Room(idx + |Aligned([c], width, f.left)|)
    modifies sink, sink.cells
    ensures sink.Valid()
    ensures var text := Aligned([c], width, f.left);
            end == idx + |text| && sink.log == old(sink.log) + Stamp(text, idx)
  {
    hide Stored, Shown, Stamp, Repeat, Gap;
    ghost var gap := Repeat(' ', Gap(1, width));
    StampMore(gap, [c], idx);
    StampMore([c], gap, idx);
    end := idx;
    if !f.left {
      end := PutSpaces(sink, end, 1, width);
    }
    end := PutOne(sink, c, end);
    if f.left {
      end := PutSpaces(sink, end, 1, width);
    }
  }

  // ---- The format cursor ----

  /** The flags loop of _vsnprintf. */
  method ScanFlags(fmt: string, i0: nat) returns (f: Flags, i: nat)
    ensures (f, i) == ParseFlags(fmt, i0, NO_FLAGS)
  {
    f, i := NO_FLAGS, i0;
    var more := true;
    while more
      invariant ParseFlags(fmt, i, f) == ParseFlags(fmt, i0, NO_FLAGS)
      invariant !more ==> !IsFlag(At(fmt, i))
      decreases Gap(i, |fmt|), more
    {
      match At(fmt, i)
      case '0' => f := f.(zeropad := true); i := i + 1;
      case '-' => f := f.(left := true); i := i + 1;
      case '+' => f := f.(plus := true); i := i + 1;
      case ' ' => f := f.(space := true); i := i + 1;
      case '#' => f := f.(hash := true); i := i + 1;
      case _ => more := false;
    }
  }

  lemma DecimalMore(s: string, c: char)
    requires IsDigit(c) && forall d | d in s :: IsDigit(d)
    ensures forall d | d in s + [c] :: IsDigit(d)
    ensures Decimal(s + [c]) == 10 * Decimal(s) + (c - '0') as nat
  {
    assert (s + [c])[..|s|] == s;
  }

  lemma WrapsDecimal(x: nat, d: nat)
    ensures (x % TWO32 * 10 + d) % TWO32 == (10 * x + d) % TWO32
  {}

  /** _atoi: the accumulator wraps at 32 bits. */
  method ScanNumber(fmt: string, i0: nat) returns (n: Word, i: nat)
    ensures n == Atoi(fmt, i0) && i == i0 + |DigitRun(fmt, i0)|
  {
    n, i := 0, i0;
    ghost var run := DigitRun(fmt, i0);
    ghost var seen: string := [];
    while IsDigit(At(fmt, i))
      invariant i == i0 + |seen| && seen + DigitRun(fmt, i) == run
      invariant forall d | d in seen :: IsDigit(d)
      invariant n == Decimal(seen) % TWO32
      decreases Gap(i, |fmt|)
    {
      var c := At(fmt, i);
      DecimalMore(seen, c);
      WrapsDecimal(Decimal(seen), (c - '0') as nat);
      n := (n * 10 + (c - '0') as nat) % TWO32;
      seen := seen + [c];
      i := i + 1;
    }
    assert seen == run;
  }

  /** The width and precision fields of a conversion, read off the format and the arguments. */
  method ScanWidth(fmt: string, args: seq<Arg>, f0: Flags, i0: nat, k0: nat) returns (c: Cursor)
    ensures c == ParseWidth(fmt, args, f0, i0, k0)
  {
    hide Atoi, DigitRun;
    var f, width: Word, i, k := f0, 0, i0, k0;
    if IsDigit(At(fmt, i)) {
      width, i := ScanNumber(fmt, i);
    } else if At(fmt, i) == '*' {
      var w := Signed(WordArg(args, k));
      k := k + 1;
      if w < 0 {
        f := f.(left := true);
        width := -w;
      } else {
        width := w;
      }
      i := i + 1;
    }
    c := Cursor(f, width, i, k);
  }

  method ScanPrecision(fmt: string, args: seq<Arg>, f0: Flags, i0: nat, k0: nat) returns (c: Cursor)
    ensures c == ParsePrecision(fmt, args, f0, i0, k0)
  {
    hide Atoi, DigitRun;
    var f, precision: Word, i, k := f0, 0, i0, k0;
    if At(fmt, i) == '.' {
      f := f.(precision := true);
      i := i + 1;
      if IsDigit(At(fmt, i)) {
        precision, i := ScanNumber(fmt, i);
      } else if At(fmt, i) == '*' {
        var prec := Signed(WordArg(args, k));
        k := k + 1;
        precision := if prec > 0 then prec else 0;
        i := i + 1;
      }
    }
    c := Cursor(f, precision, i, k);
  }

  /** Base and flags of an integer conversion. */
  method AdjustFlags(c: char, flags: Flags) returns (base: nat, f: Flags)
    ensures base == BaseOf(c) && 2 <= base <= 16 && f == IntegerFlags(c, flags)
  {
    f := flags;
    if c == 'x' || c == 'X' {
      base := 16;
    } else if c == 'o' {
      base := 8;
    } else if c == 'b' {
      base := 2;
    } else {
      base := 10;
      f := f.(hash := false);
    }
    if c == 'X' {
      f := f.(uppercase := true);
    }
    if c != 'i' && c != 'd' {
      f := f.(plus := false, space := false);
    }
    if f.precision {
      f := f.(zeropad := false);
    }
  }

  /** Cases 'd' to 'b' of _vsnprintf. */
  method PutInteger(sink: Sink, idx: nat, c: char, w: Word, precision: Word, width: Word, flags: Flags)
    returns (end: nat)
    requires IsInteger(c)
    requires sink.Valid() && sink.Room(idx + |IntegerText(c, w, precision, width, flags)|)
    modifies sink, sink.cells
    ensures sink.Valid()
    ensures var text := IntegerText(c, w, precision, width, flags);
            end == idx + |text| && sink.log == old(sink.log) + Stamp(text, idx)
  {
    hide Stored, Shown, Stamp, NumberText, IntegerFlags, BaseOf, UnsignedValue;
    end := idx;
    var base, f := AdjustFlags(c, flags);
    if f.length == LongLong {
      StampNothing(idx);
    } else if c == 'i' || c == 'd' {
      var value := SignedValue(w, f.length);
      end := NtoaLong(sink, idx, Magnitude(value), value < 0, base, precision, width, f);
    } else {
      end := NtoaLong(sink, idx, UnsignedValue(w, f.length), false, base, precision, width, f);
    }
  }

  /** The specifier switch of _vsnprintf. */
  method PutConversion(sink: Sink, idx: nat, c: char, args: seq<Arg>, k: nat, precision: Word, width: Word, f: Flags)
    returns (end: nat, taken: nat)
    requires !f.precision ==> precision == 0
    requires sink.Valid() && sink.Room(idx + |ConversionText(c, args, k, precision, width, f).0|)
    modifies sink, sink.cells
    ensures sink.Valid()
    ensures var (text, n) := ConversionText(c, args, k, precision, width, f);
            end == idx + |text| && taken == n && sink.log == old(sink.log) + Stamp(text, idx)
  {
    hide Stored, Shown, Stamp, NumberText, IntegerText, StringText, Aligned, CharOf;
    taken := 1;
    if IsInteger(c) {
      end := PutInteger(sink, idx, c, WordArg(args, k), precision, width, f);
      if f.length == LongLong {
        taken := 0;
      }
    } else if c == 'c' {
      end := PutCharField(sink, idx, CharOf(WordArg(args, k)), width, f);
    } else if c == 's' {
      end := PutStringField(sink, idx, StringArg(args, k), precision, width, f);
    } else if c == 'p' {
      end := NtoaLong(sink, idx, WordArg(args, k), false, 16, precision, 8, f.(zeropad := true, uppercase := true));
    } else {
      StampNothing(idx);
      assert [] + [c] == [c];
      end := Put(sink, c, idx, [], idx, sink.log);
      taken := 0;
    }
  }

  /** A precision is 0 unless its flag is set. */
  lemma NoPrecision(fmt: string, args: seq<Arg>, f: Flags, i: nat, k: nat)
    ensures var p := ParsePrecision(fmt, args, f, i, k);
            !p.f.precision ==> p.n == 0
  {
    hide At, Atoi, DigitRun, Signed, WordArg;
  }

  /** One pass of the main loop of _vsnprintf. */
  method PutItem(sink: Sink, idx: nat, fmt: string, args: seq<Arg>, i0: nat, k0: nat) returns (end: nat, i: nat, k: nat)
    requires At(fmt, i0) != '\0'
    requires sink.Valid() && sink.Room(idx + |ItemAt(fmt, args, i0, k0).text|)
    modifies sink, sink.cells
    ensures sink.Valid()
    ensures var r := ItemAt(fmt, args, i0, k0);
            end == idx + |r.text| && i == r.i && k == r.k && sink.log == old(sink.log) + Stamp(r.text, idx)
  {
    hide Stored, Shown, Stamp, At, ConversionText, ParseFlags, ParseWidth, ParsePrecision, ParseLength;
    i, k := i0, k0;
    if At(fmt, i) != '%' {
      StampNothing(idx);
      assert [] + [At(fmt, i)] == [At(fmt, i)];
      end := Put(sink, At(fmt, i), idx, [], idx, sink.log);
      i := i + 1;
    } else {
      i := i + 1;
      var f: Flags;
      f, i := ScanFlags(fmt, i);
      var w := ScanWidth(fmt, args, f, i, k);
      var p := ScanPrecision(fmt, args, w.f, w.i, w.k);
      var pair := ParseLength(fmt, p.i);
      NoPrecision(fmt, args, w.f, w.i, w.k);
      var taken;
      end, taken := PutConversion(sink, idx, At(fmt, pair.1), args, p.k, p.n, w.n, p.f.(length := pair.0));
      i, k := pair.1 + 1, p.k + taken;
    }
  }

  lemma RenderStep(fmt: string, args: seq<Arg>, i: nat, k: nat)
    ensures At(fmt, i) == '\0' ==> Render(fmt, args, i, k) == []
    ensures At(fmt, i) != '\0' ==>
              var r := ItemAt(fmt, args, i, k);
              i < |fmt| && Render(fmt, args, i, k) == r.text + Render(fmt, args, r.i, r.k)
  {
    hide ItemAt;
  }

  /** Where the terminator goes; with maxlen 0 the index wraps and nothing is stored. */
  function TerminatorIndex(n: nat, maxlen: nat): nat { if n % TWO32 < maxlen then n % TWO32 else (maxlen - 1) % TWO32 }

  /** What holds whenever the main loop of _vsnprintf is at position i and argument k:
      the indices 0 to idx - 1 have been written, with the text up to here. */
  ghost predicate Progress(sink: Sink, fmt: string, args: seq<Arg>, idx: nat, i: nat, k: nat)
    reads sink, sink.cells
  {
    var text := Render(fmt, args, 0, 0);
    sink.Valid() && idx <= |text|
    && text == text[..idx] + Render(fmt, args, i, k)
    && sink.log == Stamp(text[..idx], 0)
  }

  method Pass(sink: Sink, idx: nat, fmt: string, args: seq<Arg>, i: nat, k: nat) returns (idx': nat, i': nat, k': nat)
    requires Progress(sink, fmt, args, idx, i, k) && At(fmt, i) != '\0'
    requires sink.Room(|Render(fmt, args, 0, 0)| + 1)
    modifies sink, sink.cells
    ensures Progress(sink, fmt, args, idx', i', k') && i < i' && i < |fmt|
  {
    hide Stored, Shown, Stamp, At, ItemAt, Render;
    RenderStep(fmt, args, i, k);
    ghost var r := ItemAt(fmt, args, i, k);
    ghost var rest := Render(fmt, args, r.i, r.k);
    ghost var text := Render(fmt, args, 0, 0);
    assert text == text[..idx] + r.text + rest;
    idx', i', k' := PutItem(sink, idx, fmt, args, i, k);
    StampMore(text[..idx], r.text, 0);
    assert text[..idx'] == text[..idx] + r.text;
  }

  /** _vsnprintf: the sink is called with indices 0, 1, 2, ... once each, for the characters of
      the rendered text, and then once for the terminator; the result counts the text as an int does. */
  method Vsnprintf(sink: Sink, fmt: string, args: seq<Arg>) returns (n: int)
    requires sink.Valid() && sink.log == []
    requires sink.Room(|Render(fmt, args, 0, 0)| + 1)
    modifies sink, sink.cells
    ensures sink.Valid()
    ensures var text := Render(fmt, args, 0, 0);
            n == AsInt(|text|) && sink.log == Stamp(text, 0) + [('\0', TerminatorIndex(|text|, sink.maxlen))]
  {
    var idx, i, k := 0, 0, 0;
    assert Progress(sink, fmt, args, 0, 0, 0) by {
      StampNothing(0);
      assert Render(fmt, args, 0, 0)[..0] == [];
    }
    hide *;
    while At(fmt, i) != '\0'
      invariant Progress(sink, fmt, args, idx, i, k)
      decreases Gap(i, |fmt|)
    {
      var i0 := i;
      idx, i, k := Pass(sink, idx, fmt, args, i, k);
      GapShrinks(i0, i, |fmt|);
    }
    AllWritten(sink, fmt, args, idx, i, k);
    TerminatorRoom(sink, idx);
    sink.Out('\0', TerminatorIndex(idx, sink.maxlen));
    n := AsInt(idx);
  }

  /** (int)idx: the count itself up to 2^31 - 1, and a different number from there on. */
  function AsInt(idx: nat): (n: int)
    ensures n == idx <==> idx < TWO31
  {
    Signed(idx % TWO32)
  }

  lemma GapShrinks(i: nat, i': nat, n: nat)
    requires i < i' && i < n
    ensures Gap(i', n) < Gap(i, n)
  {}

  lemma TerminatorRoom(sink: Sink, n: nat)
    requires sink.Room(n + 1)
    ensures sink.Room(TerminatorIndex(n, sink.maxlen) + 1)
  {}

  lemma AllWritten(sink: Sink, fmt: string, args: seq<Arg>, idx: nat, i: nat, k: nat)
    requires Progress(sink, fmt, args, idx, i, k) && At(fmt, i) == '\0'
    ensures var text := Render(fmt, args, 0, 0);
            idx == |text| && sink.Valid() && sink.log == Stamp(text, 0)
  {
    hide Stored, Shown, Stamp, At, ItemAt, Render;
    RenderStep(fmt, args, i, k);
    var text := Render(fmt, args, 0, 0);
    assert text[..idx] == text;
  }

  /** A buffer after a bounded print: the text cut to maxlen - 1 characters, a NUL, and
      nothing stored beyond it. */
  function Printed(text: string, maxlen: nat, blank: seq<char>): seq<char>
    requires maxlen > 0 && Min(|text|, maxlen - 1) < |blank|
  {
    var m := Min(|text|, maxlen - 1);
    text[..m] + ['\0'] + blank[m + 1..]
  }

  /** And for any length: what was stored last into each cell, and the NUL where the 32-bit count says. */
  function PrintedOver(text: string, maxlen: nat, blank: seq<char>): seq<char>
    requires 0 < maxlen <= TWO32 && Min(|text| + 1, maxlen) <= |blank|
  {
    TerminatorInRange(|text|, maxlen);
    Filled(text, |text|, maxlen, blank)[TerminatorIndex(|text|, maxlen) := '\0']
  }

  lemma PrintedShort(text: string, maxlen: nat, blank: seq<char>)
    requires 0 < maxlen <= TWO32 && Min(|text| + 1, maxlen) <= |blank| && |text| < TWO32
    ensures PrintedOver(text, maxlen, blank) == Printed(text, maxlen, blank)
  {
    FilledShort(text, |text|, maxlen, blank);
    TerminatorInRange(|text|, maxlen);
    hide Filled, TerminatorIndex;
  }

  /** The buffer a run of _vsnprintf leaves behind. */
  lemma StoredRun(text: string, maxlen: Word, blank: seq<char>)
    requires Min(|text| + 1, maxlen) <= |blank|
    ensures var log := Stamp(text, 0) + [('\0', TerminatorIndex(|text|, maxlen))];
            Stored(log, maxlen, blank) == if maxlen == 0 then blank else PrintedOver(text, maxlen, blank)
    ensures 0 < maxlen && |text| < TWO32 ==> PrintedOver(text, maxlen, blank) == Printed(text, maxlen, blank)
  {
    StoredText(text, |text|, maxlen, blank);
    assert Stamp(text, 0)[..|text|] == Stamp(text, 0);
    StoredLast(Stamp(text, 0), '\0', TerminatorIndex(|text|, maxlen), maxlen, blank);
    hide Stored, Stamp, TerminatorIndex, LastTurn, Printed;
    if maxlen > 0 {
      TerminatorInRange(|text|, maxlen);
      if |text| < TWO32 {
        PrintedShort(text, maxlen, blank);
      }
    }
  }

  lemma TerminatorInRange(n: nat, maxlen: nat)
    requires 0 < maxlen <= TWO32
    ensures TerminatorIndex(n, maxlen) == Min(n % TWO32, maxlen - 1)
    ensures TerminatorIndex(n, maxlen) < Min(n + 1, maxlen) && TerminatorIndex(n, maxlen) % TWO32 == TerminatorIndex(n, maxlen)
    ensures n < TWO32 ==> TerminatorIndex(n, maxlen) == Min(n, maxlen - 1)
  {}

  lemma StoredLast(log: seq<Call>, c: char, idx: nat, maxlen: nat, blank: seq<char>)
    ensures Stored(log + [(c, idx)], maxlen, blank)
         == var s := Stored(log, maxlen, blank); if idx % TWO32 < maxlen && idx % TWO32 < |s| then s[idx % TWO32 := c] else s
  {
    assert (log + [(c, idx)])[..|log|] == log;
  }

  lemma ShownRun(text: string, last: nat)
    ensures Shown(Stamp(text, 0) + [('\0', last)]) == Printable(text)
  {
    assert (Stamp(text, 0) + [('\0', last)])[..|text|] == Stamp(text, 0)[..|text|];
    assert text[..|text|] == text;
    ShownText(text, |text|);
  }

  /** snprintf_, and sprintf_ with the largest count: the count bounds what is stored and has
      no influence on the result. From 2^32 characters on the index wraps and the text overwrites itself. */
  method Snprintf(buffer: array<char>, count: Word, fmt: string, args: seq<Arg>) returns (n: int)
    requires Min(|Render(fmt, args, 0, 0)| + 1, count) <= buffer.Length
    modifies buffer
    ensures n == AsInt(|Render(fmt, args, 0, 0)|)
    ensures var text, blank := Render(fmt, args, 0, 0), old(buffer[..]);
            buffer[..] == if count == 0 then blank
                          else if |text| < TWO32 then Printed(text, count, blank)
                          else PrintedOver(text, count, blank)
  {
    hide Stored, Shown, Stamp, Render, Printed, PrintedOver, TerminatorIndex;
    var sink := new Sink(Buffer, buffer, count);
    StoredRun(Render(fmt, args, 0, 0), count, buffer[..]);
    n := Vsnprintf(sink, fmt, args);
  }

  /** printf_: the console shows the text. */
  method PrintfConsole(fmt: string, args: seq<Arg>) returns (console: string, n: int)
    ensures console == Printable(Render(fmt, args, 0, 0)) && n == AsInt(|Render(fmt, args, 0, 0)|)
  {
    hide Stored, Shown, Stamp, Render, Printable, TerminatorIndex;
    var buffer := new char[1];
    var sink := new Sink(Console, buffer, TWO32 - 1);
    n := Vsnprintf(sink, fmt, args);
    ShownRun(Render(fmt, args, 0, 0), TerminatorIndex(|Render(fmt, args, 0, 0)|, sink.maxlen));
    console := sink.console;
  }
}
