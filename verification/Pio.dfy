/** Programmed I/O of drivers/sd.c: moving one 512-byte block through the controller's 128-byte
    FIFO, under any fill and drain schedule. */
module Pio {
  type Byte = bv8

  const FIFO_SZ := 128
  const FIFO_THD := 64

  const ETIMEDOUT := 110
  const EIO := 5

  /** The data bits of MSDC_INT. */
  datatype Ints = Ints(timeout: bool, crcError: bool, complete: bool)

  /** The receive side: bytes in the FIFO, bytes the card will still send, and for how many
      polls it may withhold them. A block that has run dry raises the data timeout. */
  class Receiver {
    var queued: seq<Byte>
    var coming: seq<Byte>
    var patience: nat

    /** The data bits that each look at MSDC_INT has shown. */
    ghost var looks: seq<Ints>

    /** There are no errors but for missing bytes. Only success depends on it. */
    const works: bool

    ghost predicate Valid()
      reads this
    {
      |queued| <= 128
    }

    /** All bytes not yet popped, in order. */
    ghost function Stream(): seq<Byte>
      reads this
    {
      queued + coming
    }

    /** msdc_rxfifocnt: any number of bytes may have arrived since the last look. */
    method Count() returns (n: nat)
      requires Valid()
      modifies this
      ensures Valid() && n == |queued| && Stream() == old(Stream())
      ensures patience < old(patience) || (patience == 0 && (coming == [] || n == 128))
      ensures looks == old(looks)
    {
      var room := 128 - |queued|;
      var k: nat := if |coming| < room then |coming| else room;
      if patience > 0 {
        var j :| 0 <= j <= k;
        k := j;
        patience := patience - 1;
      }
      queued, coming := queued + coming[..k], coming[k..];
      n := |queued|;
    }

    /** msdc_fifo_read32, as the four bytes it brings to memory. */
    method Read32() returns (w: seq<Byte>)
      requires Valid() && |queued| >= 4
      modifies this
      ensures Valid() && |w| == 4 && w + Stream() == old(Stream()) && |queued| == old(|queued|) - 4
      ensures patience == old(patience) && looks == old(looks)
    {
      w, queued := queued[..4], queued[4..];
    }

    /** msdc_fifo_read8. */
    method Read8() returns (b: Byte)
      requires Valid() && |queued| >= 1
      modifies this
      ensures Valid() && [b] + Stream() == old(Stream()) && |queued| == old(|queued|) - 1
      ensures patience == old(patience) && looks == old(looks)
    {
      b, queued := queued[0], queued[1..];
    }

    /** A read of MSDC_INT when `need` bytes of the block have not been popped yet. */
    method ReadInts(need: nat) returns (ints: Ints)
      modifies this`looks
      ensures looks == old(looks) + [ints]
      ensures patience == 0 && coming == [] && |queued| < need ==> ints.timeout
      ensures works && need <= |Stream()| ==> !ints.timeout && !ints.crcError
    {
      ints := *;
      if patience == 0 && coming == [] && |queued| < need {
        ints := ints.(timeout := true);
      } else if works {
        ints := ints.(timeout := false, crcError := false);
      }
      looks := looks + [ints];
    }
  }

  /** Storing what one FIFO access delivered. */
  method Store(buf: array<Byte>, at: nat, w: seq<Byte>)
    requires at + |w| <= buf.Length
    modifies buf
    ensures buf[..at + |w|] == old(buf[..at]) + w && buf[at + |w|..] == old(buf[at + |w|..])
  {
    var i := 0;
    while i < |w|
      invariant i <= |w|
      invariant forall k | 0 <= k < buf.Length :: buf[k] == if at <= k < at + i then w[k - at] else old(buf[k])
    {
      buf[at + i] := w[i];
      i := i + 1;
    }
  }

  /** Pops `n` words, which must all be queued. */
  method PopWords(rx: Receiver, buf: array<Byte>, at: nat, n: nat)
    requires rx.Valid() && |rx.queued| >= 4 * n && at + 4 * n <= buf.Length
    modifies rx, buf
    ensures rx.Valid() && |rx.queued| == old(|rx.queued|) - 4 * n && rx.patience == old(rx.patience) && rx.looks == old(rx.looks)
    ensures buf[..at + 4 * n] + rx.Stream() == old(buf[..at] + rx.Stream())
    ensures buf[at + 4 * n..] == old(buf[at + 4 * n..])
  {
    var i := 0;
    while i < n
      invariant i <= n && rx.Valid() && |rx.queued| == old(|rx.queued|) - 4 * i && rx.patience == old(rx.patience) && rx.looks == old(rx.looks)
      invariant buf[..at + 4 * i] + rx.Stream() == old(buf[..at] + rx.Stream())
      invariant buf[at + 4 * n..] == old(buf[at + 4 * n..])
    {
      ghost var done, left := buf[..at + 4 * i], rx.Stream();
      var w := rx.Read32();
      assert done + (w + rx.Stream()) == done + w + rx.Stream();
      ghost var tail := buf[at + 4 * i + 4..];
      Store(buf, at + 4 * i, w);
      assert buf[at + 4 * n..] == tail[4 * (n - i - 1)..];
      i := i + 1;
    }
  }

  /** Pops single bytes. */
  method PopBytes(rx: Receiver, buf: array<Byte>, at: nat, n: nat)
    requires rx.Valid() && |rx.queued| >= n && at + n <= buf.Length
    modifies rx, buf
    ensures rx.Valid() && rx.patience == old(rx.patience) && rx.looks == old(rx.looks)
    ensures buf[..at + n] + rx.Stream() == old(buf[..at] + rx.Stream())
    ensures buf[at + n..] == old(buf[at + n..])
  {
    var i := 0;
    while i < n
      invariant i <= n && rx.Valid() && |rx.queued| == old(|rx.queued|) - i && rx.patience == old(rx.patience) && rx.looks == old(rx.looks)
      invariant buf[..at + i] + rx.Stream() == old(buf[..at] + rx.Stream())
      invariant buf[at + n..] == old(buf[at + n..])
    {
      ghost var done := buf[..at + i];
      var b := rx.Read8();
      assert done + ([b] + rx.Stream()) == done + [b] + rx.Stream();
      buf[at + i] := b;
      assert buf[..at + i + 1] == done + [b];
      i := i + 1;
    }
  }

  /** One pass of the copying loop of msdc_pio_read, up to the look at the interrupts. */
  method ReadSome(rx: Receiver, buf: array<Byte>, size: nat, left0: nat) returns (left: nat)
    requires rx.Valid() && 0 < left0 <= size <= buf.Length
    modifies rx, buf
    ensures rx.Valid() && left <= left0
    ensures buf[..size - left] + rx.Stream() == old(buf[..size - left0] + rx.Stream())
    ensures buf[size..] == old(buf[size..])
    ensures left < left0 || rx.patience < old(rx.patience) || (rx.patience == 0 && rx.coming == [] && |rx.queued| < left)
    ensures rx.patience <= old(rx.patience) && rx.looks == old(rx.looks)
  {
    left := left0;
    var at := size - left;
    var n := rx.Count();
    assert buf[..at] + rx.Stream() == old(buf[..at] + rx.Stream());
    if n >= FIFO_THD && left >= FIFO_THD {
      ghost var tail := buf[at + FIFO_THD..];
      PopWords(rx, buf, at, FIFO_THD / 4);
      assert buf[size..] == tail[size - at - FIFO_THD..];
      left := left - FIFO_THD;
    } else if left < FIFO_THD {
      n := rx.Count();
      if n >= left {
        var words := left / 4;
        ghost var tail := buf[at + 4 * words..];
        PopWords(rx, buf, at, words);
        assert buf[size..] == tail[size - at - 4 * words..];
        PopBytes(rx, buf, at + 4 * words, left % 4);
        left := 0;
      }
    }
  }

  /** What the looks at the interrupts of one read amount to: a timeout or checksum error under its own name at
      the first, but both as a timeout later on. */
  ghost function ReadOutcome(looks: seq<Ints>): int
    requires looks != []
  {
    if looks[0].timeout then -110
    else if looks[0].crcError then -5
    else if exists k :: 1 <= k < |looks| && (looks[k].timeout || looks[k].crcError) then -110
    else 0
  }

  lemma OneMoreLook(looks: seq<Ints>, ints: Ints)
    requires looks != [] && ReadOutcome(looks) == 0
    ensures ReadOutcome(looks + [ints]) == if ints.timeout || ints.crcError then -110 else 0
  {
    var more := looks + [ints];
    assert more[|looks|] == ints;
    assert forall k :: 0 <= k < |looks| ==> more[k] == looks[k];
  }

  /** msdc_pio_read for a block of any size. On success exactly the next `size` bytes have been
      copied in order; otherwise the bytes copied so far are the next ones all the same. */
  method PioRead(rx: Receiver, buf: array<Byte>, size: nat) returns (error: int, ghost left: nat)
    requires rx.Valid() && size <= buf.Length
    modifies rx, buf
    ensures |rx.looks| > |old(rx.looks)| && old(rx.looks) <= rx.looks
    ensures error == ReadOutcome(rx.looks[|old(rx.looks)|..])
    ensures left <= size && (error == 0 ==> left == 0) && (error != 0 && size > 0 ==> left > 0)
    ensures buf[..size - left] + rx.Stream() == old(rx.Stream())
    ensures buf[size..] == old(buf[size..])
    ensures rx.works && size <= |old(rx.Stream())| ==> error == 0
  {
    error := 0;
    left := size;
    var ints := rx.ReadInts(size);
    if ints.timeout {
      return -ETIMEDOUT, left;
    }
    if ints.crcError {
      return -EIO, left;
    }
    var todo: nat := size;
    assert buf[..0] + rx.Stream() == rx.Stream();
    while todo > 0
      invariant todo <= size && rx.Valid() && error == 0
      invariant buf[..size - todo] + rx.Stream() == old(rx.Stream())
      invariant buf[size..] == old(buf[size..])
      invariant |rx.looks| > |old(rx.looks)| && old(rx.looks) <= rx.looks
      invariant ReadOutcome(rx.looks[|old(rx.looks)|..]) == 0
      decreases todo, rx.patience
    {
      todo := ReadSome(rx, buf, size, todo);
      if todo > 0 {
        assert |buf[..size - todo] + rx.Stream()| == size - todo + |rx.Stream()|;
        ghost var before := rx.looks[|old(rx.looks)|..];
        ints := rx.ReadInts(todo);
        assert rx.looks[|old(rx.looks)|..] == before + [ints];
        OneMoreLook(before, ints);
        if ints.timeout || ints.crcError {
          error := -ETIMEDOUT;
          break;
        }
      }
    }
    left := todo;
  }

  /** The transmit side: bytes in the FIFO, bytes the card has taken, and for how many polls the
      card may refuse to take more. */
  class Transmitter {
    var queued: seq<Byte>
    ghost var taken: seq<Byte>
    var patience: nat

    /** The data bits that each look at MSDC_INT has shown. */
    ghost var looks: seq<Ints>

    /** There are no errors. Only success depends on it. */
    const works: bool

    ghost predicate Valid()
      reads this
    {
      |queued| <= 128
    }

    /** All bytes pushed, in order. */
    ghost function Stream(): seq<Byte>
      reads this
    {
      taken + queued
    }

    /** msdc_txfifocnt: the card may have taken any number of bytes since the last look. */
    method Count() returns (n: nat)
      requires Valid()
      modifies this
      ensures Valid() && n == |queued| && Stream() == old(Stream()) && looks == old(looks)
      ensures patience < old(patience) || (patience == 0 && n == 0)
    {
      var k: nat := |queued|;
      if patience > 0 {
        var j :| 0 <= j <= k;
        k := j;
        patience := patience - 1;
      }
      taken, queued := taken + queued[..k], queued[k..];
      n := |queued|;
    }

    /** msdc_fifo_write32 and msdc_fifo_write8: what is pushed must fit. */
    method Push(w: seq<Byte>)
      requires Valid() && |queued| + |w| <= 128
      modifies this
      ensures Valid() && Stream() == old(Stream()) + w && |queued| == old(|queued|) + |w|
      ensures patience == old(patience) && looks == old(looks)
    {
      queued := queued + w;
    }

    method ReadInts() returns (ints: Ints)
      modifies this`looks
      ensures looks == old(looks) + [ints]
      ensures works ==> !ints.timeout && !ints.crcError
    {
      ints := *;
      if works {
        ints := ints.(timeout := false, crcError := false);
      }
      looks := looks + [ints];
    }
  }

  /** Pushes `n` words, which must fit. */
  method PushWords(tx: Transmitter, buf: array<Byte>, at: nat, n: nat)
    requires tx.Valid() && |tx.queued| + 4 * n <= 128 && at + 4 * n <= buf.Length
    modifies tx
    ensures tx.Valid() && |tx.queued| == old(|tx.queued|) + 4 * n && tx.patience == old(tx.patience) && tx.looks == old(tx.looks)
    ensures tx.Stream() == old(tx.Stream()) + buf[at..at + 4 * n]
  {
    var i := 0;
    while i < n
      invariant i <= n && tx.Valid() && |tx.queued| == old(|tx.queued|) + 4 * i && tx.patience == old(tx.patience) && tx.looks == old(tx.looks)
      invariant tx.Stream() == old(tx.Stream()) + buf[at..at + 4 * i]
    {
      ghost var pushed := buf[at..at + 4 * i];
      tx.Push(buf[at + 4 * i..at + 4 * i + 4]);
      assert buf[at..at + 4 * (i + 1)] == pushed + buf[at + 4 * i..at + 4 * i + 4];
      i := i + 1;
    }
  }

  method PushBytes(tx: Transmitter, buf: array<Byte>, at: nat, n: nat)
    requires tx.Valid() && |tx.queued| + n <= 128 && at + n <= buf.Length
    modifies tx
    ensures tx.Valid() && tx.patience == old(tx.patience) && tx.looks == old(tx.looks)
    ensures tx.Stream() == old(tx.Stream()) + buf[at..at + n]
  {
    var i := 0;
    while i < n
      invariant i <= n && tx.Valid() && |tx.queued| == old(|tx.queued|) + i && tx.patience == old(tx.patience) && tx.looks == old(tx.looks)
      invariant tx.Stream() == old(tx.Stream()) + buf[at..at + i]
    {
      ghost var pushed := buf[at..at + i];
      tx.Push([buf[at + i]]);
      assert buf[at..at + i + 1] == pushed + [buf[at + i]];
      i := i + 1;
    }
  }

  /** The last load: whole words, then single bytes. */
  method PushRest(tx: Transmitter, buf: array<Byte>, at: nat, left: nat)
    requires tx.Valid() && tx.queued == [] && left <= 128 && at + left <= buf.Length
    modifies tx
    ensures tx.Valid() && tx.patience == old(tx.patience) && tx.looks == old(tx.looks)
    ensures tx.Stream() == old(tx.Stream()) + buf[at..at + left]
  {
    var words := left / 4;
    PushWords(tx, buf, at, words);
    PushBytes(tx, buf, at + 4 * words, left % 4);
    Joined(buf[..], at, at + 4 * words, at + left);
  }

  lemma Joined(s: seq<Byte>, i: nat, j: nat, k: nat)
    requires i <= j <= k <= |s|
    ensures s[i..j] + s[j..k] == s[i..k]
  {}

  /** One pass of the copying loop of msdc_pio_write. */
  method WriteSome(tx: Transmitter, buf: array<Byte>, size: nat, left0: nat) returns (left: nat)
    requires tx.Valid() && 0 < left0 <= size <= buf.Length
    modifies tx
    ensures tx.Valid() && left <= left0 && tx.looks == old(tx.looks)
    ensures tx.Stream() == old(tx.Stream()) + buf[size - left0..size - left]
    ensures left < left0 || tx.patience < old(tx.patience)
  {
    left := left0;
    var at := size - left;
    if left >= FIFO_SZ {
      var n := tx.Count();
      if n == 0 {
        PushWords(tx, buf, at, FIFO_SZ / 4);
        left := left - FIFO_SZ;
      }
    } else {
      var n := tx.Count();
      if n == 0 {
        PushRest(tx, buf, at, left);
        left := 0;
      }
    }
    assert tx.Stream() == old(tx.Stream()) + buf[at..size - left];
  }

  /** msdc_pio_write for a block of any size: on success exactly the block has been pushed, in
      order; on an error nothing has. The FIFO never holds more than its 128 bytes, however
      the card drains it, because a new load starts only on an empty FIFO. */
  method PioWrite(tx: Transmitter, buf: array<Byte>, size: nat) returns (error: int)
    requires tx.Valid() && 0 < size <= buf.Length
    modifies tx
    ensures tx.Valid() && |tx.looks| == |old(tx.looks)| + 1 && old(tx.looks) <= tx.looks
    ensures var seen := tx.looks[|old(tx.looks)|]; error == if seen.timeout || seen.crcError then -5 else 0
    ensures tx.Stream() == if error == 0 then old(tx.Stream()) + buf[..size] else old(tx.Stream())
    ensures tx.works ==> error == 0
  {
    error := 0;
    var pushed := 0;
    var ints := tx.ReadInts();
    if ints.timeout {
      error := -ETIMEDOUT;
    } else if ints.crcError {
      error := -EIO;
    } else {
      var left: nat := size;
      while left > 0
        invariant left <= size && tx.Valid() && tx.looks == old(tx.looks) + [ints]
        invariant tx.Stream() == old(tx.Stream()) + buf[..size - left]
        decreases left, tx.patience
      {
        ghost var done := buf[..size - left];
        ghost var left0: nat := left;
        left := WriteSome(tx, buf, size, left);
        assert buf[..size - left] == done + buf[size - left0..size - left];
      }
      pushed := pushed + size - left;
    }
    if pushed != size {
      error := -EIO;
    }
  }
}
