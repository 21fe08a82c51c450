/** The bus clock divider of drivers/mmc.c: a ceiling division that must fit a 12-bit field. */
module Clock {
  import opened DivMod
  import opened Division
  import opened Registers
  import opened Words

  const MAX_SCLK := 200000000
  const MIN_SCLK := 260000

  /** MSDC_CFG_CKMOD_HS400 | MSDC_CFG_CKMOD | MSDC_CFG_CKDIV: bits 8 to 22. */
  const CLOCK_FIELD: bv32 := 0x7FFF00

  /** The source clocks of hclks_msdc50 and hclks_msdc30. */
  const SOURCES := {26000000, 400000000, 200000000, 156000000, 182000000, 100000000, 624000000, 312000000,
                    208000000, 178000000}

  /** The largest source clock for which no 32-bit step of the division overflows. */
  const MAX_SOURCE := TWO32 - 4 * MAX_SCLK

  /** Adding the divisor less one to the source clock stays below 2^32. */
  predicate RoundsUp(src: Word, hz: Word) { src + (4 * hz - 1) < TWO32 }

  /** For the clocks of the tables the rounding sum never wraps and the divider always fits 12 bits. */
  lemma SourcesInRange(src: Word, hz: Word)
    requires src in SOURCES && 260000 <= hz <= 200000000
    ensures 0 < src <= MAX_SOURCE && RoundsUp(src, hz) && src <= 4095 * (4 * hz)
  {}

  /** The nearest clock from 260 kHz to 200 MHz. */
  function Clamp(hz: Word): (c: Word)
    ensures 260000 <= c <= 200000000 && (260000 <= hz <= 200000000 ==> c == hz)
    ensures (hz < 260000 ==> c == 260000) && (hz > 200000000 ==> c == 200000000)
  {
    if hz >= 200000000 then 200000000 else if hz < 260000 then 260000 else hz
  }

  /** Ceiling division as the source writes it: rounding up by adding the divisor less one. */
  lemma CeilingDivision(x: nat, d: nat)
    requires d > 0 && x > 0
    ensures var q := (x + (d - 1)) / d; q > 0 && d * (q - 1) < x <= d * q
  {
    var q, r := (x + (d - 1)) / d, (x + (d - 1)) % d;
    assert x + (d - 1) == d * q + r;
    assert d * (q - 1) == d * q - d;
    QuotientBelow(x + (d - 1), d, 1);
  }

  /** `div` is the least divider that brings the source clock down to `hz`. */
  ghost predicate LeastDivider(src: nat, hz: nat, div: nat) {
    div > 0 && src <= 4 * div * hz && forall d: nat | 4 * d * hz >= src :: d >= div
  }

  lemma CeilingIsLeast(src: nat, hz: nat, div: nat)
    requires hz > 0 && div > 0 && 4 * hz * (div - 1) < src <= 4 * hz * div
    ensures LeastDivider(src, hz, div)
  {
    Regroup(hz, div);
    forall d: nat | 4 * d * hz >= src ensures d >= div {
      Regroup(hz, d);
      if d < div {
        MulGap(4 * hz, div, d);
      }
    }
  }

  lemma Regroup(hz: nat, d: nat)
    ensures 4 * d * hz == 4 * hz * d && 4 * hz * d == 4 * (hz * d) && hz * d == d * hz
    ensures d > 0 ==> 4 * hz * (d - 1) == 4 * hz * d - 4 * hz
  {}

  /** The least divider fits 12 bits exactly if 4095 is enough; 13 bits always are. */
  lemma DividerFits(src: Word, hz: Word, div: nat)
    requires hz >= MIN_SCLK && div > 0 && 4 * hz * (div - 1) < src <= 4 * hz * div
    ensures div < 4096 <==> src <= 4095 * (4 * hz)
    ensures div < 8192
  {
    if div >= 8192 {
      MulAtLeast(4 * MIN_SCLK, 4 * hz, div - 1);
    } else if div >= 4096 {
      MulMonotone(4 * hz, 4095, div - 1);
    } else {
      MulMonotone(4 * hz, div, 4095);
    }
  }

  lemma MulMonotone(a: nat, b: nat, c: nat)
    requires b <= c
    ensures a * b <= a * c
  {}

  lemma MulAtLeast(a: nat, b: nat, k: nat)
    requires a <= b
    ensures a * k <= b * k
  {}

  lemma DividedClock(src: nat, hz: nat, div: nat)
    requires div > 0 && src <= 4 * hz * div
    ensures src / 4 / div <= hz
  {
    Regroup(hz, div);
    QuotientBelow(src / 4, div, hz + 1);
    assert div * (hz + 1) == div * hz + div;
  }

  /** One more, and the rounding sum wraps to 0 at the largest clock: the divider would be 0. */
  lemma MaxSourceIsSharp()
    ensures (MAX_SOURCE + 1 + (4 * 200000000 - 1)) % TWO32 / (4 * 200000000) == 0
  {}

  // ---- The register field ----

  /** Mode and divider as msdc_config_clock or-s them together: side by side if the divider has 12 bits. */
  function FieldValue(mode: nat, div: nat): bv32
    requires mode < 4 && div < 8192
  {
    (mode as bv32 << 12) | div as bv32
  }

  lemma FieldValueFits(mode: nat, div: nat)
    requires mode < 4 && div < 8192
    ensures Fits(CLOCK_FIELD, FieldValue(mode, div), 8)
    ensures div < 4096 ==> FieldValue(mode, div) & 0xfff == div as bv32 && FieldValue(mode, div) >> 12 == mode as bv32
  {
    NarrowWords(mode, div);
    Packed(mode as bv32, div as bv32);
    hide Fits;
    PlacedFits(FieldValue(mode, div));
  }

  lemma NarrowWords(mode: nat, div: nat)
    requires mode < 4 && div < 8192
    ensures mode as bv32 < 4 && div as bv32 < 8192 && (div < 4096 ==> div as bv32 < 4096)
  {}

  lemma Packed(m: bv32, d: bv32)
    requires m < 4 && d < 8192
    ensures var v := (m << 12) | d; v < 0x8000 && (d < 4096 ==> v & 0xfff == d && v >> 12 == m)
  {}

  lemma PlacedFits(v: bv32)
    requires v < 0x8000
    ensures Fits(CLOCK_FIELD, v, 8)
  {
    hide Place, Fetch, Outside;
    Shifted(v);
  }

  lemma Shifted(v: bv32)
    requires v < 0x8000
    ensures Outside(Place(v, 8), CLOCK_FIELD) == 0
    ensures Fetch(Place(v, 8), 8) == v
  {}

  lemma ClockFieldStartsAt8(s: nat)
    requires LowestBit(CLOCK_FIELD, s)
    ensures s == 8
  {
    assert LowestBit(CLOCK_FIELD, 8);
    LowestBitUnique(CLOCK_FIELD, s, 8);
  }

  /** The closing sdr_set_field of msdc_config_clock: only bits 8 to 22 change, and they read
      back mode and divider. */
  method WriteClock(cfg: Register, mode: nat, div: nat)
    requires mode < 4 && div < 8192
    modifies cfg
    ensures Outside(cfg.value, CLOCK_FIELD) == Outside(old(cfg.value), CLOCK_FIELD)
    ensures Fetch(Inside(cfg.value, CLOCK_FIELD), 8) == FieldValue(mode, div)
  {
    assert CLOCK_FIELD != 0;
    hide *;
    FieldValueFits(mode, div);
    FittingValueSets(cfg.value, CLOCK_FIELD, FieldValue(mode, div), 8);
    ghost var before := cfg.value;
    ghost var s := cfg.SetField(CLOCK_FIELD, FieldValue(mode, div));
    ClockFieldStartsAt8(s);
    SetExactly(before, CLOCK_FIELD, FieldValue(mode, div), 8);
  }

  lemma SetExactly(tv: bv32, field: bv32, val: bv32, s: nat)
    requires s < 32 && SetsExactly(tv, field, val, s)
    ensures var w := FieldSet(tv, field, Place(val, s));
            Outside(w, field) == Outside(tv, field) && Fetch(Inside(w, field), s) == val
  {
    hide FieldSet, Place, Outside, Inside, Fetch;
  }

  class Host {
    var srcClk: Word
    var curBusClk: Word

    /** msdc_config_clock, with f_max and f_min as mmc_host_init sets them, for every source clock. If the
        rounding sum wraps, the divider and the clock become zero; a divider of more than 12 bits ends up
        in the mode bits. */
    method ConfigClock(cfg: Register, hz0: Word) returns (mode: nat, div: nat)
      modifies this`curBusClk, cfg
      ensures curBusClk <= Clamp(hz0)
      ensures Clamp(hz0) >= srcClk ==> mode == 1 && div == 0 && curBusClk == srcClk
      ensures srcClk / 2 <= Clamp(hz0) < srcClk ==> mode == 0 && div == 0 && curBusClk == srcClk / 2
      ensures Clamp(hz0) < srcClk / 2 ==>
                mode == 0
                && if RoundsUp(srcClk, Clamp(hz0))
                   then LeastDivider(srcClk, Clamp(hz0), div) && curBusClk == srcClk / 4 / div
                        && (div < 4096 <==> srcClk <= 4095 * (4 * Clamp(hz0)))
                   else div == 0 && curBusClk == 0
      ensures mode < 4 && div < 8192
      ensures Outside(cfg.value, CLOCK_FIELD) == Outside(old(cfg.value), CLOCK_FIELD)
      ensures Fetch(Inside(cfg.value, CLOCK_FIELD), 8) == FieldValue(mode, div)
    {
      hide LeastDivider, Outside, Inside, Fetch, FieldValue;
      var hz := hz0;
      if hz >= MAX_SCLK {
        hz := MAX_SCLK;
      } else if hz < MIN_SCLK {
        hz := MIN_SCLK;
      }
      var sclk: Word;
      if hz >= srcClk {
        mode, div, sclk := 1, 0, srcClk;
      } else {
        mode := 0;
        if hz >= srcClk / 2 {
          div, sclk := 0, srcClk / 2;
        } else {
          div, sclk := Divide(srcClk, hz);
        }
      }
      curBusClk := sclk;
      WriteClock(cfg, mode, div);
    }
  }

  lemma SumWraps(src: Word, hz: Word)
    requires MIN_SCLK <= hz <= MAX_SCLK
    ensures hz * 4 % TWO32 == 4 * hz > 0
    ensures var sum := (src + (4 * hz - 1)) % TWO32;
            if RoundsUp(src, hz) then sum == src + (4 * hz - 1) else sum < 4 * hz
  {}

  lemma NoneFit(x: nat, d: nat)
    requires x < d
    ensures x / d == 0
  {
    DivModUnique(x, d, 0, x);
  }

  /** The divider branch. */
  method Divide(src: Word, hz: Word) returns (div: nat, sclk: Word)
    requires 0 < src && MIN_SCLK <= hz <= MAX_SCLK
    ensures div < 8192 && sclk <= hz
    ensures if RoundsUp(src, hz)
            then LeastDivider(src, hz, div) && sclk == src / 4 / div && (div < 4096 <==> src <= 4095 * (4 * hz))
            else div == 0 && sclk == 0
  {
    hide LeastDivider;
    SumWraps(src, hz);
    var four: Word := hz * 4 % TWO32;
    var quotient := AeabiUidiv((src + (four - 1)) % TWO32, four);
    div := quotient;
    if RoundsUp(src, hz) {
      CeilingDivision(src, four);
      CeilingIsLeast(src, hz, div);
      DividerFits(src, hz, div);
      DividedClock(src, hz, div);
    } else {
      NoneFit((src + (four - 1)) % TWO32, four);
    }
    sclk := AeabiUidiv(src / 4, quotient);
  }
}
