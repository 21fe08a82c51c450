/** Find-first-set and the register-field macros of drivers/mt_sd.h. */
module Registers {

  /** `s` is the position of the lowest set bit of x. */
  ghost predicate LowestBit(x: bv32, s: nat) {
    s < 32 && (x >> s) & 1 == 1 && x & ((1 << s) - 1) == 0
  }

  // One lemma per stage of uffs: the lowest bit of what is left, moved up by what was shifted
  // out, is the lowest bit of what the stage started from.

  lemma Stage16(x: bv32, s: nat)
    requires x & 0xffff == 0 && s < 16 && LowestBit(x >> 16, s)
    ensures LowestBit(x, s + 16)
  {
    if s < 4 {} else if s < 8 {} else if s < 12 {} else {}
  }

  lemma Stage8(x: bv32, s: nat)
    requires x & 0xff == 0 && s < 8 && LowestBit(x >> 8, s)
    ensures LowestBit(x, s + 8)
  {}

  lemma Stage4(x: bv32, s: nat)
    requires x & 0xf == 0 && s < 4 && LowestBit(x >> 4, s)
    ensures LowestBit(x, s + 4)
  {}

  lemma Stage2(x: bv32, s: nat)
    requires x & 3 == 0 && s < 2 && LowestBit(x >> 2, s)
    ensures LowestBit(x, s + 2)
  {}

  lemma Stage1(x: bv32)
    requires x & 3 != 0
    ensures LowestBit(x, if x & 1 == 0 then 1 else 0)
  {}

  // The position by the stages of uffs, from the last to the first.

  function Low2(x: bv32): nat { if x & 1 == 0 then 1 else 0 }
  function Low4(x: bv32): nat { if x & 3 == 0 then 2 + Low2(x >> 2) else Low2(x) }
  function Low8(x: bv32): nat { if x & 0xf == 0 then 4 + Low4(x >> 4) else Low4(x) }
  function Low16(x: bv32): nat { if x & 0xff == 0 then 8 + Low8(x >> 8) else Low8(x) }
  function Low32(x: bv32): nat { if x & 0xffff == 0 then 16 + Low16(x >> 16) else Low16(x) }

  lemma Low2Lowest(x: bv32)
    requires x & 3 != 0
    ensures Low2(x) < 2 && LowestBit(x, Low2(x))
  {
    Stage1(x);
    hide LowestBit;
  }

  lemma Low4Lowest(x: bv32)
    requires x & 0xf != 0
    ensures Low4(x) < 4 && LowestBit(x, Low4(x))
  {
    hide LowestBit, Low2;
    var y := if x & 3 == 0 then x >> 2 else x;
    Low2Lowest(y);
    if x & 3 == 0 { Stage2(x, Low2(y)); }
  }

  lemma Low8Lowest(x: bv32)
    requires x & 0xff != 0
    ensures Low8(x) < 8 && LowestBit(x, Low8(x))
  {
    hide LowestBit, Low4;
    var y := if x & 0xf == 0 then x >> 4 else x;
    Low4Lowest(y);
    if x & 0xf == 0 { Stage4(x, Low4(y)); }
  }

  lemma Low16Lowest(x: bv32)
    requires x & 0xffff != 0
    ensures Low16(x) < 16 && LowestBit(x, Low16(x))
  {
    hide LowestBit, Low8;
    var y := if x & 0xff == 0 then x >> 8 else x;
    Low8Lowest(y);
    if x & 0xff == 0 { Stage8(x, Low8(y)); }
  }

  lemma Low32Lowest(x: bv32)
    requires x != 0
    ensures Low32(x) < 32 && LowestBit(x, Low32(x))
  {
    hide LowestBit, Low16;
    var y := if x & 0xffff == 0 then x >> 16 else x;
    Low16Lowest(y);
    if x & 0xffff == 0 { Stage16(x, Low16(y)); }
  }

  /** uffs: one plus the position of the lowest set bit, found by halving, and 0 for 0. */
  method Uffs(x0: bv32) returns (r: nat)
    ensures x0 == 0 ==> r == 0
    ensures x0 != 0 ==> 1 <= r <= 32 && LowestBit(x0, r - 1)
  {
    var x := x0;
    r := 1;
    if x == 0 {
      return 0;
    }
    hide LowestBit;
    Low32Lowest(x0);
    if x & 0xffff == 0 {
      x := x >> 16;
      r := r + 16;
    }
    assert Low32(x0) == r - 1 + Low16(x);
    if x & 0xff == 0 {
      x := x >> 8;
      r := r + 8;
    }
    assert Low32(x0) == r - 1 + Low8(x);
    if x & 0xf == 0 {
      x := x >> 4;
      r := r + 4;
    }
    assert Low32(x0) == r - 1 + Low4(x);
    if x & 3 == 0 {
      x := x >> 2;
      r := r + 2;
    }
    assert Low32(x0) == r - 1 + Low2(x);
    if x & 1 == 0 {
      x := x >> 1;
      r := r + 1;
    }
  }

  // The shifts of a field value to and from the field's place.

  function Place(val: bv32, s: nat): bv32
    requires s < 32
  {
    val << s
  }

  function Fetch(bits: bv32, s: nat): bv32
    requires s < 32
  {
    bits >> s
  }

  function Inside(tv: bv32, field: bv32): bv32 { tv & field }

  function Outside(tv: bv32, field: bv32): bv32 { tv & !field }

  function FieldSet(tv: bv32, field: bv32, placed: bv32): bv32 { Outside(tv, field) | placed }

  lemma SamePosition(x: bv32, a: bv32, b: bv32)
    requires a < 32 && (x >> a) & 1 == 1 && x & ((1 << a) - 1) == 0
    requires b < 32 && (x >> b) & 1 == 1 && x & ((1 << b) - 1) == 0
    ensures a == b
  {}

  lemma AsShift(x: bv32, s: nat) returns (a: bv32)
    requires s < 32
    ensures a < 32 && a as nat == s && x >> s == x >> a && (1 as bv32) << s == (1 as bv32) << a
  {
    a := s as bv32;
  }

  /** The lowest set bit has one position, so the setter and the getter of a field agree on it. */
  lemma LowestBitUnique(x: bv32, s: nat, t: nat)
    requires LowestBit(x, s) && LowestBit(x, t)
    ensures s == t
  {
    var a := AsShift(x, s);
    var b := AsShift(x, t);
    SamePosition(x, a, b);
  }

  /** A hardware register. */
  class Register {
    var value: bv32

    /** sdr_set_field. */
    method SetField(field: bv32, val: bv32) returns (ghost s: nat)
      requires field != 0
      modifies this
      ensures LowestBit(field, s) && value == FieldSet(old(value), field, Place(val, s))
    {
      hide LowestBit, Place;
      var tv := value;
      var r := Uffs(field);
      s := r - 1;
      value := FieldSet(tv, field, Place(val, r - 1));
    }

    /** sdr_get_field. */
    method GetField(field: bv32) returns (val: bv32)
      requires field != 0
      ensures forall s: nat :: s < 32 && LowestBit(field, s) ==> val == Fetch(Inside(value, field), s)
    {
      hide LowestBit, Fetch;
      var tv := value;
      var r := Uffs(field);
      val := Fetch(Inside(tv, field), r - 1);
      forall s: nat | s < 32 && LowestBit(field, s)
        ensures s == r - 1
      {
        LowestBitUnique(field, s, r - 1);
      }
    }
  }

  /** The value fits the field: shifted to its place it touches no other bit and loses none. */
  predicate Fits(field: bv32, val: bv32, s: nat)
    requires s < 32
  {
    Outside(Place(val, s), field) == 0 && Fetch(Place(val, s), s) == val
  }

  /** Setting a field keeps all bits outside it and reads back the value. */
  ghost predicate SetsExactly(tv: bv32, field: bv32, val: bv32, s: nat)
    requires s < 32
  {
    var w := FieldSet(tv, field, Place(val, s));
    Outside(w, field) == Outside(tv, field) && Fetch(Inside(w, field), s) == val
  }

  lemma Overlap(tv: bv32, field: bv32, p: bv32)
    ensures Outside(p, field) == 0 ==>
              Inside(FieldSet(tv, field, p), field) == p && Outside(FieldSet(tv, field, p), field) == Outside(tv, field)
    ensures Outside(FieldSet(0, field, p), field) == Outside(p, field) && Outside(0, field) == 0
  {}

  lemma FittingValueSets(tv: bv32, field: bv32, val: bv32, s: nat)
    requires s < 32 && Fits(field, val, s)
    ensures SetsExactly(tv, field, val, s)
  {
    hide FieldSet, Place, Fetch, Inside, Outside;
    Overlap(tv, field, Place(val, s));
  }

  lemma UnfitValueShows(field: bv32, val: bv32, s: nat)
    requires s < 32 && !Fits(field, val, s)
    ensures !SetsExactly(0, field, val, s)
  {
    hide FieldSet, Place, Fetch, Inside, Outside;
    Overlap(0, field, Place(val, s));
  }

  /** The field macros work for every register content exactly when the value fits. */
  lemma SetsExactlyIffFits(field: bv32, val: bv32, s: nat)
    requires s < 32
    ensures (forall tv :: SetsExactly(tv, field, val, s)) <==> Fits(field, val, s)
  {
    hide SetsExactly, Fits;
    if Fits(field, val, s) {
      forall tv ensures SetsExactly(tv, field, val, s) {
        FittingValueSets(tv, field, val, s);
      }
    } else {
      UnfitValueShows(field, val, s);
    }
  }
}
