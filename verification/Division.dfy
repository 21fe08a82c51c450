/** The software divider of libc.c, on 32-bit words that wrap around. */
module Division {
  import opened DivMod
  import opened Words

  const TWO31 := 0x8000_0000

  datatype Result = Result(quo: Word, rem: Word)

  function Pow2(k: nat): (p: nat)
    ensures p >= 1
  {
    if k == 0 then 1 else 2 * Pow2(k - 1)
  }

  /** x << 1 drops the bit that leaves the word. */
  function Shl1(x: Word): Word { 2 * x % TWO32 }

  function Increment(x: Word): Word { (x + 1) % TWO32 }

  /** The quotient register after one more quotient bit `b` has been shifted in. */
  lemma QuotientRegister(q: nat, quo: Word)
    requires quo == 2 * q % TWO32
    ensures Shl1(quo) == 2 * (2 * q) % TWO32
    ensures Shl1(Increment(quo)) == 2 * (2 * q + 1) % TWO32
  {
    var a := 2 * q / TWO32;
    assert quo == 2 * (q - TWO31 * a);
    DoublingWraps(a, quo);
    DoublingWraps(a, quo + 1);
  }

  lemma DoublingWraps(a: nat, x: Word)
    ensures 2 * (TWO32 * a + x) % TWO32 == Shl1(x)
  {
    DivModUnique(2 * (TWO32 * a + x), TWO32, 2 * a + 2 * x / TWO32, 2 * x % TWO32);
  }

  /** The final correcting shift recovers all but the top bit of the quotient. */
  lemma QuotientRecovered(q: nat)
    ensures 2 * q % TWO32 / 2 == q % TWO31
  {}

  lemma AtLeast(d: nat, p: nat)
    requires p >= 1
    ensures d * p >= d
  {
    MulGap(d, p, p - 1);
  }

  lemma Doubled(d: nat, p: nat)
    ensures d * (2 * p) == 2 * (d * p)
  {}

  /** Before a pass of the second loop: `q` holds the quotient bits found so far, the divisor is
      still shifted up by k, and the rest of the numerator is below twice the shifted divisor. */
  ghost predicate Partial(num0: Word, dem: Word, num: Word, tmp: Word, quo: Word, q: nat, k: nat) {
    tmp == dem * Pow2(k) && num < 2 * tmp && num0 == num + 2 * q * tmp && quo == 2 * q % TWO32
  }

  /** With `rest` left after a pass that found the quotient bits `q'`, shifting back either
      leaves another pass to do or ends with the remainder. */
  lemma AfterPass(num0: Word, dem: Word, tmp: Word, k: nat, q': nat, rest: Word)
    requires dem > 0 && tmp == dem * Pow2(k) && rest < tmp && num0 == rest + q' * tmp
    ensures k > 0 ==> tmp / 2 >= dem && tmp / 2 == dem * Pow2(k - 1) && rest < 2 * (tmp / 2)
                      && num0 == rest + 2 * q' * (tmp / 2)
    ensures k == 0 ==> tmp / 2 < dem && num0 == dem * q' + rest && rest < dem
  {
    if k > 0 {
      Doubled(dem, Pow2(k - 1));
      AtLeast(dem, Pow2(k - 1));
      HalveDivisor(q', tmp, tmp / 2);
    }
  }

  lemma HalveDivisor(q: nat, tmp: nat, half: nat)
    requires tmp == 2 * half
    ensures q * tmp == 2 * q * half
  {}

  lemma OneMore(q: nat, tmp: nat)
    ensures (2 * q + 1) * tmp == 2 * q * tmp + tmp
  {}

  /** The first loop of uidiv. */
  method Align(num: Word, dem: Word) returns (tmp: Word, ghost k: nat)
    requires dem > 0
    ensures tmp == dem * Pow2(k) && num < 2 * tmp
  {
    tmp, k := dem, 0;
    while tmp <= num / 2
      invariant 0 < tmp == dem * Pow2(k)
      decreases TWO32 - tmp
    {
      Doubled(dem, Pow2(k));
      tmp := Shl1(tmp);
      k := k + 1;
    }
  }

  /** The body of the second loop of uidiv. */
  method Pass(ghost num0: Word, ghost dem: Word, num: Word, tmp: Word, quo: Word, ghost q: nat, ghost k: nat)
    returns (num': Word, tmp': Word, quo': Word, ghost q': nat)
    requires dem > 0 && Partial(num0, dem, num, tmp, quo, q, k)
    ensures k > 0 ==> tmp' >= dem && Partial(num0, dem, num', tmp', quo', q', k - 1)
    ensures k == 0 ==> tmp' < dem && num0 == dem * q' + num' && num' < dem && quo' == 2 * q' % TWO32
  {
    hide Shl1, Increment, Pow2;
    QuotientRegister(q, quo);
    num', quo', q' := num, quo, 2 * q;
    if num >= tmp {
      num' := num - tmp;
      quo' := Increment(quo);
      q' := 2 * q + 1;
      OneMore(q, tmp);
    }
    quo' := Shl1(quo');
    tmp' := tmp / 2;
    AfterPass(num0, dem, tmp, k, q', num');
  }

  /** uidiv: shift the divisor up under the numerator, then subtract and shift back down.
      The quotient is shifted once too often, so its bit 31 does not survive. */
  method Uidiv(num0: Word, dem: Word) returns (ans: Result)
    ensures dem == 0 ==> ans == Result(0, 0)
    ensures dem != 0 ==> ans.rem == num0 % dem && ans.quo == num0 / dem % TWO31
  {
    if dem == 0 {
      return Result(0, 0);
    }
    var num: Word, tmp: Word, quo: Word := num0, dem, 0;
    ghost var q: nat, k: nat := 0, 0;
    tmp, k := Align(num, dem);
    assert Partial(num0, dem, num, tmp, quo, q, k);
    hide Partial;
    while true
      invariant Partial(num0, dem, num, tmp, quo, q, k)
      decreases k
    {
      num, tmp, quo, q := Pass(num0, dem, num, tmp, quo, q, k);
      if tmp < dem {
        break;
      }
      k := k - 1;
    }
    DivModUnique(num0, dem, q, num);
    QuotientRecovered(q);
    ans := Result(quo / 2, num);
  }

  /** __aeabi_uidiv. It is exact unless the numerator is undivided and has bit 31 set. */
  method AeabiUidiv(num: Word, dem: Word) returns (r: Word)
    ensures dem != 0 ==> (r == num / dem <==> dem > 1 || num < TWO31)
    ensures dem == 0 ==> r == 0
  {
    var ans := Uidiv(num, dem);
    if dem > 0 {
      QuotientFits(num, dem);
    }
    r := ans.quo;
  }

  lemma QuotientFits(num: Word, dem: Word)
    requires dem > 0
    ensures num / dem % TWO31 == num / dem <==> dem > 1 || num < TWO31
  {
    QuotientBelow(num, dem, TWO31);
    if dem == 1 {
      assert num / 1 == num;
    }
  }

  /** __aeabi_uidivmod, whose C result is the remainder. */
  method AeabiUidivmod(num: Word, dem: Word) returns (r: Word)
    ensures dem != 0 ==> r == num % dem
    ensures dem == 0 ==> r == 0
  {
    var ans := Uidiv(num, dem);
    r := ans.rem;
  }

  lemma Pow2Of32()
    ensures Pow2(32) == TWO32
  {
    assert Pow2(8) == 256 && Pow2(16) == 65536 && Pow2(24) == 16777216;
  }

  lemma Halves(value: nat, base: nat)
    requires 2 <= base
    ensures 2 * (value / base) <= value
  {
    var q := value / base;
    assert base * q == 2 * q + (base - 2) * q;
  }
}
