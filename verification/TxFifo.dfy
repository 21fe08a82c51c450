/** The room check in the write loop of mt8113_emmc.c. The loop looks at the byte count of the
    transmit FIFO and pushes a word of four bytes if the count is below 128, until it has pushed 128
    words; in between the card takes bytes away. A schedule says how many bytes go before each look. */
module TxFifo {
  const CAPACITY := 128
  const BLOCK_WORDS := 128

  /** The bytes in the FIFO, and the words that have been pushed. */
  datatype Fifo = Fifo(level: nat, pushed: nat)

  function Drained(level: nat, d: nat): nat { if d <= level then level - d else 0 }

  /** The FIFO after the looks of a schedule. */
  ghost function After(drains: seq<nat>): Fifo {
    if drains == [] then Fifo(0, 0)
    else Look(After(drains[..|drains| - 1]), drains[|drains| - 1])
  }

  /** One look, unless all words have been pushed. */
  function Look(f: Fifo, d: nat): Fifo {
    var seen := Drained(f.level, d);
    if f.pushed >= BLOCK_WORDS then f
    else if seen < CAPACITY then Fifo(seen + 4, f.pushed + 1)
    else Fifo(seen, f.pushed)
  }

  /** The k-th look is made and sees room for part of a word only. */
  ghost predicate SeesHalfRoom(drains: seq<nat>, k: nat)
    requires k < |drains|
  {
    var f := After(drains[..k]);
    f.pushed < BLOCK_WORDS && 124 < Drained(f.level, drains[k]) < CAPACITY
  }

  lemma AfterNext(drains: seq<nat>, k: nat)
    requires k < |drains|
    ensures After(drains[..k + 1]) == Look(After(drains[..k]), drains[k])
  {
    assert drains[..k + 1][..k] == drains[..k];
  }

  lemma {:induction false} FitsSoFar(drains: seq<nat>, n: nat)
    requires n <= |drains| && forall k :: 0 <= k < n ==> !SeesHalfRoom(drains, k)
    ensures After(drains[..n]).level <= CAPACITY
  {
    if n > 0 {
      FitsSoFar(drains, n - 1);
      AfterNext(drains, n - 1);
      assert !SeesHalfRoom(drains, n - 1);
    }
  }

  /** The FIFO never holds more than its capacity exactly if no look ever sees it with room for part
      of a word only. */
  lemma NeverOverfull(drains: seq<nat>)
    ensures (forall n :: 0 <= n <= |drains| ==> After(drains[..n]).level <= CAPACITY)
            <==> (forall k :: 0 <= k < |drains| ==> !SeesHalfRoom(drains, k))
  {
    hide After;
    if forall k :: 0 <= k < |drains| ==> !SeesHalfRoom(drains, k) {
      forall n | 0 <= n <= |drains|
        ensures After(drains[..n]).level <= CAPACITY
      {
        FitsSoFar(drains, n);
      }
    } else {
      var k :| 0 <= k < |drains| && SeesHalfRoom(drains, k);
      AfterNext(drains, k);
      assert After(drains[..k + 1]).level > CAPACITY;
    }
  }

  /** A card that takes whole words keeps the count a multiple of four, and so within the capacity. */
  lemma {:induction false} WordDrainsFit(drains: seq<nat>)
    requires forall k :: 0 <= k < |drains| ==> drains[k] % 4 == 0
    ensures After(drains).level % 4 == 0 && After(drains).level <= CAPACITY
  {
    if drains != [] {
      WordDrainsFit(drains[..|drains| - 1]);
    }
  }

  /** A card that takes single bytes does not: 32 words fill the FIFO, one byte leaves, and the next
      look makes room for a 33rd. */
  lemma ByteDrainOverfills()
    ensures After(seq(32, _ => 0) + [1]) == Fifo(131, 33)
  {
    FirstPushes(32);
    assert (seq(32, _ => 0) + [1])[..32] == seq(32, _ => 0);
  }

  lemma {:induction false} FirstPushes(n: nat)
    requires n <= 32
    ensures After(seq(n, _ => 0)) == Fifo(4 * n, n)
  {
    if n > 0 {
      FirstPushes(n - 1);
      assert seq(n, _ => 0)[..n - 1] == seq(n - 1, _ => 0);
    }
  }
}
