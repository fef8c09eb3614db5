/**
 * The tick numbering of `EggTimer` in MainActivity.kt: `repeat(numTicks + 1)`
 * emits one row per index, row `index` standing for tick number
 * `index + floor(firstTick)`. Tick numbers divisible by 5 are big ticks,
 * labelled with their number; all others are small, unlabelled ticks.
 */
module Ruler {
  import opened Decimal

  datatype Tick = Big(name: string) | Small

  /** The row drawn for tick number `tick`: `BigTick(name = tick.toString())` or `SmallTick`. */
  function TickAt(tick: nat): Tick
  {
    if tick % 5 == 0 then Big(FromNat(tick)) else Small
  }

  /** `count` consecutive rows, the first for tick number `tick`. */
  function Rows(count: nat, tick: nat): (rows: seq<Tick>)
    ensures |rows| == count
    ensures forall i :: 0 <= i < count ==> rows[i] == TickAt(tick + i)
  {
    if count == 0 then [] else [TickAt(tick)] + Rows(count - 1, tick + 1)
  }

  /**
   * The ruler's rows for `numTicks` (the rounded `ceil(maxHeight / tickSpacing)`)
   * and `firstTick`, the integer `floor(firstTick)`; `repeat` runs no row when
   * its count is not positive.
   */
  function Ticks(numTicks: int, firstTick: nat): seq<Tick>
  {
    Rows(if numTicks + 1 > 0 then numTicks + 1 else 0, firstTick)
  }

  function BigCount(rows: seq<Tick>): nat
  {
    if rows == [] then 0 else (if rows[0].Big? then 1 else 0) + BigCount(rows[1..])
  }

  /**
   * The ruler has numTicks + 1 rows (none for a negative count); row `index` is
   * big iff `index + firstTick` is divisible by 5, and then its label reads back
   * as that tick number.
   */
  lemma TicksShape(numTicks: int, firstTick: nat, index: nat)
    ensures numTicks >= 0 ==> |Ticks(numTicks, firstTick)| == numTicks + 1
    ensures numTicks < 0 ==> Ticks(numTicks, firstTick) == []
    ensures index < |Ticks(numTicks, firstTick)| ==>
      (Ticks(numTicks, firstTick)[index].Big? <==> (index + firstTick) % 5 == 0)
    ensures index < |Ticks(numTicks, firstTick)| && Ticks(numTicks, firstTick)[index].Big? ==>
      IsCanonical(Ticks(numTicks, firstTick)[index].name) &&
      Value(Ticks(numTicks, firstTick)[index].name) == index + firstTick
  {
    if index < |Ticks(numTicks, firstTick)| && (index + firstTick) % 5 == 0 {
      ValueOfFromNat(index + firstTick);
    }
  }

  /** A ruler centred at or below the top (firstTick 0) starts with the big tick "0". */
  lemma CenteredRulerStartsAtZero(numTicks: int)
    requires numTicks >= 0
    ensures Ticks(numTicks, 0)[0] == Big("0")
  {
  }

  lemma BigCountOfFive(w: seq<Tick>)
    requires |w| == 5
    ensures BigCount(w) == (if w[0].Big? then 1 else 0) + (if w[1].Big? then 1 else 0) +
      (if w[2].Big? then 1 else 0) + (if w[3].Big? then 1 else 0) + (if w[4].Big? then 1 else 0)
  {
    var w1, w2, w3, w4 := w[1..], w[2..], w[3..], w[4..];
    assert w1[1..] == w2 && w2[1..] == w3 && w3[1..] == w4 && w4[1..] == [];
    assert BigCount(w4) == (if w[4].Big? then 1 else 0);
    assert BigCount(w3) == (if w[3].Big? then 1 else 0) + BigCount(w4);
    assert BigCount(w2) == (if w[2].Big? then 1 else 0) + BigCount(w3);
    assert BigCount(w1) == (if w[1].Big? then 1 else 0) + BigCount(w2);
  }

  /** Among five consecutive tick numbers exactly one is divisible by 5. */
  lemma OneMultipleOfFive(n: nat)
    ensures (if n % 5 == 0 then 1 else 0) + (if (n + 1) % 5 == 0 then 1 else 0) +
      (if (n + 2) % 5 == 0 then 1 else 0) + (if (n + 3) % 5 == 0 then 1 else 0) +
      (if (n + 4) % 5 == 0 then 1 else 0) == 1
  {
  }

  /** Any five consecutive rows hold exactly one big tick. */
  lemma OneBigInFive(numTicks: int, firstTick: nat, j: nat)
    requires j + 5 <= |Ticks(numTicks, firstTick)|
    ensures BigCount(Ticks(numTicks, firstTick)[j..j + 5]) == 1
  {
    var w := Ticks(numTicks, firstTick)[j..j + 5];
    var n := j + firstTick;
    assert forall i :: 0 <= i < 5 ==> w[i] == TickAt(n + i);
    BigCountOfFive(w);
    OneMultipleOfFive(n);
  }
}
