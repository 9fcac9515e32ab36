/**
 * The player health bar of the heads-up display (`draw_player_health`):
 * which colour the bar is drawn in and how long its filled part is.
 */
module Hud {

  datatype Colour = Green | Yellow | Red

  /** What the bar shows: its colour and the width of the filled rectangle. */
  datatype Bar = Bar(colour: Colour, fill: real)

  const BarLength: real := 100.0

  /** Red < Yellow < Green: the order in which the colours signal more health. */
  function Rank(c: Colour): nat {
    match c
    case Red => 0
    case Yellow => 1
    case Green => 2
  }

  /** The bar for a health fraction `pct`; a negative fraction shows as empty. */
  function HealthBar(pct: real): (b: Bar)
    ensures b.colour == Green <==> pct > 0.6
    ensures b.colour == Yellow <==> 0.4 < pct <= 0.6
    ensures b.colour == Red <==> pct <= 0.4
    ensures 0.0 <= b.fill
    ensures pct <= 0.0 ==> b.fill == 0.0
    ensures 0.0 <= pct ==> b.fill == pct * BarLength
    ensures pct <= 1.0 ==> b.fill <= BarLength
  {
    var p := if pct < 0.0 then 0.0 else pct;
    var col := if p > 0.6 then Green else if p > 0.4 then Yellow else Red;
    Bar(col, p * BarLength)
  }

  /** More health never shows a shorter bar or a more alarming colour. */
  lemma HealthBarMonotone(p: real, q: real)
    requires p <= q
    ensures HealthBar(p).fill <= HealthBar(q).fill
    ensures Rank(HealthBar(p).colour) <= Rank(HealthBar(q).colour)
  {
  }

  /**
   * The bar drawn each frame for `health / maxHealth` (true division), stated
   * in integer terms: green above 60% of the maximum, yellow above 40%, red
   * otherwise, and a dead player (health 0 or less) gets an empty bar.
   */
  lemma PlayerHealthBar(health: int, maxHealth: int)
    requires maxHealth > 0
    ensures var b := HealthBar(health as real / maxHealth as real);
      && (b.colour == Green <==> 10 * health > 6 * maxHealth)
      && (b.colour == Yellow <==> 4 * maxHealth < 10 * health <= 6 * maxHealth)
      && (b.colour == Red <==> 10 * health <= 4 * maxHealth)
      && (health <= 0 ==> b.fill == 0.0)
      && (0 <= health ==> b.fill * maxHealth as real == BarLength * health as real)
  {
    FractionAbove(health, maxHealth, 6);
    FractionAbove(health, maxHealth, 4);
    FractionAbove(health, maxHealth, 0);
    var m, h := maxHealth as real, health as real;
    assert h / m * m == h;
  }

  /** `health / maxHealth > tenths / 10`, stated without division. */
  lemma FractionAbove(health: int, maxHealth: int, tenths: int)
    requires maxHealth > 0
    ensures health as real / maxHealth as real > tenths as real / 10.0 <==> 10 * health > tenths * maxHealth
  {
    var h, m, t := health as real, maxHealth as real, tenths as real / 10.0;
    var pct := h / m;
    assert pct * m == h;
    assert (pct - t) * m == h - t * m;
    if pct > t {
      assert (pct - t) * m > 0.0;
    } else {
      assert (t - pct) * m >= 0.0;
    }
    assert (10 * health) as real == 10.0 * h;
    assert (tenths * maxHealth) as real == tenths as real * m;
    assert 10.0 * (t * m) == tenths as real * m;
  }
}
