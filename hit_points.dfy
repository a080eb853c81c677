/** Hit-point arithmetic of the tracker: how damage is absorbed by temporary
    hit points and then by current hit points, and how healing is capped. */
module HitPoints {
  import opened Characters

  function Max(a: int, b: int): int { if a >= b then a else b }
  function Min(a: int, b: int): int { if a <= b then a else b }

  /** The two hit-point pools after a hit. */
  datatype Absorbed = Absorbed(tempHp: int, currentHp: int)

  /** Closed form of a hit of `amount`: positive temporary hit points soak up
      as much as they can, and only the excess reaches current hit points,
      which never drop below zero. */
  function AbsorbDamage(tempHp: int, currentHp: int, amount: int): (r: Absorbed)
    ensures r.currentHp >= 0
    ensures tempHp > 0 ==> r.tempHp >= 0
    ensures tempHp <= 0 ==> r.tempHp == tempHp
    ensures amount >= 0 ==> r.tempHp <= tempHp && r.currentHp <= Max(currentHp, 0)
  {
    var excess := if tempHp > 0 then Max(amount - tempHp, 0) else amount;
    Absorbed(if tempHp > 0 then Max(tempHp - amount, 0) else tempHp,
             Max(currentHp - excess, 0))
  }

  /** The step-by-step computation on the locals `tempHp`, `currentHp` and
      `damageLeft`, proved equal to the closed form. */
  method CalculateDamage(c: Character, amount: int) returns (tempHp: int, currentHp: int)
    ensures Absorbed(tempHp, currentHp) == AbsorbDamage(c.tempHp, c.currentHp, amount)
  {
    tempHp := c.tempHp;
    currentHp := c.currentHp;
    var damageLeft := amount;
    if tempHp > 0 {
      if tempHp >= damageLeft {
        tempHp := tempHp - damageLeft;
        damageLeft := 0;
      } else {
        damageLeft := damageLeft - tempHp;
        tempHp := 0;
      }
    }
    currentHp := Max(currentHp - damageLeft, 0);
  }

  /** A stored record after a hit whose pools were computed as `hp`: the pools
      are overwritten and the record becomes dead when current hit points are
      not positive; an already dead record stays dead. */
  function Struck(c: Character, hp: Absorbed): (r: Character)
    ensures r.tempHp == hp.tempHp && r.currentHp == hp.currentHp
    ensures c.dead ==> r.dead
    ensures hp.currentHp <= 0 ==> r.dead
    ensures !c.dead && hp.currentHp > 0 ==> !r.dead
    ensures r.(tempHp := c.tempHp, currentHp := c.currentHp, dead := c.dead) == c
  {
    c.(tempHp := hp.tempHp, currentHp := hp.currentHp,
       dead := if hp.currentHp <= 0 then true else c.dead)
  }

  /** A record after a heal of `amount` current and `tempAmount` temporary hit
      points, both capped at `maxHp`. */
  function Healed(c: Character, amount: int, tempAmount: int): (r: Character)
    ensures r.currentHp <= c.maxHp && r.currentHp <= c.currentHp + amount
    ensures r.currentHp == c.maxHp || r.currentHp == c.currentHp + amount
    ensures r.tempHp <= c.maxHp && r.tempHp <= c.tempHp + tempAmount
    ensures r.tempHp == c.maxHp || r.tempHp == c.tempHp + tempAmount
    ensures r.dead <==> c.dead || r.currentHp <= 0
    ensures r.(currentHp := c.currentHp, tempHp := c.tempHp, dead := c.dead) == c
  {
    var healed := Min(c.currentHp + amount, c.maxHp);
    c.(currentHp := healed,
       dead := if healed <= 0 then true else c.dead,
       tempHp := Min(c.tempHp + tempAmount, c.maxHp))
  }

  /** The hit-point bounds a record should keep: current hit points within
      [0, maxHp] and no negative temporary hit points. */
  ghost predicate HpBounds(c: Character) {
    0 <= c.currentHp <= c.maxHp && 0 <= c.tempHp
  }

  /** A record after a hit of `amount` computed from its own pools: current
      hit points never go negative, a non-negative hit lowers no pool that is
      not already negative, the record is dead exactly when it was dead or
      has no current hit points left, and nothing else changes. */
  function Damaged(c: Character, amount: int): (r: Character)
    ensures r.currentHp >= 0
    ensures amount >= 0 ==> r.tempHp <= c.tempHp && r.currentHp <= Max(c.currentHp, 0)
    ensures r.dead <==> c.dead || r.currentHp == 0
    ensures r.(tempHp := c.tempHp, currentHp := c.currentHp, dead := c.dead) == c
  {
    Struck(c, AbsorbDamage(c.tempHp, c.currentHp, amount))
  }

  /** Temporary hit points are used up before current hit points. */
  lemma TempAbsorbsFirst(tempHp: int, currentHp: int, amount: int)
    requires 0 <= amount <= tempHp && currentHp >= 0
    ensures AbsorbDamage(tempHp, currentHp, amount) == Absorbed(tempHp - amount, currentHp)
  {
  }

  /** With non-negative temporary hit points and a non-negative hit, one
      formula covers every case: temporary hit points lose the hit up to
      their size, and current hit points lose only the excess. */
  lemma DamageSplit(tempHp: int, currentHp: int, amount: int)
    requires tempHp >= 0 && amount >= 0
    ensures AbsorbDamage(tempHp, currentHp, amount)
         == Absorbed(Max(tempHp - amount, 0), Max(currentHp - Max(amount - tempHp, 0), 0))
  {
  }

  /** Negative temporary hit points are left as they are and shield nothing:
      current hit points fare as if there were no temporary hit points. */
  lemma NegativeTempIsIgnored(tempHp: int, currentHp: int, amount: int)
    requires tempHp < 0
    ensures AbsorbDamage(tempHp, currentHp, amount)
         == Absorbed(tempHp, AbsorbDamage(0, currentHp, amount).currentHp)
  {
  }

  /** A hit that the two pools can cover removes exactly `amount` from their sum. */
  lemma DamageConservesHp(tempHp: int, currentHp: int, amount: int)
    requires tempHp >= 0 && currentHp >= 0 && 0 <= amount <= tempHp + currentHp
    ensures var r := AbsorbDamage(tempHp, currentHp, amount);
            r.tempHp + r.currentHp == tempHp + currentHp - amount
  {
  }

  /** A hit at least as large as both pools together empties both. */
  lemma OverkillEmptiesPools(tempHp: int, currentHp: int, amount: int)
    requires tempHp >= 0 && currentHp >= 0 && amount >= tempHp + currentHp
    ensures AbsorbDamage(tempHp, currentHp, amount) == Absorbed(0, 0)
  {
  }

  /** Damage keeps the hit-point bounds, and it marks the record dead exactly
      when it was dead already or its current hit points reach zero. */
  lemma DamageKeepsBounds(c: Character, amount: int)
    requires HpBounds(c) && amount >= 0
    ensures HpBounds(Damaged(c, amount))
    ensures Damaged(c, amount).currentHp <= c.currentHp
    ensures Damaged(c, amount).dead <==> c.dead || Damaged(c, amount).currentHp == 0
  {
  }

  /** Healing by non-negative amounts keeps the hit-point bounds and never
      lowers current hit points. */
  lemma HealKeepsBounds(c: Character, amount: int, tempAmount: int)
    requires HpBounds(c) && amount >= 0 && tempAmount >= 0
    ensures HpBounds(Healed(c, amount, tempAmount))
    ensures c.currentHp <= Healed(c, amount, tempAmount).currentHp
  {
  }

  /** Healing never revives: a dead record stays dead whatever it is healed by. */
  lemma HealNeverRevives(c: Character, amount: int, tempAmount: int)
    requires c.dead
    ensures Healed(c, amount, tempAmount).dead
  {
  }

  /** A record that keeps its bounds and is dead whenever it has no hit
      points is left unchanged by a heal of nothing. */
  lemma HealNothingIsIdentity(c: Character)
    requires HpBounds(c) && c.tempHp <= c.maxHp && (c.currentHp == 0 ==> c.dead)
    ensures Healed(c, 0, 0) == c
  {
  }

  /** {currentHp: 10, tempHp: 5} hit for 8 ends with {tempHp: 0, currentHp: 7}. */
  lemma DamageExample(c: Character)
    requires c.currentHp == 10 && c.tempHp == 5 && c.maxHp == 20 && !c.dead
    ensures Damaged(c, 8) == c.(tempHp := 0, currentHp := 7)
  {
  }

  /** {currentHp: 0, maxHp: 20, dead: true} healed by 15 has 15 hit points and is still dead. */
  lemma HealDeadExample(c: Character)
    requires c.currentHp == 0 && c.maxHp == 20 && c.dead
    ensures Healed(c, 15, 0).currentHp == 15 && Healed(c, 15, 0).dead
  {
  }
}
