/** An entity of the dungeon (the player or an enemy): a position in room
    coordinates and combat statistics. */
module Entities {
  import opened Ints

  /** Damage left after armor: `max(0, amount - armor)`. */
  function ArmorReduced(amount: int, armor: int): (damage: int)
    ensures damage >= 0 && damage >= amount - armor
    ensures damage == 0 || damage == amount - armor
    ensures damage == 0 <==> armor >= amount
  {
    if amount - armor > 0 then amount - armor else 0
  }

  class Entity {
    var x: nat
    var y: nat
    var health: i32
    var armor: i32
    var attack: i32
    var gold: i32
    var isPlayer: bool

    constructor (x: nat, y: nat, health: i32, armor: i32, attack: i32, gold: i32, isPlayer: bool)
      ensures this.x == x && this.y == y
      ensures this.health == health && this.armor == armor && this.attack == attack && this.gold == gold
      ensures this.isPlayer == isPlayer
    {
      this.x := x;
      this.y := y;
      this.health := health;
      this.armor := armor;
      this.attack := attack;
      this.gold := gold;
      this.isPlayer := isPlayer;
    }

    /** Sets the position; nothing else changes, so a repeated call with the
        same arguments changes nothing more. */
    method MoveTo(x: nat, y: nat)
      modifies this`x, this`y
      ensures this.x == x && this.y == y
    {
      this.x := x;
      this.y := y;
    }

    /** The same update as `MoveTo`, under its other name. */
    method SetPosition(x: nat, y: nat)
      modifies this`x, this`y
      ensures this.x == x && this.y == y
    {
      this.x := x;
      this.y := y;
    }

    /** Lowers health by what the armor lets through. Health may drop to zero
        or below; nothing clamps it. The `i32` subtractions must not
        overflow. */
    method TakeDamage(amount: i32)
      requires InI32(amount as int - armor as int)
      requires InI32(health as int - ArmorReduced(amount as int, armor as int))
      modifies this`health
      ensures health as int == old(health) as int - ArmorReduced(amount as int, armor as int)
      ensures health <= old(health)
      ensures armor >= amount ==> health == old(health)
    {
      var diff := amount - armor;
      var reduced := if diff > 0 then diff else 0;
      health := health - reduced;
    }
  }
}
