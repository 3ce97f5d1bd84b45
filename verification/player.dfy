/** The stand-alone player record: a position and health. */
module Players {
  import opened Ints

  class Player {
    var x: nat
    var y: nat
    var health: i32

    constructor (x: nat, y: nat, health: i32)
      ensures this.x == x && this.y == y && this.health == health
    {
      this.x := x;
      this.y := y;
      this.health := health;
    }

    /** Sets the position to exactly `(x, y)`; health is untouched, and a
        repeated call with the same arguments changes nothing more. */
    method MoveTo(x: nat, y: nat)
      modifies this`x, this`y
      ensures this.x == x && this.y == y
    {
      this.x := x;
      this.y := y;
    }
  }
}
