/** A treasure chest: a closed variant set of contents and a one-shot open. */
module Chests {
  import opened Errors
  import opened Ints

  /** The contents a chest can hold; `Gold` carries its amount. The static
      constructors `gold`, `sword`, `shield`, `potion` and `key` of the source
      are the constructors of this datatype. */
  datatype ChestContent = Gold(amount: u32) | Sword | Shield | Potion | Key

  class Chest {
    const row: nat
    const col: nat
    var isOpen: bool
    var contents: Option<ChestContent>

    /** An open chest is empty. */
    ghost predicate Valid()
      reads this
    {
      isOpen ==> contents.None?
    }

    /** A closed chest holding `contents`. */
    constructor (row: nat, col: nat, contents: Option<ChestContent>)
      ensures this.row == row && this.col == col
      ensures !isOpen && this.contents == contents
      ensures Valid()
    {
      this.row := row;
      this.col := col;
      isOpen := false;
      this.contents := contents;
    }

    /** The first open hands out the contents and leaves the chest open and
        empty; any later open hands out nothing and changes nothing. */
    method Open() returns (taken: Option<ChestContent>)
      requires Valid()
      modifies this
      ensures Valid()
      ensures isOpen && contents.None?
      ensures taken == if old(isOpen) then None else old(contents)
      ensures old(isOpen) ==> isOpen == old(isOpen) && contents == old(contents)
    {
      if !isOpen {
        isOpen := true;
        taken := contents;
        contents := None;
      } else {
        taken := None;
      }
    }

    /** True when the chest holds nothing. */
    function IsEmpty(): (empty: bool)
      reads this
      ensures empty <==> contents.None?
    {
      contents.None?
    }
  }

  /** Opening twice: the second open yields nothing. */
  method OpenTwice(chest: Chest) returns (first: Option<ChestContent>, second: Option<ChestContent>)
    requires chest.Valid()
    modifies chest
    ensures first == if old(chest.isOpen) then None else old(chest.contents)
    ensures second.None? && chest.IsEmpty()
  {
    first := chest.Open();
    second := chest.Open();
  }
}
