/** The four compass directions used to label adjacency between cells. */
module Directions {

  datatype Direction = North | South | East | West

  /** The direction pointing back; each constant's opposite is fixed once. */
  function Opposite(d: Direction): (r: Direction)
    ensures r != d
  {
    match d
    case North => South
    case South => North
    case East => West
    case West => East
  }

  lemma OppositeTable()
    ensures Opposite(North) == South && Opposite(South) == North
    ensures Opposite(East) == West && Opposite(West) == East
  {
  }

  lemma OppositeInvolutive(d: Direction)
    ensures Opposite(Opposite(d)) == d
  {
  }

  /** Opposite is a bijection on the four constants: injective and onto. */
  lemma OppositeBijective(a: Direction, b: Direction)
    ensures Opposite(a) == Opposite(b) ==> a == b
    ensures exists e :: Opposite(e) == b
  {
    OppositeInvolutive(b);
  }
}
