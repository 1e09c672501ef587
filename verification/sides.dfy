/** The two sides of a tree, so that mirror images need to be written only once. */
module Sides {

  datatype Side = Left | Right

  function Opposite(d: Side): Side {
    if d == Left then Right else Left
  }
}
