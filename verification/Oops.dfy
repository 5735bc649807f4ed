/** Object pointers, as far as the tables look at them. */
module Oops {
  type Oop = nat

  /** The address of the nil object. */
  const NIL: Oop := 8
}
