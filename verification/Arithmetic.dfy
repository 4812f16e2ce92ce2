/** Small functions on numbers that several components share. */
module Arithmetic {

  function Min(a: nat, b: nat): nat {
    if a < b then a else b
  }

  function Max(a: nat, b: nat): nat {
    if a < b then b else a
  }

  function One(b: bool): nat {
    if b then 1 else 0
  }
}
