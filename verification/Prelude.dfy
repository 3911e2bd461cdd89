/** Types and row indexing shared by the modules of this project. */
module Prelude {

  /** The conventional optional value (Rust's `Option`). */
  datatype Option<+T> = None | Some(value: T)

  /** An unsigned byte (Rust's `u8`). */
  type byte = x: int | 0 <= x < 256

  /** The index at which row `y` of a buffer of width `w` starts, row by row. */
  function RowStart(w: nat, y: nat): nat {
    if y == 0 then 0 else RowStart(w, y - 1) + w
  }

  lemma {:induction false} RowStartIsProduct(w: nat, y: nat)
    ensures RowStart(w, y) == y * w
  {
    if y > 0 {
      RowStartIsProduct(w, y - 1);
      assert y * w == (y - 1) * w + w;
    }
  }

  /** Rows do not overlap. */
  lemma {:induction false} RowsApart(w: nat, y: nat, z: nat)
    requires y < z
    ensures RowStart(w, y) + w <= RowStart(w, z)
  {
    if y + 1 < z {
      RowsApart(w, y, z - 1);
    }
  }
}
