/** Small types and functions shared by the modules. */
module Common {
  datatype Option<+T> = None | Some(value: T)

  type Byte = b: nat | b < 256

  /** A distance or cost; `Inf` stands for one that is not there. */
  datatype Ext = Fin(v: real) | Inf

  datatype Coord = Coord(lat: real, lon: real)

  function Min(a: real, b: real): real { if b < a then b else a }

  function Max(a: real, b: real): real { if a < b then b else a }

  function Pow2(n: nat): (r: nat)
    ensures r >= 1
  {
    if n == 0 then 1 else 2 * Pow2(n - 1)
  }
}
