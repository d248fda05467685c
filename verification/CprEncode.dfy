// The encoder of RTCA DO-260B, Appendix A, section A.1.7.2, and the grid it defines.
module CprEncode {
  import opened Cpr

  // MOD(x, y) of the standard.
  function StdMod(x: real, y: real): real
    requires y > 0.0
  {
    x - y * (x / y).Floor as real
  }

  // YZ and XZ before the reduction to 17 bits.
  function Bin(x: real, d: real): int
    requires d > 0.0
  {
    (131072.0 * (StdMod(x, d) / d) + 0.5).Floor
  }

  // Rlat: what a receiver that knows the zone recovers.
  function Recovered(x: real, d: real): real
    requires d > 0.0
  {
    d * (Bin(x, d) as real / 131072.0 + (x / d).Floor as real)
  }

  function Encode(x: real, d: real): (field: int)
    requires d > 0.0
    ensures 0 <= field < CPR_STEPS
  {
    Bin(x, d) % CPR_STEPS
  }

  datatype Frame = Frame(lat: int, lon: int)

  // For surface positions the standard sends the low 17 of 19 bits, which is the same as a 17-bit
  // field over a quarter of the span.
  function EncodePosition(lat: real, lon: real, odd: bool, surface: bool): Frame {
    var dlat := CprDlat(odd, surface);
    Frame(Encode(lat, dlat), Encode(lon, CprDlon(Recovered(lat, dlat), odd, surface)))
  }

  // ---------------------------------------------------------------- the grid

  // Index of the grid point nearest to x on a grid with 2^17 points per cell of size d.
  ghost function Index(x: real, d: real): int
    requires d > 0.0
  {
    (131072.0 * (x / d) + 0.5).Floor
  }

  lemma ModOverCell(x: real, d: real)
    requires d > 0.0
    ensures StdMod(x, d) / d == x / d - (x / d).Floor as real
  {
    var q := x / d;
    SubOverCell(x, d, q, q.Floor as real);
  }

  lemma SubOverCell(x: real, d: real, q: real, fl: real)
    requires d > 0.0 && x == d * q
    ensures (x - d * fl) / d == q - fl
  {
    assert x - d * fl == d * (q - fl);
    CancelLeft(d, q - fl);
  }

  lemma CancelLeft(d: real, t: real)
    requires d > 0.0
    ensures (d * t) / d == t
  {
  }

  // Encoding is the residue of the nearest grid index, decoding it with the right zone gives the
  // grid point itself.
  lemma EncodeByIndex(x: real, d: real)
    requires d > 0.0
    ensures Bin(x, d) + CPR_STEPS * (x / d).Floor == Index(x, d)
    ensures Encode(x, d) == Index(x, d) % CPR_STEPS
    ensures Recovered(x, d) == d * (Index(x, d) as real / 131072.0)
  {
    ModOverCell(x, d);
    var q, k := x / d, Index(x, d);
    assert 131072.0 * (q - q.Floor as real) + 0.5 == 131072.0 * q + 0.5 - (CPR_STEPS * q.Floor) as real;
    assert Bin(x, d) == k - CPR_STEPS * q.Floor;
    assert Bin(x, d) as real / 131072.0 + q.Floor as real == k as real / 131072.0;
  }
}
