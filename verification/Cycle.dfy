/** Walking round the residues modulo w in steps of d: start, start + d, start + 2d, ... */
module Cycle {
  import opened Modular

  function Pos(s: int, d: int, w: nat, t: int): (q: nat)
    requires w > 0
    ensures q < w
  {
    (s + t * d) % w
  }

  lemma PosStep(s: int, d: int, w: nat, t: int)
    requires w > 0
    ensures Pos(s, d, w, t + 1) == (s + t * d + d) % w
  {
    assert (t + 1) * d == t * d + d;
  }

  lemma PosTurn(s: int, d: int, w: nat, t: int)
    requires w > 0
    ensures Pos(s, d, w, t + w) == Pos(s, d, w, t)
  {
    assert (t + w) * d == t * d + d * w;
    ModShift(s + t * d, d, w);
  }

  /** Every residue is reached in one turn. */
  lemma PosReaches(s: int, d: nat, w: nat, q: int) returns (t: nat)
    requires Generates(d, w)
    ensures 0 <= t < w && Pos(s, d, w, t) == q % w
  {
    var i := Inverse(d, w);
    var u := (q - s) * i;
    t := u % w;
    assert d * t == t * d;
    ModMul(d, u, w);
    assert d * u == (q - s) * (i * d) by { Regroup(d, q - s, i); assert d * i == i * d; }
    ModMul(q - s, i * d, w);
    assert (q - s) * 1 == q - s;
    // t d = q - s modulo w
    ModAdd(s, t * d, w);
    ModAdd(s, q - s, w);
  }

  /** Within one turn no residue is reached twice. */
  lemma PosInjective(s: int, d: nat, w: nat, t: int, u: int)
    requires Generates(d, w) && Pos(s, d, w, t) == Pos(s, d, w, u)
    ensures (t - u) % w == 0
  {
    ModEqual(s + t * d, s + u * d, w);
    assert (s + t * d) - (s + u * d) == (t - u) * d;
    CancelFactor(t - u, d, w);
  }

  lemma PosInjectiveNear(s: int, d: nat, w: nat, t: int, u: int)
    requires Generates(d, w) && Pos(s, d, w, t) == Pos(s, d, w, u) && t - u < w && u - t < w
    ensures t == u
  {
    PosInjective(s, d, w, t, u);
    if t > u { ModSmall(t - u, w); } else if t < u {
      ModShift(t - u, 1, w);
      ModSmall(t - u + w, w);
    }
  }

  /** A vector that does not change along the steps from t to u is the same at both ends. */
  lemma {:induction false} Constant(v: seq<bool>, s: int, d: int, w: nat, t: int, u: int)
    requires |v| == w > 0 && t <= u
    requires forall x :: t <= x < u ==> v[Pos(s, d, w, x)] == v[Pos(s, d, w, x + 1)]
    ensures v[Pos(s, d, w, t)] == v[Pos(s, d, w, u)]
    decreases u - t
  {
    if t < u { Constant(v, s, d, w, t, u - 1); }
  }
}
