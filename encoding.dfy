/** The statevector encoder of `encoding.py`: round a length up to a power of two,
    zero-pad on the right, L2-normalise, and derive the qubit count.
    Amplitudes are modelled over `real`; the complex promotion adds a zero imaginary part only. */
module Encoding {
  import opened Results
  import opened PowersOfTwo

  /** An encoded vector: the amplitude list and the number of qubits it occupies. */
  datatype Statevector = Statevector(amplitudes: seq<real>, qubits: nat)

  /** `next_power_of_two`: 1 for every n <= 1, otherwise `1 << (n - 1).bit_length()`. */
  function NextPowerOfTwo(n: int): (p: nat)
    ensures IsPowerOfTwo(p)
    ensures n <= 1 ==> p == 1
    ensures n >= 1 ==> n <= p < 2 * n
  {
    if n <= 1 then
      Pow2IsPowerOfTwo(0);
      1
    else
      var b := BitLength(n - 1);
      BitLengthBounds(n - 1);
      Pow2IsPowerOfTwo(b);
      Pow2(b)
  }

  /** The result is the least power of two that is at least n. */
  lemma NextPowerOfTwoIsLeast(n: int, k: nat)
    requires n <= Pow2(k)
    ensures NextPowerOfTwo(n) <= Pow2(k)
  {
    if n > 1 {
      var b := BitLength(n - 1);
      BitLengthBounds(n - 1);
      if k < b {
        Pow2Monotone(k, b - 1);
      }
      Pow2Monotone(b, k);
    }
  }

  /** A length that is already a power of two is left as it is, so no padding happens. */
  lemma NextPowerOfTwoFixesPowers(n: int)
    requires IsPowerOfTwo(n)
    ensures NextPowerOfTwo(n) == n
  {
    PowerOfTwoIsPow2(n);
    NextPowerOfTwoIsLeast(n, FloorLog2(n));
  }

  /** Sum of squares of the entries, the squared L2 norm `np.linalg.norm(v)**2`. */
  function SumSquares(v: seq<real>): (s: real)
    ensures s >= 0.0
  {
    if v == [] then 0.0 else SumSquares(v[..|v| - 1]) + v[|v| - 1] * v[|v| - 1]
  }

  predicate AllZero(v: seq<real>)
  {
    forall i :: 0 <= i < |v| ==> v[i] == 0.0
  }

  lemma AddProductPositive(s: real, x: real, y: real)
    requires s >= 0.0 && x > 0.0 && y > 0.0
    ensures s + x * y > 0.0
  {
  }

  /** Adding a square to a non-negative number gives zero only when both are zero. */
  lemma AddSquareZeroIff(s: real, x: real)
    requires s >= 0.0
    ensures s + x * x == 0.0 <==> s == 0.0 && x == 0.0
  {
    if x > 0.0 {
      AddProductPositive(s, x, x);
    } else if x < 0.0 {
      AddProductPositive(s, -x, -x);
      assert (-x) * (-x) == x * x;
    }
  }

  /** The squared norm is zero exactly when every entry is zero. */
  lemma {:induction false} SumSquaresZeroIff(v: seq<real>)
    ensures SumSquares(v) == 0.0 <==> AllZero(v)
  {
    if v != [] {
      var init, x := v[..|v| - 1], v[|v| - 1];
      SumSquaresZeroIff(init);
      AddSquareZeroIff(SumSquares(init), x);
      assert AllZero(v) <==> AllZero(init) && x == 0.0 by {
        forall i | 0 <= i < |init| ensures init[i] == v[i] { }
      }
    }
  }

  /** `np.pad(arr, (0, target - len(arr)))`: append zeros on the right up to `target`. */
  function Pad(v: seq<real>, target: nat): (r: seq<real>)
    requires |v| <= target
    ensures |r| == target
    ensures r[..|v|] == v
    ensures forall i :: |v| <= i < target ==> r[i] == 0.0
  {
    v + seq(target - |v|, _ => 0.0)
  }

  /** Zero-padding leaves the norm unchanged. */
  lemma {:induction false} PadKeepsSumSquares(v: seq<real>, target: nat)
    requires |v| <= target
    ensures SumSquares(Pad(v, target)) == SumSquares(v)
  {
    if target > |v| {
      var r := Pad(v, target);
      PadKeepsSumSquares(v, target - 1);
      assert r[..|r| - 1] == Pad(v, target - 1);
      assert r[|r| - 1] == 0.0;
    } else {
      assert Pad(v, target) == v;
    }
  }

  /** Padding keeps the prefix, and the padded vector is zero exactly when the input is. */
  lemma PadFacts(v: seq<real>, target: nat)
    requires |v| <= target
    ensures forall i :: 0 <= i < |v| ==> Pad(v, target)[i] == v[i]
    ensures AllZero(Pad(v, target)) <==> AllZero(v)
  {
    var r := Pad(v, target);
    assert forall i :: 0 <= i < |v| ==> r[i] == r[..|v|][i];
  }

  /** Every entry of v divided by c. */
  function Scale(v: seq<real>, c: real): (r: seq<real>)
    requires c != 0.0
    ensures |r| == |v|
    ensures forall i :: 0 <= i < |v| ==> r[i] * c == v[i]
  {
    seq(|v|, i requires 0 <= i < |v| => v[i] / c)
  }

  lemma ScaledSquare(x: real, c: real)
    requires c != 0.0
    ensures (x / c) * (x / c) * (c * c) == x * x
  {
  }

  lemma {:induction false} ScaleSumSquares(v: seq<real>, c: real)
    requires c != 0.0
    ensures SumSquares(Scale(v, c)) * (c * c) == SumSquares(v)
  {
    if v != [] {
      var init, x := v[..|v| - 1], v[|v| - 1];
      ScaleSumSquares(init, c);
      var w := Scale(v, c);
      assert w[..|w| - 1] == Scale(init, c);
      var y := w[|w| - 1];
      assert y == x / c;
      ScaledSquare(x, c);
      calc {
        SumSquares(w) * (c * c);
        (SumSquares(Scale(init, c)) + y * y) * (c * c);
        SumSquares(Scale(init, c)) * (c * c) + y * y * (c * c);
        SumSquares(init) + x * x;
      }
    }
  }

  /** `normalize_vector`, with the norm supplied by the caller (see README): fails exactly
      on the zero vector, and otherwise divides every entry by the norm, giving a unit vector. */
  function Normalize(v: seq<real>, norm: real): (r: Result<seq<real>>)
    requires norm >= 0.0 && norm * norm == SumSquares(v)
    ensures r.Err? <==> AllZero(v)
    ensures r.Err? ==> r.error == ZeroVector
    ensures r.Ok? ==> norm != 0.0 && r.value == Scale(v, norm)
    ensures r.Ok? ==> SumSquares(r.value) == 1.0
  {
    SumSquaresZeroIff(v);
    AddSquareZeroIff(0.0, norm);
    if norm == 0.0 then Err(ZeroVector)
    else
      ScaleSumSquares(v, norm);
      UnitFactor(SumSquares(Scale(v, norm)), norm * norm, SumSquares(v));
      Ok(Scale(v, norm))
  }

  lemma UnitFactor(a: real, k: real, s: real)
    requires k != 0.0 && a * k == s && s == k
    ensures a == 1.0
  {
    assert (a - 1.0) * k == 0.0;
  }

  /** Dividing a padded vector is padding the divided vector. */
  lemma ScalePad(v: seq<real>, target: nat, c: real)
    requires |v| <= target && c != 0.0
    ensures Scale(Pad(v, target), c) == Pad(Scale(v, c), target)
  {
    var l, r := Scale(Pad(v, target), c), Pad(Scale(v, c), target);
    forall i | 0 <= i < target ensures l[i] == r[i] {
      if i < |v| {
        assert Pad(v, target)[i] == Pad(v, target)[..|v|][i];
        assert r[i] == r[..|v|][i];
      }
    }
  }

  /** `vector_to_statevector`. `norm` is the L2 norm of `vec`, which is also that of its padding.
      On success the amplitudes are the input divided by its norm, followed by zeros. */
  function VectorToStatevector(vec: seq<real>, norm: real): (r: Result<Statevector>)
    requires norm >= 0.0 && norm * norm == SumSquares(vec)
    ensures r.Err? <==> AllZero(vec)
    ensures r.Err? ==> r.error == ZeroVector
    ensures r.Ok? ==> |r.value.amplitudes| == NextPowerOfTwo(|vec|)
    ensures r.Ok? ==> Pow2(r.value.qubits) == |r.value.amplitudes|
    ensures r.Ok? ==> SumSquares(r.value.amplitudes) == 1.0
    ensures r.Ok? ==> norm != 0.0 && r.value.amplitudes == Pad(Scale(vec, norm), NextPowerOfTwo(|vec|))
  {
    var target := NextPowerOfTwo(|vec|);
    var arr := if target != |vec| then Pad(vec, target) else vec;
    PadKeepsSumSquares(vec, target);
    PadFacts(vec, target);
    assert arr == Pad(vec, target);
    match Normalize(arr, norm)
    case Err(e) => Err(e)
    case Ok(unit) =>
      ScalePad(vec, target, norm);
      PowerOfTwoIsPow2(|unit|);
      Ok(Statevector(unit, FloorLog2(|unit|)))
  }

  /** The empty vector pads to `[0.0]` and is refused as a zero vector. */
  lemma EmptyVectorIsRefused()
    ensures VectorToStatevector([], 0.0) == Err(ZeroVector)
  {
  }

  /** Inputs whose lengths round up to the same power of two get the same qubit count, and
      only those: the sanity check `n1 != n2` in the command-line driver never fires for them. */
  lemma EqualQubitCounts(u: seq<real>, nu: real, v: seq<real>, nv: real)
    requires nu >= 0.0 && nu * nu == SumSquares(u)
    requires nv >= 0.0 && nv * nv == SumSquares(v)
    requires VectorToStatevector(u, nu).Ok? && VectorToStatevector(v, nv).Ok?
    ensures VectorToStatevector(u, nu).value.qubits == VectorToStatevector(v, nv).value.qubits
            <==> NextPowerOfTwo(|u|) == NextPowerOfTwo(|v|)
  {
    var su := VectorToStatevector(u, nu).value;
    var sv := VectorToStatevector(v, nv).value;
    if Pow2(su.qubits) == Pow2(sv.qubits) {
      Pow2Injective(su.qubits, sv.qubits);
    }
  }

  /** A power-of-two length vector that is already a unit vector is returned unchanged. */
  lemma EncodeUnitVectorIsIdentity(v: seq<real>)
    requires IsPowerOfTwo(|v|) && SumSquares(v) == 1.0
    ensures VectorToStatevector(v, 1.0).Ok?
    ensures VectorToStatevector(v, 1.0).value.amplitudes == v
  {
    NextPowerOfTwoFixesPowers(|v|);
    SumSquaresZeroIff(v);
    var s := VectorToStatevector(v, 1.0).value;
    assert forall i :: 0 <= i < |v| ==> s.amplitudes[i] * 1.0 == v[i];
  }
}
