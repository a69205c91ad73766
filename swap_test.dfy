/** The SWAP-test circuit builder and the reduction of measurement counts to p0 and
    fidelity, from `swap_test.py`. The simulator run is not modelled: its measurement
    counts are an input of the reduction. */
module SwapTest {
  import opened Results
  import opened PowersOfTwo

  /** The circuit operations the builder emits. */
  datatype Gate =
    | Initialize(amplitudes: seq<real>, qubits: seq<nat>)  // `qc.initialize(state, qubits)`
    | Hadamard(qubit: nat)                                  // `qc.h(q)`
    | CSwap(control: nat, target1: nat, target2: nat)       // `qc.cswap(c, t1, t2)`
    | Measure(qubit: nat, clbit: nat)                       // `qc.measure(q, c)`

  /** A `QuantumCircuit`: its register sizes and the operations appended to it, in order. */
  datatype Circuit = Circuit(numQubits: nat, numClbits: nat, ops: seq<Gate>)

  /** `list(range(lo, hi))`: each of lo..hi-1 exactly once, in increasing order. */
  function Range(lo: nat, hi: nat): (r: seq<nat>)
    requires lo <= hi
    ensures |r| == hi - lo
    ensures forall i :: 0 <= i < |r| ==> r[i] == lo + i
    ensures forall x :: x in r <==> lo <= x < hi
    decreases hi - lo
  {
    if lo == hi then [] else [lo] + Range(lo + 1, hi)
  }

  /** The qubits of register A for n qubits per register: 1..n. */
  function RegisterA(n: nat): seq<nat>
  {
    Range(1, n + 1)
  }

  /** The qubits of register B for n qubits per register: n+1..2n. */
  function RegisterB(n: nat): seq<nat>
  {
    Range(n + 1, 2 * n + 1)
  }

  /** The ancilla is qubit 0. */
  const Ancilla: nat := 0

  /** The operation sequence of a SWAP test on n-qubit states a and b: both
      initialisations, H on the ancilla, one controlled swap per qubit pair, H, measure. */
  function SwapTestOps(a: seq<real>, b: seq<real>, n: nat): seq<Gate>
  {
    [Initialize(a, RegisterA(n)), Initialize(b, RegisterB(n)), Hadamard(Ancilla)]
    + seq(n, i requires 0 <= i < n => CSwap(Ancilla, RegisterA(n)[i], RegisterB(n)[i]))
    + [Hadamard(Ancilla), Measure(Ancilla, 0)]
  }

  /** Every operation refers only to qubits below numQubits and classical bits below numClbits. */
  predicate GateWithin(g: Gate, numQubits: nat, numClbits: nat)
  {
    match g
    case Initialize(_, qs) => forall i :: 0 <= i < |qs| ==> qs[i] < numQubits
    case Hadamard(q) => q < numQubits
    case CSwap(c, t1, t2) => c < numQubits && t1 < numQubits && t2 < numQubits && c != t1 && c != t2 && t1 != t2
    case Measure(q, c) => q < numQubits && c < numClbits
  }

  predicate WellFormed(c: Circuit)
  {
    forall k :: 0 <= k < |c.ops| ==> GateWithin(c.ops[k], c.numQubits, c.numClbits)
  }

  /** `build_swap_test_circuit`: checks equal lengths, then that the common length is 2^n
      for n = floor(log2(length)), then appends the SWAP-test operations to a circuit of
      1 + 2n qubits and 1 classical bit. */
  method BuildSwapTestCircuit(stateA: seq<real>, stateB: seq<real>) returns (r: Result<Circuit>)
    ensures |stateA| != |stateB| ==> r == Err(LengthMismatch)
    ensures |stateA| == |stateB| == 0 ==> r == Err(MathDomain)
    ensures |stateA| == |stateB| > 0 && !IsPowerOfTwo(|stateA|) ==> r == Err(NotPowerOfTwo)
    ensures r.Ok? <==> |stateA| == |stateB| && IsPowerOfTwo(|stateA|)
    ensures r.Ok? ==> var n := FloorLog2(|stateA|);
              Pow2(n) == |stateA| && r.value == Circuit(1 + 2 * n, 1, SwapTestOps(stateA, stateB, n))
  {
    if |stateA| != |stateB| {
      return Err(LengthMismatch);
    }
    if |stateA| == 0 {
      return Err(MathDomain);
    }
    var n := FloorLog2(|stateA|);
    IsPowerOfTwoIff(|stateA|);
    if Pow2(n) != |stateA| {
      return Err(NotPowerOfTwo);
    }
    var aQubits := RegisterA(n);
    var bQubits := RegisterB(n);
    var ops := [];
    ops := ops + [Initialize(stateA, aQubits)];
    ops := ops + [Initialize(stateB, bQubits)];
    ops := ops + [Hadamard(Ancilla)];
    for i := 0 to n
      invariant ops == [Initialize(stateA, aQubits), Initialize(stateB, bQubits), Hadamard(Ancilla)]
                       + seq(i, k requires 0 <= k < i => CSwap(Ancilla, aQubits[k], bQubits[k]))
    {
      ops := ops + [CSwap(Ancilla, aQubits[i], bQubits[i])];
    }
    ops := ops + [Hadamard(Ancilla)];
    ops := ops + [Measure(Ancilla, 0)];
    r := Ok(Circuit(1 + 2 * n, 1, ops));
  }

  /** The circuit has n + 5 operations; operation k, for 3 <= k < n + 3, is the controlled
      swap of qubit k - 2 of register A (index k - 3 in it) with qubit n + k - 2 of register B. */
  lemma SwapTestOpsShape(a: seq<real>, b: seq<real>, n: nat)
    ensures |SwapTestOps(a, b, n)| == n + 5
    ensures SwapTestOps(a, b, n)[0] == Initialize(a, RegisterA(n))
    ensures SwapTestOps(a, b, n)[1] == Initialize(b, RegisterB(n))
    ensures SwapTestOps(a, b, n)[2] == Hadamard(0)
    ensures forall k :: 3 <= k < n + 3 ==> SwapTestOps(a, b, n)[k] == CSwap(0, k - 2, n + k - 2)
    ensures SwapTestOps(a, b, n)[n + 3] == Hadamard(0)
    ensures SwapTestOps(a, b, n)[n + 4] == Measure(0, 0)
  {
  }

  /** Register A is 1..n, register B is n+1..2n: they are disjoint, neither holds the
      ancilla, and with the ancilla they cover all 1 + 2n qubits exactly once. */
  lemma RegisterLayout(n: nat)
    ensures |RegisterA(n)| == n && |RegisterB(n)| == n
    ensures forall i, j :: 0 <= i < n && 0 <= j < n ==> RegisterA(n)[i] != RegisterB(n)[j]
    ensures Ancilla !in RegisterA(n) && Ancilla !in RegisterB(n)
    ensures forall q :: 0 <= q < 1 + 2 * n <==> q == Ancilla || q in RegisterA(n) || q in RegisterB(n)
  {
    forall q | 0 <= q < 1 + 2 * n && q != Ancilla
      ensures q in RegisterA(n) || q in RegisterB(n)
    {
      if q <= n {
        assert RegisterA(n)[q - 1] == q;
      } else {
        assert RegisterB(n)[q - n - 1] == q;
      }
    }
  }

  /** Every operation of the built circuit acts on qubits and classical bits that exist,
      and every controlled swap acts on three distinct qubits. */
  lemma SwapTestCircuitWellFormed(a: seq<real>, b: seq<real>, n: nat)
    ensures WellFormed(Circuit(1 + 2 * n, 1, SwapTestOps(a, b, n)))
  {
    var c := Circuit(1 + 2 * n, 1, SwapTestOps(a, b, n));
    SwapTestOpsShape(a, b, n);
    forall k | 0 <= k < |c.ops| ensures GateWithin(c.ops[k], c.numQubits, c.numClbits) {
    }
  }

  /** The estimate read off the counts: p0 and the clamped fidelity. */
  datatype Estimate = Estimate(p0: real, fidelity: real)

  /** `counts.get("0", 0)`. */
  function ZeroCount(counts: map<string, nat>): nat
  {
    if "0" in counts then counts["0"] else 0
  }

  /** `max(0.0, min(1.0, 2.0 * p0 - 1.0))`. */
  function Fidelity(p0: real): (f: real)
    ensures 0.0 <= f <= 1.0
  {
    var raw := 2.0 * p0 - 1.0;
    var upper := if raw < 1.0 then raw else 1.0;
    if 0.0 < upper then upper else 0.0
  }

  /** Fidelity is 0 up to p0 = 1/2, then 2 * p0 - 1 up to p0 = 1, then 1. */
  lemma FidelityPiecewise(p0: real)
    ensures p0 <= 0.5 ==> Fidelity(p0) == 0.0
    ensures 0.5 <= p0 <= 1.0 ==> Fidelity(p0) == 2.0 * p0 - 1.0
    ensures p0 >= 1.0 ==> Fidelity(p0) == 1.0
  {
  }

  /** Fidelity never decreases as p0 grows. */
  lemma FidelityMonotone(p: real, q: real)
    requires p <= q
    ensures Fidelity(p) <= Fidelity(q)
  {
  }

  /** Lines 63-64 of `swap_test_similarity`: p0 = counts["0"] / shots (0 when the key is
      missing) and the clamped fidelity. Zero shots make the division fail. */
  function Reduce(counts: map<string, nat>, shots: int): (r: Result<Estimate>)
    ensures r.Err? <==> shots == 0
    ensures r.Err? ==> r.error == DivisionByZero
    ensures r.Ok? ==> r.value.p0 * (shots as real) == ZeroCount(counts) as real
    ensures r.Ok? ==> r.value.fidelity == Fidelity(r.value.p0)
    ensures r.Ok? && "0" !in counts ==> r.value.p0 == 0.0
    ensures r.Ok? && ZeroCount(counts) <= shots ==> 0.0 <= r.value.p0 <= 1.0
  {
    if shots == 0 then Err(DivisionByZero)
    else
      var p0 := ZeroCount(counts) as real / shots as real;
      Ok(Estimate(p0, Fidelity(p0)))
  }

  /** The overlap is `sqrt(max(0, fidelity))`. Whatever square root the platform returns,
      a non-negative number whose square is the fidelity lies in [0, 1] and is unique. */
  lemma OverlapInUnitInterval(fidelity: real, overlap: real, other: real)
    requires 0.0 <= fidelity <= 1.0
    requires overlap >= 0.0 && overlap * overlap == fidelity
    requires other >= 0.0 && other * other == fidelity
    ensures 0.0 <= overlap <= 1.0
    ensures overlap == other
  {
    if overlap != other {
      assert (overlap - other) * (overlap + other) == 0.0;
      ProductNonZero(overlap - other, overlap + other);
    }
  }

  lemma ProductNonZero(x: real, y: real)
    requires x != 0.0 && y != 0.0
    ensures x * y != 0.0
  {
    if x > 0.0 && y > 0.0 {
      assert x * y > 0.0;
    } else if x > 0.0 {
      assert x * (-y) > 0.0;
    } else if y > 0.0 {
      assert (-x) * y > 0.0;
    } else {
      assert (-x) * (-y) > 0.0;
    }
  }

  /** `swap_test_similarity` with the simulator abstracted: the circuit is validated
      and built first, and `counts` stands for the simulator's measurement counts. */
  method SwapTestSimilarity(stateA: seq<real>, stateB: seq<real>, shots: int, counts: map<string, nat>)
    returns (r: Result<Estimate>)
    ensures |stateA| != |stateB| ==> r == Err(LengthMismatch)
    ensures |stateA| == |stateB| == 0 ==> r == Err(MathDomain)
    ensures |stateA| == |stateB| > 0 && !IsPowerOfTwo(|stateA|) ==> r == Err(NotPowerOfTwo)
    ensures |stateA| == |stateB| && IsPowerOfTwo(|stateA|) ==> r == Reduce(counts, shots)
  {
    var circuit := BuildSwapTestCircuit(stateA, stateB);
    if circuit.Err? {
      return Err(circuit.error);
    }
    r := Reduce(counts, shots);
  }
}
