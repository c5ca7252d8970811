/** The accumulation loop and its helpers (qrng/runner.py). The backend is
    given as the sequence of answers it would return to successive calls:
    either an outcome table from a direct run, or the indices that the
    probability-sampling fast path drew. */
module Runner {
  import opened Common
  import opened Binary
  import opened Utils
  import opened Circuit

  /** What one call of `run_circuit_and_get_counts` produced: the table of a
      direct run, or the sampled indices of the fast path. */
  datatype Measurement = Direct(counts: Table) | FastPath(indices: seq<nat>)

  /** The outcome table a measurement yields for an `n`-qubit circuit. */
  function CountsOf(m: Measurement, nQubits: nat): Table
  {
    match m
    case Direct(t) => t
    case FastPath(ix) => CountIndices(ix, nQubits)
  }

  /** A backend answer to `shots` requests on `n >= 1` qubits: every key
      has `n` binary digits and the counts add up to `shots`; sampled indices
      are below `2^n`. */
  predicate WellFormedMeasurement(m: Measurement, nQubits: nat, shots: nat)
  {
    match m
    case Direct(t) => WellFormedTable(t, nQubits, shots)
    case FastPath(ix) =>
      nQubits >= 1 && |ix| == shots && forall j :: 0 <= j < |ix| ==> ix[j] < Pow2(nQubits)
  }

  // ---------------------------------------------------------------------------
  // run_qrng_once

  /** One run: the measured bitstrings in MSB-first order, one per shot. */
  function RunQrngOnce(nQubits: nat, shots: nat, m: Measurement): (r: seq<string>)
    ensures WellFormedMeasurement(m, nQubits, shots) ==>
      |r| == shots && forall j :: 0 <= j < |r| ==> |r[j]| == nQubits && IsBinary(r[j])
  {
    var r := ExpandCounts(CountsOf(m, nQubits));
    assert WellFormedMeasurement(m, nQubits, shots) ==>
      |r| == shots && forall j :: 0 <= j < |r| ==> |r[j]| == nQubits && IsBinary(r[j])
    by {
      if WellFormedMeasurement(m, nQubits, shots) {
        MeasurementShape(m, nQubits, shots);
      }
    }
    r
  }

  lemma MeasurementShape(m: Measurement, nQubits: nat, shots: nat)
    requires WellFormedMeasurement(m, nQubits, shots)
    ensures WellFormedTable(CountsOf(m, nQubits), nQubits, shots)
    ensures |ExpandCounts(CountsOf(m, nQubits))| == shots
    ensures forall j :: 0 <= j < shots ==>
      |ExpandCounts(CountsOf(m, nQubits))[j]| == nQubits && IsBinary(ExpandCounts(CountsOf(m, nQubits))[j])
  {
    if m.FastPath? {
      CountIndicesWellFormed(m.indices, nQubits);
    }
    ExpandCountsShape(CountsOf(m, nQubits), nQubits, shots);
  }

  // ---------------------------------------------------------------------------
  // generate_random_bits

  /** What one round appends: the joined measured bitstrings, passed through
      the Von Neumann extractor when `unbiased`. */
  function Contribution(m: Measurement, nQubits: nat, unbiased: bool): string
  {
    var raw := RawBits(m, nQubits);
    if unbiased then VonNeumann(raw) else raw
  }

  /** `"".join(bits_from_counts(counts))`: one round's raw bits. */
  function RawBits(m: Measurement, nQubits: nat): string
  {
    Join(ExpandCounts(CountsOf(m, nQubits)))
  }

  /** The contribution of every round, in order. */
  function Contributions(rounds: seq<Measurement>, nQubits: nat, unbiased: bool): (ps: seq<string>)
    ensures |ps| == |rounds|
  {
    if rounds == [] then []
    else Contributions(rounds[..|rounds| - 1], nQubits, unbiased) + [Contribution(rounds[|rounds| - 1], nQubits, unbiased)]
  }

  lemma {:induction false} ContributionsAt(rounds: seq<Measurement>, nQubits: nat, unbiased: bool, j: nat)
    requires j < |rounds|
    ensures Contributions(rounds, nQubits, unbiased)[j] == Contribution(rounds[j], nQubits, unbiased)
    decreases |rounds|
  {
    if j < |rounds| - 1 {
      ContributionsAt(rounds[..|rounds| - 1], nQubits, unbiased, j);
    }
  }

  /** The in-order concatenation of the contributions of the first `k`
      rounds. */
  function Total(rounds: seq<Measurement>, nQubits: nat, unbiased: bool, k: nat): string
    requires k <= |rounds|
  {
    Join(Contributions(rounds, nQubits, unbiased)[..k])
  }

  /** The result of `generate_random_bits` against a backend that answers the
      successive calls with `backend`: the first `target` characters of all
      contributions, or `None` when even the whole supply falls short (the
      source would go on calling the backend). */
  function Generated(backend: seq<Measurement>, nQubits: nat, unbiased: bool, target: int): Option<string>
  {
    var total := Total(backend, nQubits, unbiased, |backend|);
    if |total| < target then None
    else if target <= 0 then Some("")
    else Some(total[..target])
  }

  /** The `while len("".join(collected)) < target_bits` loop. `calls` counts
      the backend calls made: the loop stops at the first round whose
      contributions reach the target. */
  method GenerateRandomBits(targetBits: int, nQubits: nat, unbiased: bool, backend: seq<Measurement>)
    returns (r: Option<string>, calls: nat)
    ensures r == Generated(backend, nQubits, unbiased, targetBits)
    ensures calls <= |backend|
    ensures r.None? ==> calls == |backend|
    ensures r.Some? ==> |Total(backend, nQubits, unbiased, calls)| >= targetBits
    ensures forall j :: 0 <= j < calls ==> |Total(backend, nQubits, unbiased, j)| < targetBits
  {
    var collected: seq<string> := [];
    calls := 0;
    while |Join(collected)| < targetBits
      invariant calls <= |backend|
      invariant Join(collected) == Total(backend, nQubits, unbiased, calls)
      invariant forall j :: 0 <= j < calls ==> |Total(backend, nQubits, unbiased, j)| < targetBits
      invariant calls == 0 ==> collected == []
      decreases |backend| - calls
    {
      if calls == |backend| {
        ExhaustedNone(backend, nQubits, unbiased, targetBits);
        return None, calls;
      }
      collected := NextRound(collected, backend, calls, nQubits, unbiased);
      ShortStep(backend, nQubits, unbiased, calls, targetBits);
      calls := calls + 1;
    }
    GeneratedAt(backend, nQubits, unbiased, calls, targetBits);
    r := Some(PyPrefix(Join(collected), targetBits));
  }

  /** One pass of the loop body: run the circuit, join the measured
      bitstrings and append them, or, when `unbiased`, append what the
      extractor keeps of them unless that is empty. */
  method CollectRound(collected: seq<string>, m: Measurement, nQubits: nat, unbiased: bool)
    returns (c: seq<string>)
    ensures Join(c) == Join(collected) + Contribution(m, nQubits, unbiased)
  {
    var raw := MeasureRound(m, nQubits);
    if unbiased {
      var extracted := VonNeumannUnbias(raw);
      if extracted != [] {
        c := Append(collected, extracted);
      } else {
        c := collected;
        assert Join(c) + extracted == Join(c);
      }
    } else {
      c := Append(collected, raw);
    }
  }

  /** The loop body against the backend's `calls`-th answer: what was
      collected so far is the total of the earlier rounds, and the round
      extends it to the total of one more. */
  method NextRound(collected: seq<string>, backend: seq<Measurement>, calls: nat, nQubits: nat, unbiased: bool)
    returns (c: seq<string>)
    requires calls < |backend|
    requires Join(collected) == Total(backend, nQubits, unbiased, calls)
    ensures Join(c) == Total(backend, nQubits, unbiased, calls + 1)
  {
    c := CollectRound(collected, backend[calls], nQubits, unbiased);
    TotalSnoc(backend, nQubits, unbiased, calls);
  }

  lemma ShortStep(backend: seq<Measurement>, nQubits: nat, unbiased: bool, calls: nat, target: int)
    requires calls < |backend|
    requires forall j :: 0 <= j < calls ==> |Total(backend, nQubits, unbiased, j)| < target
    requires |Total(backend, nQubits, unbiased, calls)| < target
    ensures forall j :: 0 <= j < calls + 1 ==> |Total(backend, nQubits, unbiased, j)| < target
  {
  }

  /** With the whole supply short of the target there is no result. */
  lemma ExhaustedNone(backend: seq<Measurement>, nQubits: nat, unbiased: bool, target: int)
    requires |Total(backend, nQubits, unbiased, |backend|)| < target
    ensures Generated(backend, nQubits, unbiased, target) == None
  {
  }

  lemma TotalSnoc(rounds: seq<Measurement>, nQubits: nat, unbiased: bool, k: nat)
    requires k < |rounds|
    ensures Total(rounds, nQubits, unbiased, k + 1) == Total(rounds, nQubits, unbiased, k) + Contribution(rounds[k], nQubits, unbiased)
  {
    JoinSnoc(Contributions(rounds, nQubits, unbiased), k);
    ContributionsAt(rounds, nQubits, unbiased, k);
  }

  /** Once the first `k` rounds reach the target (and no round was needed
      for a non-positive target), the result is the target's prefix of
      them. */
  lemma GeneratedAt(backend: seq<Measurement>, nQubits: nat, unbiased: bool, k: nat, target: int)
    requires k <= |backend| && |Total(backend, nQubits, unbiased, k)| >= target
    requires target <= 0 ==> k == 0
    ensures Generated(backend, nQubits, unbiased, target) == Some(PyPrefix(Total(backend, nQubits, unbiased, k), target))
  {
    var ps := Contributions(backend, nQubits, unbiased);
    JoinPrefix(ps, k, |backend|);
    assert ps[..|backend|] == ps;
    var part, total := Total(backend, nQubits, unbiased, k), Total(backend, nQubits, unbiased, |backend|);
    if target > 0 {
      assert PyPrefix(part, target) == part[..target] == total[..target];
    }
  }

  /** `collected.append(part)`, as seen through the join. */
  function Append(collected: seq<string>, part: string): (c: seq<string>)
    ensures Join(c) == Join(collected) + part
  {
    assert (collected + [part])[..|collected|] == collected;
    collected + [part]
  }

  /** One round's raw bits: the backend's table (built from the sampled
      indices on the fast path), expanded and joined. */
  method MeasureRound(m: Measurement, nQubits: nat) returns (raw: string)
    ensures raw == Join(ExpandCounts(CountsOf(m, nQubits)))
  {
    var counts: Table;
    match m {
      case Direct(t) =>
        counts := t;
      case FastPath(ix) =>
        counts := CountsFromIndices(ix, nQubits);
    }
    var measured := BitsFromCounts(counts);
    raw := Join(measured);
  }

  /** A result has exactly `target` characters (none for a non-positive
      target) and is a prefix of the in-order contributions. */
  lemma GeneratedShape(backend: seq<Measurement>, nQubits: nat, unbiased: bool, target: int)
    requires Generated(backend, nQubits, unbiased, target).Some?
    ensures |Generated(backend, nQubits, unbiased, target).value| == if target <= 0 then 0 else target
    ensures Generated(backend, nQubits, unbiased, target).value <= Total(backend, nQubits, unbiased, |backend|)
  {
  }

  predicate BinaryKeys(t: Table)
  {
    forall i :: 0 <= i < |t| ==> IsBinary(t[i].0)
  }

  lemma ExpandCountsBinary(t: Table)
    requires BinaryKeys(t)
    ensures IsBinary(Join(ExpandCounts(t)))
  {
    var e := ExpandCounts(t);
    forall j | 0 <= j < |e|
      ensures IsBinary(e[j])
    {
      ExpandCountsElements(t, j);
      var i :| 0 <= i < |t| && e[j] == QiskitBitstringOrder(t[i].0);
      QiskitBitstringOrderBinary(t[i].0);
    }
    JoinBinary(e);
  }

  /** Fast-path keys are always binary. */
  lemma CountIndicesBinary(indices: seq<nat>, nQubits: nat)
    ensures BinaryKeys(CountIndices(indices, nQubits))
  {
    var t := CountIndices(indices, nQubits);
    forall i | 0 <= i < |t|
      ensures IsBinary(t[i].0)
    {
      assert HasKey(t, t[i].0);
      CountIndicesKeys(indices, nQubits, t[i].0);
    }
  }

  /** One round writes only `0` and `1`: always when `unbiased`, otherwise
      when the outcome keys are binary. */
  lemma ContributionBinary(m: Measurement, nQubits: nat, unbiased: bool)
    requires !unbiased && m.Direct? ==> BinaryKeys(m.counts)
    ensures IsBinary(Contribution(m, nQubits, unbiased))
  {
    var raw := Join(ExpandCounts(CountsOf(m, nQubits)));
    if unbiased {
      VonNeumannShape(raw);
    } else {
      if m.FastPath? {
        CountIndicesBinary(m.indices, nQubits);
      }
      ExpandCountsBinary(CountsOf(m, nQubits));
    }
  }

  /** Every character of the contributions is `0` or `1`: always when
      `unbiased` (the extractor only writes digits), and otherwise provided
      the direct runs' outcome keys are binary. */
  lemma TotalBinary(rounds: seq<Measurement>, nQubits: nat, unbiased: bool, k: nat)
    requires k <= |rounds|
    requires !unbiased ==> forall j :: 0 <= j < |rounds| && rounds[j].Direct? ==> BinaryKeys(rounds[j].counts)
    ensures IsBinary(Total(rounds, nQubits, unbiased, k))
  {
    var ps := Contributions(rounds, nQubits, unbiased)[..k];
    forall j | 0 <= j < k
      ensures IsBinary(ps[j])
    {
      ContributionsAt(rounds, nQubits, unbiased, j);
      ContributionBinary(rounds[j], nQubits, unbiased);
    }
    JoinBinary(ps);
  }

  /** The generated bits are binary under the same condition. */
  lemma GeneratedBinary(backend: seq<Measurement>, nQubits: nat, unbiased: bool, target: int)
    requires !unbiased ==> forall j :: 0 <= j < |backend| && backend[j].Direct? ==> BinaryKeys(backend[j].counts)
    requires Generated(backend, nQubits, unbiased, target).Some?
    ensures IsBinary(Generated(backend, nQubits, unbiased, target).value)
  {
    TotalBinary(backend, nQubits, unbiased, |backend|);
  }

  lemma ContributionLengthRaw(m: Measurement, nQubits: nat, shots: nat)
    requires WellFormedMeasurement(m, nQubits, shots)
    ensures |Contribution(m, nQubits, false)| == nQubits * shots
  {
    MeasurementShape(m, nQubits, shots);
    JoinLength(ExpandCounts(CountsOf(m, nQubits)), nQubits);
  }

  /** Without debiasing every round of `shots` well-formed `n`-qubit outcomes
      adds exactly `n * shots` bits. */
  lemma TotalLengthRaw(rounds: seq<Measurement>, nQubits: nat, shots: nat, k: nat)
    requires k <= |rounds|
    requires forall j :: 0 <= j < |rounds| ==> WellFormedMeasurement(rounds[j], nQubits, shots)
    ensures |Total(rounds, nQubits, false, k)| == k * (nQubits * shots)
  {
    var ps := Contributions(rounds, nQubits, false)[..k];
    forall j | 0 <= j < k
      ensures |ps[j]| == nQubits * shots
    {
      ContributionsAt(rounds, nQubits, false, j);
      ContributionLengthRaw(rounds[j], nQubits, shots);
    }
    JoinLength(ps, nQubits * shots);
  }

  /** Without debiasing the loop ends: once `n * shots >= 1`, `target`
      rounds always suffice. */
  lemma RawGenerationTerminates(backend: seq<Measurement>, nQubits: nat, shots: nat, target: int)
    requires forall j :: 0 <= j < |backend| ==> WellFormedMeasurement(backend[j], nQubits, shots)
    requires nQubits * shots >= 1 && |backend| >= target
    ensures Generated(backend, nQubits, false, target).Some?
  {
    TotalLengthRaw(backend, nQubits, shots, |backend|);
    AtLeastOnce(|backend|, nQubits * shots);
  }

  lemma AtLeastOnce(a: nat, w: nat)
    requires w >= 1
    ensures a * w >= a
  {
    assert a * w == a + a * (w - 1);
  }

  /** No pair of the string is `01` or `10`: the extractor has nothing to
      emit. */
  predicate Silent(s: string)
  {
    forall k :: 0 <= k < |s| / 2 ==> !Useful(Pairs(s)[k])
  }

  lemma {:induction false} UsefulCountZero(ps: seq<Window>, k: nat)
    requires k <= |ps|
    ensures UsefulCount(ps, k) == 0 <==> forall i :: 0 <= i < k ==> !Useful(ps[i])
    decreases k
  {
    if k > 0 {
      UsefulCountZero(ps, k - 1);
    }
  }

  /** A debiased round contributes nothing exactly when its raw bits pair up
      only as `00` and `11`; then `if extracted:` skips the append. */
  lemma ContributionSilent(m: Measurement, nQubits: nat)
    ensures Contribution(m, nQubits, true) == "" <==> Silent(RawBits(m, nQubits))
  {
    var raw := RawBits(m, nQubits);
    VonNeumannShape(raw);
    UsefulCountZero(Pairs(raw), |raw| / 2);
  }

  /** A backend stuck on outcomes without a `01` or `10` pair: with
      `unbiased`, no round ever appends anything, so no finite supply of
      rounds reaches a positive target (the source loops forever). */
  lemma StuckBackendNeverFinishes(backend: seq<Measurement>, nQubits: nat)
    requires forall j :: 0 <= j < |backend| ==> Silent(RawBits(backend[j], nQubits))
    ensures Total(backend, nQubits, true, |backend|) == ""
    ensures forall target :: target > 0 ==> Generated(backend, nQubits, true, target).None?
  {
    var ps := Contributions(backend, nQubits, true);
    forall j | 0 <= j < |ps|
      ensures |ps[j]| == 0
    {
      ContributionsAt(backend, nQubits, true, j);
      ContributionSilent(backend[j], nQubits);
    }
    JoinLength(ps, 0);
    assert ps[..|backend|] == ps;
  }

  /** Every character of `s` is `c`. */
  predicate AllChar(s: string, c: char)
  {
    forall i :: 0 <= i < |s| ==> s[i] == c
  }

  lemma {:induction false} JoinAllChar(parts: seq<string>, c: char)
    requires forall j :: 0 <= j < |parts| ==> AllChar(parts[j], c)
    ensures AllChar(Join(parts), c)
    decreases |parts|
  {
    if parts != [] {
      JoinAllChar(parts[..|parts| - 1], c);
    }
  }

  /** One way to be stuck: every measured key is all zeros, or every one is
      all ones (a qubit register frozen in one state). */
  lemma UniformKeysSilent(m: Measurement, nQubits: nat, c: char)
    requires forall i :: 0 <= i < |CountsOf(m, nQubits)| ==> AllChar(CountsOf(m, nQubits)[i].0, c)
    ensures Silent(RawBits(m, nQubits))
  {
    var t := CountsOf(m, nQubits);
    var e := ExpandCounts(t);
    forall j | 0 <= j < |e|
      ensures AllChar(e[j], c)
    {
      ExpandCountsElements(t, j);
      var i :| 0 <= i < |t| && e[j] == QiskitBitstringOrder(t[i].0);
      forall n | 0 <= n < |e[j]|
        ensures e[j][n] == c
      {
        QiskitBitstringOrderAt(t[i].0, n);
      }
    }
    JoinAllChar(e, c);
  }

  // ---------------------------------------------------------------------------
  // random_int_from_bits

  /** `random_int_from_bits` is `int(bitstr, 2)`, i.e. `ParseBinary` under
      the runner's name: the big-endian value, or `None` where Python raises
      `ValueError` (empty input, a character other than `0`/`1`). */
  function RandomIntFromBits(s: string): (r: Option<nat>)
    ensures r.Some? <==> s != [] && IsBinary(s)
    ensures r.Some? ==> r.value < Pow2(|s|)
  {
    ParseBinary(s)
  }

  /** Leading zeros do not matter, `k` ones give `2^k - 1`, `k` zeros give 0. */
  lemma RandomIntFromBitsFacts(k: nat, s: string)
    requires k >= 1
    ensures s != [] && IsBinary(s) ==> RandomIntFromBits(Zeros(k) + s) == RandomIntFromBits(s)
    ensures RandomIntFromBits(Ones(k)) == Some(Pow2(k) - 1)
    ensures RandomIntFromBits(Zeros(k)) == Some(0)
  {
    LeadingZeros(k, s);
    AllOnes(k);
    AllZeros(k);
  }

  lemma RandomIntFromBitsExamples()
    ensures RandomIntFromBits("10") == Some(2) && RandomIntFromBits("100") == Some(4)
    ensures RandomIntFromBits("10000000") == Some(128) && RandomIntFromBits("0010") == Some(2)
    ensures RandomIntFromBits("") == None
  {
    assert "10000000"[..7] == "1000000";
    assert "1000000"[..6] == "100000";
    assert "100000"[..5] == "10000";
    assert "10000"[..4] == "1000";
    assert "1000"[..3] == "100";
    assert "100"[..2] == "10";
    assert "10"[..1] == "1";
    assert "0010"[..3] == "001";
    assert "001"[..2] == "00";
    assert "00"[..1] == "0";
  }
}
