/** The transpile cache and the probability-sampling fast path's count
    aggregation (qrng/circuit.py). Building circuits, transpiling them and
    running them on the simulator belong to Qiskit and are not modelled: a
    circuit is given by the structural summary the cache key reads, and the
    fast path starts from the indices that sampling drew. */
module Circuit {
  import opened Common
  import opened Binary
  import opened Utils

  /** A circuit as the cache sees it: qubit and classical-bit counts, depth
      and the operation counts of `count_ops()`, plus its instructions, which
      the key does not look at. */
  datatype QuantumCircuit = QuantumCircuit(
    numQubits: nat,
    numClbits: nat,
    depth: nat,
    opCounts: map<string, nat>,
    instructions: seq<(string, seq<nat>)>)

  /** `(num_qubits, num_clbits, depth, tuple(sorted(count_ops().items())),
      optimization_level)`. Operation names are distinct, so the sorted tuple
      of items is determined by, and determines, the name-to-count map. */
  datatype CacheKey = CacheKey(
    numQubits: nat,
    numClbits: nat,
    depth: nat,
    ops: map<string, nat>,
    optimizationLevel: int)

  function KeyOf(qc: QuantumCircuit, optimizationLevel: int): (k: CacheKey)
    ensures k.optimizationLevel == optimizationLevel
  {
    CacheKey(qc.numQubits, qc.numClbits, qc.depth, qc.opCounts, optimizationLevel)
  }

  /** Circuits with the same summary and level share a key, whatever their
      instructions: the cache treats them as one. */
  lemma KeyIgnoresInstructions(qc: QuantumCircuit, other: seq<(string, seq<nat>)>, level: int)
    ensures KeyOf(qc.(instructions := other), level) == KeyOf(qc, level)
  {
  }

  /** The result of Qiskit's `transpile`, left opaque: it records only what
      was transpiled and at which level. */
  datatype Transpiled = Transpiled(source: QuantumCircuit, optimizationLevel: int)

  function Transpile(qc: QuantumCircuit, optimizationLevel: int): Transpiled
  {
    Transpiled(qc, optimizationLevel)
  }

  /** `_TRANSPILED_CACHE`: a dictionary that is only ever added to. The ghost
      `transpiled` lists the keys in the order they were compiled, one entry
      per call of `transpile`. */
  class TranspileCache {
    var entries: map<CacheKey, Transpiled>
    ghost var transpiled: seq<CacheKey>

    ghost predicate Valid()
      reads this
    {
      Distinct(transpiled) &&
      (forall k :: k in entries <==> k in transpiled) &&
      (forall k :: k in entries ==> KeyOf(entries[k].source, entries[k].optimizationLevel) == k)
    }

    /** How many times `transpile` has run. */
    ghost function TranspileCount(): nat
      reads this
    {
      |transpiled|
    }

    constructor ()
      ensures Valid() && entries == map[] && transpiled == []
    {
      entries := map[];
      transpiled := [];
    }

    /** Lines 55-61 of `run_circuit_and_get_counts`: look the key up; on a miss
        transpile once and store; on a hit return the stored circuit. */
    method GetTranspiled(qc: QuantumCircuit, optimizationLevel: int) returns (t: Transpiled)
      requires Valid()
      modifies this
      ensures Valid()
      ensures KeyOf(qc, optimizationLevel) in entries && t == entries[KeyOf(qc, optimizationLevel)]
      ensures KeyOf(qc, optimizationLevel) in old(entries) ==>
        entries == old(entries) && transpiled == old(transpiled)
      ensures KeyOf(qc, optimizationLevel) !in old(entries) ==>
        t == Transpile(qc, optimizationLevel) &&
        entries == old(entries)[KeyOf(qc, optimizationLevel) := t] &&
        transpiled == old(transpiled) + [KeyOf(qc, optimizationLevel)]
      ensures forall k :: k in old(entries) ==> k in entries && entries[k] == old(entries)[k]
    {
      var key := KeyOf(qc, optimizationLevel);
      if key in entries {
        t := entries[key];
      } else {
        t := Transpile(qc, optimizationLevel);
        entries := entries[key := t];
        transpiled := transpiled + [key];
      }
    }

    /** Two requests for the same key cause at most one transpilation, and
        exactly one when the cache did not hold the key; both get the same
        circuit. */
    method GetTranspiledTwice(qc: QuantumCircuit, again: QuantumCircuit, optimizationLevel: int)
      returns (first: Transpiled, second: Transpiled)
      requires Valid()
      requires KeyOf(again, optimizationLevel) == KeyOf(qc, optimizationLevel)
      modifies this
      ensures Valid() && first == second
      ensures TranspileCount() == old(TranspileCount()) +
        (if KeyOf(qc, optimizationLevel) in old(entries) then 0 else 1)
    {
      first := GetTranspiled(qc, optimizationLevel);
      second := GetTranspiled(again, optimizationLevel);
    }

    /** In a consistent cache every stored key was compiled exactly once: the
        number of `transpile` calls equals the number of entries. */
    lemma OneTranspilePerKey()
      requires Valid()
      ensures TranspileCount() == |entries|
    {
      DistinctCardinality(transpiled);
      assert entries.Keys == set k | k in transpiled;
    }
  }

  predicate Distinct<T(==)>(xs: seq<T>)
  {
    forall i, j :: 0 <= i < j < |xs| ==> xs[i] != xs[j]
  }

  /** A list without repetitions has as many distinct elements as entries. */
  lemma {:induction false} DistinctCardinality<T>(xs: seq<T>)
    requires Distinct(xs)
    ensures |set x | x in xs| == |xs|
    decreases |xs|
  {
    if xs != [] {
      var front := xs[..|xs| - 1];
      DistinctCardinality(front);
      assert (set x | x in xs) == (set x | x in front) + {xs[|xs| - 1]};
    }
  }

  // ---------------------------------------------------------------------------
  // Fast path: counts from sampled indices (lines 77-81)

  predicate HasKey(t: Table, k: string)
  {
    exists i :: 0 <= i < |t| && t[i].0 == k
  }

  /** `counts.get(k, 0)`. */
  function Lookup(t: Table, k: string): nat
  {
    if t == [] then 0
    else if t[|t| - 1].0 == k then t[|t| - 1].1
    else Lookup(t[..|t| - 1], k)
  }

  function Replace(t: Table, k: string, v: nat): (r: Table)
  {
    seq(|t|, i requires 0 <= i < |t| => if t[i].0 == k then (k, v) else t[i])
  }

  /** `counts[k] = v`: an existing key keeps its place, a new key goes last. */
  function Store(t: Table, k: string, v: nat): Table
  {
    if HasKey(t, k) then Replace(t, k, v) else t + [(k, v)]
  }

  lemma {:induction false} LookupAbsent(t: Table, k: string)
    requires !HasKey(t, k)
    ensures Lookup(t, k) == 0
    decreases |t|
  {
    if t != [] {
      LookupAbsent(t[..|t| - 1], k);
    }
  }

  lemma {:induction false} LookupReplace(t: Table, k: string, v: nat, k': string)
    ensures Lookup(Replace(t, k, v), k') == if k' == k && HasKey(t, k) then v else Lookup(t, k')
    decreases |t|
  {
    if t != [] {
      var front := t[..|t| - 1];
      assert Replace(t, k, v)[..|t| - 1] == Replace(front, k, v);
      LookupReplace(front, k, v, k');
      if k' == k && !HasKey(front, k) && t[|t| - 1].0 != k {
        assert !HasKey(t, k);
      }
    } else {
      assert Replace(t, k, v) == [];
    }
  }

  /** Reading back after `counts[k] = v`. */
  lemma LookupStore(t: Table, k: string, v: nat, k': string)
    ensures Lookup(Store(t, k, v), k') == if k' == k then v else Lookup(t, k')
  {
    if HasKey(t, k) {
      LookupReplace(t, k, v, k');
    } else {
      assert (t + [(k, v)])[..|t|] == t;
    }
  }

  lemma StoreKeys(t: Table, k: string, v: nat)
    requires DistinctKeys(t)
    ensures DistinctKeys(Store(t, k, v))
    ensures forall k' :: HasKey(Store(t, k, v), k') <==> HasKey(t, k') || k' == k
  {
    var s := Store(t, k, v);
    if HasKey(t, k) {
      assert forall i :: 0 <= i < |t| ==> s[i].0 == t[i].0;
    } else {
      assert forall i :: 0 <= i < |t| ==> s[i] == t[i];
      assert s[|t|].0 == k;
    }
  }

  lemma {:induction false} ReplaceAbsent(t: Table, k: string, v: nat)
    requires !HasKey(t, k)
    ensures Replace(t, k, v) == t
  {
  }

  lemma {:induction false} SumCountsReplace(t: Table, k: string, v: nat)
    requires DistinctKeys(t) && HasKey(t, k)
    ensures SumCounts(Replace(t, k, v)) + Lookup(t, k) == SumCounts(t) + v
    decreases |t|
  {
    var front, last := t[..|t| - 1], t[|t| - 1];
    var r := Replace(t, k, v);
    assert r[..|t| - 1] == Replace(front, k, v);
    if last.0 == k {
      assert !HasKey(front, k);
      ReplaceAbsent(front, k, v);
    } else {
      var i :| 0 <= i < |t| && t[i].0 == k;
      assert front[i].0 == k;
      SumCountsReplace(front, k, v);
    }
  }

  /** `counts[k] = counts.get(k, 0) + 1` adds one to the total. */
  lemma SumCountsBump(t: Table, k: string)
    requires DistinctKeys(t)
    ensures SumCounts(Bump(t, k)) == SumCounts(t) + 1
  {
    if HasKey(t, k) {
      SumCountsReplace(t, k, Lookup(t, k) + 1);
    } else {
      LookupAbsent(t, k);
      var r := t + [(k, 1)];
      assert Bump(t, k) == r;
      assert r[..|t|] == t;
    }
  }

  /** `counts[k] = counts.get(k, 0) + 1`. */
  function Bump(t: Table, k: string): Table
  {
    Store(t, k, Lookup(t, k) + 1)
  }

  /** The table built from the sampled indices, one increment per index. */
  function CountIndices(indices: seq<nat>, numQubits: nat): Table
  {
    if indices == [] then []
    else Bump(CountIndices(indices[..|indices| - 1], numQubits), FormatBinary(indices[|indices| - 1], numQubits))
  }

  /** `counts = {}; for idx in indices: bitstr = format(int(idx), f"0{n}b");
      counts[bitstr] = counts.get(bitstr, 0) + 1`. */
  method CountsFromIndices(indices: seq<nat>, numQubits: nat) returns (counts: Table)
    ensures counts == CountIndices(indices, numQubits)
  {
    counts := [];
    var i := 0;
    while i < |indices|
      invariant 0 <= i <= |indices|
      invariant counts == CountIndices(indices[..i], numQubits)
    {
      var bitstr := FormatBinary(indices[i], numQubits);
      assert indices[..i + 1][..i] == indices[..i];
      counts := Store(counts, bitstr, Lookup(counts, bitstr) + 1);
      i := i + 1;
    }
    assert indices[..i] == indices;
  }

  /** The fast-path table is a dictionary whose counts add up to the number
      of samples (`shots`). */
  lemma {:induction false} CountIndicesTotal(indices: seq<nat>, numQubits: nat)
    ensures DistinctKeys(CountIndices(indices, numQubits))
    ensures SumCounts(CountIndices(indices, numQubits)) == |indices|
    decreases |indices|
  {
    if indices != [] {
      var front := indices[..|indices| - 1];
      CountIndicesTotal(front, numQubits);
      var counts := CountIndices(front, numQubits);
      var key := FormatBinary(indices[|indices| - 1], numQubits);
      BumpTotal(counts, key);
    }
  }

  /** One more sample keeps the keys distinct and adds one to the total. */
  lemma BumpTotal(t: Table, k: string)
    requires DistinctKeys(t)
    ensures DistinctKeys(Bump(t, k))
    ensures SumCounts(Bump(t, k)) == SumCounts(t) + 1
  {
    StoreKeys(t, k, Lookup(t, k) + 1);
    SumCountsBump(t, k);
  }

  /** Every fast-path key is the zero-padded binary form of a sampled index. */
  lemma {:induction false} CountIndicesKeys(indices: seq<nat>, numQubits: nat, k: string)
    requires HasKey(CountIndices(indices, numQubits), k)
    ensures exists j :: 0 <= j < |indices| && k == FormatBinary(indices[j], numQubits)
    decreases |indices|
  {
    var front := indices[..|indices| - 1];
    var counts := CountIndices(front, numQubits);
    var key := FormatBinary(indices[|indices| - 1], numQubits);
    CountIndicesTotal(front, numQubits);
    StoreKeys(counts, key, Lookup(counts, key) + 1);
    if k != key {
      CountIndicesKeys(front, numQubits, k);
      var j :| 0 <= j < |front| && k == FormatBinary(front[j], numQubits);
      assert k == FormatBinary(indices[j], numQubits);
    }
  }

  /** The count under an index's key is how often that index was drawn. */
  lemma {:induction false} CountIndicesLookup(indices: seq<nat>, numQubits: nat, n: nat)
    ensures Lookup(CountIndices(indices, numQubits), FormatBinary(n, numQubits)) == multiset(indices)[n]
    decreases |indices|
  {
    if indices != [] {
      var front, last := indices[..|indices| - 1], indices[|indices| - 1];
      var k := FormatBinary(n, numQubits);
      CountIndicesLookup(front, numQubits, n);
      CountIndicesSnoc(indices, numQubits, k);
      if k == FormatBinary(last, numQubits) {
        FormatBinaryInjective(n, last, numQubits);
      }
      MultisetSnoc(indices, n);
    }
  }

  /** One more sampled index adds one under its own key only. */
  lemma CountIndicesSnoc(indices: seq<nat>, numQubits: nat, k: string)
    requires indices != []
    ensures Lookup(CountIndices(indices, numQubits), k) ==
      Lookup(CountIndices(indices[..|indices| - 1], numQubits), k) +
      if k == FormatBinary(indices[|indices| - 1], numQubits) then 1 else 0
  {
    var counts := CountIndices(indices[..|indices| - 1], numQubits);
    var key := FormatBinary(indices[|indices| - 1], numQubits);
    BumpLookup(counts, key, k);
  }

  lemma MultisetSnoc(xs: seq<nat>, n: nat)
    requires xs != []
    ensures multiset(xs)[n] == multiset(xs[..|xs| - 1])[n] + if xs[|xs| - 1] == n then 1 else 0
  {
    assert xs == xs[..|xs| - 1] + [xs[|xs| - 1]];
  }

  /** `counts[key] = counts.get(key, 0) + 1` adds one under `key` only. */
  lemma BumpLookup(counts: Table, key: string, k: string)
    ensures Lookup(Bump(counts, key), k) ==
      Lookup(counts, k) + (if k == key then 1 else 0)
  {
    LookupStore(counts, key, Lookup(counts, key) + 1, k);
  }

  /** When every sampled index is below `2^n` (`np.random.choice` over the
      `2^n` amplitudes of an `n`-qubit state, `n >= 1`), the fast path yields a
      table of `n`-digit binary keys whose counts add up to the shots. */
  lemma CountIndicesWellFormed(indices: seq<nat>, numQubits: nat)
    requires numQubits >= 1
    requires forall j :: 0 <= j < |indices| ==> indices[j] < Pow2(numQubits)
    ensures WellFormedTable(CountIndices(indices, numQubits), numQubits, |indices|)
  {
    CountIndicesTotal(indices, numQubits);
    var t := CountIndices(indices, numQubits);
    forall i | 0 <= i < |t|
      ensures |t[i].0| == numQubits && IsBinary(t[i].0)
    {
      assert HasKey(t, t[i].0);
      CountIndicesKeys(indices, numQubits, t[i].0);
      var j :| 0 <= j < |indices| && t[i].0 == FormatBinary(indices[j], numQubits);
      FormatBinaryCorrect(indices[j], numQubits);
    }
  }
}
