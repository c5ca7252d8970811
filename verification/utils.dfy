/** Bit-order normalisation, expansion of an outcome table and the Von
    Neumann extractor (qrng/utils.py). */
module Utils {
  import opened Common

  /** An outcome table as the backend returns it: a dictionary from outcome
      bitstring to count, kept as its items in insertion order. */
  type Table = seq<(string, nat)>

  /** Dictionary keys are distinct. */
  predicate DistinctKeys(t: Table)
  {
    forall i, j :: 0 <= i < j < |t| ==> t[i].0 != t[j].0
  }

  function SumCounts(t: Table): nat
  {
    if t == [] then 0 else SumCounts(t[..|t| - 1]) + t[|t| - 1].1
  }

  // ---------------------------------------------------------------------------
  // qiskit_bitstring_order

  /** `bitstr[::-1]`: the backend writes qubit 0 rightmost; reversing gives
      most-significant-bit-first order. */
  function QiskitBitstringOrder(s: string): (r: string)
    ensures |r| == |s|
  {
    if s == [] then [] else [s[|s| - 1]] + QiskitBitstringOrder(s[..|s| - 1])
  }

  lemma {:induction false} QiskitBitstringOrderAt(s: string, i: nat)
    requires i < |s|
    ensures QiskitBitstringOrder(s)[i] == s[|s| - 1 - i]
    decreases |s|
  {
    if i > 0 {
      QiskitBitstringOrderAt(s[..|s| - 1], i - 1);
    }
  }

  /** Normalising twice gives back the original string. */
  lemma QiskitBitstringOrderInvolution(s: string)
    ensures QiskitBitstringOrder(QiskitBitstringOrder(s)) == s
  {
    var r := QiskitBitstringOrder(s);
    forall i | 0 <= i < |s|
      ensures QiskitBitstringOrder(r)[i] == s[i]
    {
      QiskitBitstringOrderAt(r, i);
      QiskitBitstringOrderAt(s, |s| - 1 - i);
    }
  }

  lemma QiskitBitstringOrderInjective(a: string, b: string)
    requires QiskitBitstringOrder(a) == QiskitBitstringOrder(b)
    ensures a == b
  {
    QiskitBitstringOrderInvolution(a);
    QiskitBitstringOrderInvolution(b);
  }

  lemma QiskitBitstringOrderBinary(s: string)
    requires IsBinary(s)
    ensures IsBinary(QiskitBitstringOrder(s))
  {
    forall i | 0 <= i < |s|
      ensures QiskitBitstringOrder(s)[i] == '0' || QiskitBitstringOrder(s)[i] == '1'
    {
      QiskitBitstringOrderAt(s, i);
    }
  }

  // ---------------------------------------------------------------------------
  // bits_from_counts

  function Repeat(x: string, n: nat): (r: seq<string>)
    ensures |r| == n
    ensures forall j :: 0 <= j < n ==> r[j] == x
  {
    seq(n, _ => x)
  }

  /** The table expanded: for each item in order, its reversed key `count`
      times. */
  function ExpandCounts(t: Table): (r: seq<string>)
    ensures |r| == SumCounts(t)
  {
    if t == [] then []
    else ExpandCounts(t[..|t| - 1]) + Repeat(QiskitBitstringOrder(t[|t| - 1].0), t[|t| - 1].1)
  }

  /** `out = []; for raw, cnt in counts.items(): out.extend([order(raw)] * cnt)`. */
  method BitsFromCounts(counts: Table) returns (out: seq<string>)
    ensures out == ExpandCounts(counts)
  {
    out := [];
    var i := 0;
    while i < |counts|
      invariant 0 <= i <= |counts|
      invariant out == ExpandCounts(counts[..i])
    {
      var (raw, cnt) := counts[i];
      assert counts[..i + 1][..i] == counts[..i];
      out := out + Repeat(QiskitBitstringOrder(raw), cnt);
      i := i + 1;
    }
    assert counts[..i] == counts;
  }

  /** Each key's reversal occurs exactly `count` times in the expansion. */
  lemma {:induction false} ExpandCountsOccurrences(t: Table, i: nat)
    requires DistinctKeys(t) && i < |t|
    ensures multiset(ExpandCounts(t))[QiskitBitstringOrder(t[i].0)] == t[i].1
    decreases |t|
  {
    var last := t[|t| - 1];
    var x := QiskitBitstringOrder(t[i].0);
    var rep := Repeat(QiskitBitstringOrder(last.0), last.1);
    assert ExpandCounts(t) == ExpandCounts(t[..|t| - 1]) + rep;
    RepeatOccurrences(QiskitBitstringOrder(last.0), last.1, x);
    if i == |t| - 1 {
      ExpandCountsAbsent(t[..|t| - 1], t[i].0);
    } else {
      if QiskitBitstringOrder(last.0) == x {
        QiskitBitstringOrderInjective(last.0, t[i].0);
      }
      ExpandCountsOccurrences(t[..|t| - 1], i);
    }
  }

  /** A reversed string that is no key's reversal does not occur. */
  lemma {:induction false} ExpandCountsAbsent(t: Table, k: string)
    requires forall j :: 0 <= j < |t| ==> t[j].0 != k
    ensures multiset(ExpandCounts(t))[QiskitBitstringOrder(k)] == 0
    decreases |t|
  {
    if t != [] {
      var last := t[|t| - 1];
      if QiskitBitstringOrder(last.0) == QiskitBitstringOrder(k) {
        QiskitBitstringOrderInjective(last.0, k);
      }
      RepeatOccurrences(QiskitBitstringOrder(last.0), last.1, QiskitBitstringOrder(k));
      ExpandCountsAbsent(t[..|t| - 1], k);
    }
  }

  lemma {:induction false} RepeatOccurrences(x: string, n: nat, y: string)
    ensures multiset(Repeat(x, n))[y] == if x == y then n else 0
    decreases n
  {
    if n > 0 {
      assert Repeat(x, n) == Repeat(x, n - 1) + [x];
      RepeatOccurrences(x, n - 1, y);
    }
  }

  /** Every element of the expansion is the reversal of some key. */
  lemma {:induction false} ExpandCountsElements(t: Table, j: nat)
    requires j < |ExpandCounts(t)|
    ensures exists i :: 0 <= i < |t| && ExpandCounts(t)[j] == QiskitBitstringOrder(t[i].0)
    decreases |t|
  {
    var front := ExpandCounts(t[..|t| - 1]);
    if j < |front| {
      ExpandCountsElements(t[..|t| - 1], j);
      var i :| 0 <= i < |t| - 1 && front[j] == QiskitBitstringOrder(t[..|t| - 1][i].0);
      assert ExpandCounts(t)[j] == QiskitBitstringOrder(t[i].0);
    } else {
      assert ExpandCounts(t)[j] == QiskitBitstringOrder(t[|t| - 1].0);
    }
  }

  /** A table whose keys are `w`-digit binary strings and whose counts sum to
      `shots` expands to `shots` binary strings of `w` digits. */
  predicate WellFormedTable(t: Table, w: nat, shots: nat)
  {
    DistinctKeys(t) && SumCounts(t) == shots &&
    forall i :: 0 <= i < |t| ==> |t[i].0| == w && IsBinary(t[i].0)
  }

  lemma ExpandCountsShape(t: Table, w: nat, shots: nat)
    requires WellFormedTable(t, w, shots)
    ensures |ExpandCounts(t)| == shots
    ensures forall j :: 0 <= j < shots ==>
      |ExpandCounts(t)[j]| == w && IsBinary(ExpandCounts(t)[j])
  {
    forall j | 0 <= j < shots
      ensures |ExpandCounts(t)[j]| == w && IsBinary(ExpandCounts(t)[j])
    {
      ExpandCountsElements(t, j);
      var i :| 0 <= i < |t| && ExpandCounts(t)[j] == QiskitBitstringOrder(t[i].0);
      QiskitBitstringOrderBinary(t[i].0);
    }
  }

  // ---------------------------------------------------------------------------
  // von_neumann_unbias

  /** A two-character window `bitstr[i:i+2]`, as its two characters. */
  type Window = (char, char)

  /** The non-overlapping two-character windows at even offsets; a trailing
      odd character belongs to none. */
  function Pairs(s: string): (ps: seq<Window>)
    ensures |ps| == |s| / 2
    ensures forall k :: 0 <= k < |ps| ==> ps[k] == (s[2 * k], s[2 * k + 1])
  {
    if |s| < 2 then [] else [(s[0], s[1])] + Pairs(s[2..])
  }

  /** What window `i` contributes, as the code is written: `01` gives `0`;
      `10` gives `1`, except `0` when window `i - 1` is also `10`; `00`,
      `11` (and any other window) give nothing. */
  function Emit(ps: seq<Window>, i: nat): string
    requires i < |ps|
  {
    if ps[i] == ('0', '1') then "0"
    else if ps[i] == ('1', '0') then (if i > 0 && ps[i - 1] == ('1', '0') then "0" else "1")
    else ""
  }

  /** Output of the first `k` windows. */
  function EmitPrefix(ps: seq<Window>, k: nat): string
    requires k <= |ps|
  {
    if k == 0 then "" else EmitPrefix(ps, k - 1) + Emit(ps, k - 1)
  }

  /** `von_neumann_unbias` as written. */
  function VonNeumann(s: string): string
  {
    EmitPrefix(Pairs(s), |s| / 2)
  }

  /** The first loop collects the windows (each `bitstr[i:i+2]` kept as its
      two characters); the second emits per window, looking back at the
      previous window. The output list of one-character strings is kept
      already joined. */
  method VonNeumannUnbias(bitstr: string) returns (r: string)
    ensures r == VonNeumann(bitstr)
  {
    var pairs: seq<Window> := [];
    var i := 0;
    while i < |bitstr| - 1
      invariant i % 2 == 0 && 0 <= i <= |bitstr| && |pairs| == i / 2
      invariant forall k :: 0 <= k < |pairs| ==> pairs[k] == (bitstr[2 * k], bitstr[2 * k + 1])
    {
      pairs := pairs + [(bitstr[i], bitstr[i + 1])];
      i := i + 2;
    }
    assert pairs == Pairs(bitstr);

    r := "";
    var idx := 0;
    while idx < |pairs|
      invariant 0 <= idx <= |pairs|
      invariant r == EmitPrefix(pairs, idx)
    {
      var pair := pairs[idx];
      if pair == ('0', '1') {
        r := r + "0";
      } else if pair == ('1', '0') {
        if idx > 0 && pairs[idx - 1] == ('1', '0') {
          r := r + "0";
        } else {
          r := r + "1";
        }
      }
      idx := idx + 1;
    }
  }

  /** Whether a window produces output at all. */
  predicate Useful(p: Window)
  {
    p == ('0', '1') || p == ('1', '0')
  }

  function UsefulCount(ps: seq<Window>, k: nat): (n: nat)
    requires k <= |ps|
    ensures n <= k
  {
    if k == 0 then 0 else UsefulCount(ps, k - 1) + (if Useful(ps[k - 1]) then 1 else 0)
  }

  lemma {:induction false} EmitPrefixShape(ps: seq<Window>, k: nat)
    requires k <= |ps|
    ensures |EmitPrefix(ps, k)| == UsefulCount(ps, k)
    ensures IsBinary(EmitPrefix(ps, k))
    decreases k
  {
    if k > 0 {
      EmitPrefixShape(ps, k - 1);
    }
  }

  /** The output has one binary digit per `01` or `10` window, so it is at
      most half as long as the input. */
  lemma VonNeumannShape(s: string)
    ensures |VonNeumann(s)| == UsefulCount(Pairs(s), |s| / 2) <= |s| / 2
    ensures IsBinary(VonNeumann(s))
  {
    EmitPrefixShape(Pairs(s), |s| / 2);
  }

  lemma {:induction false} PairsSnoc(s: string, a: char, b: char)
    requires |s| % 2 == 0
    ensures Pairs(s + [a, b]) == Pairs(s) + [(a, b)]
  {
    var l, r := Pairs(s + [a, b]), Pairs(s) + [(a, b)];
    assert forall k :: 0 <= k < |l| ==> l[k] == r[k];
  }

  /** Only complete windows are read: a trailing odd character is ignored. */
  lemma {:induction false} TrailingBitIgnored(s: string, c: char)
    requires |s| % 2 == 0
    ensures VonNeumann(s + [c]) == VonNeumann(s)
  {
    var l, r := Pairs(s + [c]), Pairs(s);
    assert forall k :: 0 <= k < |l| ==> l[k] == r[k];
    assert l == r;
  }

  lemma {:induction false} EmitPrefixExtend(ps: seq<Window>, q: seq<Window>, k: nat)
    requires k <= |ps|
    ensures EmitPrefix(ps + q, k) == EmitPrefix(ps, k)
    decreases k
  {
    if k > 0 {
      EmitPrefixExtend(ps, q, k - 1);
    }
  }

  /** Appending one window to an even-length input appends that window's
      output: `01` always gives `0`, `00` and `11` give nothing, and `10`
      gives `0` exactly when the input already ends in a `10` window. */
  lemma {:induction false} VonNeumannSnoc(s: string, a: char, b: char)
    requires |s| % 2 == 0
    ensures (a, b) == ('0', '1') ==> VonNeumann(s + [a, b]) == VonNeumann(s) + "0"
    ensures a == b ==> VonNeumann(s + [a, b]) == VonNeumann(s)
    ensures (a, b) == ('1', '0') ==>
      VonNeumann(s + [a, b]) == VonNeumann(s) + (if |s| >= 2 && s[|s| - 2] == '1' && s[|s| - 1] == '0' then "0" else "1")
  {
    var ps := Pairs(s);
    PairsSnoc(s, a, b);
    EmitPrefixExtend(ps, [(a, b)], |ps|);
    assert VonNeumann(s + [a, b]) == EmitPrefix(ps, |ps|) + Emit(ps + [(a, b)], |ps|);
  }

  /** Single windows: `01` gives `0`, `10` gives `1`, `00` and `11` nothing. */
  lemma VonNeumannSingleWindows()
    ensures VonNeumann("01") == "0" && VonNeumann("10") == "1"
    ensures VonNeumann("00") == "" && VonNeumann("11") == ""
  {
    assert Pairs("01") == [('0', '1')];
    assert Pairs("10") == [('1', '0')];
    assert Pairs("00") == [('0', '0')];
    assert Pairs("11") == [('1', '1')];
  }

  lemma VonNeumannMixedExample()
    ensures VonNeumann("01100011") == "01"
  {
    var ps := Pairs("01100011");
    assert ps == [('0', '1'), ('1', '0'), ('0', '0'), ('1', '1')];
    assert EmitPrefix(ps, 2) == "01";
    assert EmitPrefix(ps, 3) == "01";
  }

  /** The consecutive-`10` quirk: `01 01 10 10` gives `0010`, not `0011`. */
  lemma VonNeumannConsecutiveTenExample()
    ensures VonNeumann("01011010") == "0010"
  {
    var ps := Pairs("01011010");
    assert ps == [('0', '1'), ('0', '1'), ('1', '0'), ('1', '0')];
    assert EmitPrefix(ps, 2) == "00";
    assert EmitPrefix(ps, 3) == "001";
  }

  // ---------------------------------------------------------------------------
  // The textbook Von Neumann extractor, for comparison

  /** `01` gives `0`, `10` gives `1`, whatever came before. */
  function TextbookEmit(p: Window): string
  {
    if p == ('0', '1') then "0" else if p == ('1', '0') then "1" else ""
  }

  function TextbookPrefix(ps: seq<Window>, k: nat): string
    requires k <= |ps|
  {
    if k == 0 then "" else TextbookPrefix(ps, k - 1) + TextbookEmit(ps[k - 1])
  }

  function Textbook(s: string): string
  {
    TextbookPrefix(Pairs(s), |s| / 2)
  }

  /** Two adjacent windows that are both `10`. */
  predicate DoubleTen(ps: seq<Window>, i: nat)
  {
    1 <= i < |ps| && ps[i - 1] == ('1', '0') && ps[i] == ('1', '0')
  }

  /** No two adjacent windows are both `10`. */
  predicate NoDoubleTen(ps: seq<Window>)
  {
    forall i :: 0 <= i < |ps| ==> !DoubleTen(ps, i)
  }

  lemma {:induction false} PrefixesAgree(ps: seq<Window>, k: nat)
    requires k <= |ps|
    requires forall i :: 0 <= i < k ==> !DoubleTen(ps, i)
    ensures EmitPrefix(ps, k) == TextbookPrefix(ps, k)
    decreases k
  {
    if k > 0 {
      assert !DoubleTen(ps, k - 1);
      PrefixesAgree(ps, k - 1);
    }
  }

  lemma {:induction false} TextbookPrefixLength(ps: seq<Window>, k: nat)
    requires k <= |ps|
    ensures |TextbookPrefix(ps, k)| == UsefulCount(ps, k)
    decreases k
  {
    if k > 0 {
      TextbookPrefixLength(ps, k - 1);
    }
  }

  lemma {:induction false} EmitPrefixMonotone(ps: seq<Window>, k: nat, n: nat)
    requires k <= n <= |ps|
    ensures EmitPrefix(ps, k) <= EmitPrefix(ps, n)
    ensures TextbookPrefix(ps, k) <= TextbookPrefix(ps, n)
    decreases n
  {
    if k < n {
      EmitPrefixMonotone(ps, k, n - 1);
    }
  }

  /** At a `10` window that follows a `10` window the code writes `0`, at
      the output position given by the useful windows before it. */
  lemma EmitZeroAt(ps: seq<Window>, i: nat)
    requires DoubleTen(ps, i)
    ensures UsefulCount(ps, i) < |EmitPrefix(ps, |ps|)|
    ensures EmitPrefix(ps, |ps|)[UsefulCount(ps, i)] == '0'
  {
    EmitPrefixShape(ps, i);
    var e := EmitPrefix(ps, i + 1);
    assert e == EmitPrefix(ps, i) + "0";
    EmitPrefixMonotone(ps, i + 1, |ps|);
  }

  /** The textbook rule writes `1` at that same position. */
  lemma TextbookOneAt(ps: seq<Window>, i: nat)
    requires DoubleTen(ps, i)
    ensures UsefulCount(ps, i) < |TextbookPrefix(ps, |ps|)|
    ensures TextbookPrefix(ps, |ps|)[UsefulCount(ps, i)] == '1'
  {
    TextbookPrefixLength(ps, i);
    var t := TextbookPrefix(ps, i + 1);
    assert t == TextbookPrefix(ps, i) + "1";
    EmitPrefixMonotone(ps, i + 1, |ps|);
  }

  /** So a single double `10` makes the two outputs differ. */
  lemma DoubleTenDiffers(ps: seq<Window>, i: nat)
    requires DoubleTen(ps, i)
    ensures EmitPrefix(ps, |ps|) != TextbookPrefix(ps, |ps|)
  {
    EmitZeroAt(ps, i);
    TextbookOneAt(ps, i);
  }

  /** Over a sequence of windows, the two rules agree exactly when no two
      adjacent windows are both `10`. */
  lemma WindowsMatchTextbook(ps: seq<Window>)
    ensures EmitPrefix(ps, |ps|) == TextbookPrefix(ps, |ps|) <==> NoDoubleTen(ps)
  {
    if i :| 0 <= i < |ps| && DoubleTen(ps, i) {
      DoubleTenDiffers(ps, i);
    } else {
      PrefixesAgree(ps, |ps|);
    }
  }

  /** The code and the textbook extractor agree on an input exactly when no
      two adjacent windows of it are both `10`. */
  lemma VonNeumannMatchesTextbook(s: string)
    ensures VonNeumann(s) == Textbook(s) <==> NoDoubleTen(Pairs(s))
  {
    WindowsMatchTextbook(Pairs(s));
  }

  /** The smallest input on which they differ: `1010` gives `10` as written
      and `11` by the textbook rule. */
  lemma VonNeumannDiffersOnDoubleTen()
    ensures VonNeumann("1010") == "10" && Textbook("1010") == "11"
  {
    var ps := Pairs("1010");
    assert ps == [('1', '0'), ('1', '0')];
  }
}
