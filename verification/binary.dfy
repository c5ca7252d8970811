/** Binary numerals as Python reads and writes them: `int(s, 2)` parses a
    most-significant-bit-first string of digits, and `format(n, "0wb")`
    writes `n` in binary, left-padded with zeros to at least `w` digits. */
module Binary {
  import opened Common

  function Bit(c: char): nat
  {
    if c == '1' then 1 else 0
  }

  function Digit(b: nat): char
    requires b < 2
  {
    if b == 1 then '1' else '0'
  }

  /** The big-endian value of a string of binary digits. */
  function BinValue(s: string): nat
  {
    if s == [] then 0 else 2 * BinValue(s[..|s| - 1]) + Bit(s[|s| - 1])
  }

  /** Python's `int(s, 2)` on a string of digits: the empty string and any
      other character raise `ValueError`, modelled as `None`. */
  function ParseBinary(s: string): (r: Option<nat>)
    ensures r.Some? <==> s != [] && IsBinary(s)
    ensures r.Some? ==> r.value < Pow2(|s|)
  {
    if s != [] && IsBinary(s) then
      BinValueBound(s);
      Some(BinValue(s))
    else None
  }

  function Zeros(k: nat): (z: string)
    ensures |z| == k && IsBinary(z)
    ensures forall i :: 0 <= i < k ==> z[i] == '0'
  {
    seq(k, _ => '0')
  }

  function Ones(k: nat): (z: string)
    ensures |z| == k && IsBinary(z)
    ensures forall i :: 0 <= i < k ==> z[i] == '1'
  {
    seq(k, _ => '1')
  }

  /** A string of `k` digits denotes a number below `2^k`. */
  lemma {:induction false} BinValueBound(s: string)
    ensures BinValue(s) < Pow2(|s|)
    decreases |s|
  {
    if s != [] {
      BinValueBound(s[..|s| - 1]);
    }
  }

  /** Leading zeros do not change the value. */
  lemma {:induction false} LeadingZeros(k: nat, s: string)
    ensures BinValue(Zeros(k) + s) == BinValue(s)
    decreases |s|
  {
    if s == [] {
      assert Zeros(k) + s == Zeros(k);
      AllZeros(k);
    } else {
      var s' := s[..|s| - 1];
      assert (Zeros(k) + s)[..|Zeros(k) + s| - 1] == Zeros(k) + s';
      LeadingZeros(k, s');
    }
  }

  lemma {:induction false} AllZeros(k: nat)
    ensures BinValue(Zeros(k)) == 0
    decreases k
  {
    if k > 0 {
      assert Zeros(k)[..k - 1] == Zeros(k - 1);
      AllZeros(k - 1);
    }
  }

  /** `k` ones denote `2^k - 1`. */
  lemma {:induction false} AllOnes(k: nat)
    ensures BinValue(Ones(k)) == Pow2(k) - 1
    decreases k
  {
    if k > 0 {
      assert Ones(k)[..k - 1] == Ones(k - 1);
      AllOnes(k - 1);
    }
  }

  /** Python's `bin(n)` without the `0b` prefix: no leading zeros, and `0`
      for zero. */
  function ToBin(n: nat): (s: string)
    ensures |s| >= 1 && IsBinary(s)
    ensures n >= 1 ==> s[0] == '1'
    decreases n
  {
    if n < 2 then [Digit(n)] else ToBin(n / 2) + [Digit(n % 2)]
  }

  lemma {:induction false} ToBinValue(n: nat)
    ensures BinValue(ToBin(n)) == n
    decreases n
  {
    if n >= 2 {
      ToBinValue(n / 2);
      var s := ToBin(n);
      assert s[..|s| - 1] == ToBin(n / 2);
    }
  }

  /** Without leading zeros, `n` needs no more than `w` digits when it is
      below `2^w`. */
  lemma {:induction false} ToBinLength(n: nat, w: nat)
    requires w >= 1 && n < Pow2(w)
    ensures |ToBin(n)| <= w
    decreases n
  {
    if n >= 2 {
      ToBinLength(n / 2, w - 1);
    }
  }

  /** Python's `format(n, f"0{w}b")`. */
  function FormatBinary(n: nat, w: nat): (s: string)
    ensures IsBinary(s) && |s| >= 1
  {
    var b := ToBin(n);
    if |b| >= w then b else Zeros(w - |b|) + b
  }

  /** The key written for an index below `2^w`: `max(w, 1)` binary digits
      whose value is the index. */
  lemma FormatBinaryCorrect(n: nat, w: nat)
    requires n < Pow2(w)
    ensures |FormatBinary(n, w)| == if w == 0 then 1 else w
    ensures BinValue(FormatBinary(n, w)) == n
  {
    ToBinValue(n);
    if w >= 1 {
      ToBinLength(n, w);
    }
    var b := ToBin(n);
    if |b| < w {
      LeadingZeros(w - |b|, b);
    }
  }

  /** Parsing the written key gives back the index: `int(format(n, "0wb"), 2) == n`. */
  lemma FormatParseRoundTrip(n: nat, w: nat)
    ensures ParseBinary(FormatBinary(n, w)) == Some(n)
  {
    var b := ToBin(n);
    ToBinValue(n);
    if |b| < w {
      LeadingZeros(w - |b|, b);
    }
  }

  /** Distinct indices never share a key. */
  lemma FormatBinaryInjective(n: nat, m: nat, w: nat)
    requires FormatBinary(n, w) == FormatBinary(m, w)
    ensures n == m
  {
    FormatParseRoundTrip(n, w);
    FormatParseRoundTrip(m, w);
  }
}
