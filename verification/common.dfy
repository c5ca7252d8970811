/** Shared vocabulary of the QRNG model: optional results, Python string
    helpers (`str.count`, `"".join`, the prefix slice `s[:k]`) and binary
    strings. Strings are `seq<char>`, as Python `str` values are sequences of
    characters. */
module Common {

  /** A value that may be absent: `None` stands for a Python exception or a
      NaN that the source returns instead of a number. */
  datatype Option<T> = None | Some(value: T)

  /** Every character is `0` or `1`. */
  predicate IsBinary(s: string)
  {
    forall i :: 0 <= i < |s| ==> s[i] == '0' || s[i] == '1'
  }

  /** Python's `s.count(c)` for a one-character `c`. */
  function Count(s: string, c: char): (n: nat)
    ensures n <= |s|
  {
    if s == [] then 0
    else (if s[|s| - 1] == c then 1 else 0) + Count(s[..|s| - 1], c)
  }

  lemma {:induction false} CountAppend(s: string, t: string, c: char)
    ensures Count(s + t, c) == Count(s, c) + Count(t, c)
    decreases |t|
  {
    if t == [] {
      assert s + t == s;
    } else {
      assert (s + t)[..|s + t| - 1] == s + t[..|t| - 1];
      CountAppend(s, t[..|t| - 1], c);
    }
  }

  /** In a binary string the zeros and the ones make up the whole length. */
  lemma {:induction false} BinaryCounts(s: string)
    requires IsBinary(s)
    ensures Count(s, '0') + Count(s, '1') == |s|
    decreases |s|
  {
    if s != [] {
      BinaryCounts(s[..|s| - 1]);
    }
  }

  /** Python's `"".join(parts)`. */
  function Join(parts: seq<string>): string
  {
    if parts == [] then [] else Join(parts[..|parts| - 1]) + parts[|parts| - 1]
  }

  lemma {:induction false} JoinBinary(parts: seq<string>)
    requires forall j :: 0 <= j < |parts| ==> IsBinary(parts[j])
    ensures IsBinary(Join(parts))
    decreases |parts|
  {
    if parts != [] {
      JoinBinary(parts[..|parts| - 1]);
    }
  }

  /** Joining one more part appends it. */
  lemma JoinSnoc(parts: seq<string>, k: nat)
    requires k < |parts|
    ensures Join(parts[..k + 1]) == Join(parts[..k]) + parts[k]
  {
    assert parts[..k + 1][..k] == parts[..k];
  }

  /** Joining a prefix of the parts gives a prefix of the joined whole. */
  lemma {:induction false} JoinPrefix(parts: seq<string>, k: nat, n: nat)
    requires k <= n <= |parts|
    ensures Join(parts[..k]) <= Join(parts[..n])
    decreases n
  {
    if k < n {
      JoinPrefix(parts, k, n - 1);
      JoinSnoc(parts, n - 1);
    }
  }

  lemma {:induction false} JoinLength(parts: seq<string>, w: int)
    requires forall j :: 0 <= j < |parts| ==> |parts[j]| == w
    ensures |Join(parts)| == |parts| * w
    decreases |parts|
  {
    if parts != [] {
      JoinLength(parts[..|parts| - 1], w);
      assert (|parts| - 1) * w + w == |parts| * w;
    }
  }

  /** Python's prefix slice `s[:k]`: a negative `k` counts from the end. */
  function PyPrefix<T>(s: seq<T>, k: int): (r: seq<T>)
    ensures r <= s
    ensures 0 <= k <= |s| ==> |r| == k
    ensures k < 0 ==> |r| == if |s| + k < 0 then 0 else |s| + k
  {
    if k >= |s| then s
    else if k >= 0 then s[..k]
    else if |s| + k >= 0 then s[..|s| + k]
    else []
  }

  function Pow2(n: nat): (p: nat)
    ensures p >= 1
  {
    if n == 0 then 1 else 2 * Pow2(n - 1)
  }

}
