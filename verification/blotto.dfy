/**
 * The key helpers hw4/blotto.c hands to the hash map (hash29, duplicate,
 * compare_keys) and the scoring rule of one Blotto matchup.  Keys are C
 * strings: only the characters before the first NUL take part.  Scores are
 * kept doubled so that half points stay integers.
 */
module Blotto {
  import opened Seqs

  /** 2^64: size_t arithmetic wraps modulo this. */
  const Word: nat := 0x1_0000_0000_0000_0000

  /** The C string a buffer denotes: everything before the first NUL. */
  function CStr(s: string): string {
    UpTo(s, '\0')
  }

  /** 29^n. */
  function Pow29(n: nat): nat {
    if n == 0 then 1 else 29 * Pow29(n - 1)
  }

  /** The unbounded sum Σ s[i]·29^(i+1) that hash29 reduces modulo 2^64. */
  function Poly(s: string): int {
    if |s| == 0 then 0 else Poly(s[..|s| - 1]) + (s[|s| - 1] as int) * Pow29(|s|)
  }

  /** Reduction modulo 2^64 commutes with addition. */
  lemma ModAddBoth(a: int, b: int)
    ensures (a % Word + b % Word) % Word == (a + b) % Word
  {
  }

  /** Sums of congruent terms are congruent. */
  lemma AddCongruent(p: int, q: int, x: int, a: int)
    requires p % Word == q % Word && x % Word == a % Word
    ensures (p + x) % Word == (q + a) % Word
  {
    ModAddBoth(p, x);
    ModAddBoth(q, a);
  }

  /** Reduction modulo 2^64 can be done before multiplying by a natural number. */
  lemma {:induction false} ModMul(a: int, c: nat)
    ensures (c * (a % Word)) % Word == (c * a) % Word
  {
    if c > 0 {
      ModMul(a, c - 1);
      var x := a % Word;
      var p := (c - 1) * x;
      var q := (c - 1) * a;
      assert c * x == p + x;
      assert c * a == q + a;
      assert x % Word == a % Word;
      AddCongruent(p, q, x, a);
    }
  }

  /**
   * hash29: walks the C string, adding each character times the running
   * power of 29, all in size_t arithmetic.
   */
  method Hash29(s: string) returns (sum: nat)
    ensures sum == Poly(CStr(s)) % Word
    ensures sum < Word
    ensures CStr(s) == [] ==> sum == 0
  {
    var key := CStr(s);
    sum := 0;
    var factor: nat := 29;
    var i := 0;
    while i < |s| && s[i] != '\0'
      invariant 0 <= i <= |key|
      invariant key[..i] == s[..i]
      invariant sum == Poly(key[..i]) % Word
      invariant factor == Pow29(i + 1) % Word
    {
      assert i < |key|;
      assert s[i] == key[i];
      var c := s[i] as int;
      var prefix := key[..i + 1];
      assert prefix[..i] == key[..i] && prefix[i] == s[i];
      assert Poly(prefix) == Poly(key[..i]) + c * Pow29(i + 1);
      ModMul(Pow29(i + 1), c);
      AddCongruent(sum, Poly(key[..i]), c * factor, c * Pow29(i + 1));
      sum := (sum + c * factor) % Word;
      ModMul(Pow29(i + 1), 29);
      factor := (factor * 29) % Word;
      i := i + 1;
    }
    assert i == |key|;
    assert key[..i] == key;
  }

  /** strcmp's sign: lexicographic order on the C strings. */
  function CompareKeys(a: string, b: string): (r: int)
    ensures -1 <= r <= 1
    ensures r == 0 <==> CStr(a) == CStr(b)
  {
    var x, y := CStr(a), CStr(b);
    if |x| == 0 && |y| == 0 then 0
    else if |x| == 0 then -1
    else if |y| == 0 then 1
    else if x[0] < y[0] then -1
    else if x[0] > y[0] then 1
    else
      assert CStr(a[1..]) == x[1..] && CStr(b[1..]) == y[1..];
      CompareKeys(a[1..], b[1..])
  }

  /** compare_keys is antisymmetric. */
  lemma {:induction false} CompareKeysAntisymmetric(a: string, b: string)
    ensures CompareKeys(a, b) == -CompareKeys(b, a)
  {
    var x, y := CStr(a), CStr(b);
    if |x| > 0 && |y| > 0 && x[0] == y[0] {
      CompareKeysAntisymmetric(a[1..], b[1..]);
    }
  }

  /** duplicate: a copy of the C string (allocation failure is left out). */
  function Duplicate(s: string): (r: string)
    ensures CompareKeys(r, s) == 0
    ensures '\0' !in r
  {
    CStrIdempotent(s);
    CStr(s)
  }

  /** Taking the C string of a C string changes nothing. */
  lemma {:induction false} CStrIdempotent(s: string)
    ensures CStr(CStr(s)) == CStr(s)
  {
    if |s| > 0 && s[0] != '\0' {
      CStrIdempotent(s[1..]);
      assert ([s[0]] + CStr(s[1..]))[1..] == CStr(s[1..]);
    }
  }

  /** Keys compare_keys calls equal hash to the same value, as the map needs. */
  lemma EqualKeysHashEqual(a: string, b: string)
    requires CompareKeys(a, b) == 0
    ensures Poly(CStr(a)) % Word == Poly(CStr(b)) % Word
  {
  }

  // ------------------------------------------------------------------------
  // Scoring
  // ------------------------------------------------------------------------

  /** Sum of the battlefield values. */
  function Sum(arr: seq<int>): int {
    if |arr| == 0 then 0 else Sum(arr[..|arr| - 1]) + arr[|arr| - 1]
  }

  /**
   * Doubled totals of a matchup over the first fields: a battlefield goes
   * wholly to the side with strictly more units, and is split on a tie.
   */
  function Totals(arr: seq<int>, u1: seq<int>, u2: seq<int>): (r: (int, int))
    requires |u1| == |arr| && |u2| == |arr|
    ensures r.0 + r.1 == 2 * Sum(arr)
  {
    if |arr| == 0 then (0, 0)
    else
      var n := |arr| - 1;
      var (t1, t2) := Totals(arr[..n], u1[..n], u2[..n]);
      if u1[n] > u2[n] then (t1 + 2 * arr[n], t2)
      else if u1[n] < u2[n] then (t1, t2 + 2 * arr[n])
      else (t1 + arr[n], t2 + arr[n])
  }

  /** Swapping the players swaps the totals. */
  lemma {:induction false} TotalsSwap(arr: seq<int>, u1: seq<int>, u2: seq<int>)
    requires |u1| == |arr| && |u2| == |arr|
    ensures Totals(arr, u2, u1) == (Totals(arr, u1, u2).1, Totals(arr, u1, u2).0)
  {
    if |arr| > 0 {
      var n := |arr| - 1;
      TotalsSwap(arr[..n], u1[..n], u2[..n]);
    }
  }

  /** With non-negative values, a player at least as strong on every field scores at least as much. */
  lemma {:induction false} TotalsDominance(arr: seq<int>, u1: seq<int>, u2: seq<int>)
    requires |u1| == |arr| && |u2| == |arr|
    requires forall i | 0 <= i < |arr| :: arr[i] >= 0 && u1[i] >= u2[i]
    ensures Totals(arr, u1, u2).0 >= Totals(arr, u1, u2).1
  {
    if |arr| > 0 {
      var n := |arr| - 1;
      TotalsDominance(arr[..n], u1[..n], u2[..n]);
    }
  }

  /** The scoring loop of main, field by field. */
  method Score(arr: seq<int>, u1: seq<int>, u2: seq<int>) returns (total1: int, total2: int)
    requires |u1| == |arr| && |u2| == |arr|
    ensures (total1, total2) == Totals(arr, u1, u2)
    ensures total1 + total2 == 2 * Sum(arr)
  {
    total1, total2 := 0, 0;
    var i := 0;
    while i < |arr|
      invariant 0 <= i <= |arr|
      invariant (total1, total2) == Totals(arr[..i], u1[..i], u2[..i])
    {
      assert arr[..i + 1][..i] == arr[..i] && u1[..i + 1][..i] == u1[..i] && u2[..i + 1][..i] == u2[..i];
      if u1[i] > u2[i] {
        total1 := total1 + 2 * arr[i];
      } else if u1[i] < u2[i] {
        total2 := total2 + 2 * arr[i];
      } else {
        total1 := total1 + arr[i];
        total2 := total2 + arr[i];
      }
      i := i + 1;
    }
    assert arr[..i] == arr && u1[..i] == u1 && u2[..i] == u2;
  }

  /** The printed line of a matchup: the larger total first, id1 first on a tie. */
  function Report(id1: string, total1: int, id2: string, total2: int): (r: (string, int, string, int))
    ensures r.1 >= r.3
    ensures (r.0, r.1, r.2, r.3) == (id1, total1, id2, total2) || (r.0, r.1, r.2, r.3) == (id2, total2, id1, total1)
    ensures total1 == total2 ==> r.0 == id1
  {
    if total1 >= total2 then (id1, total1, id2, total2) else (id2, total2, id1, total1)
  }
}
