/**
 * The chained hash map of hw4/gmap.c.  The table is a sequence of chains,
 * each chain a sequence of (key, value) entries from head to tail.  The
 * hasher is a function parameter, key equality stands for `comparer == 0`,
 * and a successful key copy is assumed equal to the key it copies.
 */
module GMap {
  import opened Wrappers

  /** SIMAP_INITIAL_CAPACITY. */
  const InitialCapacity: nat := 101

  datatype Map<K, V> = Map(table: seq<seq<(K, V)>>, nkey: nat)

  /** The number of chains. */
  function Cap<K(!new), V(!new)>(m: Map<K, V>): nat {
    |m.table|
  }

  /** The chain a key belongs to: `hasher(key) % cap`. */
  function Home<K(!new)>(h: K -> nat, k: K, cap: nat): nat
    requires cap > 0
  {
    h(k) % cap
  }

  // ------------------------------------------------------------------------
  // Chains
  // ------------------------------------------------------------------------

  /** The value of the first entry with key `k`, scanning from the head. */
  function LookupSeq<K(==,!new), V(!new)>(es: seq<(K, V)>, k: K): (r: Option<V>)
    ensures r.Some? ==> (k, r.value) in es
    ensures r.None? ==> forall e | e in es :: e.0 != k
  {
    if |es| == 0 then None
    else if es[0].0 == k then Some(es[0].1)
    else LookupSeq(es[1..], k)
  }

  /** No key occurs twice. */
  ghost predicate DistinctKeys<K(!new), V(!new)>(es: seq<(K, V)>) {
    forall i, j | 0 <= i < j < |es| :: es[i].0 != es[j].0
  }

  /** With distinct keys, the lookup finds exactly the stored entries. */
  lemma LookupSeqExact<K(!new), V(!new)>(es: seq<(K, V)>, k: K, v: V)
    requires DistinctKeys(es)
    ensures LookupSeq(es, k) == Some(v) <==> (k, v) in es
  {
    if (k, v) in es {
      var i :| 0 <= i < |es| && es[i] == (k, v);
      LookupAt(es, i);
    }
  }

  /** With distinct keys, the lookup of the key at position `i` finds that entry. */
  lemma {:induction false} LookupAt<K(!new), V(!new)>(es: seq<(K, V)>, i: nat)
    requires DistinctKeys(es) && i < |es|
    ensures LookupSeq(es, es[i].0) == Some(es[i].1)
  {
    if i > 0 {
      assert es[0].0 != es[i].0;
      assert es[1..][i - 1] == es[i];
      LookupAt(es[1..], i - 1);
    }
  }

  /** Total number of entries. */
  function Count<K(!new), V(!new)>(t: seq<seq<(K, V)>>): nat {
    if |t| == 0 then 0 else Count(t[..|t| - 1]) + |t[|t| - 1]|
  }

  /** Replacing one chain changes the count by the difference in length. */
  lemma {:induction false} CountUpdate<K(!new), V(!new)>(t: seq<seq<(K, V)>>, i: nat, c: seq<(K, V)>)
    requires i < |t|
    ensures Count(t[i := c]) + |t[i]| == Count(t) + |c|
  {
    var n := |t| - 1;
    if i < n {
      assert t[i := c][..n] == t[..n][i := c];
      CountUpdate(t[..n], i, c);
    } else {
      assert t[i := c][..n] == t[..n];
    }
  }

  // ------------------------------------------------------------------------
  // Table invariant
  // ------------------------------------------------------------------------

  /** Every entry sits in its key's chain. */
  ghost predicate Placed<K(!new), V(!new)>(t: seq<seq<(K, V)>>, h: K -> nat) {
    |t| > 0 &&
    forall i, j | 0 <= i < |t| && 0 <= j < |t[i]| :: Home(h, t[i][j].0, |t|) == i
  }

  /** Keys are distinct within each chain (and so, by placement, in the whole table). */
  ghost predicate ChainsDistinct<K(!new), V(!new)>(t: seq<seq<(K, V)>>) {
    forall i | 0 <= i < |t| :: DistinctKeys(t[i])
  }

  /** The representation invariant of a map built with hasher `h`. */
  ghost predicate Valid<K(!new), V(!new)>(m: Map<K, V>, h: K -> nat) {
    Placed(m.table, h) && ChainsDistinct(m.table) && m.nkey == Count(m.table)
  }

  /** The lookup gmap_get performs, in the chain `hasher(key) % cap`. */
  function Lookup<K(==,!new), V(!new)>(t: seq<seq<(K, V)>>, h: K -> nat, k: K): Option<V>
    requires |t| > 0
  {
    LookupSeq(t[Home(h, k, |t|)], k)
  }

  // ------------------------------------------------------------------------
  // Operations
  // ------------------------------------------------------------------------

  /**
   * gmap_create: NULL unless all four function arguments are given,
   * otherwise an empty map with 101 chains.
   */
  function Create<K(!new), V(!new)>(hasCopier: bool, hasComparer: bool, hasHasher: bool, hasFreer: bool): (r: Option<Map<K, V>>)
    ensures r.Some? <==> hasCopier && hasComparer && hasHasher && hasFreer
    ensures r.Some? ==> r.value.nkey == 0 && Cap(r.value) == InitialCapacity
    ensures r.Some? ==> forall h: K -> nat :: Valid(r.value, h)
    ensures r.Some? ==> forall h: K -> nat, k: K :: Lookup(r.value.table, h, k).None?
  {
    if !hasHasher || !hasCopier || !hasComparer || !hasFreer then None
    else
      var r := Map(seq(InitialCapacity, _ => []), 0);
      assert forall h: K -> nat :: Valid(r, h) by {
        forall h: K -> nat ensures Valid(r, h) {
          assert forall i | 0 <= i < |r.table| :: r.table[i] == [];
          EmptyCount<K, V>(InitialCapacity);
        }
      }
      Some(r)
  }

  /** A table of empty chains holds no entries. */
  lemma {:induction false} EmptyCount<K(!new), V(!new)>(n: nat)
    ensures Count(seq<seq<(K, V)>>(n, _ => [])) == 0
  {
    if n > 0 {
      assert seq<seq<(K, V)>>(n, _ => [])[..n - 1] == seq<seq<(K, V)>>(n - 1, _ => []);
      EmptyCount<K, V>(n - 1);
    }
  }

  /** gmap_find_key: the value in the first entry for `k` of chain `hasher(k) % cap`. */
  function FindKey<K(==,!new), V(!new)>(m: Map<K, V>, h: K -> nat, k: K): Option<V>
    requires Valid(m, h)
  {
    Lookup(m.table, h, k)
  }

  /** gmap_find_key finds a binding exactly when some chain of the table stores it. */
  lemma FindKeyExact<K(!new), V(!new)>(m: Map<K, V>, h: K -> nat, k: K, v: V)
    requires Valid(m, h)
    ensures FindKey(m, h, k) == Some(v) <==> exists i | 0 <= i < Cap(m) :: (k, v) in m.table[i]
  {
    LookupSeqExact(m.table[Home(h, k, Cap(m))], k, v);
    if exists i | 0 <= i < Cap(m) :: (k, v) in m.table[i] {
      var i :| 0 <= i < Cap(m) && (k, v) in m.table[i];
      var j :| 0 <= j < |m.table[i]| && m.table[i][j] == (k, v);
      assert Home(h, m.table[i][j].0, Cap(m)) == i;
    }
  }

  /** gmap_get. */
  function Get<K(==,!new), V(!new)>(m: Map<K, V>, h: K -> nat, k: K): Option<V>
    requires Valid(m, h)
  {
    FindKey(m, h, k)
  }

  /** gmap_contains_key. */
  function ContainsKey<K(==,!new), V(!new)>(m: Map<K, V>, h: K -> nat, k: K): bool
    requires Valid(m, h)
  {
    FindKey(m, h, k).Some?
  }

  /** gmap_contains_key holds exactly when gmap_get finds a value. */
  lemma ContainsKeyIffGet<K(!new), V(!new)>(m: Map<K, V>, h: K -> nat, k: K)
    requires Valid(m, h)
    ensures ContainsKey(m, h, k) <==> exists v :: Get(m, h, k) == Some(v)
    ensures ContainsKey(m, h, k) <==> exists i, v | 0 <= i < Cap(m) :: (k, v) in m.table[i]
  {
    if ContainsKey(m, h, k) {
      FindKeyExact(m, h, k, Get(m, h, k).value);
    }
    forall i, v | 0 <= i < Cap(m) && (k, v) in m.table[i] ensures ContainsKey(m, h, k) {
      FindKeyExact(m, h, k, v);
    }
  }

  /** Prepends an entry to chain `i`. */
  function PushAt<K(!new), V(!new)>(t: seq<seq<(K, V)>>, i: nat, e: (K, V)): (r: seq<seq<(K, V)>>)
    requires i < |t|
    ensures |r| == |t| && r[i] == [e] + t[i]
    ensures forall j | 0 <= j < |t| && j != i :: r[j] == t[j]
    ensures Count(r) == Count(t) + 1
  {
    CountUpdate(t, i, [e] + t[i]);
    t[i := [e] + t[i]]
  }

  /** Prepending an entry whose key is new to its home chain keeps the table invariant. */
  lemma PushKeepsInvariant<K(!new), V(!new)>(t: seq<seq<(K, V)>>, h: K -> nat, e: (K, V))
    requires Placed(t, h) && ChainsDistinct(t)
    requires LookupSeq(t[Home(h, e.0, |t|)], e.0).None?
    ensures var r := PushAt(t, Home(h, e.0, |t|), e);
            && Placed(r, h) && ChainsDistinct(r)
            && forall k :: Lookup(r, h, k) == if k == e.0 then Some(e.1) else Lookup(t, h, k)
  {
    var i := Home(h, e.0, |t|);
    var r: seq<seq<(K, V)>> := PushAt(t, i, e);
    forall j1, j2 | 0 <= j1 < j2 < |r[i]| ensures r[i][j1].0 != r[i][j2].0 {
      if j1 == 0 {
        assert r[i][j2] == t[i][j2 - 1] && r[i][j2] in t[i];
      } else {
        assert r[i][j1] == t[i][j1 - 1] && r[i][j2] == t[i][j2 - 1];
      }
    }
    forall j | 0 <= j < |r[i]| ensures Home(h, r[i][j].0, |r|) == i {
      if j > 0 { assert r[i][j] == t[i][j - 1]; }
    }
    forall k ensures Lookup(r, h, k) == if k == e.0 then Some(e.1) else Lookup(t, h, k) {
      if Home(h, k, |t|) == i && k != e.0 {
        assert r[i][1..] == t[i];
      }
    }
  }

  /** Dropping the head keeps keys distinct. */
  lemma DistinctTail<K(!new), V(!new)>(c: seq<(K, V)>)
    requires DistinctKeys(c) && |c| > 0
    ensures DistinctKeys(c[1..])
    ensures forall e | e in c[1..] :: e.0 != c[0].0
  {
    forall i, j | 0 <= i < j < |c| - 1 ensures c[1..][i].0 != c[1..][j].0 {
      assert c[1..][i] == c[i + 1] && c[1..][j] == c[j + 1];
    }
    forall e | e in c[1..] ensures e.0 != c[0].0 {
      var j :| 0 <= j < |c[1..]| && c[1..][j] == e;
      assert c[j + 1] == e;
    }
  }

  /** Prepending a new key keeps keys distinct. */
  lemma DistinctCons<K(!new), V(!new)>(x: (K, V), rest: seq<(K, V)>)
    requires DistinctKeys(rest)
    requires forall e | e in rest :: e.0 != x.0
    ensures DistinctKeys([x] + rest)
  {
    var r := [x] + rest;
    forall i, j | 0 <= i < j < |r| ensures r[i].0 != r[j].0 {
      assert r[j] == rest[j - 1] && r[j] in rest;
      if i > 0 { assert r[i] == rest[i - 1]; }
    }
  }

  /** The chain `c` without its first entry for key `k`, and that entry's value. */
  function RemoveFromChain<K(==,!new), V(!new)>(c: seq<(K, V)>, k: K): (r: (seq<(K, V)>, Option<V>))
    ensures r.1 == LookupSeq(c, k)
    ensures r.1.None? ==> r.0 == c
    ensures r.1.Some? ==> |r.0| + 1 == |c|
    ensures forall e | e in r.0 :: e in c
  {
    if |c| == 0 then ([], None)
    else if c[0].0 == k then (c[1..], Some(c[0].1))
    else
      var (rest, v) := RemoveFromChain(c[1..], k);
      ([c[0]] + rest, v)
  }

  /**
   * Unlinking from a chain with distinct keys keeps them distinct, leaves no
   * entry for the key and every other key's value as it was.
   */
  lemma {:induction false} RemoveFromChainDistinct<K(!new), V(!new)>(c: seq<(K, V)>, k: K)
    requires DistinctKeys(c)
    ensures var r := RemoveFromChain(c, k).0;
            && DistinctKeys(r) && LookupSeq(r, k).None?
            && forall k' | k' != k :: LookupSeq(r, k') == LookupSeq(c, k')
    decreases |c|
  {
    if |c| > 0 {
      DistinctTail(c);
      if c[0].0 != k {
        RemoveFromChainDistinct(c[1..], k);
        var rest := RemoveFromChain(c[1..], k).0;
        DistinctCons(c[0], rest);
        assert ([c[0]] + rest)[0] == c[0] && ([c[0]] + rest)[1..] == rest;
      }
    }
  }

  /**
   * gmap_embiggen's inner loop: entries are taken in order and each is
   * pushed onto the head of its chain in the table `t`.
   */
  function Reinsert<K(!new), V(!new)>(t: seq<seq<(K, V)>>, h: K -> nat, es: seq<(K, V)>): (r: seq<seq<(K, V)>>)
    requires |t| > 0
    ensures |r| == |t|
    ensures Count(r) == Count(t) + |es|
    decreases |es|
  {
    if |es| == 0 then t
    else Reinsert(PushAt(t, Home(h, es[0].0, |t|), es[0]), h, es[1..])
  }

  /** The chains from index `lo` on, concatenated: the order in which gmap_for_each visits them. */
  function FlattenFrom<K(!new), V(!new)>(t: seq<seq<(K, V)>>, lo: nat): (r: seq<(K, V)>)
    requires lo <= |t|
    ensures Count(t) == Count(t[..lo]) + |r|
    decreases |t| - lo
  {
    if lo == |t| then
      assert t[..lo] == t;
      []
    else
      var rest := FlattenFrom(t, lo + 1);
      assert Count(t[..lo + 1]) == Count(t[..lo]) + |t[lo]| by {
        assert t[..lo + 1][..lo] == t[..lo];
      }
      t[lo] + rest
  }

  /**
   * In a valid table the entries from chain `lo` on have distinct keys, and
   * looking a key up among them agrees with the table lookup.
   */
  lemma {:induction false} FlattenFromLookup<K(!new), V(!new)>(t: seq<seq<(K, V)>>, h: K -> nat, lo: nat)
    requires Placed(t, h) && ChainsDistinct(t) && lo <= |t|
    ensures DistinctKeys(FlattenFrom(t, lo))
    ensures forall e | e in FlattenFrom(t, lo) :: Home(h, e.0, |t|) >= lo
    ensures forall k :: LookupSeq(FlattenFrom(t, lo), k) == if Home(h, k, |t|) >= lo then Lookup(t, h, k) else None
    decreases |t| - lo
  {
    if lo < |t| {
      FlattenFromLookup(t, h, lo + 1);
      var c, rest := t[lo], FlattenFrom(t, lo + 1);
      var f := c + rest;
      assert forall e | e in c :: Home(h, e.0, |t|) == lo by {
        forall e | e in c ensures Home(h, e.0, |t|) == lo {
          var j :| 0 <= j < |c| && c[j] == e;
        }
      }
      forall i, j | 0 <= i < j < |f| ensures f[i].0 != f[j].0 {
        if j < |c| {
          assert f[i] == c[i] && f[j] == c[j];
        } else if i < |c| {
          assert f[i] == c[i] && f[j] == rest[j - |c|] && f[i] in c && f[j] in rest;
        } else {
          assert f[i] == rest[i - |c|] && f[j] == rest[j - |c|];
        }
      }
      forall k ensures LookupSeq(f, k) == if Home(h, k, |t|) >= lo then Lookup(t, h, k) else None {
        LookupConcat(c, rest, k);
      }
    }
  }

  /** Looking up in a concatenation looks in the first part, then in the second. */
  lemma {:induction false} LookupConcat<K(!new), V(!new)>(a: seq<(K, V)>, b: seq<(K, V)>, k: K)
    ensures LookupSeq(a + b, k) == if LookupSeq(a, k).Some? then LookupSeq(a, k) else LookupSeq(b, k)
  {
    if |a| > 0 {
      assert (a + b)[0] == a[0];
      assert (a + b)[1..] == a[1..] + b;
      LookupConcat(a[1..], b, k);
    } else {
      assert a + b == b;
    }
  }

  /**
   * Reinsertion of entries with distinct keys, none present in `t`, keeps
   * the invariant and adds exactly their bindings.
   */
  lemma {:induction false} ReinsertCorrect<K(!new), V(!new)>(t: seq<seq<(K, V)>>, h: K -> nat, es: seq<(K, V)>)
    requires Placed(t, h) && ChainsDistinct(t) && DistinctKeys(es)
    requires forall e | e in es :: Lookup(t, h, e.0).None?
    ensures var r := Reinsert(t, h, es);
            && Placed(r, h) && ChainsDistinct(r)
            && forall k :: Lookup(r, h, k) == if LookupSeq(es, k).Some? then LookupSeq(es, k) else Lookup(t, h, k)
    decreases |es|
  {
    if |es| > 0 {
      var e := es[0];
      var t' := PushAt(t, Home(h, e.0, |t|), e);
      PushKeepsInvariant(t, h, e);
      assert DistinctKeys(es[1..]) by {
        forall i, j | 0 <= i < j < |es| - 1 ensures es[1..][i].0 != es[1..][j].0 {
          assert es[1..][i] == es[i + 1] && es[1..][j] == es[j + 1];
        }
      }
      forall x | x in es[1..] ensures Lookup(t', h, x.0).None? {
        var j :| 0 <= j < |es[1..]| && es[1..][j] == x;
        assert es[j + 1] == x && es[0].0 != es[j + 1].0;
      }
      ReinsertCorrect(t', h, es[1..]);
    }
  }

  /** gmap_embiggen: `2·cap + 1` chains, every entry rehashed head-first. */
  function Embiggen<K(==,!new), V(!new)>(m: Map<K, V>, h: K -> nat): (r: Map<K, V>)
    requires Valid(m, h)
    ensures Cap(r) == 2 * Cap(m) + 1
    ensures Valid(r, h) && r.nkey == m.nkey
    ensures forall k :: Lookup(r.table, h, k) == Lookup(m.table, h, k)
  {
    var blank: seq<seq<(K, V)>> := seq(2 * Cap(m) + 1, _ => []);
    var es := FlattenFrom(m.table, 0);
    assert Placed(blank, h) && ChainsDistinct(blank) && Count(blank) == 0 by {
      assert forall i | 0 <= i < |blank| :: blank[i] == [];
      EmptyCount<K, V>(2 * Cap(m) + 1);
    }
    FlattenFromLookup(m.table, h, 0);
    assert m.table[..0] == [];
    ReinsertCorrect(blank, h, es);
    Map(Reinsert(blank, h, es), m.nkey)
  }

  /** What gmap_put returns and leaves behind. */
  datatype PutResult<K, V> = PutResult(after: Map<K, V>, previous: Option<V>)

  /** gmap_put after the growth check: update in place or push a new head entry. */
  function PutNoGrow<K(==,!new), V(!new)>(m: Map<K, V>, h: K -> nat, k: K, v: V, copied: bool): (r: PutResult<K, V>)
    requires Valid(m, h)
    ensures Valid(r.after, h) && Cap(r.after) == Cap(m)
    ensures r.previous == Lookup(m.table, h, k)
    ensures r.after.nkey == if r.previous.None? && copied then m.nkey + 1 else m.nkey
    ensures forall k' :: Lookup(r.after.table, h, k') ==
              if k' == k && (r.previous.Some? || copied) then Some(v) else Lookup(m.table, h, k')
  {
    var i := Home(h, k, Cap(m));
    var c := m.table[i];
    var found := LookupSeq(c, k);
    if found.Some? then
      var c' := Replace(c, k, v);
      CountUpdate(m.table, i, c');
      ReplaceKeepsInvariant(m.table, h, k, v);
      PutResult(Map(m.table[i := c'], m.nkey), found)
    else if copied then
      PushKeepsInvariant(m.table, h, (k, v));
      PutResult(Map(PushAt(m.table, i, (k, v)), m.nkey + 1), None)
    else
      PutResult(m, None)
  }

  /**
   * gmap_put.  The table grows first when it holds as many entries as
   * chains.  A present key gets the new value and its old value is
   * returned; an absent key is added at the head of its chain unless the
   * copier failed (`copied` false), in which case nothing is added.
   */
  function Put<K(==,!new), V(!new)>(m: Map<K, V>, h: K -> nat, k: K, v: V, copied: bool): (r: PutResult<K, V>)
    requires Valid(m, h)
    ensures Valid(r.after, h)
    ensures r.previous == Get(m, h, k)
    ensures Cap(r.after) == if m.nkey == Cap(m) then 2 * Cap(m) + 1 else Cap(m)
    ensures m.nkey <= Cap(m) ==> r.after.nkey <= Cap(r.after)
    ensures r.previous.Some? || copied ==> Get(r.after, h, k) == Some(v)
    ensures r.previous.None? && !copied ==> Get(r.after, h, k).None?
    ensures r.after.nkey == if r.previous.None? && copied then m.nkey + 1 else m.nkey
    ensures forall k' | k' != k :: Get(r.after, h, k') == Get(m, h, k')
  {
    var m1 := if m.nkey == Cap(m) then Embiggen(m, h) else m;
    assert Valid(m1, h) && m1.nkey == m.nkey;
    assert forall k' :: Get(m1, h, k') == Lookup(m1.table, h, k') == Lookup(m.table, h, k') == Get(m, h, k');
    PutNoGrow(m1, h, k, v, copied)
  }

  /** The chain with the value of the first entry for `k` replaced. */
  function Replace<K(==,!new), V(!new)>(c: seq<(K, V)>, k: K, v: V): (r: seq<(K, V)>)
    ensures |r| == |c|
    ensures forall j | 0 <= j < |c| :: r[j].0 == c[j].0
    ensures LookupSeq(r, k) == if LookupSeq(c, k).Some? then Some(v) else None
    ensures forall k' | k' != k :: LookupSeq(r, k') == LookupSeq(c, k')
  {
    if |c| == 0 then []
    else if c[0].0 == k then [(k, v)] + c[1..]
    else
      var r := [c[0]] + Replace(c[1..], k, v);
      assert r[1..] == Replace(c[1..], k, v);
      r
  }

  /** Replacing a value keeps the keys, hence the invariant. */
  lemma ReplaceKeepsInvariant<K(!new), V(!new)>(t: seq<seq<(K, V)>>, h: K -> nat, k: K, v: V)
    requires Placed(t, h) && ChainsDistinct(t)
    ensures var i := Home(h, k, |t|);
            var r := t[i := Replace(t[i], k, v)];
            && Placed(r, h) && ChainsDistinct(r)
            && forall k' :: Lookup(r, h, k') ==
                 if k' == k && LookupSeq(t[i], k).Some? then Some(v) else Lookup(t, h, k')
  {
    var i := Home(h, k, |t|);
    var c' := Replace(t[i], k, v);
    assert forall j | 0 <= j < |c'| :: c'[j].0 == t[i][j].0;
  }

  /**
   * gmap_remove: a present key is unlinked from its chain and its value
   * returned; an absent key changes nothing.
   */
  function Remove<K(==,!new), V(!new)>(m: Map<K, V>, h: K -> nat, k: K): (r: (Map<K, V>, Option<V>))
    requires Valid(m, h)
    ensures Valid(r.0, h)
    ensures r.1 == Get(m, h, k)
    ensures r.1.None? ==> r.0 == m
    ensures r.1.Some? ==> r.0.nkey + 1 == m.nkey
    ensures Cap(r.0) == Cap(m)
    ensures Get(r.0, h, k).None?
    ensures forall k' | k' != k :: Get(r.0, h, k') == Get(m, h, k')
  {
    var i := Home(h, k, Cap(m));
    var (c', v) := RemoveFromChain(m.table[i], k);
    RemoveFromChainDistinct(m.table[i], k);
    if v.None? then (m, None)
    else
      var t' := m.table[i := c'];
      CountUpdate(m.table, i, c');
      assert Placed(t', h) by {
        forall a, j | 0 <= a < |t'| && 0 <= j < |t'[a]| ensures Home(h, t'[a][j].0, |t'|) == a {
          if a == i {
            assert t'[a][j] in m.table[i];
            var j' :| 0 <= j' < |m.table[i]| && m.table[i][j'] == t'[a][j];
          }
        }
      }
      (Map(t', m.nkey - 1), v)
  }

  /**
   * gmap_for_each: the entries in the order the callback sees them.  Every
   * binding of the map occurs exactly once.
   */
  function ForEach<K(==,!new), V(!new)>(m: Map<K, V>, h: K -> nat): (r: seq<(K, V)>)
    requires Valid(m, h)
    ensures |r| == m.nkey
    ensures DistinctKeys(r)
    ensures forall k :: LookupSeq(r, k) == Get(m, h, k)
  {
    FlattenFromLookup(m.table, h, 0);
    assert m.table[..0] == [];
    FlattenFrom(m.table, 0)
  }

  /** gmap_keys: the keys in for_each order, `nkey` of them, each present once. */
  function Keys<K(==,!new), V(!new)>(m: Map<K, V>, h: K -> nat): (r: seq<K>)
    requires Valid(m, h)
    ensures |r| == m.nkey
    ensures forall i, j | 0 <= i < j < |r| :: r[i] != r[j]
    ensures forall k :: k in r <==> ContainsKey(m, h, k)
  {
    var es := ForEach(m, h);
    var r := seq(|es|, i requires 0 <= i < |es| => es[i].0);
    assert forall k :: k in r <==> ContainsKey(m, h, k) by {
      forall k ensures k in r <==> ContainsKey(m, h, k) {
        if k in r {
          var i :| 0 <= i < |r| && r[i] == k;
          LookupAt(es, i);
        }
        if ContainsKey(m, h, k) {
          var v := LookupSeq(es, k).value;
          var i :| 0 <= i < |es| && es[i] == (k, v);
          assert r[i] == k;
        }
      }
    }
    r
  }

  /**
   * gmap_size: 0 for a NULL map, otherwise the entry counter, which on a
   * valid map is the number of stored mappings: as many as the table holds,
   * as gmap_for_each visits and as gmap_keys returns.
   */
  function Size<K(==,!new), V(!new)>(m: Option<Map<K, V>>, h: K -> nat): (n: nat)
    requires m.Some? ==> Valid(m.value, h)
    ensures m.None? ==> n == 0
    ensures m.Some? ==> n == Count(m.value.table)
    ensures m.Some? ==> n == |ForEach(m.value, h)| == |Keys(m.value, h)|
  {
    if m.None? then 0 else m.value.nkey
  }
}
