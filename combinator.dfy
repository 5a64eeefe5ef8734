/** The sequence generator of the shared library: every sequence over a list
    of elements, built level by level (length 1, 2, ...), and the `Generate`
    overloads that filter that list by length, by element uniqueness and, for
    unordered results, by a sum of hash codes. Sequences are kept with
    multiplicity and in generation order. */
module Combinator {

  // ---------------------------------------------------------------------------
  // Generation order, level by level

  /** `r.Expand(e)` for every `r` of `prev`: each list with `e` appended. */
  function ExpandAll<T>(prev: seq<seq<T>>, e: T): (r: seq<seq<T>>)
    ensures |r| == |prev|
    ensures forall i :: 0 <= i < |prev| ==> r[i] == prev[i] + [e]
  {
    seq(|prev|, i requires 0 <= i < |prev| => prev[i] + [e])
  }

  /** The first level: `[elements[j]]` for `j < m`, in order. */
  function LevelOne<T>(elements: seq<T>, m: nat): seq<seq<T>>
    requires m <= |elements|
  {
    if m == 0 then [] else LevelOne(elements, m - 1) + [[elements[m - 1]]]
  }

  /** A later level, built by the inner loop: for each `j < m` in turn, every
      list of the previous level extended by `elements[j]`. */
  function LevelStep<T>(elements: seq<T>, prev: seq<seq<T>>, m: nat): seq<seq<T>>
    requires m <= |elements|
  {
    if m == 0 then [] else LevelStep(elements, prev, m - 1) + ExpandAll(prev, elements[m - 1])
  }

  /** The lists of length `k` in generation order. */
  function Level<T>(elements: seq<T>, k: nat): seq<seq<T>>
    requires k >= 1
  {
    if k == 1 then LevelOne(elements, |elements|)
    else LevelStep(elements, Level(elements, k - 1), |elements|)
  }

  /** Levels 1 to `c`, concatenated: the whole list the outer loop builds. */
  function Upto<T>(elements: seq<T>, c: nat): seq<seq<T>>
  {
    if c == 0 then [] else Upto(elements, c - 1) + Level(elements, c)
  }

  /** Every entry of `w` is one of `elements`. */
  ghost predicate Over<T>(w: seq<T>, elements: seq<T>)
  {
    forall i :: 0 <= i < |w| ==> w[i] in elements
  }

  /** Every list of `xs` has length `k`. */
  ghost predicate AllOfLength<T>(xs: seq<seq<T>>, k: int)
  {
    forall i :: 0 <= i < |xs| ==> |xs[i]| == k
  }

  // ---------------------------------------------------------------------------
  // The LINQ filters

  /** `Where(r => r.Count == k)`. */
  function OfLength<T>(rs: seq<seq<T>>, k: int): seq<seq<T>>
  {
    if rs == [] then []
    else OfLength(rs[..|rs| - 1], k) + (if |rs[|rs| - 1]| == k then [rs[|rs| - 1]] else [])
  }

  /** `Where(r => r.Count != k)`. */
  function WithoutLength<T>(rs: seq<seq<T>>, k: int): seq<seq<T>>
  {
    if rs == [] then []
    else WithoutLength(rs[..|rs| - 1], k) + (if |rs[|rs| - 1]| != k then [rs[|rs| - 1]] else [])
  }

  /** No element occurs twice (`GroupBy(e => e).All(g => g.Count() == 1)`). */
  predicate Distinct<T(==)>(w: seq<T>) {
    forall a, b :: 0 <= a < b < |w| ==> w[a] != w[b]
  }

  /** `Where(r => r.GroupBy(e => e).All(g => g.Count() == 1))`. */
  function DistinctOnly<T(==)>(rs: seq<seq<T>>): seq<seq<T>>
  {
    if rs == [] then []
    else DistinctOnly(rs[..|rs| - 1]) + (if Distinct(rs[|rs| - 1]) then [rs[|rs| - 1]] else [])
  }

  /** `l.Sum(e => (long) e.GetHashCode())`, with the hash code a parameter. */
  function HashSum<T>(w: seq<T>, hash: T -> int): int
  {
    if w == [] then 0 else HashSum(w[..|w| - 1], hash) + hash(w[|w| - 1])
  }

  /** `GroupBy(l => HashSum(l)).Select(g => g.First())`: the first list of
      every hash sum, in order of first occurrence; `seen` holds the sums of
      the lists already kept. */
  function FirstPerHashSum<T>(rs: seq<seq<T>>, hash: T -> int, seen: set<int>): seq<seq<T>>
  {
    if rs == [] then []
    else
      var h := HashSum(rs[0], hash);
      if h in seen then FirstPerHashSum(rs[1..], hash, seen)
      else [rs[0]] + FirstPerHashSum(rs[1..], hash, seen + {h})
  }

  lemma {:induction false} OfLengthMembers<T>(rs: seq<seq<T>>, k: int, w: seq<T>)
    ensures w in OfLength(rs, k) <==> w in rs && |w| == k
    decreases |rs|
  {
    if rs != [] {
      var front := rs[..|rs| - 1];
      OfLengthMembers(front, k, w);
      assert rs == front + [rs[|rs| - 1]];
    }
  }

  lemma {:induction false} WithoutLengthMembers<T>(rs: seq<seq<T>>, k: int, w: seq<T>)
    ensures w in WithoutLength(rs, k) <==> w in rs && |w| != k
    decreases |rs|
  {
    if rs != [] {
      var front := rs[..|rs| - 1];
      WithoutLengthMembers(front, k, w);
      assert rs == front + [rs[|rs| - 1]];
    }
  }

  lemma {:induction false} DistinctOnlyMembers<T>(rs: seq<seq<T>>, w: seq<T>)
    ensures w in DistinctOnly(rs) <==> w in rs && Distinct(w)
    decreases |rs|
  {
    if rs != [] {
      var front := rs[..|rs| - 1];
      DistinctOnlyMembers(front, w);
      assert rs == front + [rs[|rs| - 1]];
    }
  }

  /** Every kept list comes from the input and has a sum not seen before. */
  lemma {:induction false} FirstPerHashSumKept<T>(rs: seq<seq<T>>, hash: T -> int, seen: set<int>, w: seq<T>)
    requires w in FirstPerHashSum(rs, hash, seen)
    ensures w in rs && HashSum(w, hash) !in seen
    decreases |rs|
  {
    var h := HashSum(rs[0], hash);
    if h in seen {
      FirstPerHashSumKept(rs[1..], hash, seen, w);
    } else if w != rs[0] {
      FirstPerHashSumKept(rs[1..], hash, seen + {h}, w);
    }
  }

  /** No two lists of `r` share a hash sum. */
  ghost predicate SumsDistinct<T>(r: seq<seq<T>>, hash: T -> int)
  {
    forall i, j :: 0 <= i < j < |r| ==> HashSum(r[i], hash) != HashSum(r[j], hash)
  }

  /** No two kept lists share a hash sum. */
  lemma {:induction false} FirstPerHashSumUnique<T>(rs: seq<seq<T>>, hash: T -> int, seen: set<int>)
    ensures SumsDistinct(FirstPerHashSum(rs, hash, seen), hash)
    decreases |rs|
  {
    if rs != [] {
      var h := HashSum(rs[0], hash);
      if h in seen {
        FirstPerHashSumUnique(rs[1..], hash, seen);
      } else {
        var rest := FirstPerHashSum(rs[1..], hash, seen + {h});
        FirstPerHashSumUnique(rs[1..], hash, seen + {h});
        forall j | 0 <= j < |rest| ensures HashSum(rest[j], hash) != h {
          FirstPerHashSumKept(rs[1..], hash, seen + {h}, rest[j]);
        }
        var r := [rs[0]] + rest;
        forall i, j | 0 <= i < j < |r| ensures HashSum(r[i], hash) != HashSum(r[j], hash) {
          if i > 0 {
            assert r[i] == rest[i - 1] && r[j] == rest[j - 1];
          }
        }
      }
    }
  }

  /** Every input list whose sum was not seen has a kept list with that sum. */
  lemma {:induction false} FirstPerHashSumCovers<T>(rs: seq<seq<T>>, hash: T -> int, seen: set<int>, w: seq<T>)
    requires w in rs && HashSum(w, hash) !in seen
    ensures exists v :: v in FirstPerHashSum(rs, hash, seen) && HashSum(v, hash) == HashSum(w, hash)
    decreases |rs|
  {
    var h := HashSum(rs[0], hash);
    var r := FirstPerHashSum(rs, hash, seen);
    if h in seen {
      FirstPerHashSumCovers(rs[1..], hash, seen, w);
    } else if HashSum(w, hash) == h {
      assert rs[0] in r;
    } else {
      FirstPerHashSumCovers(rs[1..], hash, seen + {h}, w);
      var v :| v in FirstPerHashSum(rs[1..], hash, seen + {h}) && HashSum(v, hash) == HashSum(w, hash);
      assert v in r;
    }
  }

  // ---------------------------------------------------------------------------
  // GetCombinations

  /** What `GetCombinations(elements, cLength)` returns: levels 1 to
      `cLength` with the length-1 lists filtered out. */
  function Combinations<T>(elements: seq<T>, cLength: int): seq<seq<T>>
  {
    WithoutLength(Upto(elements, if cLength < 0 then 0 else cLength), 1)
  }

  /** The generated level lists before the inner loop has run `j` times at level `i`. */
  function PartialLevel<T>(elements: seq<T>, i: nat, j: nat): seq<seq<T>>
    requires j <= |elements|
  {
    if i == 0 then LevelOne(elements, j) else LevelStep(elements, Level(elements, i), j)
  }

  /** The nested loops of the source: level `i + 1` is built from the lists of
      length `i` already in `result`, one element at a time. */
  method GetCombinations<T>(elements: seq<T>, cLength: int) returns (combos: seq<seq<T>>)
    ensures combos == Combinations(elements, cLength)
  {
    var result: seq<seq<T>> := [];
    var i := 0;
    while i < cLength
      invariant 0 <= i && (i <= cLength || i == 0)
      invariant result == Upto(elements, i)
    {
      var j := 0;
      while j < |elements|
        invariant 0 <= j <= |elements|
        invariant result == Upto(elements, i) + PartialLevel(elements, i, j)
      {
        InnerStep(elements, i, j, result);
        if i == 0 {
          result := result + [[elements[j]]];
        } else {
          var prev := OfLength(result, i);
          result := result + ExpandAll(prev, elements[j]);
        }
        j := j + 1;
      }
      UptoStep(elements, i);
      i := i + 1;
    }
    assert result == Upto(elements, if cLength < 0 then 0 else cLength);
    combos := WithoutLength(result, 1);
  }

  /** What one pass of the inner loop appends keeps the partial level up to date. */
  lemma InnerStep<T>(elements: seq<T>, i: nat, j: nat, result: seq<seq<T>>)
    requires j < |elements|
    requires result == Upto(elements, i) + PartialLevel(elements, i, j)
    ensures i == 0 ==> result + [[elements[j]]] == Upto(elements, i) + PartialLevel(elements, i, j + 1)
    ensures i != 0 ==>
      result + ExpandAll(OfLength(result, i), elements[j]) == Upto(elements, i) + PartialLevel(elements, i, j + 1)
  {
    var done, partial := Upto(elements, i), PartialLevel(elements, i, j);
    PartialLevelStep(elements, i, j);
    if i == 0 {
      AppendAssoc(done, partial, [[elements[j]]]);
    } else {
      PrevIsLevel(elements, i, j);
      AppendAssoc(done, partial, ExpandAll(Level(elements, i), elements[j]));
    }
  }

  lemma AppendAssoc<T>(a: seq<T>, b: seq<T>, c: seq<T>)
    ensures (a + b) + c == a + (b + c)
  {
  }

  /** A full pass of the inner loop completes level `i + 1`. */
  lemma UptoStep<T>(elements: seq<T>, i: nat)
    ensures Upto(elements, i) + PartialLevel(elements, i, |elements|) == Upto(elements, i + 1)
  {
  }

  /** One pass of the inner loop adds the lists it appends to the partial level. */
  lemma PartialLevelStep<T>(elements: seq<T>, i: nat, j: nat)
    requires j < |elements|
    ensures PartialLevel(elements, i, j + 1) ==
      PartialLevel(elements, i, j) + if i == 0 then [[elements[j]]] else ExpandAll(Level(elements, i), elements[j])
  {
  }

  /** The lists of length `i` in the partly built result are exactly level `i`. */
  lemma PrevIsLevel<T>(elements: seq<T>, i: nat, j: nat)
    requires i >= 1 && j <= |elements|
    ensures OfLength(Upto(elements, i) + PartialLevel(elements, i, j), i) == Level(elements, i)
  {
    OfLengthConcat(Upto(elements, i), PartialLevel(elements, i, j), i);
    OfLengthUpto(elements, i, i);
    LevelLengths(elements, i);
    LevelStepLengths(elements, Level(elements, i), j, i);
    OfLengthNone(PartialLevel(elements, i, j), i);
  }

  // ---------------------------------------------------------------------------
  // Facts about the length filters

  lemma {:induction false} OfLengthConcat<T>(xs: seq<seq<T>>, ys: seq<seq<T>>, k: int)
    ensures OfLength(xs + ys, k) == OfLength(xs, k) + OfLength(ys, k)
    decreases |ys|
  {
    if ys != [] {
      var zs := ys[..|ys| - 1];
      assert (xs + ys)[..|xs + ys| - 1] == xs + zs;
      OfLengthConcat(xs, zs, k);
    } else {
      assert xs + ys == xs;
    }
  }

  lemma {:induction false} OfLengthAll<T>(xs: seq<seq<T>>, k: int)
    requires AllOfLength(xs, k)
    ensures OfLength(xs, k) == xs
    decreases |xs|
  {
    if xs != [] {
      OfLengthAll(xs[..|xs| - 1], k);
      assert xs[..|xs| - 1] + [xs[|xs| - 1]] == xs;
    }
  }

  lemma {:induction false} OfLengthNone<T>(xs: seq<seq<T>>, k: int)
    requires forall i :: 0 <= i < |xs| ==> |xs[i]| != k
    ensures OfLength(xs, k) == []
    decreases |xs|
  {
    if xs != [] {
      OfLengthNone(xs[..|xs| - 1], k);
    }
  }

  /** Filtering by a length other than 1 sees through the removal of the length-1 lists. */
  lemma {:induction false} OfLengthWithout<T>(xs: seq<seq<T>>, k: int)
    requires k != 1
    ensures OfLength(WithoutLength(xs, 1), k) == OfLength(xs, k)
    decreases |xs|
  {
    if xs != [] {
      var ys := xs[..|xs| - 1];
      var last := xs[|xs| - 1];
      OfLengthWithout(ys, k);
      if |last| != 1 {
        OfLengthConcat(WithoutLength(ys, 1), [last], k);
        assert [last][..0] == [];
      } else {
        assert WithoutLength(xs, 1) == WithoutLength(ys, 1) + [];
        assert WithoutLength(ys, 1) + [] == WithoutLength(ys, 1);
        assert OfLength(xs, k) == OfLength(ys, k) + [];
      }
    }
  }

  // ---------------------------------------------------------------------------
  // Facts about the levels

  lemma {:induction false} LevelOneMembers<T>(elements: seq<T>, m: nat)
    requires m <= |elements|
    ensures |LevelOne(elements, m)| == m
    ensures forall i :: 0 <= i < m ==> LevelOne(elements, m)[i] == [elements[i]]
    decreases m
  {
    if m > 0 {
      LevelOneMembers(elements, m - 1);
    }
  }

  lemma {:induction false} LevelStepSize<T>(elements: seq<T>, prev: seq<seq<T>>, m: nat)
    requires m <= |elements|
    ensures |LevelStep(elements, prev, m)| == m * |prev|
    decreases m
  {
    if m > 0 {
      LevelStepSize(elements, prev, m - 1);
      assert (m - 1) * |prev| + |prev| == m * |prev|;
    }
  }

  /** The members of a level step: a previous list extended by one of the first `m` elements. */
  lemma {:induction false} LevelStepMembers<T>(elements: seq<T>, prev: seq<seq<T>>, m: nat, w: seq<T>)
    requires m <= |elements|
    ensures w in LevelStep(elements, prev, m) <==>
      exists i, j :: 0 <= i < |prev| && 0 <= j < m && w == prev[i] + [elements[j]]
    decreases m
  {
    if m > 0 {
      LevelStepMembers(elements, prev, m - 1, w);
      var ext := ExpandAll(prev, elements[m - 1]);
      if w in LevelStep(elements, prev, m - 1) {
        var i, j :| 0 <= i < |prev| && 0 <= j < m - 1 && w == prev[i] + [elements[j]];
        assert 0 <= j < m;
      } else if w in ext {
        var i :| 0 <= i < |prev| && ext[i] == w;
        assert w == prev[i] + [elements[m - 1]];
      }
      if exists i, j :: 0 <= i < |prev| && 0 <= j < m && w == prev[i] + [elements[j]] {
        var i, j :| 0 <= i < |prev| && 0 <= j < m && w == prev[i] + [elements[j]];
        if j == m - 1 {
          assert w == ext[i];
        }
      }
    }
  }

  lemma {:induction false} LevelStepLengths<T>(elements: seq<T>, prev: seq<seq<T>>, m: nat, k: nat)
    requires m <= |elements|
    requires AllOfLength(prev, k)
    ensures AllOfLength(LevelStep(elements, prev, m), k + 1)
    decreases m
  {
    if m > 0 {
      LevelStepLengths(elements, prev, m - 1, k);
    }
  }

  lemma {:induction false} LevelLengths<T>(elements: seq<T>, k: nat)
    requires k >= 1
    ensures AllOfLength(Level(elements, k), k)
    decreases k
  {
    if k == 1 {
      LevelOneMembers(elements, |elements|);
    } else {
      LevelLengths(elements, k - 1);
      LevelStepLengths(elements, Level(elements, k - 1), |elements|, k - 1);
    }
  }

  /** Level `k` holds only sequences of length `k` over `elements`. */
  lemma {:induction false} LevelSound<T>(elements: seq<T>, k: nat, w: seq<T>)
    requires k >= 1 && w in Level(elements, k)
    ensures |w| == k && Over(w, elements)
    decreases k
  {
    if k == 1 {
      LevelOneMembers(elements, |elements|);
    } else {
      var prev := Level(elements, k - 1);
      LevelStepMembers(elements, prev, |elements|, w);
      var i, j :| 0 <= i < |prev| && 0 <= j < |elements| && w == prev[i] + [elements[j]];
      LevelSound(elements, k - 1, prev[i]);
    }
  }

  /** Every sequence of length `k` over `elements` is in level `k`. */
  lemma {:induction false} LevelComplete<T>(elements: seq<T>, k: nat, w: seq<T>)
    requires k >= 1 && |w| == k && Over(w, elements)
    ensures w in Level(elements, k)
    decreases k
  {
    if k == 1 {
      LevelOneComplete(elements, w);
    } else {
      var front := w[..k - 1];
      assert Over(front, elements);
      LevelComplete(elements, k - 1, front);
      StepComplete(elements, Level(elements, k - 1), front, w);
    }
  }

  lemma LevelOneComplete<T>(elements: seq<T>, w: seq<T>)
    requires |w| == 1 && w[0] in elements
    ensures w in LevelOne(elements, |elements|)
  {
    LevelOneMembers(elements, |elements|);
    var j :| 0 <= j < |elements| && elements[j] == w[0];
    assert LevelOne(elements, |elements|)[j] == w;
  }

  lemma StepComplete<T>(elements: seq<T>, prev: seq<seq<T>>, front: seq<T>, w: seq<T>)
    requires front in prev && |w| == |front| + 1 && w[..|front|] == front && w[|front|] in elements
    ensures w in LevelStep(elements, prev, |elements|)
  {
    var i :| 0 <= i < |prev| && prev[i] == front;
    var j :| 0 <= j < |elements| && elements[j] == w[|front|];
    assert w == w[..|front|] + [w[|front|]];
    LevelStepHas(elements, prev, |elements|, i, j);
  }

  /** The inner loop's first `m` passes append `prev[i] + [elements[j]]` for every `j < m`. */
  lemma {:induction false} LevelStepHas<T>(elements: seq<T>, prev: seq<seq<T>>, m: nat, i: nat, j: nat)
    requires m <= |elements| && i < |prev| && j < m
    ensures prev[i] + [elements[j]] in LevelStep(elements, prev, m)
    decreases m
  {
    if j == m - 1 {
      assert ExpandAll(prev, elements[j])[i] == prev[i] + [elements[j]];
    } else {
      LevelStepHas(elements, prev, m - 1, i, j);
    }
  }

  function Pow(n: nat, k: nat): nat
  {
    if k == 0 then 1 else n * Pow(n, k - 1)
  }

  /** Level `k` holds `n^k` lists for `n` elements (with multiplicity). */
  lemma {:induction false} LevelSize<T>(elements: seq<T>, k: nat)
    requires k >= 1
    ensures |Level(elements, k)| == Pow(|elements|, k)
    decreases k
  {
    if k == 1 {
      LevelOneMembers(elements, |elements|);
    } else {
      LevelSize(elements, k - 1);
      LevelStepSize(elements, Level(elements, k - 1), |elements|);
    }
  }

  /** Of the first `c` levels, those of length `k` form level `k` (and none for `k > c`). */
  lemma {:induction false} OfLengthUpto<T>(elements: seq<T>, c: nat, k: nat)
    requires k >= 1
    ensures OfLength(Upto(elements, c), k) == if k <= c then Level(elements, k) else []
    decreases c
  {
    if c > 0 {
      OfLengthUpto(elements, c - 1, k);
      OfLengthUptoStep(elements, c, k, OfLength(Upto(elements, c - 1), k));
    }
  }

  /** Adding level `c` to the first `c - 1` levels adds level `k` exactly when `k == c`. */
  lemma OfLengthUptoStep<T>(elements: seq<T>, c: nat, k: nat, below: seq<seq<T>>)
    requires k >= 1 && c >= 1
    requires below == OfLength(Upto(elements, c - 1), k)
    requires below == if k <= c - 1 then Level(elements, k) else []
    ensures OfLength(Upto(elements, c), k) == if k <= c then Level(elements, k) else []
  {
    var lower, top := Upto(elements, c - 1), Level(elements, c);
    assert Upto(elements, c) == lower + top;
    OfLengthConcat(lower, top, k);
    LevelLengths(elements, c);
    var added := OfLength(top, k);
    if c == k {
      OfLengthAll(top, k);
      assert below + added == top;
    } else {
      OfLengthNone(top, k);
      assert below + added == below;
    }
  }

  lemma {:induction false} UptoNonEmpty<T>(elements: seq<T>, c: nat)
    ensures [] !in Upto(elements, c)
    decreases c
  {
    if c > 0 {
      UptoNonEmpty(elements, c - 1);
      LevelLengths(elements, c);
    }
  }

  lemma UptoMembers<T>(elements: seq<T>, c: nat, w: seq<T>)
    ensures w in Upto(elements, c) <==> 1 <= |w| <= c && Over(w, elements)
  {
    if |w| >= 1 {
      OfLengthUpto(elements, c, |w|);
      OfLengthMembers(Upto(elements, c), |w|, w);
      if w in Level(elements, |w|) {
        LevelSound(elements, |w|, w);
      }
      if |w| <= c && Over(w, elements) {
        LevelComplete(elements, |w|, w);
      }
    } else {
      UptoNonEmpty(elements, c);
    }
  }

  // ---------------------------------------------------------------------------
  // What GetCombinations promises

  /** The result holds exactly the sequences over `elements` whose length is
      between 2 and `cLength`; for `cLength <= 1` it is empty. */
  lemma CombinationsMembers<T>(elements: seq<T>, cLength: int, w: seq<T>)
    ensures w in Combinations(elements, cLength) <==> 2 <= |w| <= cLength && Over(w, elements)
  {
    var c := if cLength < 0 then 0 else cLength;
    WithoutLengthMembers(Upto(elements, c), 1, w);
    UptoMembers(elements, c, w);
  }

  /** For `2 <= k <= cLength` the lists of length `k` in the result are level
      `k`, `n^k` of them for `n` elements. */
  lemma CombinationsOfLength<T>(elements: seq<T>, cLength: int, k: nat)
    requires 2 <= k <= cLength
    ensures OfLength(Combinations(elements, cLength), k) == Level(elements, k)
    ensures |OfLength(Combinations(elements, cLength), k)| == Pow(|elements|, k)
  {
    OfLengthWithout(Upto(elements, cLength), k);
    OfLengthUpto(elements, cLength, k);
    LevelSize(elements, k);
  }

  // ---------------------------------------------------------------------------
  // The Generate overloads

  /** A list the length-only overloads may return: entries from `elements`,
      length `cLength` (any length from 2 to `cLength` for a full set). */
  ghost predicate Sized<T>(elements: seq<T>, cLength: int, isFullSet: bool, w: seq<T>)
  {
    && (if isFullSet then 2 <= |w| <= cLength else 2 <= |w| == cLength)
    && Over(w, elements)
  }

  /** `Generate(elements, cLength, isFullSet)`: all lengths 2..cLength, or only cLength. */
  function GenerateOfLength<T>(elements: seq<T>, cLength: int, isFullSet: bool): (r: seq<seq<T>>)
    ensures forall i :: 0 <= i < |r| ==> Sized(elements, cLength, isFullSet, r[i])
  {
    var combos := Combinations(elements, cLength);
    var r := if !isFullSet then OfLength(combos, cLength) else combos;
    assert forall i :: 0 <= i < |r| ==> Sized(elements, cLength, isFullSet, r[i]) by {
      forall i | 0 <= i < |r|
        ensures Sized(elements, cLength, isFullSet, r[i])
      {
        CombinationsMembers(elements, cLength, r[i]);
        OfLengthMembers(combos, cLength, r[i]);
      }
    }
    r
  }

  /** `Generate(elements, isFullSet)`: all lengths 2..Count, or only Count.
      The C# repeats the body of the other overload; it is that overload
      with `cLength == elements.Count`. */
  function GenerateAll<T>(elements: seq<T>, isFullSet: bool): (r: seq<seq<T>>)
    ensures r == GenerateOfLength(elements, |elements|, isFullSet)
    ensures forall i :: 0 <= i < |r| ==> Sized(elements, |elements|, isFullSet, r[i])
  {
    var combos := Combinations(elements, |elements|);
    if !isFullSet then OfLength(combos, |elements|) else combos
  }

  /** The lists generated for `cLength` are exactly the sequences over
      `elements` of length `cLength` (or, for a full set, of every length
      from 2 to `cLength`). */
  lemma GenerateOfLengthMembers<T>(elements: seq<T>, cLength: int, isFullSet: bool, w: seq<T>)
    ensures w in GenerateOfLength(elements, cLength, isFullSet) <==> Sized(elements, cLength, isFullSet, w)
  {
    CombinationsMembers(elements, cLength, w);
    OfLengthMembers(Combinations(elements, cLength), cLength, w);
  }

  /** The first overload is the second with `cLength == elements.Count`: so
      without a full set it gives every sequence of `Count` entries over
      `elements`, `Count^Count` of them, and nothing for a single element. */
  lemma GenerateAllMembers<T>(elements: seq<T>, isFullSet: bool, w: seq<T>)
    ensures w in GenerateAll(elements, isFullSet) <==> Sized(elements, |elements|, isFullSet, w)
    ensures !isFullSet && |elements| >= 2 ==> |GenerateAll(elements, false)| == Pow(|elements|, |elements|)
    ensures |elements| == 1 ==> GenerateAll(elements, isFullSet) == []
  {
    GenerateOfLengthMembers(elements, |elements|, isFullSet, w);
    if !isFullSet && |elements| >= 2 {
      CombinationsOfLength(elements, |elements|, |elements|);
    }
    if |elements| == 1 && GenerateAll(elements, isFullSet) != [] {
      var v := GenerateAll(elements, isFullSet)[0];
      GenerateOfLengthMembers(elements, 1, isFullSet, v);
    }
  }

  /** The `CombinatorOptions` record. */
  datatype CombinatorOptions = CombinatorOptions(
    length: int,
    isFullSet: bool,
    isElementUnique: bool,
    isOrdered: bool)

  /** The record's defaults: no length, not a full set, elements may repeat, ordered. */
  const DefaultOptions := CombinatorOptions(0, false, false, true)

  /** The combination length `Generate(elements, options)` uses: the element
      count when no length is given or elements must be unique. */
  function OptionsLength<T>(elements: seq<T>, options: CombinatorOptions): (c: int)
    ensures options.isElementUnique ==> c == |elements|
    ensures !options.isElementUnique && options.length != 0 ==> c == options.length
    ensures options.length == 0 ==> c == |elements|
  {
    if options.length == 0 || options.isElementUnique then |elements| else options.length
  }

  /** What survives the length and uniqueness filters of `Generate(elements, options)`. */
  ghost predicate Admitted<T>(elements: seq<T>, options: CombinatorOptions, w: seq<T>)
  {
    var c := OptionsLength(elements, options);
    && 2 <= |w| <= c
    && Over(w, elements)
    && (!options.isFullSet ==> |w| == c)
    && (options.isElementUnique ==> Distinct(w))
  }

  /** `Generate(elements, options)`, with `GetHashCode` supplied as `hash`.
      Every generated list is admitted: its length is `cLength` (any length
      in 2..cLength for a full set), its entries come from `elements`, and
      with unique elements it repeats none. */
  function GenerateWith<T(==)>(elements: seq<T>, options: CombinatorOptions, hash: T -> int): (r: seq<seq<T>>)
    ensures forall i :: 0 <= i < |r| ==> Admitted(elements, options, r[i])
  {
    var cLength := OptionsLength(elements, options);
    var combos := Combinations(elements, cLength);
    var sized := if !options.isFullSet then OfLength(combos, cLength) else combos;
    var unique := if options.isElementUnique then DistinctOnly(sized) else sized;
    var r := if !options.isOrdered then FirstPerHashSum(unique, hash, {}) else unique;
    assert forall i :: 0 <= i < |r| ==> Admitted(elements, options, r[i]) by {
      forall i | 0 <= i < |r|
        ensures Admitted(elements, options, r[i])
      {
        FilteredMembers(elements, options, r[i]);
        if !options.isOrdered {
          FirstPerHashSumKept(unique, hash, {}, r[i]);
        }
      }
    }
    r
  }

  /** The lists before the hash-sum grouping are exactly the admitted ones. */
  lemma FilteredMembers<T>(elements: seq<T>, options: CombinatorOptions, w: seq<T>)
    ensures var cLength := OptionsLength(elements, options);
      var combos := Combinations(elements, cLength);
      var sized := if !options.isFullSet then OfLength(combos, cLength) else combos;
      var unique := if options.isElementUnique then DistinctOnly(sized) else sized;
      w in unique <==> Admitted(elements, options, w)
  {
    var cLength := OptionsLength(elements, options);
    var combos := Combinations(elements, cLength);
    var sized := if !options.isFullSet then OfLength(combos, cLength) else combos;
    CombinationsMembers(elements, cLength, w);
    OfLengthMembers(combos, cLength, w);
    DistinctOnlyMembers(sized, w);
  }

  /** Nothing admitted is lost when order matters; when it does not, every
      admitted list has a kept list with the same hash sum, and no two kept
      lists share one. */
  lemma GenerateWithComplete<T>(elements: seq<T>, options: CombinatorOptions, hash: T -> int, w: seq<T>)
    requires Admitted(elements, options, w)
    ensures options.isOrdered ==> w in GenerateWith(elements, options, hash)
    ensures !options.isOrdered ==>
      exists v :: v in GenerateWith(elements, options, hash) && HashSum(v, hash) == HashSum(w, hash)
    ensures !options.isOrdered ==> SumsDistinct(GenerateWith(elements, options, hash), hash)
  {
    FilteredMembers(elements, options, w);
    if !options.isOrdered {
      var cLength := OptionsLength(elements, options);
      var combos := Combinations(elements, cLength);
      var sized := if !options.isFullSet then OfLength(combos, cLength) else combos;
      var unique := if options.isElementUnique then DistinctOnly(sized) else sized;
      FirstPerHashSumCovers(unique, hash, {}, w);
      FirstPerHashSumUnique(unique, hash, {});
    }
  }

  /** The default options give the first overload with `isFullSet: false`. */
  lemma DefaultOptionsGenerate<T>(elements: seq<T>, hash: T -> int)
    ensures GenerateWith(elements, DefaultOptions, hash) == GenerateAll(elements, false)
  {
  }
}
