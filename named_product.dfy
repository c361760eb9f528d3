/** named_product(**items): the cartesian product of the keyword arguments'
    value sequences, one record per combination, in the order in which
    itertools.product enumerates them (the last keyword varies fastest). */
module NamedProduct {

  /** The keyword arguments, in the order they were passed: a name and the
      sequence of values given for it. */
  type Items<T> = seq<(string, seq<T>)>

  /** One record of the result: a dict pairing each name with the value the
      combination takes for it. A Python dict keeps insertion order, so it
      is modelled as its sequence of entries. */
  type Record<T> = seq<(string, T)>

  // ---------------------------------------------------------------------
  // itertools.product

  /** The number of combinations: the product of the pools' lengths. */
  function Count<T>(pools: seq<seq<T>>): nat
  {
    if pools == [] then 1 else |pools[0]| * Count(pools[1..])
  }

  function PrependAll<T>(x: T, tails: seq<seq<T>>): seq<seq<T>>
  {
    seq(|tails|, j requires 0 <= j < |tails| => [x] + tails[j])
  }

  /** For each x of xs in turn, every tail with x in front of it. */
  function Expand<T>(xs: seq<T>, tails: seq<seq<T>>): seq<seq<T>>
  {
    if xs == [] then [] else PrependAll(xs[0], tails) + Expand(xs[1..], tails)
  }

  /** product(*pools): the first pool varies slowest, the last fastest. */
  function Product<T>(pools: seq<seq<T>>): seq<seq<T>>
  {
    if pools == [] then [[]] else Expand(pools[0], Product(pools[1..]))
  }

  // ---------------------------------------------------------------------
  // Index tuples: which element of each pool a combination takes

  /** d picks one element of every pool. */
  predicate ValidIndex<T>(pools: seq<seq<T>>, d: seq<nat>)
  {
    |d| == |pools| && forall k :: 0 <= k < |d| ==> d[k] < |pools[k]|
  }

  /** The combination that the index tuple d selects. */
  function Pick<T>(pools: seq<seq<T>>, d: seq<nat>): seq<T>
    requires ValidIndex(pools, d)
  {
    seq(|pools|, k requires 0 <= k < |pools| => pools[k][d[k]])
  }

  /** The position of an index tuple, read as a mixed-radix numeral whose
      last digit is the least significant. */
  function Rank<T>(pools: seq<seq<T>>, d: seq<nat>): nat
    requires |d| == |pools|
  {
    if pools == [] then 0 else d[0] * Count(pools[1..]) + Rank(pools[1..], d[1..])
  }

  /** The mixed-radix digits of i, most significant (first pool) first. */
  function Digits<T>(pools: seq<seq<T>>, i: nat): seq<nat>
  {
    if pools == [] then []
    else
      var s := Count(pools[1..]);
      if s == 0 then [0] + Digits(pools[1..], i)
      else [i / s] + Digits(pools[1..], i % s)
  }

  /** Strict lexicographic order on index tuples. */
  predicate LexLess(d: seq<nat>, e: seq<nat>)
  {
    |d| > 0 && |e| > 0 && (d[0] < e[0] || (d[0] == e[0] && LexLess(d[1..], e[1..])))
  }

  // ---------------------------------------------------------------------
  // Lemmas about product

  lemma {:induction false} ExpandLength<T>(xs: seq<T>, tails: seq<seq<T>>)
    ensures |Expand(xs, tails)| == |xs| * |tails|
  {
    if xs != [] {
      ExpandLength(xs[1..], tails);
    }
  }

  lemma MulStep(a: nat, m: nat)
    ensures (a + 1) * m == a * m + m
  {
  }

  lemma MulMono(a: nat, b: nat, m: nat)
    requires a <= b
    ensures a * m <= b * m
  {
  }

  lemma DivBound(i: nat, s: nat, n: nat)
    requires 0 < s && i < n * s
    ensures i / s < n && (i / s) * s + i % s == i
  {
    if i / s >= n {
      MulMono(n, i / s, s);
    }
  }

  lemma {:induction false} ExpandAt<T>(xs: seq<T>, tails: seq<seq<T>>, a: nat, b: nat)
    requires a < |xs| && b < |tails|
    ensures a * |tails| + b < |Expand(xs, tails)|
    ensures Expand(xs, tails)[a * |tails| + b] == [xs[a]] + tails[b]
  {
    var m := |tails|;
    ExpandLength(xs, tails);
    MulStep(a, m);
    MulMono(a + 1, |xs|, m);
    if a > 0 {
      ExpandAt(xs[1..], tails, a - 1, b);
      MulStep(a - 1, m);
      var front := PrependAll(xs[0], tails);
      assert |front| == m;
      assert Expand(xs, tails) == front + Expand(xs[1..], tails);
      assert Expand(xs, tails)[a * m + b] == Expand(xs[1..], tails)[(a - 1) * m + b];
    }
  }

  /** There are exactly as many combinations as the product of the pools'
      lengths; with no pools there is exactly one, the empty one. */
  lemma {:induction false} ProductLength<T>(pools: seq<seq<T>>)
    ensures |Product(pools)| == Count(pools)
    ensures pools == [] ==> Product(pools) == [[]]
  {
    if pools != [] {
      ProductLength(pools[1..]);
      ExpandLength(pools[0], Product(pools[1..]));
    }
  }

  /** The count is zero exactly when some pool is empty. */
  lemma {:induction false} CountZero<T>(pools: seq<seq<T>>)
    ensures Count(pools) == 0 <==> exists k :: 0 <= k < |pools| && pools[k] == []
  {
    if pools != [] {
      CountZero(pools[1..]);
      if Count(pools[1..]) == 0 {
        var k :| 0 <= k < |pools[1..]| && pools[1..][k] == [];
        assert pools[k + 1] == [];
      }
      if exists k :: 0 <= k < |pools| && pools[k] == [] {
        var k :| 0 <= k < |pools| && pools[k] == [];
        if k > 0 {
          assert pools[1..][k - 1] == [];
        }
      }
    }
  }

  /** The product is empty exactly when one of the pools is empty. */
  lemma ProductEmpty<T>(pools: seq<seq<T>>)
    ensures Product(pools) == [] <==> exists k :: 0 <= k < |pools| && pools[k] == []
  {
    ProductLength(pools);
    CountZero(pools);
  }

  lemma {:induction false} RankBound<T>(pools: seq<seq<T>>, d: seq<nat>)
    requires ValidIndex(pools, d)
    ensures Rank(pools, d) < Count(pools)
  {
    if pools != [] {
      assert ValidIndex(pools[1..], d[1..]) by {
        forall k | 0 <= k < |d[1..]| ensures d[1..][k] < |pools[1..][k]| {
          assert d[1..][k] == d[k + 1];
        }
      }
      RankBound(pools[1..], d[1..]);
      var s := Count(pools[1..]);
      MulStep(d[0], s);
      MulMono(d[0] + 1, |pools[0]|, s);
    }
  }

  /** Every index tuple's combination stands at the tuple's mixed-radix rank:
      the product lists every combination. */
  lemma {:induction false} ProductAt<T>(pools: seq<seq<T>>, d: seq<nat>)
    requires ValidIndex(pools, d)
    ensures Rank(pools, d) < |Product(pools)|
    ensures Product(pools)[Rank(pools, d)] == Pick(pools, d)
  {
    ProductLength(pools);
    RankBound(pools, d);
    if pools != [] {
      var tails := Product(pools[1..]);
      assert ValidIndex(pools[1..], d[1..]) by {
        forall k | 0 <= k < |d[1..]| ensures d[1..][k] < |pools[1..][k]| {
          assert d[1..][k] == d[k + 1];
        }
      }
      ProductAt(pools[1..], d[1..]);
      ProductLength(pools[1..]);
      ExpandAt(pools[0], tails, d[0], Rank(pools[1..], d[1..]));
      assert Pick(pools, d) == [pools[0][d[0]]] + Pick(pools[1..], d[1..]);
    }
  }

  /** The digits of every position below the count form an index tuple
      whose rank is that position. */
  lemma {:induction false} DigitsRank<T>(pools: seq<seq<T>>, i: nat)
    requires i < Count(pools)
    ensures ValidIndex(pools, Digits(pools, i))
    ensures Rank(pools, Digits(pools, i)) == i
  {
    if pools != [] {
      var s := Count(pools[1..]);
      assert s != 0;
      DivBound(i, s, |pools[0]|);
      var d := Digits(pools, i);
      assert d == [i / s] + Digits(pools[1..], i % s);
      DigitsRank(pools[1..], i % s);
      assert d[1..] == Digits(pools[1..], i % s);
    }
  }

  /** Conversely every index tuple is the digits of its rank, so positions
      below the count and index tuples correspond one to one. */
  lemma RankDigits<T>(pools: seq<seq<T>>, d: seq<nat>)
    requires ValidIndex(pools, d)
    ensures Digits(pools, Rank(pools, d)) == d
  {
    RankBound(pools, d);
    var e := Digits(pools, Rank(pools, d));
    DigitsRank(pools, Rank(pools, d));
    LexTrichotomy(d, e);
    if LexLess(d, e) {
      RankMonotone(pools, d, e);
    }
    if LexLess(e, d) {
      RankMonotone(pools, e, d);
    }
  }

  /** Record i of the product is the combination whose index tuple is the
      mixed-radix digits of i. */
  lemma ProductIsMixedRadix<T>(pools: seq<seq<T>>, i: nat)
    requires i < |Product(pools)|
    ensures ValidIndex(pools, Digits(pools, i))
    ensures Product(pools)[i] == Pick(pools, Digits(pools, i))
  {
    ProductLength(pools);
    DigitsRank(pools, i);
    ProductAt(pools, Digits(pools, i));
  }

  /** Every combination has one entry per pool, taken from that pool. */
  lemma ProductMembers<T>(pools: seq<seq<T>>, i: nat)
    requires i < |Product(pools)|
    ensures |Product(pools)[i]| == |pools|
    ensures forall k :: 0 <= k < |pools| ==> Product(pools)[i][k] in pools[k]
  {
    ProductIsMixedRadix(pools, i);
  }

  lemma {:induction false} LexTrichotomy(d: seq<nat>, e: seq<nat>)
    requires |d| == |e|
    ensures d == e || LexLess(d, e) || LexLess(e, d)
  {
    if |d| > 0 && d[0] == e[0] {
      LexTrichotomy(d[1..], e[1..]);
      if d[1..] == e[1..] {
        assert d == [d[0]] + d[1..] && e == [e[0]] + e[1..];
      }
    }
  }

  /** Lexicographically smaller index tuples come earlier. */
  lemma {:induction false} RankMonotone<T>(pools: seq<seq<T>>, d: seq<nat>, e: seq<nat>)
    requires ValidIndex(pools, d) && ValidIndex(pools, e)
    requires LexLess(d, e)
    ensures Rank(pools, d) < Rank(pools, e)
  {
    var s := Count(pools[1..]);
    assert ValidIndex(pools[1..], d[1..]) by {
      forall k | 0 <= k < |d[1..]| ensures d[1..][k] < |pools[1..][k]| {
        assert d[1..][k] == d[k + 1];
      }
    }
    assert ValidIndex(pools[1..], e[1..]) by {
      forall k | 0 <= k < |e[1..]| ensures e[1..][k] < |pools[1..][k]| {
        assert e[1..][k] == e[k + 1];
      }
    }
    if d[0] < e[0] {
      RankBound(pools[1..], d[1..]);
      MulStep(d[0], s);
      MulMono(d[0] + 1, e[0], s);
    } else {
      RankMonotone(pools[1..], d[1..], e[1..]);
    }
  }

  /** The product enumerates combinations in strictly increasing
      lexicographic order of their index tuples (last pool fastest). */
  lemma ProductOrder<T>(pools: seq<seq<T>>, i: nat, j: nat)
    requires i < j < |Product(pools)|
    ensures LexLess(Digits(pools, i), Digits(pools, j))
  {
    ProductLength(pools);
    DigitsRank(pools, i);
    DigitsRank(pools, j);
    var d, e := Digits(pools, i), Digits(pools, j);
    LexTrichotomy(d, e);
    if LexLess(e, d) {
      RankMonotone(pools, e, d);
    }
  }

  // ---------------------------------------------------------------------
  // named_product

  function Names<T>(items: Items<T>): seq<string>
  {
    seq(|items|, k requires 0 <= k < |items| => items[k].0)
  }

  function Pools<T>(items: Items<T>): seq<seq<T>>
  {
    seq(|items|, k requires 0 <= k < |items| => items[k].1)
  }

  /** zip(names, values): pairs up to the shorter of the two. */
  function Zip<T>(names: seq<string>, values: seq<T>): Record<T>
  {
    var n := if |names| <= |values| then |names| else |values|;
    seq(n, k requires 0 <= k < n => (names[k], values[k]))
  }

  /** The names of a record's entries, in order. */
  function Keys<T>(r: Record<T>): seq<string>
  {
    seq(|r|, k requires 0 <= k < |r| => r[k].0)
  }

  /** dict(pairs): a later pair for the same key overwrites an earlier one. */
  function AsDict<T>(r: Record<T>): map<string, T>
  {
    if r == [] then map[] else AsDict(r[..|r| - 1])[r[|r| - 1].0 := r[|r| - 1].1]
  }

  predicate Distinct(names: seq<string>)
  {
    forall j, k :: 0 <= j < k < |names| ==> names[j] != names[k]
  }

  /** named_product: one record per combination of the product, in the
      product's order, pairing each name with its value. */
  function NamedProductOf<T>(items: Items<T>): seq<Record<T>>
  {
    var names, combos := Names(items), Product(Pools(items));
    seq(|combos|, i requires 0 <= i < |combos| => Zip(names, combos[i]))
  }

  /** One record per combination: the product of the lengths; a single empty
      record when there are no keyword arguments. */
  lemma NamedProductLength<T>(items: Items<T>)
    ensures |NamedProductOf(items)| == Count(Pools(items))
    ensures items == [] ==> NamedProductOf(items) == [[]]
  {
    ProductLength(Pools(items));
    if items == [] {
      assert Pools(items) == [];
      assert Zip(Names(items), Product(Pools(items))[0]) == [];
    }
  }

  /** No records at all exactly when some keyword was given no values. */
  lemma NamedProductEmpty<T>(items: Items<T>)
    ensures NamedProductOf(items) == [] <==> exists k :: 0 <= k < |items| && items[k].1 == []
  {
    ProductEmpty(Pools(items));
    if exists k :: 0 <= k < |items| && items[k].1 == [] {
      var k :| 0 <= k < |items| && items[k].1 == [];
      assert Pools(items)[k] == [];
    }
  }

  /** Record i has the keyword names as its keys, each once and in argument
      order, and under key k the value at k's mixed-radix digit of i, which
      is one of the values given for k. */
  lemma NamedProductRecord<T>(items: Items<T>, i: nat)
    requires i < |NamedProductOf(items)|
    ensures Keys(NamedProductOf(items)[i]) == Names(items)
    ensures ValidIndex(Pools(items), Digits(Pools(items), i))
    ensures forall k :: 0 <= k < |items| ==>
      NamedProductOf(items)[i][k].1 == items[k].1[Digits(Pools(items), i)[k]]
    ensures forall k :: 0 <= k < |items| ==> NamedProductOf(items)[i][k].1 in items[k].1
  {
    ProductIsMixedRadix(Pools(items), i);
  }

  /** Every combination of the given values occurs, as the record at its
      mixed-radix rank. */
  lemma NamedProductComplete<T>(items: Items<T>, d: seq<nat>)
    requires ValidIndex(Pools(items), d)
    ensures Rank(Pools(items), d) < |NamedProductOf(items)|
    ensures NamedProductOf(items)[Rank(Pools(items), d)] == Zip(Names(items), Pick(Pools(items), d))
  {
    ProductAt(Pools(items), d);
  }

  /** Records come in strictly increasing lexicographic order of their index
      tuples: the last keyword varies fastest. */
  lemma NamedProductOrder<T>(items: Items<T>, i: nat, j: nat)
    requires i < j < |NamedProductOf(items)|
    ensures LexLess(Digits(Pools(items), i), Digits(Pools(items), j))
  {
    ProductOrder(Pools(items), i, j);
  }

  lemma {:induction false} AsDictDistinct<T>(r: Record<T>)
    requires Distinct(Keys(r))
    ensures AsDict(r).Keys == set k | 0 <= k < |r| :: r[k].0
    ensures forall k :: 0 <= k < |r| ==> AsDict(r)[r[k].0] == r[k].1
  {
    if r != [] {
      var p := r[..|r| - 1];
      assert Distinct(Keys(p)) by {
        forall j, k | 0 <= j < k < |Keys(p)| ensures Keys(p)[j] != Keys(p)[k] {
          assert Keys(p)[j] == Keys(r)[j] && Keys(p)[k] == Keys(r)[k];
        }
      }
      AsDictDistinct(p);
      var whole, front := set k | 0 <= k < |r| :: r[k].0, set k | 0 <= k < |p| :: p[k].0;
      assert whole == front + {r[|r| - 1].0} by {
        forall x | x in whole ensures x in front + {r[|r| - 1].0} {
          var k :| 0 <= k < |r| && r[k].0 == x;
          if k < |p| {
            assert p[k].0 == x;
          }
        }
      }
      forall k | 0 <= k < |r| ensures AsDict(r)[r[k].0] == r[k].1 {
        if k < |r| - 1 {
          assert Keys(r)[k] != Keys(r)[|r| - 1];
          assert p[k] == r[k];
        }
      }
    }
  }

  /** With distinct keyword names (always so for keyword arguments), each
      record read as a dict has exactly the keyword names as keys, and the
      value under each name is the one at that name's mixed-radix digit of
      the record's position, so one of the values given for it. */
  lemma NamedProductDict<T>(items: Items<T>, i: nat)
    requires Distinct(Names(items))
    requires i < |NamedProductOf(items)|
    ensures AsDict(NamedProductOf(items)[i]).Keys == set k | 0 <= k < |items| :: items[k].0
    ensures ValidIndex(Pools(items), Digits(Pools(items), i))
    ensures forall k :: 0 <= k < |items| ==>
      AsDict(NamedProductOf(items)[i])[items[k].0] == items[k].1[Digits(Pools(items), i)[k]]
    ensures forall k :: 0 <= k < |items| ==> AsDict(NamedProductOf(items)[i])[items[k].0] in items[k].1
  {
    var r := NamedProductOf(items)[i];
    NamedProductRecord(items, i);
    AsDictDistinct(r);
    assert forall k :: 0 <= k < |items| ==> r[k].0 == items[k].0;
  }
}
