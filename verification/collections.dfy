/** Values shared by every module of the model: error wrappers, an
    insertion-ordered dictionary standing for a Python `dict`, and the
    sequence helpers (filters, counts, sums) the contracts are written with. */
module Collections {

  datatype Option<T> = None | Some(value: T)

  datatype Result<T, E> = Success(value: T) | Failure(error: E)

  /** Dictionary keys: coin symbols, pair names, normalised coin ids. */
  type Key = string

  predicate Distinct<T(==)>(s: seq<T>) {
    forall i, j :: 0 <= i < j < |s| ==> s[i] != s[j]
  }

  /** A Python `dict` with string keys: the keys in insertion order, and the
      key-to-value map. */
  datatype Dict<V> = Dict(keys: seq<Key>, vals: map<Key, V>) {
    ghost predicate Valid() {
      Distinct(keys) && forall k :: k in keys <==> k in vals
    }
  }

  function Empty<V>(): (d: Dict<V>)
    ensures d.Valid() && d.keys == [] && d.vals == map[]
  {
    Dict([], map[])
  }

  /** `d[k] = v`: a new key goes to the end of the order, an existing key keeps its place. */
  function Put<V>(d: Dict<V>, k: Key, v: V): (r: Dict<V>)
    requires d.Valid()
    ensures r.Valid()
    ensures r.vals == d.vals[k := v]
    ensures r.keys == if k in d.vals then d.keys else d.keys + [k]
  {
    if k in d.vals then Dict(d.keys, d.vals[k := v]) else Dict(d.keys + [k], d.vals[k := v])
  }

  /** Assigning a key twice is assigning it the second value. */
  lemma PutTwice<V>(d: Dict<V>, k: Key, v1: V, v2: V)
    requires d.Valid()
    ensures Put(Put(d, k, v1), k, v2) == Put(d, k, v2)
  {
  }

  /** `d.pop(k, None)`: removes `k` if present, keeping the order of the rest. */
  function Pop<V>(d: Dict<V>, k: Key): (r: Dict<V>)
    requires d.Valid()
    ensures r.Valid()
    ensures r.vals == d.vals - {k}
    ensures r.keys == Exclude(d.keys, {k})
  {
    Dict(Exclude(d.keys, {k}), d.vals - {k})
  }

  /** The elements of `s` not in `xs`, in their order (a list comprehension with `not in`). */
  function Exclude(s: seq<Key>, xs: set<Key>): (r: seq<Key>)
    ensures forall e :: e in r <==> e in s && e !in xs
    ensures Distinct(s) ==> Distinct(r)
    ensures |r| <= |s|
  {
    if |s| == 0 then []
    else
      var init := Exclude(s[..|s| - 1], xs);
      assert forall e :: e in s[..|s| - 1] ==> e in s;
      if s[|s| - 1] in xs then init else init + [s[|s| - 1]]
  }

  lemma {:induction false} ExcludeTwice(s: seq<Key>, xs: set<Key>, ys: set<Key>)
    ensures Exclude(Exclude(s, xs), ys) == Exclude(s, xs + ys)
  {
    if |s| > 0 {
      var init := s[..|s| - 1];
      ExcludeTwice(init, xs, ys);
      var e := Exclude(init, xs);
      if s[|s| - 1] !in xs {
        assert (e + [s[|s| - 1]])[..|e|] == e;
      }
    }
  }

  lemma {:induction false} ExcludeNothing(s: seq<Key>, xs: set<Key>)
    requires forall e :: e in s ==> e !in xs
    ensures Exclude(s, xs) == s
  {
    if |s| > 0 {
      ExcludeNothing(s[..|s| - 1], xs);
      assert s[..|s| - 1] + [s[|s| - 1]] == s;
    }
  }

  /** Python's `list.remove(x)`: drops the first occurrence of `x`. */
  function RemoveFirst(s: seq<Key>, x: Key): (r: seq<Key>)
    requires x in s
    ensures |r| == |s| - 1
  {
    if s[0] == x then s[1..] else [s[0]] + RemoveFirst(s[1..], x)
  }

  lemma {:induction false} RemoveFirstOfDistinct(s: seq<Key>, x: Key)
    requires x in s && Distinct(s)
    ensures RemoveFirst(s, x) == Exclude(s, {x})
  {
    if s[0] == x {
      ExcludeNothing(s[1..], {x});
      ExcludeHead(s, {x});
    } else {
      RemoveFirstOfDistinct(s[1..], x);
      ExcludeHead(s, {x});
    }
  }

  /** Exclude, unfolded at the front of the sequence. */
  lemma {:induction false} ExcludeHead(s: seq<Key>, xs: set<Key>)
    requires |s| > 0
    ensures Exclude(s, xs) == (if s[0] in xs then [] else [s[0]]) + Exclude(s[1..], xs)
  {
    if |s| > 1 {
      var init := s[..|s| - 1];
      ExcludeHead(init, xs);
      assert init[1..] == s[1..][..|s[1..]| - 1];
    } else {
      assert s[1..] == [];
    }
  }

  /** The first occurrences of the elements of `s`, in order: the key order of a dict
      filled by assigning to the elements of `s` one after the other. */
  function Dedup(s: seq<Key>): (r: seq<Key>)
    ensures Distinct(r)
    ensures forall e :: e in r <==> e in s
  {
    if |s| == 0 then []
    else
      var init := Dedup(s[..|s| - 1]);
      assert forall e :: e in s <==> e in s[..|s| - 1] || e == s[|s| - 1];
      if s[|s| - 1] in init then init else init + [s[|s| - 1]]
  }

  lemma {:induction false} DedupOfDistinct(s: seq<Key>)
    requires Distinct(s)
    ensures Dedup(s) == s
  {
    if |s| > 0 {
      DedupOfDistinct(s[..|s| - 1]);
      assert s[..|s| - 1] + [s[|s| - 1]] == s;
    }
  }

  /** How many times `x` occurs in `s`. */
  function Count(s: seq<Key>, x: Key): (n: nat)
    ensures n <= |s|
    ensures n > 0 <==> x in s
  {
    if |s| == 0 then 0
    else
      assert forall e :: e in s <==> e in s[..|s| - 1] || e == s[|s| - 1];
      Count(s[..|s| - 1], x) + (if s[|s| - 1] == x then 1 else 0)
  }

  lemma {:induction false} CountInDistinct(s: seq<Key>, x: Key)
    requires Distinct(s) && x in s
    ensures Count(s, x) == 1
  {
    var init := s[..|s| - 1];
    if s[|s| - 1] == x {
      assert x !in init;
    } else {
      assert x in init;
      CountInDistinct(init, x);
    }
  }

  /** `sum(m[k] for k in ks)`. */
  function SumOver(ks: seq<Key>, m: map<Key, real>): real
    requires forall k :: k in ks ==> k in m
  {
    if |ks| == 0 then 0.0 else SumOver(ks[..|ks| - 1], m) + m[ks[|ks| - 1]]
  }

  /** `sum(d.values())`. */
  function SumValues(d: Dict<real>): real
    requires d.Valid()
  {
    SumOver(d.keys, d.vals)
  }

  /** Changing a key that is not listed leaves the sum alone. */
  lemma {:induction false} SumOverUnlisted(ks: seq<Key>, m: map<Key, real>, k: Key, v: real)
    requires k !in ks
    requires forall x :: x in ks ==> x in m
    ensures SumOver(ks, m[k := v]) == SumOver(ks, m)
  {
    if |ks| > 0 {
      SumOverUnlisted(ks[..|ks| - 1], m, k, v);
    }
  }

  /** The dictionary built by `for k, v in zip(ks, vs): d[k] = v`. */
  function FromPairs<V>(ks: seq<Key>, vs: seq<V>): (d: Dict<V>)
    requires |ks| == |vs|
    ensures d.Valid()
    ensures d.keys == Dedup(ks)
    ensures forall k :: k in d.vals <==> k in ks
  {
    if |ks| == 0 then Empty()
    else Put(FromPairs(ks[..|ks| - 1], vs[..|vs| - 1]), ks[|ks| - 1], vs[|vs| - 1])
  }

  /** With distinct keys every key keeps the value paired with it. */
  lemma {:induction false} FromPairsDistinct<V>(ks: seq<Key>, vs: seq<V>)
    requires |ks| == |vs| && Distinct(ks)
    ensures forall i :: 0 <= i < |ks| ==> FromPairs(ks, vs).vals[ks[i]] == vs[i]
  {
    if |ks| > 0 {
      var n := |ks| - 1;
      var init, vinit := ks[..n], vs[..n];
      assert forall i :: 0 <= i < n ==> init[i] == ks[i];
      FromPairsDistinct(init, vinit);
      var d := FromPairs(init, vinit);
      assert FromPairs(ks, vs) == Put(d, ks[n], vs[n]);
      forall i | 0 <= i < |ks|
        ensures FromPairs(ks, vs).vals[ks[i]] == vs[i]
      {
        if i < n {
          assert ks[i] != ks[n] && d.vals[init[i]] == vinit[i];
        }
      }
    }
  }

  /** When every paired value is `v`, every value of the dictionary is `v`. */
  lemma {:induction false} FromPairsConstant<V>(ks: seq<Key>, vs: seq<V>, v: V)
    requires |ks| == |vs|
    requires forall i :: 0 <= i < |vs| ==> vs[i] == v
    ensures forall k :: k in FromPairs(ks, vs).vals ==> FromPairs(ks, vs).vals[k] == v
  {
    if |ks| > 0 {
      FromPairsConstant(ks[..|ks| - 1], vs[..|vs| - 1], v);
    }
  }

  /** With distinct keys the dictionary's values sum to the sum of `vs`. */
  lemma {:induction false} FromPairsSum(ks: seq<Key>, vs: seq<real>)
    requires |ks| == |vs| && Distinct(ks)
    ensures SumValues(FromPairs(ks, vs)) == SeqSum(vs)
  {
    if |ks| > 0 {
      var init, vinit := ks[..|ks| - 1], vs[..|vs| - 1];
      var d := FromPairs(init, vinit);
      FromPairsSum(init, vinit);
      DedupOfDistinct(init);
      DedupOfDistinct(ks);
      assert ks[|ks| - 1] !in d.vals;
      SumOverUnlisted(init, d.vals, ks[|ks| - 1], vs[|vs| - 1]);
    }
  }

  /** `x` added `n` times: what a coin listed `n` times receives when every
      occurrence is credited `x`. */
  function Times(n: nat, x: real): real {
    if n == 0 then 0.0 else Times(n - 1, x) + x
  }

  lemma {:induction false} TimesDistributes(n: nat, a: real, b: real, sum: real)
    requires sum == a + b
    ensures Times(n, sum) == Times(n, a) + Times(n, b)
  {
    if n > 0 {
      TimesDistributes(n - 1, a, b, sum);
    }
  }

  lemma {:induction false} TimesZero(n: nat)
    ensures Times(n, 0.0) == 0.0
  {
    if n > 0 {
      TimesZero(n - 1);
    }
  }

  /** The set of elements of a sequence. */
  function Elems(s: seq<Key>): set<Key> {
    set k | k in s
  }

  /** The prefix one longer is the prefix with the next element appended. */
  lemma PrefixSnoc<T>(s: seq<T>, i: nat)
    requires i < |s|
    ensures s[..i + 1] == s[..i] + [s[i]]
  {
  }

  lemma ElemsSnoc(s: seq<Key>, i: nat)
    requires i < |s|
    ensures Elems(s[..i + 1]) == Elems(s[..i]) + {s[i]}
  {
    assert s[..i + 1] == s[..i] + [s[i]];
  }

  /** FromPairs over one more pair. */
  lemma FromPairsSnoc<V>(ks: seq<Key>, vs: seq<V>, i: nat, d: Dict<V>, v: V)
    requires |ks| == |vs| && i < |ks|
    requires d == FromPairs(ks[..i], vs[..i]) && v == vs[i]
    ensures Put(d, ks[i], v) == FromPairs(ks[..i + 1], vs[..i + 1])
  {
    assert ks[..i + 1][..i] == ks[..i] && vs[..i + 1][..i] == vs[..i];
  }

  /** Pairing whole sequences is pairing their full prefixes. */
  lemma FromPairsAll<V>(ks: seq<Key>, vs: seq<V>, n: nat, d: Dict<V>)
    requires n == |ks| == |vs| && d == FromPairs(ks[..n], vs[..n])
    ensures d == FromPairs(ks, vs)
  {
    assert ks[..n] == ks;
    assert vs[..n] == vs;
  }

  /** Python's `sum(xs)`. */
  function SeqSum(xs: seq<real>): real {
    if |xs| == 0 then 0.0 else SeqSum(xs[..|xs| - 1]) + xs[|xs| - 1]
  }
}
