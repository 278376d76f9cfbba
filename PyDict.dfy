/**
 * A Python `dict` from strings to strings, with the insertion order Python
 * guarantees: `order` lists the keys in the order they were first inserted and
 * `table` holds the values. Assigning to a present key keeps its position; a new
 * key goes to the end; `pop` removes the key and keeps the others' order.
 */
module PyDict {

  datatype Dict = Dict(order: seq<string>, table: map<string, string>)

  predicate Distinct(s: seq<string>)
  {
    forall i, j :: 0 <= i < j < |s| ==> s[i] != s[j]
  }

  /** Every key once in `order`, and exactly the keys of `table`. */
  predicate WellFormed(d: Dict)
  {
    && Distinct(d.order)
    && (forall k :: k in d.table ==> k in d.order)
    && (forall k :: k in d.order ==> k in d.table)
  }

  /** `{}` */
  const Empty: Dict := Dict([], map[])

  /** Python's `d[k] = v`. */
  function Assign(d: Dict, k: string, v: string): (r: Dict)
    requires WellFormed(d)
    ensures WellFormed(r)
    ensures r.table == d.table[k := v]
    ensures k in d.table ==> r.order == d.order
    ensures k !in d.table ==> r.order == d.order + [k]
  {
    if k in d.table then Dict(d.order, d.table[k := v])
    else Dict(d.order + [k], d.table[k := v])
  }

  /** `s` with `k` filtered out, the other elements in their order. */
  function RemoveKey(s: seq<string>, k: string): (r: seq<string>)
    ensures forall x :: x in r <==> x in s && x != k
    ensures Distinct(s) ==> Distinct(r)
    ensures Distinct(s) && k in s ==> |r| == |s| - 1
    ensures k !in s ==> r == s
    decreases |s|
  {
    if |s| == 0 then []
    else
      var rest := RemoveKey(s[1..], k);
      assert forall x :: x in s <==> x == s[0] || x in s[1..];
      if s[0] == k then rest
      else
        assert Distinct(s) ==> s[0] !in s[1..];
        [s[0]] + rest
  }

  /** Python's `d.pop(k)`, which raises `KeyError` when `k` is absent: the dict without `k` and the removed value. */
  function Pop(d: Dict, k: string): (r: (Dict, string))
    requires WellFormed(d) && k in d.table
    ensures WellFormed(r.0)
    ensures r.1 == d.table[k]
    ensures r.0.table == d.table - {k}
    ensures r.0.order == RemoveKey(d.order, k)
    ensures |r.0.order| == |d.order| - 1
  {
    (Dict(RemoveKey(d.order, k), d.table - {k}), d.table[k])
  }

  /** The values in iteration order: `list(d.values())`. */
  function ValuesOf(d: Dict): (vs: seq<string>)
    requires WellFormed(d)
    ensures |vs| == |d.order|
    ensures forall i :: 0 <= i < |d.order| ==> vs[i] == d.table[d.order[i]]
  {
    seq(|d.order|, i requires 0 <= i < |d.order| => d.table[d.order[i]])
  }

  /**
   * The dict built by `new = {}` followed by `new[ks[i]] = vs[i]` for
   * `i = 0, 1, ...`, in that order.
   */
  function FromPairs(ks: seq<string>, vs: seq<string>): (r: Dict)
    requires |ks| == |vs|
    ensures WellFormed(r)
    decreases |ks|
  {
    if |ks| == 0 then Empty
    else Assign(FromPairs(ks[..|ks| - 1], vs[..|vs| - 1]), ks[|ks| - 1], vs[|vs| - 1])
  }

  /** One more pair extends the fold by one assignment. */
  lemma FromPairsSnoc(ks: seq<string>, vs: seq<string>, i: nat)
    requires |ks| == |vs| && i < |ks|
    ensures FromPairs(ks[..i + 1], vs[..i + 1]) == Assign(FromPairs(ks[..i], vs[..i]), ks[i], vs[i])
  {
    assert ks[..i + 1][..i] == ks[..i];
    assert vs[..i + 1][..i] == vs[..i];
  }

  /** Index of the first occurrence of `k` in `s`. */
  function FirstIndex(s: seq<string>, k: string): (i: nat)
    requires k in s
    ensures i < |s| && s[i] == k
    ensures forall j :: 0 <= j < i ==> s[j] != k
    decreases |s|
  {
    if s[0] == k then 0 else 1 + FirstIndex(s[1..], k)
  }

  lemma FirstIndexPrefix(s: seq<string>, n: nat, k: string)
    requires n <= |s| && k in s[..n]
    ensures k in s && FirstIndex(s, k) == FirstIndex(s[..n], k)
  {
    var i := FirstIndex(s[..n], k);
    assert s[..n][i] == s[i];
    assert forall m :: 0 <= m < i ==> s[m] == s[..n][m];
  }

  /** The keys of the built dict are exactly the keys written. */
  lemma {:induction false} FromPairsKeys(ks: seq<string>, vs: seq<string>)
    requires |ks| == |vs|
    ensures forall k :: k in FromPairs(ks, vs).table <==> k in ks
    decreases |ks|
  {
    if |ks| > 0 {
      var n := |ks|;
      FromPairsKeys(ks[..n - 1], vs[..n - 1]);
      assert ks == ks[..n - 1] + [ks[n - 1]];
    }
  }

  /** Last write wins: a key takes the value of the last pair that writes it. */
  lemma {:induction false} FromPairsLastWrite(ks: seq<string>, vs: seq<string>, i: nat)
    requires |ks| == |vs| && i < |ks|
    requires forall j :: i < j < |ks| ==> ks[j] != ks[i]
    ensures ks[i] in FromPairs(ks, vs).table && FromPairs(ks, vs).table[ks[i]] == vs[i]
    decreases |ks|
  {
    var n := |ks|;
    if i < n - 1 {
      var ks', vs' := ks[..n - 1], vs[..n - 1];
      assert ks'[i] == ks[i] && vs'[i] == vs[i];
      assert forall j :: i < j < n - 1 ==> ks'[j] == ks[j];
      FromPairsLastWrite(ks', vs', i);
      assert FromPairs(ks, vs) == Assign(FromPairs(ks', vs'), ks[n - 1], vs[n - 1]);
      LookupAfterAssign(FromPairs(ks', vs'), ks[n - 1], vs[n - 1], ks[i]);
    }
  }

  lemma LookupAfterAssign(d: Dict, k: string, v: string, x: string)
    requires WellFormed(d) && x != k && x in d.table
    ensures x in Assign(d, k, v).table && Assign(d, k, v).table[x] == d.table[x]
  {
  }

  /** At most one key per pair. */
  lemma {:induction false} FromPairsSize(ks: seq<string>, vs: seq<string>)
    requires |ks| == |vs|
    ensures |FromPairs(ks, vs).order| <= |ks|
    decreases |ks|
  {
    if |ks| > 0 {
      FromPairsSize(ks[..|ks| - 1], vs[..|vs| - 1]);
    }
  }

  /** Every element of `order` is written in `ks`, and `order` lists them by their first write. */
  predicate InFirstWriteOrder(ks: seq<string>, order: seq<string>)
  {
    && (forall a :: 0 <= a < |order| ==> order[a] in ks)
    && (forall a, b :: 0 <= a < b < |order| ==> FirstIndex(ks, order[a]) < FirstIndex(ks, order[b]))
  }

  /** Writing one more key keeps the order of the keys already there, and a new key comes last. */
  lemma InFirstWriteOrderExtend(ks: seq<string>, order: seq<string>)
    requires |ks| > 0 && InFirstWriteOrder(ks[..|ks| - 1], order)
    ensures InFirstWriteOrder(ks, order)
    ensures ks[|ks| - 1] !in ks[..|ks| - 1] ==> InFirstWriteOrder(ks, order + [ks[|ks| - 1]])
  {
    var n := |ks|;
    var ks', k := ks[..n - 1], ks[n - 1];
    forall a | 0 <= a < |order|
      ensures order[a] in ks && FirstIndex(ks, order[a]) == FirstIndex(ks', order[a]) < n - 1
    {
      FirstIndexPrefix(ks, n - 1, order[a]);
    }
    if k !in ks' {
      assert forall j :: 0 <= j < n - 1 ==> ks[j] == ks'[j];
      assert FirstIndex(ks, k) == n - 1;
      var order' := order + [k];
      assert forall a :: 0 <= a < |order| ==> order'[a] == order[a];
    }
  }

  /** The keys come out in the order of their first write. */
  lemma {:induction false} FromPairsOrder(ks: seq<string>, vs: seq<string>)
    requires |ks| == |vs|
    ensures InFirstWriteOrder(ks, FromPairs(ks, vs).order)
    decreases |ks|
  {
    if |ks| > 0 {
      var n := |ks|;
      var ks', vs' := ks[..n - 1], vs[..n - 1];
      var prev := FromPairs(ks', vs');
      FromPairsOrder(ks', vs');
      FromPairsKeys(ks', vs');
      InFirstWriteOrderExtend(ks, prev.order);
    }
  }

  /** `{k: d[k] for k in s if k in d}` */
  function Restrict(m: map<string, string>, s: seq<string>): map<string, string>
  {
    map k | k in m && k in s :: m[k]
  }

  lemma RestrictExtend(m: map<string, string>, s: seq<string>, k: string)
    requires k in m
    ensures Restrict(m, s + [k]) == Restrict(m, s)[k := m[k]]
  {
    assert forall x :: x in s + [k] <==> x in s || x == k;
  }

  /** Distinct keys, each written with its value in `m`, rebuild `m` restricted to them, in their order. */
  lemma {:induction false} FromPairsDistinct(ks: seq<string>, vs: seq<string>, m: map<string, string>)
    requires |ks| == |vs| && Distinct(ks)
    requires forall i :: 0 <= i < |ks| ==> ks[i] in m && m[ks[i]] == vs[i]
    ensures FromPairs(ks, vs) == Dict(ks, Restrict(m, ks))
    decreases |ks|
  {
    var n := |ks|;
    if n == 0 {
      assert Restrict(m, ks) == map[];
    } else {
      var ks', vs' := ks[..n - 1], vs[..n - 1];
      var k := ks[n - 1];
      assert ks == ks' + [k];
      assert forall i :: 0 <= i < |ks'| ==> ks'[i] == ks[i] && vs'[i] == vs[i];
      assert Distinct(ks');
      FromPairsDistinct(ks', vs', m);
      var prev := FromPairs(ks', vs');
      assert forall i :: 0 <= i < |ks'| ==> ks'[i] != k;
      assert k !in ks';
      AssignNew(prev, k, vs[n - 1]);
      RestrictExtend(m, ks', k);
    }
  }

  lemma AssignNew(d: Dict, k: string, v: string)
    requires WellFormed(d) && k !in d.table
    ensures Assign(d, k, v) == Dict(d.order + [k], d.table[k := v])
  {
  }

  lemma RestrictAll(m: map<string, string>, s: seq<string>)
    requires forall k :: k in m ==> k in s
    ensures Restrict(m, s) == m
  {
  }

  /** Writing a dict's own pairs back, in its own order, rebuilds the same dict. */
  lemma FromPairsIdentity(d: Dict)
    requires WellFormed(d)
    ensures FromPairs(d.order, ValuesOf(d)) == d
  {
    FromPairsDistinct(d.order, ValuesOf(d), d.table);
    RestrictAll(d.table, d.order);
  }
}
