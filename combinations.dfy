/** The fan-out of `run_iso_post`: splitting the variables into scalars and lists, the Cartesian
    product of the lists (`itertools.product`), and the merge of one pick into the scalars. */
module Combinations {
  import opened Values

  /** The non-null scalar variables, in mapping order. */
  function ScalarsOf(m: seq<Entry<Value>>): (r: seq<Entry<Scalar>>)
    ensures forall k :: k in KeysOf(r) ==> k in KeysOf(m)
  {
    if m == [] then []
    else
      var init, last := m[..|m| - 1], m[|m| - 1];
      var here := if last.val.One? && last.val.scalar != Scalar.Null then [Entry(last.key, last.val.scalar)] else [];
      var r := ScalarsOf(init) + here;
      assert forall k :: k in KeysOf(init) ==> k in KeysOf(m) by {
        forall k | k in KeysOf(init) ensures k in KeysOf(m) {
          var i :| 0 <= i < |init| && KeysOf(init)[i] == k;
          assert KeysOf(m)[i] == k;
        }
      }
      assert KeysOf(m)[|m| - 1] == last.key;
      assert forall k :: k in KeysOf(r) ==> k in KeysOf(ScalarsOf(init)) || k == last.key by {
        forall k | k in KeysOf(r) ensures k in KeysOf(ScalarsOf(init)) || k == last.key {
          var i :| 0 <= i < |r| && KeysOf(r)[i] == k;
          if i < |ScalarsOf(init)| { assert KeysOf(ScalarsOf(init))[i] == k; }
        }
      }
      r
  }

  /** The list variables, in mapping order. */
  function ListsOf(m: seq<Entry<Value>>): (r: seq<Entry<seq<Scalar>>>)
    ensures forall k :: k in KeysOf(r) ==> k in KeysOf(m)
  {
    if m == [] then []
    else
      var init, last := m[..|m| - 1], m[|m| - 1];
      var here := if last.val.Many? then [Entry(last.key, last.val.items)] else [];
      var r := ListsOf(init) + here;
      assert forall k :: k in KeysOf(init) ==> k in KeysOf(m) by {
        forall k | k in KeysOf(init) ensures k in KeysOf(m) {
          var i :| 0 <= i < |init| && KeysOf(init)[i] == k;
          assert KeysOf(m)[i] == k;
        }
      }
      assert KeysOf(m)[|m| - 1] == last.key;
      assert forall k :: k in KeysOf(r) ==> k in KeysOf(ListsOf(init)) || k == last.key by {
        forall k | k in KeysOf(r) ensures k in KeysOf(ListsOf(init)) || k == last.key {
          var i :| 0 <= i < |r| && KeysOf(r)[i] == k;
          if i < |ListsOf(init)| { assert KeysOf(ListsOf(init))[i] == k; }
        }
      }
      r
  }

  lemma PrefixKeyNotIn<V>(m: Dict<V>, i: nat)
    requires i < |m|
    ensures m[i].key !in KeysOf(m[..i])
  {
  }

  /** The loop that fills the `scalars` and `lists` dictionaries. */
  method Split(vars: Dict<Value>) returns (scalars: Dict<Scalar>, lists: Dict<seq<Scalar>>)
    ensures scalars == ScalarsOf(vars) && lists == ListsOf(vars)
  {
    scalars, lists := [], [];
    var i := 0;
    while i < |vars|
      invariant 0 <= i <= |vars|
      invariant scalars == ScalarsOf(vars[..i]) && lists == ListsOf(vars[..i])
    {
      assert vars[..i + 1][..i] == vars[..i];
      PrefixKeyNotIn(vars, i);
      var k, v := vars[i].key, vars[i].val;
      match v {
        case Many(items) =>
          lists := Put(lists, k, items);
        case One(s) =>
          if s != Scalar.Null {
            scalars := Put(scalars, k, s);
          }
      }
      i := i + 1;
    }
    assert vars[..i] == vars;
  }

  /** Every variable lands in exactly one place: a list in `lists` with its items, a non-null
      scalar in `scalars` with its value, a null value nowhere. */
  lemma {:induction false} SplitMembers(m: seq<Entry<Value>>)
    ensures forall k, v :: Entry(k, v) in ScalarsOf(m) <==> Entry(k, One(v)) in m && v != Scalar.Null
    ensures forall k, items :: Entry(k, items) in ListsOf(m) <==> Entry(k, Many(items)) in m
  {
    if m != [] {
      var init := m[..|m| - 1];
      SplitMembers(init);
      assert m == init + [m[|m| - 1]];
    }
  }

  /** The split keeps the mapping order. */
  lemma {:induction false} ScalarsOrder(m: Dict<Value>)
    ensures forall a, b :: 0 <= a < b < |ScalarsOf(m)| ==>
      IndexOf(m, ScalarsOf(m)[a].key) < IndexOf(m, ScalarsOf(m)[b].key)
  {
    if m != [] {
      var n := |m| - 1;
      var init: Dict<Value> := m[..n];
      ScalarsOrder(init);
      var si, s := ScalarsOf(init), ScalarsOf(m);
      forall a, b | 0 <= a < b < |s| ensures IndexOf(m, s[a].key) < IndexOf(m, s[b].key) {
        assert s[a] == si[a] && KeysOf(si)[a] == si[a].key;
        IndexOfPrefix(m, n, si[a].key);
        if b < |si| {
          assert s[b] == si[b] && KeysOf(si)[b] == si[b].key;
          IndexOfPrefix(m, n, si[b].key);
        } else {
          assert s[b].key == m[n].key;
          assert IndexOf(m, m[n].key) == n;
        }
      }
    }
  }

  lemma {:induction false} ListsOrder(m: Dict<Value>)
    ensures forall a, b :: 0 <= a < b < |ListsOf(m)| ==>
      IndexOf(m, ListsOf(m)[a].key) < IndexOf(m, ListsOf(m)[b].key)
  {
    if m != [] {
      var n := |m| - 1;
      var init: Dict<Value> := m[..n];
      ListsOrder(init);
      var si, s := ListsOf(init), ListsOf(m);
      forall a, b | 0 <= a < b < |s| ensures IndexOf(m, s[a].key) < IndexOf(m, s[b].key) {
        assert s[a] == si[a] && KeysOf(si)[a] == si[a].key;
        IndexOfPrefix(m, n, si[a].key);
        if b < |si| {
          assert s[b] == si[b] && KeysOf(si)[b] == si[b].key;
          IndexOfPrefix(m, n, si[b].key);
        } else {
          assert s[b].key == m[n].key;
          assert IndexOf(m, m[n].key) == n;
        }
      }
    }
  }

  lemma IndexOfPrefix<V>(m: Dict<V>, n: nat, k: string)
    requires n <= |m| && k in KeysOf(m[..n])
    ensures IndexOf(m, k) == IndexOf(m[..n], k)
  {
    var i := IndexOf(m[..n], k);
    assert m[i].key == k;
  }

  /** The split halves are dictionaries, and no key is in both. */
  lemma SplitDisjoint(m: Dict<Value>)
    ensures DistinctKeys(ScalarsOf(m)) && DistinctKeys(ListsOf(m))
    ensures forall k :: k in KeysOf(ScalarsOf(m)) ==> k !in KeysOf(ListsOf(m))
  {
    ScalarsOrder(m);
    ListsOrder(m);
    SplitApart(m);
  }

  lemma SplitApart(m: Dict<Value>)
    ensures forall k :: k in KeysOf(ScalarsOf(m)) ==> k !in KeysOf(ListsOf(m))
  {
    SplitMembers(m);
  }

  /** `itertools.product(*lists)`: the first list varies slowest. With no lists the product is
      the one empty pick `()`. */
  function Product(ls: seq<seq<Scalar>>): seq<seq<Scalar>> {
    if ls == [] then [[]] else PrependAll(ls[0], Product(ls[1..]))
  }

  /** Every element of `xs` in turn, each put in front of every tail. */
  function PrependAll(xs: seq<Scalar>, tails: seq<seq<Scalar>>): (r: seq<seq<Scalar>>)
    ensures |r| == |xs| * |tails|
  {
    if xs == [] then []
    else seq(|tails|, k requires 0 <= k < |tails| => [xs[0]] + tails[k]) + PrependAll(xs[1..], tails)
  }

  /** The product of the list lengths. */
  function Size(ls: seq<seq<Scalar>>): nat {
    if ls == [] then 1 else |ls[0]| * Size(ls[1..])
  }

  lemma {:induction false} ProductSize(ls: seq<seq<Scalar>>)
    ensures |Product(ls)| == Size(ls)
    ensures |Product(ls)| == 0 <==> exists i :: 0 <= i < |ls| && ls[i] == []
  {
    if ls != [] {
      ProductSize(ls[1..]);
      if exists i :: 0 <= i < |ls[1..]| && ls[1..][i] == [] {
        var i :| 0 <= i < |ls[1..]| && ls[1..][i] == [];
        assert ls[i + 1] == [];
      }
      if exists i :: 0 <= i < |ls| && ls[i] == [] {
        var i :| 0 <= i < |ls| && ls[i] == [];
        if i > 0 { assert ls[1..][i - 1] == []; }
      }
    }
  }

  lemma {:induction false} PrependAllAt(xs: seq<Scalar>, tails: seq<seq<Scalar>>, a: nat, b: nat)
    requires a < |xs| && b < |tails|
    ensures a * |tails| + b < |PrependAll(xs, tails)|
    ensures PrependAll(xs, tails)[a * |tails| + b] == [xs[a]] + tails[b]
  {
    var t := |tails|;
    var front := seq(t, k requires 0 <= k < t => [xs[0]] + tails[k]);
    assert PrependAll(xs, tails) == front + PrependAll(xs[1..], tails);
    if a == 0 {
      assert a * t + b == b;
    } else {
      PrependAllAt(xs[1..], tails, a - 1, b);
      assert a * t + b == t + ((a - 1) * t + b);
    }
  }

  /** Pick number `a * P + b` of the product, where `P` is the number of picks of the other
      lists, takes element `a` of the first list followed by pick `b` of the others: the first
      list varies slowest, as with `itertools.product`. */
  lemma ProductAt(ls: seq<seq<Scalar>>, a: nat, b: nat)
    requires ls != [] && a < |ls[0]| && b < |Product(ls[1..])|
    ensures a * |Product(ls[1..])| + b < |Product(ls)|
    ensures Product(ls)[a * |Product(ls[1..])| + b] == [ls[0][a]] + Product(ls[1..])[b]
  {
    PrependAllAt(ls[0], Product(ls[1..]), a, b);
  }

  lemma {:induction false} PrependAllMembers(xs: seq<Scalar>, tails: seq<seq<Scalar>>)
    ensures forall c :: c in PrependAll(xs, tails) <==> |c| > 0 && c[0] in xs && c[1..] in tails
  {
    if xs != [] {
      PrependAllMembers(xs[1..], tails);
      var front := seq(|tails|, k requires 0 <= k < |tails| => [xs[0]] + tails[k]);
      forall c ensures c in front <==> |c| > 0 && c[0] == xs[0] && c[1..] in tails {
        if |c| > 0 && c[0] == xs[0] && c[1..] in tails {
          var k :| 0 <= k < |tails| && tails[k] == c[1..];
          assert front[k] == c;
        }
      }
      assert forall x :: x in xs <==> x == xs[0] || x in xs[1..];
    }
  }

  /** A pick is in the product exactly when it takes one element from each list. */
  lemma {:induction false} ProductMembers(ls: seq<seq<Scalar>>)
    ensures forall c :: c in Product(ls) <==> |c| == |ls| && forall i :: 0 <= i < |ls| ==> c[i] in ls[i]
  {
    if ls != [] {
      ProductMembers(ls[1..]);
      PrependAllMembers(ls[0], Product(ls[1..]));
      forall c ensures c in Product(ls) <==> |c| == |ls| && forall i :: 0 <= i < |ls| ==> c[i] in ls[i] {
        if |c| == |ls| {
          assert forall i :: 1 <= i < |ls| ==> c[1..][i - 1] == c[i] && ls[1..][i - 1] == ls[i];
        }
      }
    }
  }

  /** The pairs of list keys and one pick. */
  function Zip(keys: seq<string>, pick: seq<Scalar>): (r: seq<Entry<Scalar>>)
    requires |keys| == |pick|
    ensures KeysOf(r) == keys
  {
    seq(|keys|, i requires 0 <= i < |keys| => Entry(keys[i], pick[i]))
  }

  /** `current_vars = scalars.copy()` followed by `current_vars[key] = combo[i]` per list key. */
  function Bind(scalars: Dict<Scalar>, keys: seq<string>, pick: seq<Scalar>): Dict<Scalar>
    requires |keys| == |pick|
  {
    if keys == [] then scalars
    else Put(Bind(scalars, keys[..|keys| - 1], pick[..|pick| - 1]), keys[|keys| - 1], pick[|pick| - 1])
  }

  lemma BindStep(scalars: Dict<Scalar>, keys: seq<string>, pick: seq<Scalar>, i: nat)
    requires |keys| == |pick| && i < |keys|
    ensures Bind(scalars, keys[..i + 1], pick[..i + 1]) == Put(Bind(scalars, keys[..i], pick[..i]), keys[i], pick[i])
  {
    assert keys[..i + 1][..i] == keys[..i] && pick[..i + 1][..i] == pick[..i];
  }

  method MergeCombination(scalars: Dict<Scalar>, keys: seq<string>, pick: seq<Scalar>) returns (current: Dict<Scalar>)
    requires |keys| == |pick|
    ensures current == Bind(scalars, keys, pick)
  {
    current := scalars;
    var i := 0;
    while i < |keys|
      invariant 0 <= i <= |keys|
      invariant current == Bind(scalars, keys[..i], pick[..i])
    {
      BindStep(scalars, keys, pick, i);
      current := Put(current, keys[i], pick[i]);
      i := i + 1;
    }
    assert keys[..i] == keys && pick[..i] == pick;
  }

  predicate DistinctNames(keys: seq<string>) {
    forall a, b :: 0 <= a < b < |keys| ==> keys[a] != keys[b]
  }

  /** No name of `keys` is a key of `m`. */
  predicate Apart<V>(keys: seq<string>, m: seq<Entry<V>>) {
    forall k :: k in keys ==> k !in KeysOf(m)
  }

  lemma PrefixKeeps(scalars: Dict<Scalar>, keys: seq<string>, n: nat)
    requires DistinctNames(keys) && Apart(keys, scalars) && n <= |keys|
    ensures DistinctNames(keys[..n]) && Apart(keys[..n], scalars)
  {
    assert forall k :: k in keys[..n] ==> k in keys;
  }

  /** With the list keys distinct and apart from the scalar keys, as they are for a split, the
      merge is the scalars in their order followed by each list key with its pick. */
  lemma {:induction false} BindAppends(scalars: Dict<Scalar>, keys: seq<string>, pick: seq<Scalar>)
    requires |keys| == |pick|
    requires DistinctNames(keys) && Apart(keys, scalars)
    ensures Bind(scalars, keys, pick) == scalars + Zip(keys, pick)
  {
    if keys != [] {
      var n := |keys| - 1;
      var zs := Zip(keys[..n], pick[..n]);
      var e := Entry(keys[n], pick[n]);
      var before := Bind(scalars, keys[..n], pick[..n]);
      assert before == scalars + zs by {
        PrefixKeeps(scalars, keys, n);
        BindAppends(scalars, keys[..n], pick[..n]);
      }
      assert keys[n] !in KeysOf(before) by { LastApart(scalars, keys, pick); }
      assert Bind(scalars, keys, pick) == Put(before, keys[n], pick[n]);
      assert Put(before, keys[n], pick[n]) == before + [e];
      assert Zip(keys, pick) == zs + [e] by { ZipSnoc(keys, pick); }
      AppendAssoc(scalars, zs, e);
    }
  }

  lemma AppendAssoc<V>(a: seq<V>, b: seq<V>, e: V)
    ensures a + b + [e] == a + (b + [e])
  {
  }

  lemma LastApart(scalars: Dict<Scalar>, keys: seq<string>, pick: seq<Scalar>)
    requires |keys| == |pick| > 0
    requires DistinctNames(keys) && Apart(keys, scalars)
    ensures keys[|keys| - 1] !in KeysOf(scalars + Zip(keys[..|keys| - 1], pick[..|pick| - 1]))
  {
    var n := |keys| - 1;
    var zs := Zip(keys[..n], pick[..n]);
    KeysOfConcat(scalars, zs);
    assert keys[n] in keys;
    assert KeysOf(zs) == keys[..n];
  }

  lemma ZipSnoc(keys: seq<string>, pick: seq<Scalar>)
    requires |keys| == |pick| > 0
    ensures Zip(keys, pick) == Zip(keys[..|keys| - 1], pick[..|pick| - 1]) + [Entry(keys[|keys| - 1], pick[|pick| - 1])]
  {
  }

  lemma KeysOfConcat<V>(a: seq<Entry<V>>, b: seq<Entry<V>>)
    ensures KeysOf(a + b) == KeysOf(a) + KeysOf(b)
  {
  }

  function ListValues(lists: seq<Entry<seq<Scalar>>>): (r: seq<seq<Scalar>>)
    ensures |r| == |lists|
  {
    seq(|lists|, i requires 0 <= i < |lists| => lists[i].val)
  }

  /** One merged mapping per pick of the product, in product order. */
  function CombinationsOf(vars: Dict<Value>): (r: seq<Dict<Scalar>>) {
    var scalars, lists := ScalarsOf(vars), ListsOf(vars);
    SplitDisjoint(vars);
    var picks := Product(ListValues(lists));
    ProductMembers(ListValues(lists));
    seq(|picks|, j requires 0 <= j < |picks| =>
      assert picks[j] in picks;
      Bind(scalars, KeysOf(lists), picks[j]))
  }

  /** There are as many merged mappings as the product of the list lengths (one when there are
      no lists, none when a list is empty); mapping `j` holds every non-null scalar in order and
      then each list key bound to its element of pick `j`. */
  lemma CombinationsSpec(vars: Dict<Value>)
    ensures |CombinationsOf(vars)| == Size(ListValues(ListsOf(vars)))
    ensures ListsOf(vars) == [] ==> CombinationsOf(vars) == [ScalarsOf(vars)]
    ensures forall j :: 0 <= j < |CombinationsOf(vars)| ==>
      var pick := Product(ListValues(ListsOf(vars)))[j];
      |pick| == |ListsOf(vars)|
      && CombinationsOf(vars)[j] == ScalarsOf(vars) + Zip(KeysOf(ListsOf(vars)), pick)
      && forall i :: 0 <= i < |pick| ==> pick[i] in ListsOf(vars)[i].val
  {
    var lists := ListsOf(vars);
    var picks := Product(ListValues(lists));
    ProductSize(ListValues(lists));
    forall j | 0 <= j < |picks|
      ensures |picks[j]| == |lists|
      ensures CombinationsOf(vars)[j] == ScalarsOf(vars) + Zip(KeysOf(lists), picks[j])
      ensures forall i :: 0 <= i < |picks[j]| ==> picks[j][i] in lists[i].val
    {
      CombinationAt(vars, j);
    }
    if lists == [] {
      assert ListValues(lists) == [];
      assert Zip([], []) == [];
    }
  }

  /** Mapping `j` of the combinations, and pick `j` of the product it is made from. */
  lemma CombinationAt(vars: Dict<Value>, j: nat)
    requires j < |Product(ListValues(ListsOf(vars)))|
    ensures var pick := Product(ListValues(ListsOf(vars)))[j];
      |pick| == |ListsOf(vars)|
      && j < |CombinationsOf(vars)|
      && CombinationsOf(vars)[j] == ScalarsOf(vars) + Zip(KeysOf(ListsOf(vars)), pick)
      && forall i :: 0 <= i < |pick| ==> pick[i] in ListsOf(vars)[i].val
  {
    var scalars, lists := ScalarsOf(vars), ListsOf(vars);
    var picks := Product(ListValues(lists));
    assert |picks[j]| == |lists| && forall i :: 0 <= i < |picks[j]| ==> picks[j][i] in lists[i].val by {
      ProductMembers(ListValues(lists));
      assert picks[j] in picks;
    }
    SplitDisjoint(vars);
    var sd: Dict<Scalar> := scalars;
    assert CombinationsOf(vars)[j] == Bind(sd, KeysOf(lists), picks[j]);
    assert Bind(sd, KeysOf(lists), picks[j]) == sd + Zip(KeysOf(lists), picks[j]) by {
      ListKeysApart(vars);
      BindAppends(sd, KeysOf(lists), picks[j]);
    }
  }

  /** The list keys of a split are distinct and apart from its scalar keys. */
  lemma ListKeysApart(vars: Dict<Value>)
    ensures DistinctNames(KeysOf(ListsOf(vars))) && Apart(KeysOf(ListsOf(vars)), ScalarsOf(vars))
  {
    SplitDisjoint(vars);
  }

  lemma CombinationsCount(vars: Dict<Value>)
    ensures |CombinationsOf(vars)| == Size(ListValues(ListsOf(vars)))
  {
    CombinationsSpec(vars);
  }
}
