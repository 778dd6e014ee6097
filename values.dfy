/** Configuration values as the YAML loader hands them to the runner, and Python's ordered
    dictionaries over them. */
module Values {
  import opened Results
  import opened Text

  /** A single YAML value. `Other` stands for any further scalar kind (such as a float) that the
      runner never inspects; it carries the text Python's `str()` gives it. */
  datatype Scalar = Str(s: string) | Int(i: int) | Bool(b: bool) | Null | Other(rendered: string)

  /** A variable's value: one scalar or a list of scalars. */
  datatype Value = One(scalar: Scalar) | Many(items: seq<Scalar>)

  /** Python's `str()` (and f-string formatting) of a scalar. */
  function Show(v: Scalar): string {
    match v
    case Str(s) => s
    case Int(i) => IntToString(i)
    case Bool(b) => if b then "True" else "False"
    case Null => "None"
    case Other(r) => r
  }

  datatype Entry<+V> = Entry(key: string, val: V)

  predicate DistinctKeys<V>(m: seq<Entry<V>>) {
    forall i, j :: 0 <= i < j < |m| ==> m[i].key != m[j].key
  }

  /** A Python `dict`: entries in insertion order, every key at most once. */
  type Dict<V> = m: seq<Entry<V>> | DistinctKeys(m) witness []

  function KeysOf<V>(m: seq<Entry<V>>): (ks: seq<string>)
    ensures |ks| == |m|
    ensures forall i :: 0 <= i < |m| ==> ks[i] == m[i].key
  {
    seq(|m|, i requires 0 <= i < |m| => m[i].key)
  }

  /** The position of `k` in `m`, or `|m|` when `k` is not a key. */
  function IndexOf<V>(m: seq<Entry<V>>, k: string): (r: nat)
    ensures r <= |m|
    ensures r < |m| ==> m[r].key == k
    ensures forall j :: 0 <= j < r ==> m[j].key != k
    ensures r < |m| <==> k in KeysOf(m)
  {
    var r := if m == [] then 0 else if m[0].key == k then 0 else 1 + IndexOf(m[1..], k);
    FirstIndexIn(m, k, r);
    r
  }

  /** A first position of `k`, or `|m|` where there is none, tells whether `k` is a key. */
  lemma FirstIndexIn<V>(m: seq<Entry<V>>, k: string, r: nat)
    requires r <= |m| && (r < |m| ==> m[r].key == k)
    requires forall j :: 0 <= j < r ==> m[j].key != k
    ensures r < |m| <==> k in KeysOf(m)
  {
    if r < |m| {
      assert KeysOf(m)[r] == k;
    } else {
      assert forall j :: 0 <= j < |m| ==> KeysOf(m)[j] != k;
    }
  }

  /** `d.get(k)`. */
  function Get<V>(m: seq<Entry<V>>, k: string): (r: Option<V>)
    ensures r.Some? <==> k in KeysOf(m)
  {
    var i := IndexOf(m, k);
    if i < |m| then Some(m[i].val) else None
  }

  lemma GetAt<V>(m: Dict<V>, i: nat)
    requires i < |m|
    ensures Get(m, m[i].key) == Some(m[i].val)
  {
    var j := IndexOf(m, m[i].key);
    assert j == i;
  }

  /** `IndexOf` looks at the keys only. */
  lemma IndexOfKeys<V, W>(a: seq<Entry<V>>, b: seq<Entry<W>>, k: string)
    requires KeysOf(a) == KeysOf(b)
    ensures IndexOf(a, k) == IndexOf(b, k)
  {
    var x, y := IndexOf(a, k), IndexOf(b, k);
    assert |a| == |b|;
    assert x < |a| ==> b[x].key == k;
    assert y < |b| ==> a[y].key == k;
  }

  lemma PutReplace<V>(m: Dict<V>, i: nat, v: V)
    requires i < |m|
    ensures var r := m[i := Entry(m[i].key, v)];
      DistinctKeys(r) && KeysOf(r) == KeysOf(m)
      && Get(r, m[i].key) == Some(v)
      && forall k' :: k' != m[i].key ==> Get(r, k') == Get(m, k')
  {
    var k := m[i].key;
    var r := m[i := Entry(k, v)];
    assert KeysOf(r) == KeysOf(m);
    forall k' ensures IndexOf(r, k') == IndexOf(m, k') {
      IndexOfKeys(r, m, k');
    }
    GetAt(m, i);
  }

  lemma IndexOfAppend<V>(m: seq<Entry<V>>, e: Entry<V>, k: string)
    ensures IndexOf(m + [e], k) == if IndexOf(m, k) < |m| then IndexOf(m, k) else if e.key == k then |m| else |m| + 1
  {
    var r := m + [e];
    var a, b := IndexOf(r, k), IndexOf(m, k);
    assert forall j :: 0 <= j < |m| ==> r[j] == m[j];
    assert r[|m|] == e;
    if b < |m| {
      assert r[b].key == k;
    } else {
      assert forall j :: 0 <= j < |m| ==> r[j].key != k;
    }
  }

  lemma PutAppend<V>(m: Dict<V>, k: string, v: V)
    requires k !in KeysOf(m)
    ensures var r := m + [Entry(k, v)];
      DistinctKeys(r) && KeysOf(r) == KeysOf(m) + [k]
      && Get(r, k) == Some(v)
      && forall k' :: k' != k ==> Get(r, k') == Get(m, k')
  {
    var r := m + [Entry(k, v)];
    forall j | 0 <= j < |m| ensures m[j].key != k {
      assert KeysOf(m)[j] == m[j].key;
    }
    assert KeysOf(r) == KeysOf(m) + [k];
    IndexOfAppend(m, Entry(k, v), k);
    forall k' | k' != k ensures Get(r, k') == Get(m, k') {
      IndexOfAppend(m, Entry(k, v), k');
    }
  }

  /** `d[k] = v`: overwrites the value of an existing key in place, else appends the key. */
  function Put<V>(m: Dict<V>, k: string, v: V): (r: Dict<V>)
    ensures KeysOf(r) == if k in KeysOf(m) then KeysOf(m) else KeysOf(m) + [k]
    ensures Get(r, k) == Some(v)
    ensures forall k' :: k' != k ==> Get(r, k') == Get(m, k')
    ensures k !in KeysOf(m) ==> r == m + [Entry(k, v)]
  {
    var i := IndexOf(m, k);
    if i < |m| then
      PutReplace(m, i, v);
      m[i := Entry(k, v)]
    else
      PutAppend(m, k, v);
      m + [Entry(k, v)]
  }

  /** Writing an existing key replaces its entry where it stands. */
  lemma PutAt<V>(m: Dict<V>, i: nat, v: V)
    requires i < |m|
    ensures Put(m, m[i].key, v) == m[i := Entry(m[i].key, v)]
  {
    var j := IndexOf(m, m[i].key);
    assert j == i;
  }

  /** A section of a document that may be absent, present but null, or given. */
  datatype Field<+T> = Absent | Null | Given(value: T)

  /** One YAML document of a configuration file, reduced to the sections the runner reads:
      `variables`, `flags`, `jobs_to_clone` (a null list reads like an empty one) and `host`. */
  datatype Document = Document(
    variables: Field<Dict<Value>>,
    flags: seq<string>,
    jobsToClone: seq<string>,
    host: Option<string>)
}
