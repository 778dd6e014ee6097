/** Loading a configuration file: the duplicate-key policy of `UniqueKeyLoader` and the
    dropping of empty documents in `load_configs`. Tokenizing and parsing YAML is not modelled:
    a file arrives as the sequence of documents the parser produced. */
module Loader {
  import opened Results
  import opened Values
  import opened Diagnostics

  /** A key of a YAML mapping node with the 0-based line it starts on. */
  datatype KeyNode = KeyNode(key: string, line: nat)

  /** One document as the parser delivers it: empty (`None`), unparseable, or a mapping
      together with every mapping node in it (at any depth), in construction order. */
  datatype RawDoc =
    | NullDoc
    | Malformed(reason: string)
    | MapDoc(mappings: seq<seq<KeyNode>>, doc: Document)

  /** The key at `i` already occurred before `i`. */
  predicate RepeatAt(node: seq<KeyNode>, i: nat)
    requires i < |node|
  {
    exists j :: 0 <= j < i && node[j].key == node[i].key
  }

  function KeySet(node: seq<KeyNode>): set<string> {
    set k | k in node :: k.key
  }

  /** The duplicate-key check of one mapping node, scanning from `i` with `seen` holding the
      keys before `i`. */
  function DuplicateFrom(node: seq<KeyNode>, i: nat, seen: set<string>): Option<LoadCause>
    requires i <= |node|
    decreases |node| - i
  {
    if i == |node| then None
    else if node[i].key in seen then Some(DuplicateKey(node[i].key, node[i].line + 1))
    else DuplicateFrom(node, i + 1, seen + {node[i].key})
  }

  function FirstDuplicate(node: seq<KeyNode>): Option<LoadCause> {
    DuplicateFrom(node, 0, {})
  }

  lemma KeySetPrefix(node: seq<KeyNode>, i: nat)
    requires i < |node|
    ensures KeySet(node[..i + 1]) == KeySet(node[..i]) + {node[i].key}
  {
    assert node[..i + 1] == node[..i] + [node[i]];
  }

  lemma {:induction false} DuplicateFromSpec(node: seq<KeyNode>, i: nat)
    requires i <= |node|
    requires forall k :: 0 <= k < i ==> !RepeatAt(node, k)
    ensures var r := DuplicateFrom(node, i, KeySet(node[..i]));
      && (r.None? <==> forall k :: i <= k < |node| ==> !RepeatAt(node, k))
      && (r.Some? ==> exists k :: i <= k < |node| && RepeatAt(node, k)
                        && (forall k' :: 0 <= k' < k ==> !RepeatAt(node, k'))
                        && r.value == DuplicateKey(node[k].key, node[k].line + 1))
    decreases |node| - i
  {
    if i < |node| {
      var seen := KeySet(node[..i]);
      if node[i].key in seen {
        var n :| n in node[..i] && n.key == node[i].key;
        var j :| 0 <= j < i && node[j] == n;
        assert RepeatAt(node, i);
      } else {
        assert !RepeatAt(node, i) by {
          forall j | 0 <= j < i ensures node[j].key != node[i].key {
            assert node[j] in node[..i];
          }
        }
        KeySetPrefix(node, i);
        DuplicateFromSpec(node, i + 1);
      }
    }
  }

  /** A mapping node is rejected exactly when some key repeats; the error names the first key
      that is seen a second time and the 1-based line of that second occurrence. */
  lemma FirstDuplicateSpec(node: seq<KeyNode>)
    ensures FirstDuplicate(node).None? <==> forall i, j :: 0 <= j < i < |node| ==> node[j].key != node[i].key
    ensures FirstDuplicate(node).Some? ==>
      exists i :: 0 <= i < |node| && RepeatAt(node, i)
        && (forall k :: 0 <= k < i ==> !RepeatAt(node, k))
        && FirstDuplicate(node).value == DuplicateKey(node[i].key, node[i].line + 1)
  {
    assert node[..0] == [];
    assert KeySet(node[..0]) == {};
    DuplicateFromSpec(node, 0);
    if forall k :: 0 <= k < |node| ==> !RepeatAt(node, k) {
      forall i, j | 0 <= j < i < |node| ensures node[j].key != node[i].key {
        assert !RepeatAt(node, i);
      }
    }
    if forall i, j :: 0 <= j < i < |node| ==> node[j].key != node[i].key {
      forall k | 0 <= k < |node| ensures !RepeatAt(node, k) {
      }
    }
  }

  /** `construct_mapping`: grows the set of keys seen so far and stops at the first repeat. */
  method CheckMapping(node: seq<KeyNode>) returns (r: Option<LoadCause>)
    ensures r == FirstDuplicate(node)
  {
    var seen: set<string> := {};
    var i := 0;
    while i < |node|
      invariant 0 <= i <= |node|
      invariant DuplicateFrom(node, i, seen) == FirstDuplicate(node)
    {
      var key := node[i].key;
      if key in seen {
        return Some(DuplicateKey(key, node[i].line + 1));
      }
      seen := seen + {key};
      i := i + 1;
    }
    return None;
  }

  /** The first failure among the mapping nodes of one document. */
  function MappingsError(nodes: seq<seq<KeyNode>>): Option<LoadCause> {
    if nodes == [] then None
    else match FirstDuplicate(nodes[0])
      case Some(c) => Some(c)
      case None => MappingsError(nodes[1..])
  }

  /** `load_configs`: the non-empty documents in order, or the first error, wrapped with the
      file's path; one bad document fails the whole file. */
  function Load(path: string, raw: seq<RawDoc>): Result<seq<Document>, Error> {
    if raw == [] then Ok([])
    else
      var rest := Load(path, raw[1..]);
      match raw[0]
      case NullDoc => rest
      case Malformed(reason) => Err(LoadFailure(path, Syntax(reason)))
      case MapDoc(nodes, d) =>
        match MappingsError(nodes)
        case Some(c) => Err(LoadFailure(path, c))
        case None => if rest.Ok? then Ok([d] + rest.value) else rest
  }

  /** A raw document that the loader accepts. */
  predicate Loadable(r: RawDoc) {
    match r
    case NullDoc => true
    case Malformed(_) => false
    case MapDoc(nodes, _) => MappingsError(nodes).None?
  }

  /** The documents of a file with the empty ones dropped. */
  function NonEmpty(raw: seq<RawDoc>): seq<Document> {
    if raw == [] then []
    else if raw[0].MapDoc? then [raw[0].doc] + NonEmpty(raw[1..])
    else NonEmpty(raw[1..])
  }

  /** Loading succeeds exactly when every document is loadable, and then yields the non-empty
      documents in file order; a failure is reported for the first bad document. */
  lemma {:induction false} LoadSpec(path: string, raw: seq<RawDoc>)
    ensures Load(path, raw).Ok? <==> forall i :: 0 <= i < |raw| ==> Loadable(raw[i])
    ensures Load(path, raw).Ok? ==> Load(path, raw).value == NonEmpty(raw)
    ensures Load(path, raw).Err? ==>
      exists i :: 0 <= i < |raw| && !Loadable(raw[i])
        && (forall j :: 0 <= j < i ==> Loadable(raw[j]))
        && Load(path, raw).error == LoadFailure(path,
             if raw[i].Malformed? then Syntax(raw[i].reason) else MappingsError(raw[i].mappings).value)
  {
    if raw != [] {
      LoadSpec(path, raw[1..]);
      if Loadable(raw[0]) && Load(path, raw[1..]).Err? {
        var i :| 0 <= i < |raw[1..]| && !Loadable(raw[1..][i])
          && (forall j :: 0 <= j < i ==> Loadable(raw[1..][j]))
          && Load(path, raw[1..]).error == LoadFailure(path,
             if raw[1..][i].Malformed? then Syntax(raw[1..][i].reason) else MappingsError(raw[1..][i].mappings).value);
        assert forall j :: 0 <= j < i + 1 ==> Loadable(raw[j]) by {
          forall j | 0 <= j < i + 1 ensures Loadable(raw[j]) {
            if j > 0 { assert raw[j] == raw[1..][j - 1]; }
          }
        }
        assert raw[i + 1] == raw[1..][i];
      }
      if forall i :: 0 <= i < |raw| ==> Loadable(raw[i]) {
        assert forall i :: 0 <= i < |raw[1..]| ==> Loadable(raw[1..][i]) by {
          forall i | 0 <= i < |raw[1..]| ensures Loadable(raw[1..][i]) {
            assert raw[1..][i] == raw[i + 1];
          }
        }
      }
      if !Loadable(raw[0]) {
        assert Load(path, raw).Err?;
      }
    }
  }

  function Prepend(docs: seq<Document>, r: Result<seq<Document>, Error>): Result<seq<Document>, Error> {
    match r
    case Ok(ds) => Ok(docs + ds)
    case Err(e) => Err(e)
  }

  lemma PrependStep(docs: seq<Document>, d: Document, rest: Result<seq<Document>, Error>)
    ensures Prepend(docs, Prepend([d], rest)) == Prepend(docs + [d], rest)
  {
    if rest.Ok? {
      assert docs + ([d] + rest.value) == (docs + [d]) + rest.value;
    }
  }

  /** `load_configs`: checks every mapping node of every document in order. */
  method LoadConfigs(path: string, raw: seq<RawDoc>) returns (r: Result<seq<Document>, Error>)
    ensures r == Load(path, raw)
  {
    var docs: seq<Document> := [];
    var i := 0;
    assert raw[0..] == raw;
    ghost var whole := Load(path, raw);
    assert Prepend([], whole) == whole by {
      if whole.Ok? { assert [] + whole.value == whole.value; }
    }
    while i < |raw|
      invariant 0 <= i <= |raw|
      invariant Load(path, raw) == Prepend(docs, Load(path, raw[i..]))
    {
      assert raw[i..][1..] == raw[i + 1..];
      match raw[i] {
        case NullDoc =>
        case Malformed(reason) =>
          return Err(LoadFailure(path, Syntax(reason)));
        case MapDoc(nodes, d) =>
          var k := 0;
          assert nodes[0..] == nodes;
          while k < |nodes|
            invariant 0 <= k <= |nodes|
            invariant MappingsError(nodes) == MappingsError(nodes[k..])
          {
            assert nodes[k..][1..] == nodes[k + 1..];
            var dup := CheckMapping(nodes[k]);
            if dup.Some? {
              return Err(LoadFailure(path, dup.value));
            }
            k := k + 1;
          }
          assert nodes[k..] == [];
          PrependStep(docs, d, Load(path, raw[i + 1..]));
          docs := docs + [d];
      }
      i := i + 1;
    }
    assert raw[i..] == [];
    assert docs + [] == docs;
    return Ok(docs);
  }
}
