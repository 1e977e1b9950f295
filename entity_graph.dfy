/**
 * The object graph the algorithms walk: entity and embeddable instances in an
 * arena keyed by object identity, each holding its attribute values by
 * attribute name. Reading and writing an attribute stand for the reflective
 * `resolveAttributeValue` and `setAttributeValue`.
 */
module EntityGraph {
  import opened Wrappers
  import opened Jpa

  /** The identity of a Java object. */
  type NodeId = nat

  /** The class of a collection created by the association fixer. */
  datatype Container = HashSetOf | ArrayListOf

  /**
   * An attribute value. A Java map is a list of (key, value) entries with
   * distinct keys, in iteration order; a composite value is an id-class
   * instance holding its component values.
   */
  datatype Value =
    | Null
    | Scalar(text: string)
    | Ref(id: NodeId)
    | Composite(parts: seq<Value>)
    | Coll(container: Container, elems: seq<NodeId>)
    | MapOf(entries: seq<(Value, NodeId)>)

  /** An instance: its class and its attribute values. An attribute without an entry is null. */
  datatype Node = Node(typ: TypeName, values: map<string, Value>)

  function Read(n: Node, name: string): Value {
    if name in n.values then n.values[name] else Null
  }

  function WithValue(n: Node, name: string, v: Value): (r: Node)
    ensures r.typ == n.typ
    ensures Read(r, name) == v
    ensures forall other | other != name :: Read(r, other) == Read(n, other)
  {
    n.(values := n.values[name := v])
  }

  /** The values of a map, in iteration order. */
  function MapValues(entries: seq<(Value, NodeId)>): (r: seq<NodeId>)
    ensures |r| == |entries|
    ensures forall i | 0 <= i < |entries| :: r[i] == entries[i].1
  {
    if |entries| == 0 then [] else [entries[0].1] + MapValues(entries[1..])
  }

  lemma WithValueTwice(n: Node, name: string, v1: Value, v2: Value)
    ensures WithValue(WithValue(n, name, v1), name, v2) == WithValue(n, name, v2)
  {
    assert n.values[name := v1][name := v2] == n.values[name := v2];
  }

  lemma WithValueSame(n: Node, name: string)
    requires name in n.values
    ensures WithValue(n, name, n.values[name]) == n
  {
    assert n.values[name := n.values[name]] == n.values;
  }

  /** Every object the value refers to is among `ids`. */
  predicate RefersWithin(v: Value, ids: set<NodeId>) {
    match v
    case Ref(id) => id in ids
    case Coll(_, elems) => forall i | 0 <= i < |elems| :: elems[i] in ids
    case MapOf(entries) => forall i | 0 <= i < |entries| :: entries[i].1 in ids
    case _ => true
  }

  /** No attribute refers outside the arena. */
  predicate Closed(nodes: map<NodeId, Node>) {
    forall x, name | x in nodes && name in nodes[x].values :: RefersWithin(nodes[x].values[name], nodes.Keys)
  }

  /** Every instance belongs to a managed type. */
  predicate TypedBy(mm: Metamodel, nodes: map<NodeId, Node>) {
    forall x | x in nodes :: nodes[x].typ in mm.types
  }

  /** The attributes of an instance's type. */
  function AttributesOf(mm: Metamodel, nodes: map<NodeId, Node>, x: NodeId): seq<Attribute>
    requires x in nodes && TypedBy(mm, nodes)
  {
    mm.types[nodes[x].typ].attributes
  }

  lemma ReadClosed(nodes: map<NodeId, Node>, x: NodeId, name: string)
    requires Closed(nodes) && x in nodes
    ensures RefersWithin(Read(nodes[x], name), nodes.Keys)
  {
  }

  lemma WithValueClosed(nodes: map<NodeId, Node>, x: NodeId, name: string, v: Value)
    requires Closed(nodes) && x in nodes && RefersWithin(v, nodes.Keys)
    ensures Closed(nodes[x := WithValue(nodes[x], name, v)])
  {
  }

  /** The position of the entry for `key`, or the length of the map when there is none. */
  function KeyIndex(entries: seq<(Value, NodeId)>, key: Value): (r: nat)
    ensures r <= |entries|
    ensures r < |entries| ==> entries[r].0 == key
    ensures forall j | 0 <= j < r :: entries[j].0 != key
  {
    if |entries| == 0 then 0
    else if entries[0].0 == key then 0
    else
      var r := 1 + KeyIndex(entries[1..], key);
      assert forall j | 1 <= j < r :: entries[j] == entries[1..][j - 1];
      r
  }

  /** `HashMap.get`: the value stored under `key`, if any. */
  function MapGet(entries: seq<(Value, NodeId)>, key: Value): (r: Option<NodeId>)
    ensures r.Some? ==> (key, r.value) in entries
    ensures r.None? <==> forall i | 0 <= i < |entries| :: entries[i].0 != key
  {
    var i := KeyIndex(entries, key);
    if i < |entries| then Some(entries[i].1) else None
  }

  /** The keys of a map, in iteration order. */
  function MapKeys(entries: seq<(Value, NodeId)>): (r: seq<Value>)
    ensures |r| == |entries|
    ensures forall i | 0 <= i < |entries| :: r[i] == entries[i].0
  {
    if |entries| == 0 then [] else [entries[0].0] + MapKeys(entries[1..])
  }

  predicate DistinctKeys(entries: seq<(Value, NodeId)>) {
    forall i, j | 0 <= i < j < |entries| :: entries[i].0 != entries[j].0
  }

  /**
   * `HashMap.put`: the entry for `key` takes the new value where it stands,
   * or a new entry is added at the end.
   */
  function MapPut(entries: seq<(Value, NodeId)>, key: Value, value: NodeId): (r: seq<(Value, NodeId)>)
    ensures |r| == |entries| || |r| == |entries| + 1
    ensures forall i | 0 <= i < |entries| :: r[i].0 == entries[i].0
    ensures forall i | 0 <= i < |r| :: r[i] == (key, value) || (i < |entries| && r[i] == entries[i])
  {
    var i := KeyIndex(entries, key);
    if i < |entries| then entries[i := (key, value)] else entries + [(key, value)]
  }

  /** After a put, the key maps to the new value, other keys keep theirs, and keys stay distinct. */
  lemma MapPutGet(entries: seq<(Value, NodeId)>, key: Value, value: NodeId)
    ensures MapGet(MapPut(entries, key, value), key) == Some(value)
    ensures forall k | k != key :: MapGet(MapPut(entries, key, value), k) == MapGet(entries, k)
    ensures DistinctKeys(entries) ==> DistinctKeys(MapPut(entries, key, value))
  {
    var r := MapPut(entries, key, value);
    var i := KeyIndex(entries, key);
    assert KeyIndex(r, key) == i;
    forall k | k != key ensures MapGet(r, k) == MapGet(entries, k) {
      var j := KeyIndex(entries, k);
      assert j != i || i == |entries|;
      if j < |entries| {
        assert KeyIndex(r, k) == j;
      } else {
        assert forall m | 0 <= m < |r| :: r[m].0 != k;
      }
    }
  }

  /**
   * The instances reachable from Java code: `ids` is fixed, `nodes` holds
   * their current attribute values.
   */
  class Graph {
    const ids: set<NodeId>
    var nodes: map<NodeId, Node>

    ghost predicate Valid()
      reads this
    {
      nodes.Keys == ids && Closed(nodes)
    }

    constructor (initial: map<NodeId, Node>)
      requires Closed(initial)
      ensures Valid() && nodes == initial && ids == initial.Keys
    {
      ids := initial.Keys;
      nodes := initial;
    }

    /** `setAttributeValue`: only the one attribute of the one instance changes. */
    method SetValue(x: NodeId, name: string, v: Value)
      requires Valid() && x in ids && RefersWithin(v, ids)
      modifies this
      ensures Valid()
      ensures nodes == old(nodes)[x := WithValue(old(nodes)[x], name, v)]
    {
      WithValueClosed(nodes, x, name, v);
      nodes := nodes[x := WithValue(nodes[x], name, v)];
    }
  }
}
