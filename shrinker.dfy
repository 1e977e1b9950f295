/**
 * EntityGraphShrinker: cuts an entity graph down to a persistable one by
 * nulling to-one attributes and removing to-many elements whose targets
 * are invalid, depth first from a root.
 */
module Shrinker {
  import opened Wrappers
  import opened Jpa
  import opened EntityGraph
  import opened Subsequences

  /** Java's `attributeValue != null`, with the value read through the attribute's declared type. */
  predicate IsSet(a: Attribute, v: Value) {
    if a.kind == Basic then v != Null else v.Ref?
  }

  predicate GraphOk(mm: Metamodel, nodes: map<NodeId, Node>) {
    Closed(nodes) && TypedBy(mm, nodes)
  }

  // ---------------------------------------------------------------------
  // Validity as written: `isValid0` over a path of visited instances.
  // ---------------------------------------------------------------------

  /** `isValid0(Object, visited)`: an instance on the path counts as valid. */
  predicate Valid0Node(mm: Metamodel, nodes: map<NodeId, Node>, x: NodeId, visited: set<NodeId>)
    requires GraphOk(mm, nodes) && x in nodes
    ensures x in visited ==> Valid0Node(mm, nodes, x, visited)
    decreases nodes.Keys - visited, 2, 0
  {
    x in visited || AllValid0(mm, nodes, x, AttributesOf(mm, nodes, x), visited + {x})
  }

  /** The `allMatch` over the attributes of `x`: plural attributes always pass. */
  predicate AllValid0(mm: Metamodel, nodes: map<NodeId, Node>, x: NodeId, attrs: seq<Attribute>, visited: set<NodeId>)
    requires GraphOk(mm, nodes) && x in nodes
    ensures (forall i | 0 <= i < |attrs| :: IsPlural(attrs[i])) ==> AllValid0(mm, nodes, x, attrs, visited)
    decreases nodes.Keys - visited, 1, |attrs|
  {
    if |attrs| == 0 then true
    else
      ReadClosed(nodes, x, attrs[0].name);
      (!IsSingular(attrs[0]) || Valid0Attr(mm, nodes, attrs[0], Read(nodes[x], attrs[0].name), visited)) &&
      AllValid0(mm, nodes, x, attrs[1..], visited)
  }

  /**
   * `isValid0(SingularAttribute, value, visited)`: a set non-basic value is
   * put on the path before its instance is checked, so that check passes at
   * once; any other value is valid iff it is set, an id, or optional.
   */
  predicate Valid0Attr(mm: Metamodel, nodes: map<NodeId, Node>, a: Attribute, v: Value, visited: set<NodeId>)
    requires GraphOk(mm, nodes) && (v.Ref? ==> v.id in nodes)
    ensures a.kind != Basic && v.Ref? ==> Valid0Attr(mm, nodes, a, v, visited)
    ensures !Valid0Attr(mm, nodes, a, v, visited) ==> !IsSet(a, v) && !a.isId && !a.optional
    decreases nodes.Keys - visited, 0, 0
  {
    if a.kind != Basic && v.Ref? then
      if v.id in visited then true
      else Valid0Node(mm, nodes, v.id, visited + {v.id})
    else IsSet(a, v) || a.isId || a.optional
  }

  /** `isValid(Object)`: validity from an empty path. */
  predicate IsValidNode(mm: Metamodel, nodes: map<NodeId, Node>, x: NodeId)
    requires GraphOk(mm, nodes) && x in nodes
    ensures (forall i | 0 <= i < |AttributesOf(mm, nodes, x)| :: IsPlural(AttributesOf(mm, nodes, x)[i])) ==> IsValidNode(mm, nodes, x)
  {
    Valid0Node(mm, nodes, x, {})
  }

  // ---------------------------------------------------------------------
  // What validity amounts to: every singular attribute is set, an id, or optional.
  // ---------------------------------------------------------------------

  predicate AttrValid(a: Attribute, v: Value)
    ensures IsPlural(a) ==> AttrValid(a, v)
    ensures !AttrValid(a, v) ==> !IsSet(a, v) && !a.isId && !a.optional
  {
    !IsSingular(a) || IsSet(a, v) || a.isId || a.optional
  }

  /** An instance is valid iff each of its singular attributes is set, an id, or optional. */
  predicate IsValid(mm: Metamodel, nodes: map<NodeId, Node>, x: NodeId)
    ensures IsValid(mm, nodes, x) <==>
      (x in nodes && nodes[x].typ in mm.types &&
       forall a | a in mm.types[nodes[x].typ].attributes :: AttrValid(a, Read(nodes[x], a.name)))
  {
    x in nodes && nodes[x].typ in mm.types &&
    forall i | 0 <= i < |mm.types[nodes[x].typ].attributes| ::
      AttrValid(mm.types[nodes[x].typ].attributes[i], Read(nodes[x], mm.types[nodes[x].typ].attributes[i].name))
  }

  lemma Valid0AttrShallow(mm: Metamodel, nodes: map<NodeId, Node>, a: Attribute, v: Value, visited: set<NodeId>)
    requires GraphOk(mm, nodes) && (v.Ref? ==> v.id in nodes) && IsSingular(a)
    ensures Valid0Attr(mm, nodes, a, v, visited) == AttrValid(a, v)
  {
    if a.kind != Basic && v.Ref? && v.id !in visited {
      assert Valid0Node(mm, nodes, v.id, visited + {v.id});
    }
  }

  lemma {:induction false} AllValid0Shallow(mm: Metamodel, nodes: map<NodeId, Node>, x: NodeId, attrs: seq<Attribute>, visited: set<NodeId>)
    requires GraphOk(mm, nodes) && x in nodes
    ensures AllValid0(mm, nodes, x, attrs, visited) == forall i | 0 <= i < |attrs| :: AttrValid(attrs[i], Read(nodes[x], attrs[i].name))
    decreases |attrs|
  {
    if |attrs| > 0 {
      ReadClosed(nodes, x, attrs[0].name);
      if IsSingular(attrs[0]) {
        Valid0AttrShallow(mm, nodes, attrs[0], Read(nodes[x], attrs[0].name), visited);
      }
      AllValid0Shallow(mm, nodes, x, attrs[1..], visited);
      assert forall i | 1 <= i < |attrs| :: attrs[i] == attrs[1..][i - 1];
    }
  }

  /**
   * The recursive `isValid` is shallow: re-descending into a set value stops
   * at once because the value was just put on the path.
   */
  lemma ValidIffShallow(mm: Metamodel, nodes: map<NodeId, Node>, x: NodeId)
    requires GraphOk(mm, nodes) && x in nodes
    ensures IsValidNode(mm, nodes, x) == IsValid(mm, nodes, x)
  {
    assert {} + {x} == {x};
    AllValid0Shallow(mm, nodes, x, AttributesOf(mm, nodes, x), {x});
  }

  // ---------------------------------------------------------------------
  // Shrinking: values are only nulled or have elements removed.
  // ---------------------------------------------------------------------

  predicate ValueShrunk(o: Value, n: Value) {
    n == o || (o.Ref? && n == Null) ||
    (o.Coll? && n.Coll? && n.container == o.container && Subseq(n.elems, o.elems)) ||
    (o.MapOf? && n.MapOf? && Subseq(n.entries, o.entries))
  }

  predicate NodeShrunk(o: Node, n: Node) {
    n.typ == o.typ && n.values.Keys == o.values.Keys &&
    forall name | name in o.values :: ValueShrunk(o.values[name], n.values[name])
  }

  /** `n` arises from `o` by nulling references and removing collection elements and map entries. */
  predicate Shrunk(o: map<NodeId, Node>, n: map<NodeId, Node>) {
    n.Keys == o.Keys && forall x | x in o :: NodeShrunk(o[x], n[x])
  }

  lemma ShrunkRefl(nodes: map<NodeId, Node>)
    ensures Shrunk(nodes, nodes)
  {
  }

  lemma ValueShrunkTrans(a: Value, b: Value, c: Value)
    requires ValueShrunk(a, b) && ValueShrunk(b, c)
    ensures ValueShrunk(a, c)
  {
    if a.Coll? && b.Coll? && c.Coll? {
      if b != a && c != b { SubseqTrans(c.elems, b.elems, a.elems); }
    } else if a.MapOf? && b.MapOf? && c.MapOf? {
      if b != a && c != b { SubseqTrans(c.entries, b.entries, a.entries); }
    }
  }

  lemma ShrunkTrans(a: map<NodeId, Node>, b: map<NodeId, Node>, c: map<NodeId, Node>)
    requires Shrunk(a, b) && Shrunk(b, c)
    ensures Shrunk(a, c)
  {
    forall x | x in a ensures NodeShrunk(a[x], c[x]) {
      forall name | name in a[x].values ensures ValueShrunk(a[x].values[name], c[x].values[name]) {
        ValueShrunkTrans(a[x].values[name], b[x].values[name], c[x].values[name]);
      }
    }
  }

  /** Writing a shrunk value into a present attribute shrinks the graph. */
  lemma ShrunkBySet(prev: map<NodeId, Node>, x: NodeId, name: string, v: Value)
    requires x in prev && name in prev[x].values && ValueShrunk(prev[x].values[name], v)
    ensures Shrunk(prev, prev[x := WithValue(prev[x], name, v)])
  {
  }

  lemma ShrunkTyped(mm: Metamodel, o: map<NodeId, Node>, n: map<NodeId, Node>)
    requires Shrunk(o, n) && TypedBy(mm, o)
    ensures TypedBy(mm, n)
  {
  }

  /** Shrinking never makes an instance valid: a valid instance was valid before. */
  lemma ValidAntitone(mm: Metamodel, o: map<NodeId, Node>, n: map<NodeId, Node>, x: NodeId)
    requires Shrunk(o, n)
    ensures IsValid(mm, n, x) ==> IsValid(mm, o, x)
  {
    if IsValid(mm, n, x) {
      var attrs := mm.types[o[x].typ].attributes;
      forall i | 0 <= i < |attrs| ensures AttrValid(attrs[i], Read(o[x], attrs[i].name)) {
        assert AttrValid(attrs[i], Read(n[x], attrs[i].name));
      }
    }
  }

  // ---------------------------------------------------------------------
  // What shrinking one attribute of an instance leaves behind.
  // ---------------------------------------------------------------------

  /** A to-many attribute whose elements are instances of a mapped superclass: `shrink0` throws on it. */
  predicate OverMappedSuperclass(mm: Metamodel, a: Attribute)
    ensures OverMappedSuperclass(mm, a) ==> IsPlural(a) && !ShrinksCollection(mm, a) && !ShrinksMap(a)
  {
    IsPlural(a) && a.kind != ElementCollection && a.collection != MapCollection &&
    ElementPersistence(mm, a) == MappedSuperclass
  }

  predicate ShrinksCollection(mm: Metamodel, a: Attribute) {
    IsPlural(a) && a.kind != ElementCollection && a.collection != MapCollection &&
    ElementPersistence(mm, a) in {Entity, Embeddable}
  }

  predicate ShrinksMap(a: Attribute) {
    IsPlural(a) && a.kind != ElementCollection && a.collection == MapCollection
  }

  /**
   * The value `n` left in attribute `a` of an instance that held `o`, judged
   * in the graph `final`: a to-one target that is valid in `final` is kept,
   * and so is every map value and collection element valid in `final`; what
   * goes is nulled or removed in place; nothing else changes.
   */
  predicate AttrShrunk(mm: Metamodel, a: Attribute, o: Value, n: Value, final: map<NodeId, Node>) {
    if IsSingular(a) && a.kind != Basic && o.Ref? then
      (n == o || n == Null) && (IsValid(mm, final, o.id) ==> n == o)
    else if ShrinksMap(a) && o.MapOf? then
      n.MapOf? && Subseq(n.entries, o.entries) &&
      forall i | 0 <= i < |o.entries| :: IsValid(mm, final, o.entries[i].1) ==> o.entries[i] in n.entries
    else if ShrinksCollection(mm, a) && o.Coll? then
      n.Coll? && n.container == o.container && Subseq(n.elems, o.elems) &&
      forall i | 0 <= i < |o.elems| :: IsValid(mm, final, o.elems[i]) ==> o.elems[i] in n.elems
    else
      n == o
  }

  /** Further shrinking of the graph keeps an attribute's outcome. */
  lemma AttrShrunkStable(mm: Metamodel, a: Attribute, o: Value, n: Value, f1: map<NodeId, Node>, f2: map<NodeId, Node>)
    requires Shrunk(f1, f2) && AttrShrunk(mm, a, o, n, f1)
    ensures AttrShrunk(mm, a, o, n, f2)
  {
    if IsSingular(a) && a.kind != Basic && o.Ref? {
      ValidAntitone(mm, f1, f2, o.id);
    } else if ShrinksMap(a) && o.MapOf? {
      forall i | 0 <= i < |o.entries| ensures IsValid(mm, f2, o.entries[i].1) ==> o.entries[i] in n.entries {
        ValidAntitone(mm, f1, f2, o.entries[i].1);
      }
    } else if ShrinksCollection(mm, a) && o.Coll? {
      forall i | 0 <= i < |o.elems| ensures IsValid(mm, f2, o.elems[i]) ==> o.elems[i] in n.elems {
        ValidAntitone(mm, f1, f2, o.elems[i]);
      }
    }
  }

  lemma AttrShrunkValue(mm: Metamodel, a: Attribute, o: Value, n: Value, final: map<NodeId, Node>)
    requires AttrShrunk(mm, a, o, n, final)
    ensures ValueShrunk(o, n)
  {
  }

  /** Every attribute of the instance's type ended as `AttrShrunk` describes. */
  predicate NodeShrinkOutcome(mm: Metamodel, o: Node, n: Node, final: map<NodeId, Node>)
    requires o.typ in mm.types
  {
    forall j | 0 <= j < |mm.types[o.typ].attributes| ::
      AttrShrunk(mm, mm.types[o.typ].attributes[j], Read(o, mm.types[o.typ].attributes[j].name),
                 Read(n, mm.types[o.typ].attributes[j].name), final)
  }

  /** No to-many attribute of the metamodel is over a mapped superclass. */
  predicate NoMappedSuperclassElements(mm: Metamodel) {
    forall t, a | t in mm.types && a in mm.types[t].attributes :: !OverMappedSuperclass(mm, a)
  }

  /** What is left after removing element `i` from the in-place iteration. */
  lemma DropStep<T>(kept: seq<T>, es: seq<T>, i: nat)
    requires i < |es| && Subseq(kept, es[..i])
    ensures Subseq(kept, es[..i + 1])
    ensures Subseq(kept + es[i + 1..], es)
  {
    assert es[..i + 1] == es[..i] + [es[i]];
    SubseqDrop(kept, es[..i], es[i]);
    SubseqAppend(kept, es[..i + 1], es[i + 1..]);
    assert es[..i + 1] + es[i + 1..] == es;
  }

  lemma KeepStep<T>(kept: seq<T>, es: seq<T>, i: nat)
    requires i < |es| && Subseq(kept, es[..i])
    ensures Subseq(kept + [es[i]], es[..i + 1])
    ensures kept + [es[i]] + es[i + 1..] == kept + es[i..]
  {
    assert es[..i + 1] == es[..i] + [es[i]];
    SubseqKeep(kept, es[..i], es[i]);
    assert es[i..] == [es[i]] + es[i + 1..];
  }

  lemma {:induction false} SubseqSkip<T>(p: seq<T>, y: T, s: seq<T>)
    ensures Subseq(p + s, p + [y] + s)
  {
    SubseqRefl(p);
    SubseqDrop(p, p, y);
    SubseqAppend(p, p + [y], s);
  }

  /** Attribute names within a well-formed type are distinct. */
  lemma DistinctNames(mm: Metamodel, typ: TypeName, i: nat)
    requires WellFormed(mm) && typ in mm.types && i < |mm.types[typ].attributes|
    ensures forall j | 0 <= j < |mm.types[typ].attributes| && j != i ::
      mm.types[typ].attributes[j].name != mm.types[typ].attributes[i].name
  {
  }

  /** The outcomes of the attributes already shrunk survive the shrinking of a later one. */
  lemma OutcomesStable(mm: Metamodel, attrs: seq<Attribute>, o: Node, x: NodeId, before: map<NodeId, Node>, after: map<NodeId, Node>, i: nat)
    requires i <= |attrs| && x in before && Shrunk(before, after)
    requires forall j | 0 <= j < i :: AttrShrunk(mm, attrs[j], Read(o, attrs[j].name), Read(before[x], attrs[j].name), before)
    requires forall j | 0 <= j < i :: Read(after[x], attrs[j].name) == Read(before[x], attrs[j].name)
    ensures forall j | 0 <= j < i :: AttrShrunk(mm, attrs[j], Read(o, attrs[j].name), Read(after[x], attrs[j].name), after)
  {
    forall j | 0 <= j < i
      ensures AttrShrunk(mm, attrs[j], Read(o, attrs[j].name), Read(after[x], attrs[j].name), after)
    {
      AttrShrunkStable(mm, attrs[j], Read(o, attrs[j].name), Read(before[x], attrs[j].name), before, after);
    }
  }

  /** Elements already kept because they were valid stay accounted for as the graph shrinks. */
  lemma KeptStable(mm: Metamodel, before: map<NodeId, Node>, after: map<NodeId, Node>, es: seq<NodeId>, kept: seq<NodeId>, i: nat)
    requires Shrunk(before, after) && i <= |es|
    requires forall j | 0 <= j < i :: IsValid(mm, before, es[j]) ==> es[j] in kept
    ensures forall j | 0 <= j < i :: IsValid(mm, after, es[j]) ==> es[j] in kept
  {
    forall j | 0 <= j < i ensures IsValid(mm, after, es[j]) ==> es[j] in kept {
      ValidAntitone(mm, before, after, es[j]);
    }
  }

  lemma EntriesKeptStable(mm: Metamodel, before: map<NodeId, Node>, after: map<NodeId, Node>, es: seq<(Value, NodeId)>, kept: seq<(Value, NodeId)>, i: nat)
    requires Shrunk(before, after) && i <= |es|
    requires forall j | 0 <= j < i :: IsValid(mm, before, es[j].1) ==> es[j] in kept
    ensures forall j | 0 <= j < i :: IsValid(mm, after, es[j].1) ==> es[j] in kept
  {
    forall j | 0 <= j < i ensures IsValid(mm, after, es[j].1) ==> es[j] in kept {
      ValidAntitone(mm, before, after, es[j].1);
    }
  }

  lemma SubseqWithin(kept: seq<NodeId>, es: seq<NodeId>, ids: set<NodeId>)
    requires Subseq(kept, es) && forall i | 0 <= i < |es| :: es[i] in ids
    ensures forall i | 0 <= i < |kept| :: kept[i] in ids
  {
    SubseqMembers(kept, es);
  }

  lemma SubseqEntriesWithin(kept: seq<(Value, NodeId)>, es: seq<(Value, NodeId)>, ids: set<NodeId>)
    requires Subseq(kept, es) && forall i | 0 <= i < |es| :: es[i].1 in ids
    ensures forall i | 0 <= i < |kept| :: kept[i].1 in ids
  {
    SubseqMembers(kept, es);
    forall i | 0 <= i < |kept| ensures kept[i].1 in ids {
      assert kept[i] in es;
    }
  }

  /** The sequence left after removing `es[i]` from `kept + es[i..]`. */
  lemma SkipAt<T>(kept: seq<T>, es: seq<T>, i: nat)
    requires i < |es|
    ensures Subseq(kept + es[i + 1..], kept + es[i..])
  {
    assert es[i..] == [es[i]] + es[i + 1..];
    assert kept + es[i..] == kept + [es[i]] + es[i + 1..];
    SubseqSkip(kept, es[i], es[i + 1..]);
  }

  /**
   * Removing an entry or element of attribute `name` of `x` whose instance is
   * invalid: the graph is still shrunk, and no processed valid instance is lost.
   */
  predicate Stepped(mm: Metamodel, o: map<NodeId, Node>, n: map<NodeId, Node>, path: set<NodeId>, x: NodeId) {
    Shrunk(o, n) && TypedBy(mm, n) && forall y | y in path && y != x && y in o :: n[y] == o[y]
  }

  lemma SteppedTrans(mm: Metamodel, a: map<NodeId, Node>, b: map<NodeId, Node>, c: map<NodeId, Node>, path: set<NodeId>, x: NodeId)
    requires Stepped(mm, a, b, path, x) && Stepped(mm, b, c, path, x)
    ensures Stepped(mm, a, c, path, x)
  {
    ShrunkTrans(a, b, c);
  }

  /**
   * The state after the first `i` attributes of `x`, in declaration order,
   * have been shrunk: each of them ended as `AttrShrunk` describes, none is
   * over a mapped superclass, the rest are untouched, and so are the
   * instances on the path.
   */
  predicate AttrsLoop(mm: Metamodel, start: map<NodeId, Node>, nodes: map<NodeId, Node>, x: NodeId, visited: set<NodeId>, i: nat)
  {
    x in start && x !in visited && start[x].typ in mm.types && i <= |mm.types[start[x].typ].attributes| &&
    Shrunk(start, nodes) && TypedBy(mm, nodes) &&
    (forall y | y in visited && y in start :: nodes[y] == start[y]) &&
    var attrs := mm.types[start[x].typ].attributes;
    (forall j | 0 <= j < i :: AttrShrunk(mm, attrs[j], Read(start[x], attrs[j].name), Read(nodes[x], attrs[j].name), nodes)) &&
    (forall j | i <= j < |attrs| :: Read(nodes[x], attrs[j].name) == Read(start[x], attrs[j].name)) &&
    (forall j | 0 <= j < i :: !OverMappedSuperclass(mm, attrs[j]))
  }

  /** Shrinking attribute `i` of `x` extends the loop state by one attribute. */
  lemma AttrsLoopStep(mm: Metamodel, start: map<NodeId, Node>, before: map<NodeId, Node>, after: map<NodeId, Node>,
                      x: NodeId, visited: set<NodeId>, i: nat)
    requires WellFormed(mm) && AttrsLoop(mm, start, before, x, visited, i)
    requires i < |mm.types[start[x].typ].attributes|
    requires Shrunk(before, after) && TypedBy(mm, after)
    requires forall y | y in visited + {x} && y != x && y in before.Keys :: after[y] == before[y]
    requires forall name | name != mm.types[start[x].typ].attributes[i].name :: Read(after[x], name) == Read(before[x], name)
    requires !OverMappedSuperclass(mm, mm.types[start[x].typ].attributes[i])
    requires AttrShrunk(mm, mm.types[start[x].typ].attributes[i],
                        Read(before[x], mm.types[start[x].typ].attributes[i].name),
                        Read(after[x], mm.types[start[x].typ].attributes[i].name), after)
    ensures AttrsLoop(mm, start, after, x, visited, i + 1)
  {
    var attrs := mm.types[start[x].typ].attributes;
    ShrunkTrans(start, before, after);
    DistinctNames(mm, start[x].typ, i);
    OutcomesStable(mm, attrs, start[x], x, before, after, i);
    forall y | y in visited && y in start ensures after[y] == start[y] {
      assert y in visited + {x} && y in before.Keys;
    }
  }

  /**
   * The state after `i` turns of the in-place iteration over the collection
   * attribute `name` of `x`, which held `Coll(c, es)` in `start`: `kept` is
   * what is left of the first `i` elements, every one of them valid now is
   * in it, and the rest are still to come.
   */
  predicate CollLoop(mm: Metamodel, start: map<NodeId, Node>, nodes: map<NodeId, Node>, x: NodeId, name: string,
                     path: set<NodeId>, c: Container, es: seq<NodeId>, kept: seq<NodeId>, i: nat)
  {
    i <= |es| && x in start && x in path && name in start[x].values && start[x].values[name] == Coll(c, es) &&
    RefersWithin(Coll(c, es), start.Keys) &&
    Stepped(mm, start, nodes, path, x) &&
    nodes[x] == WithValue(start[x], name, Coll(c, kept + es[i..])) &&
    Subseq(kept, es[..i]) &&
    forall j | 0 <= j < i :: IsValid(mm, nodes, es[j]) ==> es[j] in kept
  }

  /** `CollLoop` for the in-place iteration over the values of the map attribute `name` of `x`. */
  predicate MapLoop(mm: Metamodel, start: map<NodeId, Node>, nodes: map<NodeId, Node>, x: NodeId, name: string,
                    path: set<NodeId>, es: seq<(Value, NodeId)>, kept: seq<(Value, NodeId)>, i: nat)
  {
    i <= |es| && x in start && x in path && name in start[x].values && start[x].values[name] == MapOf(es) &&
    RefersWithin(MapOf(es), start.Keys) &&
    Stepped(mm, start, nodes, path, x) &&
    nodes[x] == WithValue(start[x], name, MapOf(kept + es[i..])) &&
    Subseq(kept, es[..i]) &&
    forall j | 0 <= j < i :: IsValid(mm, nodes, es[j].1) ==> es[j] in kept
  }

  lemma MapLoopStart(mm: Metamodel, start: map<NodeId, Node>, x: NodeId, name: string, path: set<NodeId>, es: seq<(Value, NodeId)>)
    requires GraphOk(mm, start) && x in start && x in path && Read(start[x], name) == MapOf(es)
    ensures MapLoop(mm, start, start, x, name, path, es, [], 0)
  {
    ReadClosed(start, x, name);
    SubseqEmpty(es[..0]);
    assert [] + es[0..] == es;
    WithValueSame(start[x], name);
  }

  lemma MapLoopDone(mm: Metamodel, a: Attribute, start: map<NodeId, Node>, nodes: map<NodeId, Node>, x: NodeId,
                    path: set<NodeId>, es: seq<(Value, NodeId)>, kept: seq<(Value, NodeId)>)
    requires ShrinksMap(a) && MapLoop(mm, start, nodes, x, a.name, path, es, kept, |es|)
    ensures AttrShrunk(mm, a, Read(start[x], a.name), Read(nodes[x], a.name), nodes)
  {
    assert es[..|es|] == es;
    assert kept + es[|es|..] == kept;
  }

  lemma CollLoopStart(mm: Metamodel, start: map<NodeId, Node>, x: NodeId, name: string, path: set<NodeId>, c: Container, es: seq<NodeId>)
    requires GraphOk(mm, start) && x in start && x in path && Read(start[x], name) == Coll(c, es)
    ensures CollLoop(mm, start, start, x, name, path, c, es, [], 0)
  {
    ReadClosed(start, x, name);
    SubseqEmpty(es[..0]);
    assert [] + es[0..] == es;
    WithValueSame(start[x], name);
  }

  lemma CollLoopDone(mm: Metamodel, a: Attribute, start: map<NodeId, Node>, nodes: map<NodeId, Node>, x: NodeId,
                     path: set<NodeId>, c: Container, es: seq<NodeId>, kept: seq<NodeId>)
    requires ShrinksCollection(mm, a) && CollLoop(mm, start, nodes, x, a.name, path, c, es, kept, |es|)
    ensures AttrShrunk(mm, a, Read(start[x], a.name), Read(nodes[x], a.name), nodes)
  {
    assert es[..|es|] == es;
    assert kept + es[|es|..] == kept;
  }

  /** The exceptions `shrink0` can raise: a failed cast of a to-many value, or a mapped-superclass element type. */
  predicate ShrinkError(e: JpaError) {
    e == UnexpectedPersistenceType || e == ClassCast
  }

  /** A map attribute holds null or a map; a shrunk collection attribute holds null or a collection. */
  predicate Shaped(mm: Metamodel, a: Attribute, v: Value) {
    (ShrinksMap(a) ==> v == Null || v.MapOf?) && (ShrinksCollection(mm, a) ==> v == Null || v.Coll?)
  }

  predicate NodeShaped(mm: Metamodel, n: Node) {
    n.typ in mm.types ==> forall a | a in mm.types[n.typ].attributes :: Shaped(mm, a, Read(n, a.name))
  }

  /** Every to-many value the walk casts is of the shape its attribute declares. */
  predicate ToManyShaped(mm: Metamodel, nodes: map<NodeId, Node>) {
    forall x | x in nodes :: NodeShaped(mm, nodes[x])
  }

  /** Shrinking keeps to-many values in shape. */
  lemma ShapedStable(mm: Metamodel, o: map<NodeId, Node>, n: map<NodeId, Node>)
    requires Shrunk(o, n)
    ensures ToManyShaped(mm, o) ==> ToManyShaped(mm, n)
  {
    if ToManyShaped(mm, o) {
      forall x | x in n ensures NodeShaped(mm, n[x]) {
        assert NodeShaped(mm, o[x]);
      }
    }
  }

  // ---------------------------------------------------------------------
  // The walk itself: the graph and outcome `shrink0` leaves behind.
  // ---------------------------------------------------------------------

  /**
   * `shrink0(x)` with the instances of `visited` on the path: an instance on
   * the path, or outside the graph, is left alone; otherwise its attributes
   * are shrunk in declaration order with `x` pushed on the path.
   */
  function Shrunk0(mm: Metamodel, ids: set<NodeId>, nodes: map<NodeId, Node>, visited: set<NodeId>, x: NodeId): (r: (map<NodeId, Node>, Outcome<JpaError>))
    ensures r.0.Keys == nodes.Keys
    ensures r.1.Fail? ==> ShrinkError(r.1.error)
    ensures x in visited ==> r == (nodes, Pass)
    decreases ids - visited, 0, 0
  {
    if x in visited || x !in ids || x !in nodes || nodes[x].typ !in mm.types then (nodes, Pass)
    else ShrunkAttrs(mm, ids, nodes, visited + {x}, x, mm.types[nodes[x].typ].attributes)
  }

  /** The attribute loop of `shrink0`, up to the first exception. */
  function ShrunkAttrs(mm: Metamodel, ids: set<NodeId>, nodes: map<NodeId, Node>, path: set<NodeId>, x: NodeId, attrs: seq<Attribute>): (r: (map<NodeId, Node>, Outcome<JpaError>))
    requires x in path && x in nodes
    ensures r.0.Keys == nodes.Keys
    ensures r.1.Fail? ==> ShrinkError(r.1.error)
    decreases ids - path, 5, |attrs|
  {
    if |attrs| == 0 then (nodes, Pass)
    else
      var (next, out) := ShrunkAttr(mm, ids, nodes, path, x, attrs[0]);
      if out.Fail? then (next, out) else ShrunkAttrs(mm, ids, next, path, x, attrs[1..])
  }

  /**
   * One attribute of `x`: a set to-one or embedded value is shrunk and nulled
   * if its target is then invalid; the values of a map and the elements of a
   * collection of entities or embeddables are shrunk and removed in place if
   * invalid; a to-many value that is not a map or collection fails the
   * cast; a collection of mapped-superclass instances throws; a null value
   * and every other attribute are left alone.
   */
  function ShrunkAttr(mm: Metamodel, ids: set<NodeId>, nodes: map<NodeId, Node>, path: set<NodeId>, x: NodeId, a: Attribute): (r: (map<NodeId, Node>, Outcome<JpaError>))
    requires x in path && x in nodes
    ensures r.0.Keys == nodes.Keys
    ensures r.1.Fail? ==> ShrinkError(r.1.error)
    ensures OverMappedSuperclass(mm, a) ==> r == (nodes, Fail(UnexpectedPersistenceType))
    decreases ids - path, 4, 0
  {
    var v := Read(nodes[x], a.name);
    if IsSingular(a) && a.kind != Basic then
      if v.Ref? then
        var (next, out, _) := ShrunkTarget(mm, ids, nodes, path, x, a.name, v.id, Null);
        (next, out)
      else (nodes, Pass)
    else if ShrinksMap(a) then
      if v.MapOf? then ShrunkEntries(mm, ids, nodes, path, x, a.name, [], v.entries)
      else if v == Null then (nodes, Pass)
      else (nodes, Fail(ClassCast))
    else if ShrinksCollection(mm, a) then
      if v.Coll? then ShrunkElems(mm, ids, nodes, path, x, a.name, v.container, [], v.elems)
      else if v == Null then (nodes, Pass)
      else (nodes, Fail(ClassCast))
    else if OverMappedSuperclass(mm, a) then (nodes, Fail(UnexpectedPersistenceType))
    else (nodes, Pass)
  }

  /**
   * The iteration over the values of map attribute `name` of `x`: `kept`
   * holds the entries already kept and `rest` those still to come, so the
   * map currently holds `kept + rest`.
   */
  function ShrunkEntries(mm: Metamodel, ids: set<NodeId>, nodes: map<NodeId, Node>, path: set<NodeId>, x: NodeId, name: string,
                         kept: seq<(Value, NodeId)>, rest: seq<(Value, NodeId)>): (r: (map<NodeId, Node>, Outcome<JpaError>))
    requires x in path && x in nodes
    ensures r.0.Keys == nodes.Keys
    ensures r.1.Fail? ==> ShrinkError(r.1.error)
    decreases ids - path, 3, |rest|
  {
    if |rest| == 0 then (nodes, Pass)
    else
      var (next, out, removed) := ShrunkTarget(mm, ids, nodes, path, x, name, rest[0].1, MapOf(kept + rest[1..]));
      if out.Fail? then (next, out)
      else ShrunkEntries(mm, ids, next, path, x, name, if removed then kept else kept + [rest[0]], rest[1..])
  }

  /** `ShrunkEntries` for the elements of collection attribute `name` of `x`, of container class `c`. */
  function ShrunkElems(mm: Metamodel, ids: set<NodeId>, nodes: map<NodeId, Node>, path: set<NodeId>, x: NodeId, name: string,
                       c: Container, kept: seq<NodeId>, rest: seq<NodeId>): (r: (map<NodeId, Node>, Outcome<JpaError>))
    requires x in path && x in nodes
    ensures r.0.Keys == nodes.Keys
    ensures r.1.Fail? ==> ShrinkError(r.1.error)
    decreases ids - path, 3, |rest|
  {
    if |rest| == 0 then (nodes, Pass)
    else
      var (next, out, removed) := ShrunkTarget(mm, ids, nodes, path, x, name, rest[0], Coll(c, kept + rest[1..]));
      if out.Fail? then (next, out)
      else ShrunkElems(mm, ids, next, path, x, name, c, if removed then kept else kept + [rest[0]], rest[1..])
  }

  /**
   * The step shared by every kind of attribute: `shrink0(t)`, then, if `t`
   * is invalid, `nv` (the value with `t` nulled or removed) is stored in
   * attribute `name` of `x`; the flag says whether that happened.
   */
  function ShrunkTarget(mm: Metamodel, ids: set<NodeId>, nodes: map<NodeId, Node>, path: set<NodeId>, x: NodeId, name: string,
                        t: NodeId, nv: Value): (r: (map<NodeId, Node>, Outcome<JpaError>, bool))
    requires x in path && x in nodes
    ensures r.0.Keys == nodes.Keys
    ensures r.1.Fail? ==> ShrinkError(r.1.error) && !r.2
    ensures r.2 ==> r.1.Pass?
    decreases ids - path, 1, 0
  {
    var (mid, out) := Shrunk0(mm, ids, nodes, path, t);
    if out.Fail? then (mid, out, false)
    else if IsValid(mm, mid, t) then (mid, Pass, false)
    else (mid[x := WithValue(mid[x], name, nv)], Pass, true)
  }

  /** `shrink`: the walk from `root` with an empty path, then "Cannot shrink" if the root is still invalid. */
  function ShrinkResult(mm: Metamodel, ids: set<NodeId>, nodes: map<NodeId, Node>, root: NodeId): (r: (map<NodeId, Node>, Outcome<JpaError>))
    ensures r.0.Keys == nodes.Keys
    ensures r.1.Fail? ==> ShrinkError(r.1.error) || r.1.error == CannotShrink
    ensures r.1.Pass? ==> IsValid(mm, r.0, root)
  {
    var (next, out) := Shrunk0(mm, ids, nodes, {}, root);
    if out.Fail? then (next, out)
    else if IsValid(mm, next, root) then (next, Pass)
    else (next, Fail(CannotShrink))
  }

  class EntityGraphShrinker {
    const metamodel: Metamodel

    constructor (mm: Metamodel)
      requires WellFormed(mm)
      ensures metamodel == mm
    {
      metamodel := mm;
    }

    /**
     * `shrink`: shrinks the graph from `root`, then fails with "Cannot shrink"
     * iff the root is still invalid.
     */
    method Shrink(g: Graph, root: NodeId) returns (out: Outcome<JpaError>)
      requires WellFormed(metamodel) && g.Valid() && TypedBy(metamodel, g.nodes) && root in g.ids
      modifies g
      ensures g.Valid() && TypedBy(metamodel, g.nodes)
      ensures Shrunk(old(g.nodes), g.nodes)
      ensures out.Fail? ==> ShrinkError(out.error) || out.error == CannotShrink
      ensures out.Pass? ==> IsValid(metamodel, g.nodes, root)
      ensures out == Fail(CannotShrink) ==> !IsValid(metamodel, g.nodes, root)
      ensures NoMappedSuperclassElements(metamodel) ==> out != Fail(UnexpectedPersistenceType)
      ensures ToManyShaped(metamodel, old(g.nodes)) ==> out != Fail(ClassCast)
      ensures NoMappedSuperclassElements(metamodel) && ToManyShaped(metamodel, old(g.nodes)) ==> (out.Pass? <==> IsValid(metamodel, g.nodes, root))
      ensures out.Pass? || out == Fail(CannotShrink) ==> NodeShrinkOutcome(metamodel, old(g.nodes)[root], g.nodes[root], g.nodes)
      ensures (g.nodes, out) == ShrinkResult(metamodel, g.ids, old(g.nodes), root)
    {
      out := Shrink0(g, Some(root), {});
      if out.Fail? {
        return;
      }
      ValidIffShallow(metamodel, g.nodes, root);
      if !IsValidNode(metamodel, g.nodes, root) {
        out := Fail(CannotShrink);
      }
    }

    /**
     * `shrink0`: a null instance or one on the path is left alone; otherwise
     * each attribute of the instance is shrunk in declaration order, and the
     * path is as before on return.
     */
    method Shrink0(g: Graph, node: Option<NodeId>, visited: set<NodeId>) returns (out: Outcome<JpaError>)
      requires WellFormed(metamodel) && g.Valid() && TypedBy(metamodel, g.nodes)
      requires node.Some? ==> node.value in g.ids
      modifies g
      ensures g.Valid() && TypedBy(metamodel, g.nodes)
      ensures Shrunk(old(g.nodes), g.nodes)
      ensures forall y | y in visited && y in g.ids :: g.nodes[y] == old(g.nodes)[y]
      ensures out.Fail? ==> ShrinkError(out.error)
      ensures NoMappedSuperclassElements(metamodel) ==> out != Fail(UnexpectedPersistenceType)
      ensures ToManyShaped(metamodel, old(g.nodes)) ==> out != Fail(ClassCast)
      ensures node.None? || node.value in visited ==> out.Pass? && g.nodes == old(g.nodes)
      ensures node.Some? && node.value !in visited && out.Pass? ==>
        NodeShrinkOutcome(metamodel, old(g.nodes)[node.value], g.nodes[node.value], g.nodes)
      ensures node.Some? && node.value !in visited ==>
        ((exists a | a in metamodel.types[old(g.nodes)[node.value].typ].attributes :: OverMappedSuperclass(metamodel, a)) ==> out.Fail?)
      ensures node.Some? ==> (g.nodes, out) == Shrunk0(metamodel, g.ids, old(g.nodes), visited, node.value)
      decreases g.ids - visited, 0
    {
      if node.None? || node.value in visited {
        return Pass;
      }
      var x := node.value;
      var path := visited + {x};
      var typ := g.nodes[x].typ;
      var attrs := metamodel.types[typ].attributes;
      ghost var start := g.nodes;
      var i := 0;
      out := Pass;
      while i < |attrs|
        invariant 0 <= i <= |attrs| && out == Pass
        invariant g.Valid() && AttrsLoop(metamodel, start, g.nodes, x, visited, i)
        invariant ShrunkAttrs(metamodel, g.ids, start, path, x, attrs) == ShrunkAttrs(metamodel, g.ids, g.nodes, path, x, attrs[i..])
      {
        ghost var before := g.nodes;
        assert attrs[i..][1..] == attrs[i + 1..];
        ShapedStable(metamodel, start, before);
        out := ShrinkAttribute(g, x, attrs[i], path);
        if out.Fail? {
          ShrunkTrans(start, before, g.nodes);
          return;
        }
        AttrsLoopStep(metamodel, start, before, g.nodes, x, visited, i);
        i := i + 1;
      }
    }

    /**
     * The body of the attribute loop of `shrink0`: to-one and embedded
     * attributes, maps, and collections of entities or embeddables are
     * shrunk; a collection of mapped-superclass instances is rejected;
     * everything else is left alone.
     */
    method ShrinkAttribute(g: Graph, x: NodeId, a: Attribute, path: set<NodeId>) returns (out: Outcome<JpaError>)
      requires WellFormed(metamodel) && g.Valid() && TypedBy(metamodel, g.nodes)
      requires x in g.ids && x in path && a in metamodel.types[g.nodes[x].typ].attributes
      modifies g
      ensures g.Valid() && TypedBy(metamodel, g.nodes)
      ensures Shrunk(old(g.nodes), g.nodes)
      ensures forall y | y in path && y != x && y in g.ids :: g.nodes[y] == old(g.nodes)[y]
      ensures forall name | name != a.name :: Read(g.nodes[x], name) == Read(old(g.nodes)[x], name)
      ensures out.Fail? ==> ShrinkError(out.error)
      ensures OverMappedSuperclass(metamodel, a) ==> out.Fail?
      ensures NoMappedSuperclassElements(metamodel) ==> out != Fail(UnexpectedPersistenceType)
      ensures ToManyShaped(metamodel, old(g.nodes)) ==> out != Fail(ClassCast)
      ensures out.Pass? ==> AttrShrunk(metamodel, a, Read(old(g.nodes)[x], a.name), Read(g.nodes[x], a.name), g.nodes)
      ensures (g.nodes, out) == ShrunkAttr(metamodel, g.ids, old(g.nodes), path, x, a)
      decreases g.ids - path, 4
    {
      out := Pass;
      if IsSingular(a) && a.kind != Basic {
        out := ShrinkSingular(g, x, a, path);
      } else if ShrinksMap(a) {
        out := ShrinkMapValues(g, x, a, path);
      } else if ShrinksCollection(metamodel, a) {
        out := ShrinkCollection(g, x, a, path);
      } else if OverMappedSuperclass(metamodel, a) {
        out := Fail(UnexpectedPersistenceType);
      }
    }

    /**
     * The step every kind of attribute shares: shrink the instance `t` that
     * attribute `name` of `x` leads to, then, if `t` is invalid, store `nv`
     * (the value with `t` nulled or removed) in that attribute.
     */
    method ShrinkTarget(g: Graph, x: NodeId, name: string, t: NodeId, path: set<NodeId>, nv: Value) returns (out: Outcome<JpaError>, removed: bool)
      requires WellFormed(metamodel) && g.Valid() && TypedBy(metamodel, g.nodes)
      requires x in g.ids && x in path && t in g.ids
      requires name in g.nodes[x].values && ValueShrunk(g.nodes[x].values[name], nv) && RefersWithin(nv, g.ids)
      modifies g
      ensures g.Valid() && TypedBy(metamodel, g.nodes)
      ensures Shrunk(old(g.nodes), g.nodes)
      ensures forall y | y in path && y != x && y in g.ids :: g.nodes[y] == old(g.nodes)[y]
      ensures g.nodes[x] == if removed then WithValue(old(g.nodes)[x], name, nv) else old(g.nodes)[x]
      ensures out.Fail? ==> ShrinkError(out.error) && !removed
      ensures NoMappedSuperclassElements(metamodel) ==> out != Fail(UnexpectedPersistenceType)
      ensures ToManyShaped(metamodel, old(g.nodes)) ==> out != Fail(ClassCast)
      ensures out.Pass? ==> (removed <==> !IsValid(metamodel, g.nodes, t))
      ensures (g.nodes, out, removed) == ShrunkTarget(metamodel, g.ids, old(g.nodes), path, x, name, t, nv)
      decreases g.ids - path, 1
    {
      ghost var start := g.nodes;
      removed := false;
      out := Shrink0(g, Some(t), path);
      ghost var mid := g.nodes;
      assert (mid, out) == Shrunk0(metamodel, g.ids, start, path, t);
      assert mid[x] == start[x];
      if out.Fail? {
        return;
      }
      removed := RemoveIfInvalid(g, x, name, t, nv);
      ShrunkTrans(start, mid, g.nodes);
      ShapedStable(metamodel, start, mid);
    }

    /**
     * The test after the descent: `isValid(t)` fails iff `t` is invalid, and
     * then `nv` is stored in attribute `name` of `x`.
     */
    method RemoveIfInvalid(g: Graph, x: NodeId, name: string, t: NodeId, nv: Value) returns (removed: bool)
      requires WellFormed(metamodel) && g.Valid() && TypedBy(metamodel, g.nodes)
      requires x in g.ids && t in g.ids
      requires name in g.nodes[x].values && ValueShrunk(g.nodes[x].values[name], nv) && RefersWithin(nv, g.ids)
      modifies g
      ensures g.Valid() && TypedBy(metamodel, g.nodes)
      ensures removed <==> !IsValid(metamodel, old(g.nodes), t)
      ensures g.nodes == if removed then old(g.nodes)[x := WithValue(old(g.nodes)[x], name, nv)] else old(g.nodes)
      ensures forall y | y in old(g.nodes) && y != x :: g.nodes[y] == old(g.nodes)[y]
      ensures g.nodes[x] == if removed then WithValue(old(g.nodes)[x], name, nv) else old(g.nodes)[x]
      ensures Shrunk(old(g.nodes), g.nodes)
      ensures removed <==> !IsValid(metamodel, g.nodes, t)
    {
      removed := false;
      ValidIffShallow(metamodel, g.nodes, t);
      if !IsValidNode(metamodel, g.nodes, t) {
        ghost var before := g.nodes;
        ShrunkBySet(before, x, name, nv);
        g.SetValue(x, name, nv);
        ValidAntitone(metamodel, before, g.nodes, t);
        removed := true;
      }
    }

    /**
     * A to-one or embedded attribute: shrink the target, then null the
     * attribute if the target is invalid (`isValid(attribute, value)` of a
     * set non-basic value is the validity of the target).
     */
    method ShrinkSingular(g: Graph, x: NodeId, a: Attribute, path: set<NodeId>) returns (out: Outcome<JpaError>)
      requires WellFormed(metamodel) && g.Valid() && TypedBy(metamodel, g.nodes)
      requires x in g.ids && x in path && IsSingular(a) && a.kind != Basic
      modifies g
      ensures g.Valid() && TypedBy(metamodel, g.nodes)
      ensures Shrunk(old(g.nodes), g.nodes)
      ensures forall y | y in path && y != x && y in g.ids :: g.nodes[y] == old(g.nodes)[y]
      ensures forall name | name != a.name :: Read(g.nodes[x], name) == Read(old(g.nodes)[x], name)
      ensures out.Fail? ==> ShrinkError(out.error)
      ensures NoMappedSuperclassElements(metamodel) ==> out != Fail(UnexpectedPersistenceType)
      ensures ToManyShaped(metamodel, old(g.nodes)) ==> out != Fail(ClassCast)
      ensures out.Pass? ==> AttrShrunk(metamodel, a, Read(old(g.nodes)[x], a.name), Read(g.nodes[x], a.name), g.nodes)
      ensures (g.nodes, out) == ShrunkAttr(metamodel, g.ids, old(g.nodes), path, x, a)
      decreases g.ids - path, 3
    {
      var v := Read(g.nodes[x], a.name);
      ReadClosed(g.nodes, x, a.name);
      out := Pass;
      if v.Ref? {
        var removed;
        out, removed := ShrinkTarget(g, x, a.name, v.id, path, Null);
      }
    }

    /** A map attribute: shrink each value and remove its entry, in place, if the value is invalid. */
    method ShrinkMapValues(g: Graph, x: NodeId, a: Attribute, path: set<NodeId>) returns (out: Outcome<JpaError>)
      requires WellFormed(metamodel) && g.Valid() && TypedBy(metamodel, g.nodes)
      requires x in g.ids && x in path && ShrinksMap(a) && a in metamodel.types[g.nodes[x].typ].attributes
      modifies g
      ensures g.Valid() && Stepped(metamodel, old(g.nodes), g.nodes, path, x)
      ensures forall name | name != a.name :: Read(g.nodes[x], name) == Read(old(g.nodes)[x], name)
      ensures out.Fail? ==> ShrinkError(out.error)
      ensures NoMappedSuperclassElements(metamodel) ==> out != Fail(UnexpectedPersistenceType)
      ensures ToManyShaped(metamodel, old(g.nodes)) ==> out != Fail(ClassCast)
      ensures out.Pass? ==> AttrShrunk(metamodel, a, Read(old(g.nodes)[x], a.name), Read(g.nodes[x], a.name), g.nodes)
      ensures (g.nodes, out) == ShrunkAttr(metamodel, g.ids, old(g.nodes), path, x, a)
      decreases g.ids - path, 3
    {
      var v := Read(g.nodes[x], a.name);
      out := Pass;
      if v == Null {
        return;
      } else if !v.MapOf? {
        assert !NodeShaped(metamodel, g.nodes[x]);
        return Fail(ClassCast);
      }
      var es := v.entries;
      ghost var start := g.nodes;
      var kept: seq<(Value, NodeId)> := [];
      MapLoopStart(metamodel, start, x, a.name, path, es);
      var i := 0;
      while i < |es|
        invariant 0 <= i <= |es| && out == Pass
        invariant g.Valid() && MapLoop(metamodel, start, g.nodes, x, a.name, path, es, kept, i)
        invariant ShrunkAttr(metamodel, g.ids, start, path, x, a) == ShrunkEntries(metamodel, g.ids, g.nodes, path, x, a.name, kept, es[i..])
      {
        out, kept := ShrinkEntry(g, start, x, a.name, path, es, kept, i);
        if out.Fail? {
          return;
        }
        i := i + 1;
      }
      MapLoopDone(metamodel, a, start, g.nodes, x, path, es, kept);
    }

    /** One turn of the iteration over a map's values: the entry `es[i]` is kept or removed. */
    method ShrinkEntry(g: Graph, ghost start: map<NodeId, Node>, x: NodeId, name: string, path: set<NodeId>, es: seq<(Value, NodeId)>, kept: seq<(Value, NodeId)>, i: nat)
      returns (out: Outcome<JpaError>, kept': seq<(Value, NodeId)>)
      requires WellFormed(metamodel) && g.Valid() && i < |es|
      requires MapLoop(metamodel, start, g.nodes, x, name, path, es, kept, i)
      modifies g
      ensures g.Valid() && Stepped(metamodel, start, g.nodes, path, x)
      ensures forall other | other != name :: Read(g.nodes[x], other) == Read(start[x], other)
      ensures out.Fail? ==> ShrinkError(out.error)
      ensures NoMappedSuperclassElements(metamodel) ==> out != Fail(UnexpectedPersistenceType)
      ensures ToManyShaped(metamodel, start) ==> out != Fail(ClassCast)
      ensures out.Pass? ==> MapLoop(metamodel, start, g.nodes, x, name, path, es, kept', i + 1)
      ensures out.Fail? ==> (g.nodes, out) == ShrunkEntries(metamodel, g.ids, old(g.nodes), path, x, name, kept, es[i..])
      ensures out.Pass? ==> ShrunkEntries(metamodel, g.ids, old(g.nodes), path, x, name, kept, es[i..]) ==
                            ShrunkEntries(metamodel, g.ids, g.nodes, path, x, name, kept', es[i + 1..])
      decreases g.ids - path, 2
    {
      ghost var before := g.nodes;
      ShapedStable(metamodel, start, before);
      var nv := MapOf(kept + es[i + 1..]);
      assert es[i..][0] == es[i] && es[i..][1..] == es[i + 1..];
      DropStep(kept, es, i);
      SubseqEntriesWithin(kept + es[i + 1..], es, g.ids);
      SkipAt(kept, es, i);
      var removed;
      out, removed := ShrinkTarget(g, x, name, es[i].1, path, nv);
      SteppedTrans(metamodel, start, before, g.nodes, path, x);
      kept' := kept;
      if out.Fail? {
        return;
      }
      EntriesKeptStable(metamodel, before, g.nodes, es, kept, i);
      if removed {
        WithValueTwice(start[x], name, MapOf(kept + es[i..]), nv);
      } else {
        KeepStep(kept, es, i);
        kept' := kept + [es[i]];
      }
    }

    /** A collection of entities or embeddables: shrink each element and remove it, in place, if it is invalid. */
    method ShrinkCollection(g: Graph, x: NodeId, a: Attribute, path: set<NodeId>) returns (out: Outcome<JpaError>)
      requires WellFormed(metamodel) && g.Valid() && TypedBy(metamodel, g.nodes)
      requires x in g.ids && x in path && ShrinksCollection(metamodel, a) && a in metamodel.types[g.nodes[x].typ].attributes
      modifies g
      ensures g.Valid() && Stepped(metamodel, old(g.nodes), g.nodes, path, x)
      ensures forall name | name != a.name :: Read(g.nodes[x], name) == Read(old(g.nodes)[x], name)
      ensures out.Fail? ==> ShrinkError(out.error)
      ensures NoMappedSuperclassElements(metamodel) ==> out != Fail(UnexpectedPersistenceType)
      ensures ToManyShaped(metamodel, old(g.nodes)) ==> out != Fail(ClassCast)
      ensures out.Pass? ==> AttrShrunk(metamodel, a, Read(old(g.nodes)[x], a.name), Read(g.nodes[x], a.name), g.nodes)
      ensures (g.nodes, out) == ShrunkAttr(metamodel, g.ids, old(g.nodes), path, x, a)
      decreases g.ids - path, 3
    {
      var v := Read(g.nodes[x], a.name);
      out := Pass;
      if v == Null {
        return;
      } else if !v.Coll? {
        assert !NodeShaped(metamodel, g.nodes[x]);
        return Fail(ClassCast);
      }
      ReadClosed(g.nodes, x, a.name);
      var c, es := v.container, v.elems;
      ghost var start := g.nodes;
      var kept: seq<NodeId> := [];
      CollLoopStart(metamodel, start, x, a.name, path, c, es);
      var i := 0;
      while i < |es|
        invariant 0 <= i <= |es| && out == Pass
        invariant g.Valid() && CollLoop(metamodel, start, g.nodes, x, a.name, path, c, es, kept, i)
        invariant ShrunkAttr(metamodel, g.ids, start, path, x, a) == ShrunkElems(metamodel, g.ids, g.nodes, path, x, a.name, c, kept, es[i..])
      {
        out, kept := ShrinkElement(g, start, x, a.name, path, c, es, kept, i);
        if out.Fail? {
          return;
        }
        i := i + 1;
      }
      CollLoopDone(metamodel, a, start, g.nodes, x, path, c, es, kept);
    }

    /** One turn of the iteration over a collection: the element `es[i]` is kept or removed. */
    method ShrinkElement(g: Graph, ghost start: map<NodeId, Node>, x: NodeId, name: string, path: set<NodeId>, c: Container, es: seq<NodeId>, kept: seq<NodeId>, i: nat)
      returns (out: Outcome<JpaError>, kept': seq<NodeId>)
      requires WellFormed(metamodel) && g.Valid() && i < |es|
      requires CollLoop(metamodel, start, g.nodes, x, name, path, c, es, kept, i)
      modifies g
      ensures g.Valid() && Stepped(metamodel, start, g.nodes, path, x)
      ensures forall other | other != name :: Read(g.nodes[x], other) == Read(start[x], other)
      ensures out.Fail? ==> ShrinkError(out.error)
      ensures NoMappedSuperclassElements(metamodel) ==> out != Fail(UnexpectedPersistenceType)
      ensures ToManyShaped(metamodel, start) ==> out != Fail(ClassCast)
      ensures out.Pass? ==> CollLoop(metamodel, start, g.nodes, x, name, path, c, es, kept', i + 1)
      ensures out.Fail? ==> (g.nodes, out) == ShrunkElems(metamodel, g.ids, old(g.nodes), path, x, name, c, kept, es[i..])
      ensures out.Pass? ==> ShrunkElems(metamodel, g.ids, old(g.nodes), path, x, name, c, kept, es[i..]) ==
                            ShrunkElems(metamodel, g.ids, g.nodes, path, x, name, c, kept', es[i + 1..])
      decreases g.ids - path, 2
    {
      ghost var before := g.nodes;
      ShapedStable(metamodel, start, before);
      var nv := Coll(c, kept + es[i + 1..]);
      assert es[i..][0] == es[i] && es[i..][1..] == es[i + 1..];
      DropStep(kept, es, i);
      SubseqWithin(kept + es[i + 1..], es, g.ids);
      SkipAt(kept, es, i);
      var removed;
      out, removed := ShrinkTarget(g, x, name, es[i], path, nv);
      SteppedTrans(metamodel, start, before, g.nodes, path, x);
      kept' := kept;
      if out.Fail? {
        return;
      }
      KeptStable(metamodel, before, g.nodes, es, kept, i);
      if removed {
        WithValueTwice(start[x], name, Coll(c, kept + es[i..]), nv);
      } else {
        KeepStep(kept, es, i);
        kept' := kept + [es[i]];
      }
    }
  }
}
