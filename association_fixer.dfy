/**
 * EntityGraphAssociationFixer: a depth-first walk from a root entity that
 * makes both sides of every association agree. The walk is specified by the
 * functions `Fixed0` and its helpers, which give the graph and outcome after
 * `fixAssociations0`; the class performs it in place on a `Graph`.
 */
module AssociationFixer {
  import opened Wrappers
  import opened Jpa
  import opened EntityGraph
  import opened MetamodelUtil
  import opened AssociationRules

  /** The exceptions a fix can raise. */
  predicate FixError(e: JpaError) {
    e.NotAnEntity? || e == IllegalArgument || e.UnknownAttributeType? || e == ClassCast
  }

  /**
   * The instances `fixAssociations0` descends into after fixing attribute
   * `a`: the elements or map values of a to-many value, the referenced
   * instance of a to-one value.
   */
  function Targets(a: Attribute, v: Value): (r: Result<seq<NodeId>, JpaError>)
    ensures r.Failure? <==> IsPlural(a) && CastToMany(a, v).Failure?
    ensures r.Failure? ==> r.error == ClassCast
    ensures r.Success? && IsPlural(a) ==> r.value == Members(v)
    ensures r.Success? && IsSingular(a) ==> r.value == if v.Ref? then [v.id] else []
  {
    if IsPlural(a) then
      match CastToMany(a, v)
      case Failure(e) => Failure(e)
      case Success(w) => Success(Members(w))
    else if v.Ref? then Success([v.id])
    else Success([])
  }

  lemma TargetsWithin(a: Attribute, v: Value, ids: set<NodeId>)
    requires RefersWithin(v, ids) && Targets(a, v).Success?
    ensures forall y | y in Targets(a, v).value :: y in ids
  {
    var ys := Targets(a, v).value;
    forall y | y in ys ensures y in ids {
      if v.MapOf? {
        var i :| 0 <= i < |ys| && ys[i] == y;
        assert y == v.entries[i].1;
      }
    }
  }

  /** What a step of the walk may leave changed: attribute values only. */
  predicate SameShape(before: map<NodeId, Node>, after: map<NodeId, Node>) {
    after.Keys == before.Keys && forall y | y in before :: after[y].typ == before[y].typ
  }

  /**
   * `fixAssociations0(x)` with the instances of `path` on the stack: an
   * instance already on the path, or outside the graph, is skipped;
   * otherwise its entity type is looked up and its association attributes
   * are fixed in order.
   */
  function Fixed0(mm: Metamodel, ids: set<NodeId>, nodes: map<NodeId, Node>, path: set<NodeId>, x: NodeId): (r: (map<NodeId, Node>, Outcome<JpaError>))
    ensures SameShape(nodes, r.0)
    ensures r.1.Fail? ==> FixError(r.1.error)
    ensures x in path ==> r == (nodes, Pass)
    decreases ids - path, 4, 0
  {
    if x in path || x !in ids || x !in nodes then (nodes, Pass)
    else match EntityTypeOf(mm, nodes[x].typ)
      case Failure(e) => (nodes, Fail(e))
      case Success(t) => FixedAttrs(mm, ids, nodes, path, x, t.attributes)
  }

  /** The association attributes of `x` among `attrs` fixed in order, up to the first exception. */
  function FixedAttrs(mm: Metamodel, ids: set<NodeId>, nodes: map<NodeId, Node>, path: set<NodeId>, x: NodeId, attrs: seq<Attribute>): (r: (map<NodeId, Node>, Outcome<JpaError>))
    requires x in ids && x !in path
    ensures SameShape(nodes, r.0)
    ensures r.1.Fail? ==> FixError(r.1.error)
    decreases ids - path, 3, |attrs|
  {
    if |attrs| == 0 then (nodes, Pass)
    else if !attrs[0].isAssociation then FixedAttrs(mm, ids, nodes, path, x, attrs[1..])
    else
      var (next, out) := FixedAttr(mm, ids, nodes, path, x, attrs[0]);
      if out.Fail? then (next, out) else FixedAttrs(mm, ids, next, path, x, attrs[1..])
  }

  /**
   * One association attribute: the rule of its kind makes the other side
   * agree, then the walk descends into the instances the attribute now holds.
   */
  function FixedAttr(mm: Metamodel, ids: set<NodeId>, nodes: map<NodeId, Node>, path: set<NodeId>, x: NodeId, a: Attribute): (r: (map<NodeId, Node>, Outcome<JpaError>))
    requires x in ids && x !in path
    ensures SameShape(nodes, r.0)
    ensures r.1.Fail? ==> FixError(r.1.error)
    decreases ids - path, 2, 0
  {
    if x !in nodes then (nodes, Pass)
    else match RuleActions(mm, nodes, x, a)
      case Failure(e) => (nodes, Fail(e))
      case Success(acts) =>
        var (next, out) := Run(mm, nodes, acts);
        if out.Fail? then (next, out)
        else match Targets(a, Read(next[x], a.name))
          case Failure(e) => (next, Fail(e))
          case Success(ys) => VisitAll(mm, ids, next, path, x, ys)
  }

  /** `fixAssociations0` on each of `ys` in order, with `x` pushed on the path. */
  function VisitAll(mm: Metamodel, ids: set<NodeId>, nodes: map<NodeId, Node>, path: set<NodeId>, x: NodeId, ys: seq<NodeId>): (r: (map<NodeId, Node>, Outcome<JpaError>))
    requires x in ids && x !in path
    ensures SameShape(nodes, r.0)
    ensures r.1.Fail? ==> FixError(r.1.error)
    decreases ids - path, 1, |ys|
  {
    if |ys| == 0 then (nodes, Pass)
    else
      var (next, out) := Fixed0(mm, ids, nodes, path + {x}, ys[0]);
      if out.Fail? then (next, out) else VisitAll(mm, ids, next, path, x, ys[1..])
  }

  class EntityGraphAssociationFixer {
    const metamodel: Metamodel

    constructor (metamodel: Metamodel)
      ensures this.metamodel == metamodel
    {
      this.metamodel := metamodel;
    }

    /** `fixAssociations`: the walk from `root` with an empty path. */
    method FixAssociations(g: Graph, root: NodeId) returns (out: Outcome<JpaError>)
      requires g.Valid() && root in g.ids
      modifies g
      ensures g.Valid()
      ensures (g.nodes, out) == Fixed0(metamodel, g.ids, old(g.nodes), {}, root)
    {
      out := FixAssociations0(g, root, {});
    }

    /** `fixAssociations0`: `visited` is the path, pushed for the children and popped on return. */
    method FixAssociations0(g: Graph, x: NodeId, visited: set<NodeId>) returns (out: Outcome<JpaError>)
      requires g.Valid() && x in g.ids
      modifies g
      ensures g.Valid()
      ensures (g.nodes, out) == Fixed0(metamodel, g.ids, old(g.nodes), visited, x)
      decreases g.ids - visited, 3
    {
      if x in visited {
        return Pass;
      }
      var entityType := EntityTypeOf(metamodel, g.nodes[x].typ);
      if entityType.Failure? {
        return Fail(entityType.error);
      }
      var attrs := entityType.value.attributes;
      ghost var start := g.nodes;
      var i := 0;
      while i < |attrs|
        invariant 0 <= i <= |attrs| && g.Valid()
        invariant FixedAttrs(metamodel, g.ids, start, visited, x, attrs) == FixedAttrs(metamodel, g.ids, g.nodes, visited, x, attrs[i..])
        decreases |attrs| - i
      {
        assert attrs[i..][1..] == attrs[i + 1..];
        if attrs[i].isAssociation {
          out := FixAttribute(g, x, attrs[i], visited);
          if out.Fail? {
            return;
          }
        }
        i := i + 1;
      }
      return Pass;
    }

    /**
     * The body of the loop of `fixAssociations0` for one association
     * attribute: the `fix*Association` rule of its kind, whose lookups are
     * `RuleActions` and whose writes `ApplyActions` performs, then the descent.
     */
    method FixAttribute(g: Graph, x: NodeId, a: Attribute, visited: set<NodeId>) returns (out: Outcome<JpaError>)
      requires g.Valid() && x in g.ids && x !in visited
      modifies g
      ensures g.Valid()
      ensures (g.nodes, out) == FixedAttr(metamodel, g.ids, old(g.nodes), visited, x, a)
      decreases g.ids - visited, 2
    {
      var acts := RuleActions(metamodel, g.nodes, x, a);
      if acts.Failure? {
        return Fail(acts.error);
      }
      ActionTargetsWithin(metamodel, g.nodes, x, a);
      out := ApplyActions(g, acts.value, x);
      if out.Fail? {
        return;
      }
      var v := Read(g.nodes[x], a.name);
      var ys := Targets(a, v);
      if ys.Failure? {
        return Fail(ys.error);
      }
      ReadClosed(g.nodes, x, a.name);
      TargetsWithin(a, v, g.ids);
      out := VisitTargets(g, x, ys.value, visited);
    }

    /** The `forEach` over the instances an attribute holds, each visited with `x` on the path. */
    method VisitTargets(g: Graph, x: NodeId, ys: seq<NodeId>, visited: set<NodeId>) returns (out: Outcome<JpaError>)
      requires g.Valid() && x in g.ids && x !in visited
      requires forall y | y in ys :: y in g.ids
      modifies g
      ensures g.Valid()
      ensures (g.nodes, out) == VisitAll(metamodel, g.ids, old(g.nodes), visited, x, ys)
      decreases g.ids - visited, 1
    {
      ghost var start := g.nodes;
      var j := 0;
      while j < |ys|
        invariant 0 <= j <= |ys| && g.Valid()
        invariant VisitAll(metamodel, g.ids, start, visited, x, ys) == VisitAll(metamodel, g.ids, g.nodes, visited, x, ys[j..])
        decreases |ys| - j
      {
        assert ys[j..][1..] == ys[j + 1..];
        out := FixAssociations0(g, ys[j], visited + {x});
        if out.Fail? {
          return;
        }
        j := j + 1;
      }
      return Pass;
    }

    /** The writes of a rule, in order, up to the first exception. */
    method ApplyActions(g: Graph, acts: seq<Action>, s: NodeId) returns (out: Outcome<JpaError>)
      requires g.Valid() && s in g.ids
      requires forall act | act in acts :: Written(act) == s && act.target in g.ids
      modifies g
      ensures g.Valid()
      ensures (g.nodes, out) == Run(metamodel, old(g.nodes), acts)
    {
      var i := 0;
      while i < |acts|
        invariant 0 <= i <= |acts| && g.Valid()
        invariant Run(metamodel, old(g.nodes), acts) == Run(metamodel, g.nodes, acts[i..])
        decreases |acts| - i
      {
        assert acts[i] in acts;
        assert acts[i..][1..] == acts[i + 1..];
        out := Perform(g, acts[i], s);
        if out.Fail? {
          return;
        }
        i := i + 1;
      }
      return Pass;
    }

    /** One write: `setAttributeValue` of a reference, or `populateCollectionOrMap`. */
    method Perform(g: Graph, act: Action, s: NodeId) returns (out: Outcome<JpaError>)
      requires g.Valid() && s in g.ids && Written(act) == s && act.target in g.ids
      modifies g
      ensures g.Valid()
      ensures (g.nodes, out) == Performed(old(g.nodes), Step(metamodel, old(g.nodes), act))
    {
      match act
      case SetRef(t, name, v) =>
        g.SetValue(t, name, Ref(v));
        out := Pass;
      case AddTo(t, a, e) =>
        out := Populate(g, t, a, e);
    }

    /**
     * `populateCollectionOrMap`: the value is cast first, then a map gets
     * the entry under the extracted key, and a collection gets the element
     * unless it holds it, after a null collection has been initialised.
     */
    method Populate(g: Graph, t: NodeId, a: Attribute, s: NodeId) returns (out: Outcome<JpaError>)
      requires g.Valid() && t in g.ids && s in g.ids
      modifies g
      ensures g.Valid()
      ensures (g.nodes, out) == Performed(old(g.nodes), Populated(metamodel, old(g.nodes), t, a, s))
    {
      var v := Read(g.nodes[t], a.name);
      ReadClosed(g.nodes, t, a.name);
      if CastToMany(a, v).Failure? {
        return Fail(ClassCast);
      }
      if a.collection == MapCollection {
        var key := ExtractMapKey(metamodel, g.nodes, a, s);
        if key.Failure? {
          return Fail(key.error);
        }
        // A null map is replaced by a new map that is never stored, so the put is lost.
        if v.MapOf? && key.value != Null {
          g.SetValue(t, a.name, PutEntry(v, key.value, s));
        }
      } else {
        if v == Null {
          ghost var before := g.nodes;
          v := InitializeCollection(g, t, a);
          g.SetValue(t, a.name, Coll(v.container, [s]));
          WithValueTwice(before[t], a.name, v, Coll(v.container, [s]));
          assert g.nodes == before[t := WithValue(before[t], a.name, Coll(v.container, [s]))];
        } else if s !in v.elems {
          g.SetValue(t, a.name, Coll(v.container, v.elems + [s]));
        }
      }
      return Pass;
    }

    /**
     * `initializeCollection`: stores a new empty collection of the class the
     * collection type calls for. Its caller never passes a map attribute,
     * for which `NewCollection` throws.
     */
    method InitializeCollection(g: Graph, t: NodeId, a: Attribute) returns (c: Value)
      requires g.Valid() && t in g.ids && a.collection != MapCollection
      modifies g
      ensures g.Valid()
      ensures c == Coll(NewCollection(a.collection).value, [])
      ensures g.nodes == old(g.nodes)[t := WithValue(old(g.nodes)[t], a.name, c)]
    {
      c := Coll(NewCollection(a.collection).value, []);
      g.SetValue(t, a.name, c);
    }
  }

  /** Every write of a rule goes to an instance of the graph. */
  lemma ActionTargetsWithin(mm: Metamodel, nodes: map<NodeId, Node>, s: NodeId, a: Attribute)
    requires Closed(nodes) && s in nodes && RuleActions(mm, nodes, s, a).Success?
    ensures forall act | act in RuleActions(mm, nodes, s, a).value :: Written(act) == s && act.target in nodes
  {
    var v := Read(nodes[s], a.name);
    ReadClosed(nodes, s, a.name);
    forall y | y in Members(v) ensures y in nodes {
      if v.MapOf? {
        var i :| 0 <= i < |Members(v)| && Members(v)[i] == y;
        assert y == v.entries[i].1;
      }
    }
  }
}
