/**
 * EntityGraphPersister: a depth-first walk from a root entity that hands
 * every reachable entity to the `EntityManager` in an order the database
 * accepts: the entities a row refers to by a foreign key first, the entity
 * itself, then the entities that refer back to it. The walk is specified by
 * `Persisted0` and its helpers, which give the store and the outcome after
 * `persist0`; the class performs it on an `EntityStore`.
 */
module Persister {
  import opened Wrappers
  import opened Jpa
  import opened EntityGraph
  import opened MetamodelUtil

  /** What the model keeps of the `EntityManager`: the managed instances and the order of the `persist` calls. */
  datatype Store = Store(contained: set<NodeId>, log: seq<NodeId>)

  /** The store after `entityManager.persist(x)`. */
  function Persisted(st: Store, x: NodeId): (r: Store)
    ensures x in r.contained && |r.log| > 0 && r.log[|r.log| - 1] == x
  {
    Store(st.contained + {x}, st.log + [x])
  }

  function Elems(s: seq<NodeId>): set<NodeId> {
    set y | y in s
  }

  predicate NoDuplicates(s: seq<NodeId>) {
    forall i, j | 0 <= i < j < |s| :: s[i] != s[j]
  }

  /**
   * `after` is `before` with new `persist` calls appended: each for an
   * instance that was not managed, none twice, and the managed set grown by
   * exactly those.
   */
  predicate Grew(before: Store, after: Store) {
    |before.log| <= |after.log| && after.log[..|before.log|] == before.log &&
    NoDuplicates(after.log[|before.log|..]) &&
    (forall y | y in after.log[|before.log|..] :: y !in before.contained) &&
    after.contained == before.contained + Elems(after.log[|before.log|..])
  }

  lemma GrewTrans(a: Store, b: Store, c: Store)
    requires Grew(a, b) && Grew(b, c)
    ensures Grew(a, c)
  {
    var n, m := |a.log|, |b.log|;
    assert c.log[..m][..n] == c.log[..n];
    assert c.log[n..] == b.log[n..] + c.log[m..];
    forall i, j | 0 <= i < j < |c.log[n..]| ensures c.log[n..][i] != c.log[n..][j] {
      if i < m - n && j >= m - n {
        assert c.log[n..][i] in b.log[n..];
        assert c.log[n..][j] in c.log[m..];
      }
    }
  }

  lemma GrewPersisted(st: Store, x: NodeId)
    requires x !in st.contained
    ensures Grew(st, Persisted(st, x))
  {
    assert Persisted(st, x).log[|st.log|..] == [x];
  }

  /** The exceptions a persist can raise. */
  predicate PersistError(e: JpaError) {
    e.NotAnEntity? || e == IllegalArgument || e == ClassCast || e.CycleDetected?
  }

  /** `isOwnedSide`: the member names the owning side in `mappedBy`. */
  function IsOwnedSide(m: Member): (r: Result<bool, JpaError>)
    ensures r.Failure? <==> m.OtherMember?
    ensures r.Failure? ==> r.error == IllegalArgument
    ensures r.Success? ==> (r.value <==> exists name :: MappedByIs(m, name))
  {
    match ResolveMappedBy(m)
    case Failure(e) => Failure(e)
    case Success(mappedBy) =>
      assert mappedBy.Some? ==> MappedByIs(m, mappedBy.value);
      Success(mappedBy.Some?)
  }

  /**
   * The test of the first loop: an insertable many-to-one, or an insertable
   * one-to-one on the owning side, whose target is persisted first.
   */
  function PersistsFirst(a: Attribute): (r: Result<bool, JpaError>)
    ensures r.Failure? <==> a.kind == OneToOne && a.member.OtherMember?
    ensures r == Success(true) <==>
      IsInsertable(a) && (a.kind == ManyToOne || (a.kind == OneToOne && ResolveMappedBy(a.member) == Success(None)))
  {
    if a.kind == ManyToOne then Success(IsInsertable(a))
    else if a.kind == OneToOne then
      match IsOwnedSide(a.member)
      case Failure(e) => Failure(e)
      case Success(owned) => Success(!owned && IsInsertable(a))
    else Success(false)
  }

  /** What the second loop does with an attribute. */
  datatype Later = Skip | InverseOneToOne | ToMany

  /**
   * The test of the second loop: an insertable one-to-one on the owned side,
   * or an insertable one-to-many or many-to-many, whose targets are persisted
   * after the instance.
   */
  function PersistsLater(a: Attribute): (r: Result<Later, JpaError>)
    ensures r.Failure? <==> a.kind == OneToOne && a.member.OtherMember?
    ensures r == Success(InverseOneToOne) <==>
      a.kind == OneToOne && IsInsertable(a) && ResolveMappedBy(a.member).Success? && ResolveMappedBy(a.member).value.Some?
    ensures r == Success(ToMany) <==> a.kind in {OneToMany, ManyToMany} && IsInsertable(a)
  {
    if a.kind == OneToOne then
      match IsOwnedSide(a.member)
      case Failure(e) => Failure(e)
      case Success(owned) => Success(if owned && IsInsertable(a) then InverseOneToOne else Skip)
    else if a.kind in {OneToMany, ManyToMany} && IsInsertable(a) then Success(ToMany)
    else Success(Skip)
  }

  /** Every target the first loop follows from node `n` through `attrs` is in `s`. */
  predicate FirstTargetsIn(n: Node, attrs: seq<Attribute>, s: set<NodeId>) {
    forall a | a in attrs && PersistsFirst(a) == Success(true) && Read(n, a.name).Ref? :: Read(n, a.name).id in s
  }

  /** Every target the second loop follows from node `n` through `attrs`, other than those on `path`, is in `s`. */
  predicate LaterTargetsIn(n: Node, attrs: seq<Attribute>, path: seq<NodeId>, s: set<NodeId>) {
    forall a | a in attrs ::
      (PersistsLater(a) == Success(InverseOneToOne) && Read(n, a.name).Ref? && Read(n, a.name).id !in path ==>
         Read(n, a.name).id in s) &&
      (PersistsLater(a) == Success(ToMany) && Read(n, a.name).Coll? ==>
         forall y | y in Read(n, a.name).elems && y !in path :: y in s)
  }

  /** The walk goes from node `n` to `y` through attribute `a`, in one of its two loops. */
  predicate Leads(a: Attribute, n: Node, y: NodeId) {
    (PersistsFirst(a) == Success(true) && Read(n, a.name) == Ref(y)) ||
    (PersistsLater(a) == Success(InverseOneToOne) && Read(n, a.name) == Ref(y)) ||
    (PersistsLater(a) == Success(ToMany) && Read(n, a.name).Coll? && y in Read(n, a.name).elems)
  }

  /** The walk goes from `x` to `y` through some attribute of the entity type of `x`. */
  predicate Follows(mm: Metamodel, nodes: map<NodeId, Node>, x: NodeId, y: NodeId) {
    x in nodes && EntityTypeOf(mm, nodes[x].typ).Success? &&
    exists a | a in EntityTypeOf(mm, nodes[x].typ).value.attributes :: Leads(a, nodes[x], y)
  }

  /** Each step of `c` from position `j` on is one the walk takes. */
  predicate WalkFrom(mm: Metamodel, nodes: map<NodeId, Node>, c: seq<NodeId>, j: int) {
    forall i | 0 <= j <= i < |c| - 1 :: Follows(mm, nodes, c[i], c[i + 1])
  }

  /**
   * A `CycleDetected` chain: it extends `path`, the steps from position `j`
   * on are taken by the walk, and it ends at an instance already in it.
   */
  predicate Cycle(mm: Metamodel, nodes: map<NodeId, Node>, path: seq<NodeId>, c: seq<NodeId>, j: int) {
    |path| < |c| && c[..|path|] == path && c[|c| - 1] in c[..|c| - 1] && WalkFrom(mm, nodes, c, j)
  }

  /** What `persist0(y)` below `path` promises of a cycle it reports. */
  predicate CycleAt(mm: Metamodel, nodes: map<NodeId, Node>, path: seq<NodeId>, y: NodeId, out: Outcome<JpaError>) {
    out.Fail? && out.error.CycleDetected? ==> Cycle(mm, nodes, path, out.error.chain, |path|) && out.error.chain[|path|] == y
  }

  /** What a loop over the attributes of the last instance of `path` promises of a cycle it reports. */
  predicate CycleBelow(mm: Metamodel, nodes: map<NodeId, Node>, path: seq<NodeId>, out: Outcome<JpaError>) {
    out.Fail? && out.error.CycleDetected? ==> Cycle(mm, nodes, path, out.error.chain, |path| - 1)
  }

  /** A cycle reported by `persist0(y)` for a `y` the last instance of `path` leads to. */
  lemma CycleStep(mm: Metamodel, nodes: map<NodeId, Node>, path: seq<NodeId>, y: NodeId, out: Outcome<JpaError>)
    requires |path| > 0 && Follows(mm, nodes, path[|path| - 1], y) && CycleAt(mm, nodes, path, y, out)
    ensures CycleBelow(mm, nodes, path, out)
  {
    if out.Fail? && out.error.CycleDetected? {
      var c := out.error.chain;
      assert c[|path| - 1] == c[..|path|][|path| - 1];
    }
  }

  /** A cycle reported below `path + [x]` is one reported by `persist0(x)` below `path`. */
  lemma CyclePop(mm: Metamodel, nodes: map<NodeId, Node>, path: seq<NodeId>, x: NodeId, out: Outcome<JpaError>)
    requires CycleBelow(mm, nodes, path + [x], out)
    ensures CycleAt(mm, nodes, path, x, out)
  {
    if out.Fail? && out.error.CycleDetected? {
      var c := out.error.chain;
      assert c[..|path|] == c[..|path| + 1][..|path|];
      assert c[|path|] == c[..|path| + 1][|path|];
    }
  }

  lemma FollowsThrough(mm: Metamodel, nodes: map<NodeId, Node>, x: NodeId, attrs: seq<Attribute>, y: NodeId)
    requires AttributesOfEntity(mm, nodes, x, attrs) && |attrs| > 0 && Leads(attrs[0], nodes[x], y)
    ensures Follows(mm, nodes, x, y)
  {
    assert attrs[0] in attrs;
  }

  /** The attributes of the entity type of `x`, when it has one. */
  predicate AttributesOfEntity(mm: Metamodel, nodes: map<NodeId, Node>, x: NodeId, attrs: seq<Attribute>) {
    x in nodes && EntityTypeOf(mm, nodes[x].typ).Success? &&
    forall a | a in attrs :: a in EntityTypeOf(mm, nodes[x].typ).value.attributes
  }

  /** The instances of the graph not on the path: the walk's measure. */
  function Unvisited(nodes: map<NodeId, Node>, path: seq<NodeId>): set<NodeId> {
    nodes.Keys - Elems(path)
  }

  /**
   * The facts every part of the walk keeps: the store only grows, and the
   * instances it adds are not on the path.
   */
  predicate Walked(st: Store, path: seq<NodeId>, r: (Store, Outcome<JpaError>)) {
    Grew(st, r.0) && (forall y | y in r.0.log[|st.log|..] :: y !in path) &&
    (r.1.Fail? ==> PersistError(r.1.error))
  }

  /** A passing part of the walk followed by another keeps the facts. */
  lemma WalkedThen(st: Store, path: seq<NodeId>, st1: Store, r: (Store, Outcome<JpaError>))
    requires Walked(st, path, (st1, Pass)) && Walked(st1, path, r)
    ensures Walked(st, path, r)
  {
    GrewTrans(st, st1, r.0);
    assert r.0.log[|st.log|..] == st1.log[|st.log|..] + r.0.log[|st1.log|..];
  }

  /** Persisting `x` between two parts of the walk from `x`, with `x` pushed on the path. */
  lemma WalkedAround(st: Store, path: seq<NodeId>, x: NodeId, st1: Store, r: (Store, Outcome<JpaError>))
    requires x !in st.contained && x !in path
    requires Walked(st, path + [x], (st1, Pass)) && Walked(Persisted(st1, x), path + [x], r)
    ensures Walked(st, path, r)
  {
    var st2 := Persisted(st1, x);
    assert x !in st1.contained by {
      assert forall y | y in st1.log[|st.log|..] :: y in path + [x] ==> false;
    }
    WalkedOffPath(st, path, x, (st1, Pass));
    WalkedOffPath(st2, path, x, r);
    GrewPersisted(st1, x);
    assert st2.log[|st1.log|..] == [x];
    WalkedThen(st, path, st1, (st2, Pass));
    WalkedThen(st, path, st2, r);
  }

  lemma WalkedOffPath(st: Store, path: seq<NodeId>, x: NodeId, r: (Store, Outcome<JpaError>))
    requires Walked(st, path + [x], r)
    ensures Walked(st, path, r)
  {
  }

  lemma UnvisitedShrinks(nodes: map<NodeId, Node>, path: seq<NodeId>, x: NodeId)
    requires x in nodes && x !in path
    ensures Unvisited(nodes, path + [x]) < Unvisited(nodes, path)
  {
    assert x in Unvisited(nodes, path) && x !in Unvisited(nodes, path + [x]);
  }

  /**
   * `persist0(x)` with `path` as `visited`: a managed instance is left
   * alone; an instance already on the path closes a cycle; otherwise the
   * instances it refers to are persisted, then the instance, then the
   * instances that refer to it, with `x` pushed on the path.
   */
  function Persisted0(mm: Metamodel, nodes: map<NodeId, Node>, st: Store, path: seq<NodeId>, x: NodeId): (r: (Store, Outcome<JpaError>))
    requires Closed(nodes) && x in nodes
    ensures Walked(st, path, r)
    ensures r.1 == Pass ==> x in r.0.contained
    ensures CycleAt(mm, nodes, path, x, r.1)
    ensures x in st.contained ==> r == (st, Pass)
    ensures x !in st.contained && x in path ==> r == (st, Fail(CycleDetected(path + [x])))
    decreases Unvisited(nodes, path), 0, 0
  {
    if x in st.contained then (st, Pass)
    else if x in path then
      assert (path + [x])[..|path|] == path;
      (st, Fail(CycleDetected(path + [x])))
    else match EntityTypeOf(mm, nodes[x].typ)
      case Failure(e) => (st, Fail(e))
      case Success(t) =>
        UnvisitedShrinks(nodes, path, x);
        var (st1, out1) := PersistedFirst(mm, nodes, st, path + [x], x, t.attributes);
        if out1.Fail? then
          CyclePop(mm, nodes, path, x, out1);
          (st1, out1)
        else
          var r := PersistedLater(mm, nodes, Persisted(st1, x), path + [x], x, t.attributes);
          WalkedAround(st, path, x, st1, r);
          CyclePop(mm, nodes, path, x, r.1);
          r
  }

  /** The first loop over `attrs`: the target of each attribute that `PersistsFirst` picks, up to the first exception. */
  function PersistedFirst(mm: Metamodel, nodes: map<NodeId, Node>, st: Store, path: seq<NodeId>, x: NodeId, attrs: seq<Attribute>): (r: (Store, Outcome<JpaError>))
    requires Closed(nodes) && |path| > 0 && path[|path| - 1] == x && AttributesOfEntity(mm, nodes, x, attrs)
    ensures Walked(st, path, r)
    ensures r.1 == Pass ==> FirstTargetsIn(nodes[x], attrs, r.0.contained)
    ensures CycleBelow(mm, nodes, path, r.1)
    decreases Unvisited(nodes, path), 2, |attrs|
  {
    if |attrs| == 0 then (st, Pass)
    else match PersistsFirst(attrs[0])
      case Failure(e) => (st, Fail(e))
      case Success(follow) =>
        var v := Read(nodes[x], attrs[0].name);
        if !follow || !v.Ref? then PersistedFirst(mm, nodes, st, path, x, attrs[1..])
        else
          ReadClosed(nodes, x, attrs[0].name);
          var (st1, out1) := Persisted0(mm, nodes, st, path, v.id);
          if out1.Fail? then
            FollowsThrough(mm, nodes, x, attrs, v.id);
            CycleStep(mm, nodes, path, v.id, out1);
            (st1, out1)
          else
            var r := PersistedFirst(mm, nodes, st1, path, x, attrs[1..]);
            WalkedThen(st, path, st1, r);
            r
  }

  /** The second loop over `attrs`: the targets of each attribute that `PersistsLater` picks, up to the first exception. */
  function PersistedLater(mm: Metamodel, nodes: map<NodeId, Node>, st: Store, path: seq<NodeId>, x: NodeId, attrs: seq<Attribute>): (r: (Store, Outcome<JpaError>))
    requires Closed(nodes) && |path| > 0 && path[|path| - 1] == x && AttributesOfEntity(mm, nodes, x, attrs)
    ensures Walked(st, path, r)
    ensures r.1 == Pass ==> LaterTargetsIn(nodes[x], attrs, path, r.0.contained)
    ensures CycleBelow(mm, nodes, path, r.1)
    decreases Unvisited(nodes, path), 2, |attrs|
  {
    if |attrs| == 0 then (st, Pass)
    else match PersistsLater(attrs[0])
      case Failure(e) => (st, Fail(e))
      case Success(later) =>
        var (st1, out1) := PersistedLaterOne(mm, nodes, st, path, x, attrs, later);
        if out1.Fail? then (st1, out1)
        else
          var r := PersistedLater(mm, nodes, st1, path, x, attrs[1..]);
          WalkedThen(st, path, st1, r);
          r
  }

  /** The body of the second loop for `attrs[0]`, which `PersistsLater` classifies as `later`. */
  function PersistedLaterOne(mm: Metamodel, nodes: map<NodeId, Node>, st: Store, path: seq<NodeId>, x: NodeId, attrs: seq<Attribute>, later: Later): (r: (Store, Outcome<JpaError>))
    requires Closed(nodes) && |path| > 0 && path[|path| - 1] == x && AttributesOfEntity(mm, nodes, x, attrs)
    requires |attrs| > 0 && PersistsLater(attrs[0]) == Success(later)
    ensures Walked(st, path, r)
    ensures r.1 == Pass ==> LaterTargetsIn(nodes[x], attrs[..1], path, r.0.contained)
    ensures CycleBelow(mm, nodes, path, r.1)
    decreases Unvisited(nodes, path), 2, 0
  {
    var v := Read(nodes[x], attrs[0].name);
    ReadClosed(nodes, x, attrs[0].name);
    if later == InverseOneToOne && v.Ref? && v.id !in path then
      var r := Persisted0(mm, nodes, st, path, v.id);
      FollowsThrough(mm, nodes, x, attrs, v.id);
      CycleStep(mm, nodes, path, v.id, r.1);
      r
    else if later == ToMany && v.Coll? then
      assert forall i | 0 <= i < |v.elems| :: Follows(mm, nodes, x, v.elems[i]) by {
        forall i | 0 <= i < |v.elems| ensures Follows(mm, nodes, x, v.elems[i]) {
          FollowsThrough(mm, nodes, x, attrs, v.elems[i]);
        }
      }
      PersistedAll(mm, nodes, st, path, v.elems)
    else if later == ToMany && v != Null then (st, Fail(ClassCast))
    else (st, Pass)
  }

  /** The elements of a collection not on the path, each persisted in order, up to the first exception. */
  function PersistedAll(mm: Metamodel, nodes: map<NodeId, Node>, st: Store, path: seq<NodeId>, ys: seq<NodeId>): (r: (Store, Outcome<JpaError>))
    requires Closed(nodes) && forall i | 0 <= i < |ys| :: ys[i] in nodes
    requires |path| > 0 && forall i | 0 <= i < |ys| :: Follows(mm, nodes, path[|path| - 1], ys[i])
    ensures Walked(st, path, r)
    ensures r.1 == Pass ==> forall y | y in ys && y !in path :: y in r.0.contained
    ensures CycleBelow(mm, nodes, path, r.1)
    decreases Unvisited(nodes, path), 1, |ys|
  {
    if |ys| == 0 then (st, Pass)
    else
      var (st1, out1) := if ys[0] in path then (st, Pass) else Persisted0(mm, nodes, st, path, ys[0]);
      if out1.Fail? then
        CycleStep(mm, nodes, path, ys[0], out1);
        (st1, out1)
      else
        var r := PersistedAll(mm, nodes, st1, path, ys[1..]);
        WalkedThen(st, path, st1, r);
        r
  }

  /**
   * The order `persist0` promises: when it passes for an instance `x` that
   * was not managed, `x` is persisted, and every instance `x` refers to
   * through an insertable many-to-one or owning one-to-one is managed by
   * then.
   */
  lemma ReferencedFirst(mm: Metamodel, nodes: map<NodeId, Node>, st: Store, path: seq<NodeId>, x: NodeId)
    requires Closed(nodes) && x in nodes && x !in st.contained
    requires Persisted0(mm, nodes, st, path, x).1 == Pass
    ensures EntityTypeOf(mm, nodes[x].typ).Success?
    ensures var r, attrs := Persisted0(mm, nodes, st, path, x).0, EntityTypeOf(mm, nodes[x].typ).value.attributes;
      exists k | |st.log| <= k < |r.log| :: r.log[k] == x &&
        FirstTargetsIn(nodes[x], attrs, st.contained + Elems(r.log[|st.log|..k]))
  {
    var attrs := EntityTypeOf(mm, nodes[x].typ).value.attributes;
    var st1 := PersistedFirst(mm, nodes, st, path + [x], x, attrs).0;
    var st2 := Persisted(st1, x);
    var r := PersistedLater(mm, nodes, st2, path + [x], x, attrs).0;
    assert r.log[..|st2.log|] == st2.log;
    var k := |st1.log|;
    assert r.log[k] == x;
    assert r.log[|st.log|..k] == st1.log[|st.log|..];
  }

  /**
   * The `EntityManager` as far as the persister uses it: `contains` and
   * `persist`. A persisted instance becomes managed, and every `persist`
   * call is logged in order.
   */
  class EntityStore {
    var contained: set<NodeId>
    var log: seq<NodeId>

    /** A store that already manages `managed`, and has logged no call. */
    constructor (managed: set<NodeId>)
      ensures contained == managed && log == []
    {
      contained := managed;
      log := [];
    }

    function State(): Store
      reads this
    {
      Store(contained, log)
    }

    predicate Contains(x: NodeId)
      reads this
    {
      x in contained
    }

    method Persist(x: NodeId)
      modifies this
      ensures State() == Persisted(old(State()), x)
    {
      contained := contained + {x};
      log := log + [x];
    }
  }

  class EntityGraphPersister {
    const entityManager: EntityStore
    const metamodel: Metamodel

    /** The metamodel is the one of the entity manager's persistence unit. */
    constructor (entityManager: EntityStore, metamodel: Metamodel)
      ensures this.entityManager == entityManager && this.metamodel == metamodel
    {
      this.entityManager := entityManager;
      this.metamodel := metamodel;
    }

    /** `persist`: the walk from `entity` with an empty path. */
    method Persist(g: Graph, entity: NodeId) returns (out: Outcome<JpaError>)
      requires g.Valid() && entity in g.ids
      modifies entityManager
      ensures (entityManager.State(), out) == Persisted0(metamodel, g.nodes, old(entityManager.State()), [], entity)
    {
      out := Persist0(g, entity, []);
    }

    /** `persist0`: `visited` is the path; `x` is pushed for both loops and popped on return. */
    method Persist0(g: Graph, x: NodeId, visited: seq<NodeId>) returns (out: Outcome<JpaError>)
      requires g.Valid() && x in g.ids
      modifies entityManager
      ensures (entityManager.State(), out) == Persisted0(metamodel, g.nodes, old(entityManager.State()), visited, x)
      decreases Unvisited(g.nodes, visited), 0
    {
      if entityManager.Contains(x) {
        return Pass;
      }
      if x in visited {
        return Fail(CycleDetected(visited + [x]));
      }
      var entityType := EntityTypeOf(metamodel, g.nodes[x].typ);
      if entityType.Failure? {
        return Fail(entityType.error);
      }
      var attrs := entityType.value.attributes;
      var path := visited + [x];
      UnvisitedShrinks(g.nodes, visited, x);
      ghost var st0 := entityManager.State();
      var i := 0;
      while i < |attrs|
        invariant 0 <= i <= |attrs|
        invariant PersistedFirst(metamodel, g.nodes, st0, path, x, attrs) == PersistedFirst(metamodel, g.nodes, entityManager.State(), path, x, attrs[i..])
        decreases |attrs| - i
      {
        assert attrs[i..][1..] == attrs[i + 1..];
        var follow := PersistsFirst(attrs[i]);
        if follow.Failure? {
          return Fail(follow.error);
        }
        var v := Read(g.nodes[x], attrs[i].name);
        if follow.value && v.Ref? {
          ReadClosed(g.nodes, x, attrs[i].name);
          out := Persist0(g, v.id, path);
          if out.Fail? {
            return;
          }
        }
        i := i + 1;
      }
      entityManager.Persist(x);
      ghost var st1 := entityManager.State();
      var j := 0;
      while j < |attrs|
        invariant 0 <= j <= |attrs|
        invariant PersistedLater(metamodel, g.nodes, st1, path, x, attrs) == PersistedLater(metamodel, g.nodes, entityManager.State(), path, x, attrs[j..])
        decreases |attrs| - j
      {
        assert attrs[j..][1..] == attrs[j + 1..];
        var later := PersistsLater(attrs[j]);
        if later.Failure? {
          return Fail(later.error);
        }
        out := PersistLater(g, x, attrs[j..], later.value, path);
        if out.Fail? {
          return;
        }
        j := j + 1;
      }
      return Pass;
    }

    /** The body of the second loop for `attrs[0]`. */
    method PersistLater(g: Graph, x: NodeId, attrs: seq<Attribute>, later: Later, path: seq<NodeId>) returns (out: Outcome<JpaError>)
      requires g.Valid() && |path| > 0 && path[|path| - 1] == x && AttributesOfEntity(metamodel, g.nodes, x, attrs)
      requires |attrs| > 0 && PersistsLater(attrs[0]) == Success(later)
      modifies entityManager
      ensures (entityManager.State(), out) == PersistedLaterOne(metamodel, g.nodes, old(entityManager.State()), path, x, attrs, later)
      decreases Unvisited(g.nodes, path), 2
    {
      var v := Read(g.nodes[x], attrs[0].name);
      ReadClosed(g.nodes, x, attrs[0].name);
      if later == InverseOneToOne && v.Ref? && v.id !in path {
        out := Persist0(g, v.id, path);
      } else if later == ToMany && v.Coll? {
        forall i | 0 <= i < |v.elems| ensures Follows(metamodel, g.nodes, x, v.elems[i]) {
          FollowsThrough(metamodel, g.nodes, x, attrs, v.elems[i]);
        }
        out := PersistAll(g, v.elems, path);
      } else if later == ToMany && v != Null {
        out := Fail(ClassCast);
      } else {
        out := Pass;
      }
    }

    /** The `forEach` over a collection's elements that are not on the path. */
    method PersistAll(g: Graph, ys: seq<NodeId>, path: seq<NodeId>) returns (out: Outcome<JpaError>)
      requires g.Valid() && forall i | 0 <= i < |ys| :: ys[i] in g.nodes
      requires |path| > 0 && forall i | 0 <= i < |ys| :: Follows(metamodel, g.nodes, path[|path| - 1], ys[i])
      modifies entityManager
      ensures (entityManager.State(), out) == PersistedAll(metamodel, g.nodes, old(entityManager.State()), path, ys)
      decreases Unvisited(g.nodes, path), 1
    {
      var k := 0;
      while k < |ys|
        invariant 0 <= k <= |ys|
        invariant PersistedAll(metamodel, g.nodes, old(entityManager.State()), path, ys) == PersistedAll(metamodel, g.nodes, entityManager.State(), path, ys[k..])
        decreases |ys| - k
      {
        assert ys[k..][1..] == ys[k + 1..];
        if ys[k] !in path {
          out := Persist0(g, ys[k], path);
          if out.Fail? {
            return;
          }
        }
        k := k + 1;
      }
      return Pass;
    }
  }
}
