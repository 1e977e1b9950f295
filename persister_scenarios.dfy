/**
 * The persister on the test entities: an `Order` whose one-sided
 * `orderItems` holds `OrderItem`s, an `OrderItem` whose many-to-one `order`
 * is set, and a `Category` whose many-to-one `parent` closes a cycle.
 */
module PersisterScenarios {
  import opened Wrappers
  import opened Jpa
  import opened EntityGraph
  import opened Persister
  import opened TestEntities

  const Item := ItemOf(false)
  const Category := EntityWith([IdOf("Category"), Singular("parent", ManyToOne, true, false, "Category", "Category")], IdOf("Category"))
  const Shop := Metamodel(map["Order" := Order, "OrderItem" := Item, "Category" := Category])

  const Empty := Store({}, [])

  /** Neither loop follows anything from an `OrderItem` without its `order`, nor from an `Order`'s `id`. */
  lemma Steps()
    ensures PersistsFirst(IdOf("Order")) == Success(false) && PersistsLater(IdOf("Order")) == Success(Skip)
    ensures PersistsFirst(IdOf("OrderItem")) == Success(false) && PersistsLater(IdOf("OrderItem")) == Success(Skip)
    ensures PersistsFirst(Order.attributes[1]) == Success(false) && PersistsLater(Order.attributes[1]) == Success(ToMany)
    ensures PersistsFirst(Item.attributes[1]) == Success(true) && PersistsLater(Item.attributes[1]) == Success(Skip)
  {
  }

  /** The first loop of an item follows only `order`, whose outcome is `r` (nothing when it is not a reference). */
  lemma ItemFirst(nodes: map<NodeId, Node>, st: Store, p: seq<NodeId>, y: NodeId, r: (Store, Outcome<JpaError>))
    requires Closed(nodes) && y in nodes && nodes[y].typ == "OrderItem" && |p| > 0 && p[|p| - 1] == y
    requires AttributesOfEntity(Shop, nodes, y, Item.attributes)
    requires Read(nodes[y], "order").Ref? ==> Read(nodes[y], "order").id in nodes && Persisted0(Shop, nodes, st, p, Read(nodes[y], "order").id) == r
    requires !Read(nodes[y], "order").Ref? ==> r == (st, Pass)
    requires r.1 == Pass
    ensures PersistedFirst(Shop, nodes, st, p, y, Item.attributes) == r
  {
    var a := Item.attributes;
    Steps();
    assert a[1..][1..] == [];
    assert PersistedFirst(Shop, nodes, r.0, p, y, a[1..][1..]) == r;
    assert PersistedFirst(Shop, nodes, st, p, y, a[1..]) == r;
  }

  /** The second loop of an item follows nothing. */
  lemma ItemLater(nodes: map<NodeId, Node>, st: Store, p: seq<NodeId>, y: NodeId)
    requires Closed(nodes) && y in nodes && nodes[y].typ == "OrderItem" && |p| > 0 && p[|p| - 1] == y
    requires AttributesOfEntity(Shop, nodes, y, Item.attributes)
    ensures PersistedLater(Shop, nodes, st, p, y, Item.attributes) == (st, Pass)
  {
    var a := Item.attributes;
    Steps();
    assert a[1..][1..] == [];
    assert PersistedLater(Shop, nodes, st, p, y, a[1..]) == (st, Pass);
  }

  /** An item whose `order` is not a reference, or persists without failing (outcome `r`), is persisted after it. */
  lemma ItemPersisted(nodes: map<NodeId, Node>, st: Store, path: seq<NodeId>, y: NodeId, r: (Store, Outcome<JpaError>))
    requires Closed(nodes) && y in nodes && nodes[y].typ == "OrderItem" && y !in st.contained && y !in path
    requires Read(nodes[y], "order").Ref? ==> Read(nodes[y], "order").id in nodes && Persisted0(Shop, nodes, st, path + [y], Read(nodes[y], "order").id) == r
    requires !Read(nodes[y], "order").Ref? ==> r == (st, Pass)
    requires r.1 == Pass
    ensures Persisted0(Shop, nodes, st, path, y) == (Persisted(r.0, y), Pass)
  {
    assert EntityTypeOf(Shop, nodes[y].typ) == Success(Item);
    ItemFirst(nodes, st, path + [y], y, r);
    ItemLater(nodes, Persisted(r.0, y), path + [y], y);
  }

  /** An item whose `order` is null: nothing to follow, so it is just persisted. */
  lemma LoneItem(nodes: map<NodeId, Node>, st: Store, path: seq<NodeId>, y: NodeId)
    requires Closed(nodes) && y in nodes && nodes[y].typ == "OrderItem" && Read(nodes[y], "order") == Null
    requires y !in st.contained && y !in path
    ensures Persisted0(Shop, nodes, st, path, y) == (Persisted(st, y), Pass)
  {
    ItemPersisted(nodes, st, path, y, (st, Pass));
  }

  /** The first loop of an order follows nothing. */
  lemma OrderFirst(nodes: map<NodeId, Node>, st: Store, p: seq<NodeId>, x: NodeId)
    requires Closed(nodes) && x in nodes && nodes[x].typ == "Order" && |p| > 0 && p[|p| - 1] == x
    requires AttributesOfEntity(Shop, nodes, x, Order.attributes)
    ensures PersistedFirst(Shop, nodes, st, p, x, Order.attributes) == (st, Pass)
  {
    var a := Order.attributes;
    Steps();
    assert a[1..][1..] == [];
    assert PersistedFirst(Shop, nodes, st, p, x, a[1..]) == (st, Pass);
  }

  /** An order's `orderItems` are followed from it. */
  lemma OrderFollowsItems(nodes: map<NodeId, Node>, x: NodeId, ys: seq<NodeId>)
    requires Closed(nodes) && x in nodes && nodes[x].typ == "Order" && Read(nodes[x], "orderItems") == Coll(HashSetOf, ys)
    ensures forall i | 0 <= i < |ys| :: ys[i] in nodes && Follows(Shop, nodes, x, ys[i])
  {
    var a := Order.attributes;
    assert EntityTypeOf(Shop, nodes[x].typ) == Success(Order);
    ReadClosed(nodes, x, "orderItems");
    forall i | 0 <= i < |ys| ensures Follows(Shop, nodes, x, ys[i]) {
      assert Leads(a[1], nodes[x], ys[i]) && a[1] in a;
    }
  }

  /** The second loop of an order persists its items. */
  lemma OrderLater(nodes: map<NodeId, Node>, st: Store, p: seq<NodeId>, x: NodeId, ys: seq<NodeId>)
    requires Closed(nodes) && x in nodes && nodes[x].typ == "Order" && Read(nodes[x], "orderItems") == Coll(HashSetOf, ys)
    requires |p| > 0 && p[|p| - 1] == x && AttributesOfEntity(Shop, nodes, x, Order.attributes)
    requires forall i | 0 <= i < |ys| :: ys[i] in nodes && Follows(Shop, nodes, x, ys[i])
    ensures PersistedLater(Shop, nodes, st, p, x, Order.attributes) == PersistedAll(Shop, nodes, st, p, ys)
  {
    var a := Order.attributes;
    Steps();
    assert a[1..][1..] == [];
    var r := PersistedAll(Shop, nodes, st, p, ys);
    assert PersistedLaterOne(Shop, nodes, st, p, x, a[1..], ToMany) == r;
    if r.1 == Pass {
      assert PersistedLater(Shop, nodes, r.0, p, x, a[1..][1..]) == r;
    }
    assert PersistedLater(Shop, nodes, st, p, x, a[1..]) == r;
  }

  /** An order that is not managed and not on the path is persisted, then its items. */
  lemma OrderPersisted(nodes: map<NodeId, Node>, st: Store, path: seq<NodeId>, x: NodeId, ys: seq<NodeId>)
    requires Closed(nodes) && x in nodes && nodes[x].typ == "Order" && Read(nodes[x], "orderItems") == Coll(HashSetOf, ys)
    requires x !in st.contained && x !in path
    requires forall i | 0 <= i < |ys| :: ys[i] in nodes && Follows(Shop, nodes, x, ys[i])
    ensures Persisted0(Shop, nodes, st, path, x) == PersistedAll(Shop, nodes, Persisted(st, x), path + [x], ys)
  {
    assert EntityTypeOf(Shop, nodes[x].typ) == Success(Order);
    OrderFirst(nodes, st, path + [x], x);
    OrderLater(nodes, Persisted(st, x), path + [x], x, ys);
  }

  /** A collection holding one item without an `order`, not on the path: the item is persisted. */
  lemma OneItem(nodes: map<NodeId, Node>, st: Store, p: seq<NodeId>, y: NodeId)
    requires Closed(nodes) && y in nodes && nodes[y].typ == "OrderItem" && Read(nodes[y], "order") == Null
    requires |p| > 0 && Follows(Shop, nodes, p[|p| - 1], y)
    requires y !in st.contained && y !in p
    ensures PersistedAll(Shop, nodes, st, p, [y]) == (Persisted(st, y), Pass)
  {
    LoneItem(nodes, st, p, y);
    assert [y][1..] == [];
  }

  /** A collection whose first element, not on the path, persists without failing into `st1`: the rest follows from `st1`. */
  lemma NextItem(nodes: map<NodeId, Node>, st: Store, p: seq<NodeId>, ys: seq<NodeId>, st1: Store)
    requires Closed(nodes) && (forall i | 0 <= i < |ys| :: ys[i] in nodes)
    requires |p| > 0 && forall i | 0 <= i < |ys| :: Follows(Shop, nodes, p[|p| - 1], ys[i])
    requires |ys| > 0 && ys[0] !in p && Persisted0(Shop, nodes, st, p, ys[0]) == (st1, Pass)
    ensures PersistedAll(Shop, nodes, st, p, ys) == PersistedAll(Shop, nodes, st1, p, ys[1..])
  {
  }

  /** Items `y1`, `y2` of order `x` (the end of the path), neither with an `order`, persisted in collection order. */
  lemma FlatItems(nodes: map<NodeId, Node>, st: Store, p: seq<NodeId>, x: NodeId, y1: NodeId, y2: NodeId)
    requires Closed(nodes) && x in nodes && nodes[x].typ == "Order" && Read(nodes[x], "orderItems") == Coll(HashSetOf, [y1, y2])
    requires y1 in nodes && nodes[y1].typ == "OrderItem" && Read(nodes[y1], "order") == Null
    requires y2 in nodes && nodes[y2].typ == "OrderItem" && Read(nodes[y2], "order") == Null
    requires |p| > 0 && p[|p| - 1] == x && y1 != y2
    requires y1 !in st.contained && y1 !in p && y2 !in st.contained && y2 !in p
    ensures forall i | 0 <= i < 2 :: [y1, y2][i] in nodes && Follows(Shop, nodes, x, [y1, y2][i])
    ensures PersistedAll(Shop, nodes, st, p, [y1, y2]) == (Persisted(Persisted(st, y1), y2), Pass)
  {
    OrderFollowsItems(nodes, x, [y1, y2]);
    assert Follows(Shop, nodes, x, y2) by { assert [y1, y2][1] == y2; }
    LoneItem(nodes, st, p, y1);
    NextItem(nodes, st, p, [y1, y2], Persisted(st, y1));
    assert [y1, y2][1..] == [y2];
    OneItem(nodes, Persisted(st, y1), p, y2);
  }

  /** Order `x` with items `y1`, `y2`, neither with an `order`: the order is persisted, then its items in collection order. */
  lemma FlatOrder(nodes: map<NodeId, Node>, st: Store, path: seq<NodeId>, x: NodeId, y1: NodeId, y2: NodeId)
    requires Closed(nodes) && x in nodes && nodes[x].typ == "Order" && Read(nodes[x], "orderItems") == Coll(HashSetOf, [y1, y2])
    requires y1 in nodes && nodes[y1].typ == "OrderItem" && Read(nodes[y1], "order") == Null
    requires y2 in nodes && nodes[y2].typ == "OrderItem" && Read(nodes[y2], "order") == Null
    requires x != y1 && x != y2 && y1 != y2
    requires x !in st.contained && x !in path && y1 !in st.contained && y1 !in path && y2 !in st.contained && y2 !in path
    ensures Persisted0(Shop, nodes, st, path, x) == (Persisted(Persisted(Persisted(st, x), y1), y2), Pass)
  {
    FlatItems(nodes, Persisted(st, x), path + [x], x, y1, y2);
    OrderPersisted(nodes, st, path, x, [y1, y2]);
  }

  /** The store after persisting 0, 1 and 2 into an empty one. */
  lemma ThreeStores()
    ensures Persisted(Persisted(Persisted(Empty, 0), 1), 2) == Store({0, 1, 2}, [0, 1, 2])
  {
    assert Persisted(Empty, 0) == Store({0}, [0]);
    assert Persisted(Store({0}, [0]), 1) == Store({0, 1}, [0, 1]);
  }

  /** `testFlatOrder`: the order is persisted first, then its items, in order. */
  lemma FlatOrderFirst(nodes: map<NodeId, Node>)
    requires Closed(nodes) && 0 in nodes && nodes[0].typ == "Order" && Read(nodes[0], "orderItems") == Coll(HashSetOf, [1, 2])
    requires forall y | y in {1, 2} :: y in nodes && nodes[y].typ == "OrderItem" && Read(nodes[y], "order") == Null
    ensures Persisted0(Shop, nodes, Empty, [], 0) == (Store({0, 1, 2}, [0, 1, 2]), Pass)
  {
    FlatOrder(nodes, Empty, [], 0, 1, 2);
    ThreeStores();
  }

  /** Item `y` of order `x`, whose `order` is `x`: the order is persisted first, skips the item on the path, then the item follows. */
  lemma ItemUnderOrder(nodes: map<NodeId, Node>, st: Store, path: seq<NodeId>, x: NodeId, y: NodeId)
    requires Closed(nodes) && x in nodes && nodes[x].typ == "Order" && Read(nodes[x], "orderItems") == Coll(HashSetOf, [y])
    requires y in nodes && nodes[y].typ == "OrderItem" && Read(nodes[y], "order") == Ref(x)
    requires x != y && x !in st.contained && x !in path && y !in st.contained && y !in path
    ensures Persisted0(Shop, nodes, st, path, y) == (Persisted(Persisted(st, x), y), Pass)
  {
    var p := path + [y];
    OrderFollowsItems(nodes, x, [y]);
    OrderPersisted(nodes, st, p, x, [y]);
    var st1 := Persisted(st, x);
    assert PersistedAll(Shop, nodes, st1, p + [x], [y]) == (st1, Pass) by { assert [y][1..] == [] && y in p + [x]; }
    ItemPersisted(nodes, st, path, y, (st1, Pass));
  }

  /** The store after persisting 0 and 1 into an empty one. */
  lemma TwoStores()
    ensures Persisted(Persisted(Empty, 0), 1) == Store({0, 1}, [0, 1])
  {
    assert Persisted(Empty, 0) == Store({0}, [0]);
  }

  /** An item whose `order` holds it: the order is persisted before the item, and does not revisit it. */
  lemma ItemAfterOrder(nodes: map<NodeId, Node>)
    requires Closed(nodes) && 0 in nodes && nodes[0].typ == "Order" && Read(nodes[0], "orderItems") == Coll(HashSetOf, [1])
    requires 1 in nodes && nodes[1].typ == "OrderItem" && Read(nodes[1], "order") == Ref(0)
    ensures Persisted0(Shop, nodes, Empty, [], 1) == (Store({0, 1}, [0, 1]), Pass)
  {
    ItemUnderOrder(nodes, Empty, [], 0, 1);
    TwoStores();
  }

  /** A category's `parent` is followed in the first loop. */
  lemma ParentFirst()
    ensures PersistsFirst(Category.attributes[1]) == Success(true) && PersistsFirst(IdOf("Category")) == Success(false)
  {
  }

  /** A category whose `parent` fails to persist fails the same way in the first loop. */
  lemma ParentFails(nodes: map<NodeId, Node>, st: Store, path: seq<NodeId>, x: NodeId, y: NodeId, out: Outcome<JpaError>)
    requires Closed(nodes) && x in nodes && y in nodes && nodes[x].typ == "Category" && Read(nodes[x], "parent") == Ref(y)
    requires |path| > 0 && path[|path| - 1] == x && AttributesOfEntity(Shop, nodes, x, Category.attributes)
    requires Persisted0(Shop, nodes, st, path, y) == (st, out) && out.Fail?
    ensures PersistedFirst(Shop, nodes, st, path, x, Category.attributes) == (st, out)
  {
    var a := Category.attributes;
    ParentFirst();
    assert PersistedFirst(Shop, nodes, st, path, x, a[1..]) == (st, out);
  }

  /** A category whose `parent` fails to persist fails the same way. */
  lemma ParentPropagates(nodes: map<NodeId, Node>, st: Store, path: seq<NodeId>, x: NodeId, y: NodeId, out: Outcome<JpaError>)
    requires Closed(nodes) && x in nodes && y in nodes && nodes[x].typ == "Category" && Read(nodes[x], "parent") == Ref(y)
    requires x !in st.contained && x !in path
    requires Persisted0(Shop, nodes, st, path + [x], y) == (st, out) && out.Fail?
    ensures Persisted0(Shop, nodes, st, path, x) == (st, out)
  {
    assert EntityTypeOf(Shop, nodes[x].typ) == Success(Category);
    ParentFails(nodes, st, path + [x], x, y, out);
  }

  /** Categories 0 and 1, each the other's parent: persisting 0 reports the cycle 0, 1, 0. */
  lemma ParentCycle(nodes: map<NodeId, Node>)
    requires Closed(nodes) && 0 in nodes && 1 in nodes && nodes[0].typ == "Category" && nodes[1].typ == "Category"
    requires Read(nodes[0], "parent") == Ref(1) && Read(nodes[1], "parent") == Ref(0)
    ensures Persisted0(Shop, nodes, Empty, [], 0) == (Empty, Fail(CycleDetected([0, 1, 0])))
  {
    var cycle := Fail(CycleDetected([0, 1, 0]));
    assert [0] + [1] == [0, 1] && [0, 1] + [0] == [0, 1, 0] && [] + [0] == [0];
    assert Persisted0(Shop, nodes, Empty, [0, 1], 0) == (Empty, cycle);
    ParentPropagates(nodes, Empty, [0], 1, 0, cycle);
    ParentPropagates(nodes, Empty, [], 0, 1, cycle);
  }
}
