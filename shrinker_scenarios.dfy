/**
 * The shrinker's unit tests, on a persistence unit holding `Order` and an
 * `OrderItem` whose many-to-one `order` is mandatory.
 */
module ShrinkerScenarios {
  import opened Wrappers
  import opened Jpa
  import opened EntityGraph
  import opened Shrinker
  import opened TestEntities

  const Shop := Metamodel(map["Order" := Order, "OrderItem" := ItemOf(false)])

  lemma ShopFacts()
    ensures WellFormed(Shop) && NoMappedSuperclassElements(Shop)
  {
    assert Shop.types.Keys == {"Order", "OrderItem"};
  }

  /** A graph of orders whose `orderItems` is null or a collection, and of order items, is in shape. */
  lemma ShopShaped(nodes: map<NodeId, Node>)
    requires forall x | x in nodes ::
      nodes[x].typ == "OrderItem" ||
      (nodes[x].typ == "Order" && (Read(nodes[x], "orderItems") == Null || Read(nodes[x], "orderItems").Coll?))
    ensures ToManyShaped(Shop, nodes)
  {
    forall x | x in nodes ensures NodeShaped(Shop, nodes[x]) {
      if nodes[x].typ == "Order" {
        assert Shop.types["Order"].attributes == [IdOf("Order"), Plural("orderItems", OneToMany, "OrderItem", "Order")];
      } else {
        assert Shop.types["OrderItem"] == ItemOf(false);
      }
    }
  }

  const UnsetOrder: map<NodeId, Node> := map[0 := Node("Order", map["orderItems" := Coll(HashSetOf, [])])]

  /** A new `Order` is valid as it stands, so shrinking it changes nothing and passes. */
  lemma UnsetOrderPasses()
    ensures ShrinkResult(Shop, {0}, UnsetOrder, 0) == (UnsetOrder, Pass)
  {
    var nodes := UnsetOrder;
    var attrs := Order.attributes;
    assert nodes[0].typ == "Order" && Shop.types["Order"] == Order;
    assert {} + {0} == {0};
    assert ShrinksCollection(Shop, attrs[1]);
    assert ShrunkAttr(Shop, {0}, nodes, {0}, 0, attrs[1]) == (nodes, Pass) by {
      assert Read(nodes[0], "orderItems") == Coll(HashSetOf, []);
    }
    assert ShrunkAttrs(Shop, {0}, nodes, {0}, 0, attrs[1..]) == (nodes, Pass) by {
      assert attrs[1..][1..] == [];
    }
    assert ShrunkAttr(Shop, {0}, nodes, {0}, 0, attrs[0]) == (nodes, Pass);
    assert Shrunk0(Shop, {0}, nodes, {}, 0) == (nodes, Pass);
    assert IsValid(Shop, nodes, 0);
  }

  /** A new `Order`: a null id and the empty `HashSet` its class initialises `orderItems` with; shrinking it succeeds. */
  method ShrinkUnsetOrder() returns (out: Outcome<JpaError>)
    ensures out == Pass
  {
    ShopFacts();
    var g := new Graph(UnsetOrder);
    assert g.ids == {0};
    var shrinker := new EntityGraphShrinker(Shop);
    out := shrinker.Shrink(g, 0);
    UnsetOrderPasses();
  }

  /** A new `OrderItem` whose mandatory `order` is null cannot be shrunk. */
  method ShrinkItemWithoutOrder() returns (out: Outcome<JpaError>)
    ensures out == Fail(CannotShrink)
  {
    ShopFacts();
    var g := new Graph(map[0 := Node("OrderItem", map[])]);
    var shrinker := new EntityGraphShrinker(Shop);
    out := shrinker.Shrink(g, 0);
    assert !IsValid(Shop, g.nodes, 0) by {
      assert g.nodes[0].typ == "OrderItem" && g.nodes[0].values.Keys == {};
      assert !AttrValid(ItemOf(false).attributes[1], Read(g.nodes[0], "order"));
    }
  }

  const ItemAndOrder: map<NodeId, Node> :=
    map[0 := Node("OrderItem", map["order" := Ref(1)]), 1 := Node("Order", map["orderItems" := Coll(HashSetOf, [])])]

  /** Shrinking the `Order` below the item changes nothing: its `orderItems` is empty. */
  lemma OrderUntouched()
    ensures Shrunk0(Shop, {0, 1}, ItemAndOrder, {0}, 1) == (ItemAndOrder, Pass)
  {
    var nodes := ItemAndOrder;
    var attrs := Order.attributes;
    assert nodes[1].typ == "Order" && Shop.types["Order"] == Order;
    assert {0} + {1} == {0, 1};
    assert ShrinksCollection(Shop, attrs[1]);
    assert ShrunkAttr(Shop, {0, 1}, nodes, {0, 1}, 1, attrs[1]) == (nodes, Pass) by {
      assert Read(nodes[1], "orderItems") == Coll(HashSetOf, []);
    }
    assert ShrunkAttrs(Shop, {0, 1}, nodes, {0, 1}, 1, attrs[1..]) == (nodes, Pass) by {
      assert attrs[1..][1..] == [];
    }
    assert ShrunkAttr(Shop, {0, 1}, nodes, {0, 1}, 1, attrs[0]) == (nodes, Pass);
  }

  /** The valid `Order` is kept, so shrinking leaves `ItemAndOrder` as it is and the item is valid. */
  lemma ItemKeepsOrder()
    ensures ShrinkResult(Shop, {0, 1}, ItemAndOrder, 0) == (ItemAndOrder, Pass)
  {
    var nodes := ItemAndOrder;
    var attrs := ItemOf(false).attributes;
    OrderUntouched();
    assert IsValid(Shop, nodes, 1) by {
      assert nodes[1].typ == "Order";
    }
    assert ShrunkTarget(Shop, {0, 1}, nodes, {0}, 0, "order", 1, Null) == (nodes, Pass, false);
    assert ShrunkAttr(Shop, {0, 1}, nodes, {0}, 0, attrs[1]) == (nodes, Pass) by {
      assert Read(nodes[0], "order") == Ref(1);
    }
    assert ShrunkAttrs(Shop, {0, 1}, nodes, {0}, 0, attrs[1..]) == (nodes, Pass) by {
      assert attrs[1..][1..] == [];
    }
    assert ShrunkAttr(Shop, {0, 1}, nodes, {0}, 0, attrs[0]) == (nodes, Pass);
    assert nodes[0].typ == "OrderItem" && Shop.types["OrderItem"] == ItemOf(false) && {} + {0} == {0};
    assert Shrunk0(Shop, {0, 1}, nodes, {}, 0) == (nodes, Pass);
    assert IsValid(Shop, nodes, 0) by {
      assert AttrValid(attrs[1], Read(nodes[0], "order"));
    }
  }

  /** An `OrderItem` whose `order` is set: shrinking succeeds and keeps the `order`. */
  method ShrinkItemWithOrder() returns (out: Outcome<JpaError>, order: Value)
    ensures out == Pass && order == Ref(1)
  {
    ShopFacts();
    var g := new Graph(ItemAndOrder);
    assert g.ids == {0, 1};
    var shrinker := new EntityGraphShrinker(Shop);
    out := shrinker.Shrink(g, 0);
    ItemKeepsOrder();
    order := Read(g.nodes[0], "order");
  }

  const OrderWithLooseItem: map<NodeId, Node> := map[0 := Node("Order", map["orderItems" := Coll(HashSetOf, [1])]), 1 := Node("OrderItem", map[])]

  /** Shrinking the loose item below the order changes nothing: its `order` is null. */
  lemma LooseItemUntouched()
    ensures Shrunk0(Shop, {0, 1}, OrderWithLooseItem, {0}, 1) == (OrderWithLooseItem, Pass)
  {
    var nodes := OrderWithLooseItem;
    var attrs := ItemOf(false).attributes;
    assert nodes[1].typ == "OrderItem" && Shop.types["OrderItem"] == ItemOf(false);
    assert {0} + {1} == {0, 1};
    assert ShrunkAttr(Shop, {0, 1}, nodes, {0, 1}, 1, attrs[1]) == (nodes, Pass) by {
      assert Read(nodes[1], "order") == Null;
    }
    assert ShrunkAttrs(Shop, {0, 1}, nodes, {0, 1}, 1, attrs[1..]) == (nodes, Pass) by {
      assert attrs[1..][1..] == [];
    }
    assert ShrunkAttr(Shop, {0, 1}, nodes, {0, 1}, 1, attrs[0]) == (nodes, Pass);
  }

  const OrderWithoutItems := OrderWithLooseItem[0 := Node("Order", map["orderItems" := Coll(HashSetOf, [])])]

  /** The iteration over `orderItems` removes the loose item. */
  lemma LooseItemDropped()
    ensures ShrunkElems(Shop, {0, 1}, OrderWithLooseItem, {0}, 0, "orderItems", HashSetOf, [], [1]) == (OrderWithoutItems, Pass)
  {
    var nodes := OrderWithLooseItem;
    LooseItemUntouched();
    assert !IsValid(Shop, nodes, 1) by {
      assert nodes[1].typ == "OrderItem" && Shop.types["OrderItem"] == ItemOf(false);
      assert !AttrValid(ItemOf(false).attributes[1], Read(nodes[1], "order"));
    }
    assert WithValue(nodes[0], "orderItems", Coll(HashSetOf, [])) == OrderWithoutItems[0] by {
      assert nodes[0].values["orderItems" := Coll(HashSetOf, [])] == map["orderItems" := Coll(HashSetOf, [])];
    }
    assert [1][1..] == [] && [] + [1][1..] == [];
    assert ShrunkTarget(Shop, {0, 1}, nodes, {0}, 0, "orderItems", 1, Coll(HashSetOf, [])) == (OrderWithoutItems, Pass, true);
    assert ShrunkElems(Shop, {0, 1}, OrderWithoutItems, {0}, 0, "orderItems", HashSetOf, [], []) == (OrderWithoutItems, Pass);
  }

  /**
   * An `Order` holding an `OrderItem` whose mandatory `order` is null: the
   * item is still invalid after its own shrinking, so it is removed from
   * `orderItems`, and the order is then valid.
   */
  lemma LooseItemRemoved()
    ensures ShrinkResult(Shop, {0, 1}, OrderWithLooseItem, 0) == (OrderWithoutItems, Pass)
  {
    var nodes := OrderWithLooseItem;
    var attrs := Order.attributes;
    assert ShrinksCollection(Shop, attrs[1]);
    LooseItemDropped();
    assert ShrunkAttr(Shop, {0, 1}, nodes, {0}, 0, attrs[1]) == (OrderWithoutItems, Pass) by {
      assert Read(nodes[0], "orderItems") == Coll(HashSetOf, [1]);
    }
    assert ShrunkAttrs(Shop, {0, 1}, nodes, {0}, 0, attrs[1..]) == (OrderWithoutItems, Pass) by {
      assert attrs[1..][1..] == [];
    }
    assert ShrunkAttr(Shop, {0, 1}, nodes, {0}, 0, attrs[0]) == (nodes, Pass);
    assert nodes[0].typ == "Order" && Shop.types["Order"] == Order && {} + {0} == {0};
    assert Shrunk0(Shop, {0, 1}, nodes, {}, 0) == (OrderWithoutItems, Pass);
    assert IsValid(Shop, OrderWithoutItems, 0) by {
      assert OrderWithoutItems[0].typ == "Order";
    }
  }

  /** Shrinking the order of `OrderWithLooseItem` succeeds and empties its `orderItems`. */
  method ShrinkOrderWithLooseItem() returns (out: Outcome<JpaError>, items: Value)
    ensures out == Pass && items == Coll(HashSetOf, [])
  {
    ShopFacts();
    var g := new Graph(OrderWithLooseItem);
    assert g.ids == {0, 1};
    var shrinker := new EntityGraphShrinker(Shop);
    out := shrinker.Shrink(g, 0);
    LooseItemRemoved();
    items := Read(g.nodes[0], "orderItems");
  }

  /** An `Order` whose `name` is mandatory, and a persistence unit holding it. */
  const NamedOrder := EntityWith([IdOf("Order"), Singular("name", Basic, false, false, "String", "Order")], IdOf("Order"))
  const NamedShop := Metamodel(map["Order" := NamedOrder, "OrderItem" := ItemOf(false)])

  const ItemAndNamelessOrder: map<NodeId, Node> := map[0 := Node("OrderItem", map["order" := Ref(1)]), 1 := Node("Order", map[])]
  const ItemWithoutOrder := ItemAndNamelessOrder[0 := Node("OrderItem", map["order" := Null])]

  /** Shrinking the nameless `Order` below the item changes nothing: it has no association. */
  lemma NamelessOrderUntouched()
    ensures Shrunk0(NamedShop, {0, 1}, ItemAndNamelessOrder, {0}, 1) == (ItemAndNamelessOrder, Pass)
  {
    var nodes := ItemAndNamelessOrder;
    var attrs := NamedOrder.attributes;
    assert nodes[1].typ == "Order" && NamedShop.types["Order"] == NamedOrder;
    assert {0} + {1} == {0, 1};
    assert ShrunkAttr(NamedShop, {0, 1}, nodes, {0, 1}, 1, attrs[1]) == (nodes, Pass);
    assert ShrunkAttrs(NamedShop, {0, 1}, nodes, {0, 1}, 1, attrs[1..]) == (nodes, Pass) by {
      assert attrs[1..][1..] == [];
    }
    assert ShrunkAttr(NamedShop, {0, 1}, nodes, {0, 1}, 1, attrs[0]) == (nodes, Pass);
  }

  /** The nameless `Order` is invalid, so the item's `order` is set to null. */
  lemma InvalidOrderNulled()
    ensures ShrunkAttr(NamedShop, {0, 1}, ItemAndNamelessOrder, {0}, 0, ItemOf(false).attributes[1]) == (ItemWithoutOrder, Pass)
  {
    var nodes := ItemAndNamelessOrder;
    NamelessOrderUntouched();
    assert !IsValid(NamedShop, nodes, 1) by {
      assert nodes[1].typ == "Order" && NamedShop.types["Order"] == NamedOrder;
      assert !AttrValid(NamedOrder.attributes[1], Read(nodes[1], "name"));
    }
    assert WithValue(nodes[0], "order", Null) == ItemWithoutOrder[0] by {
      assert nodes[0].values["order" := Null] == map["order" := Null];
    }
    assert ShrunkTarget(NamedShop, {0, 1}, nodes, {0}, 0, "order", 1, Null) == (ItemWithoutOrder, Pass, true);
    assert Read(nodes[0], "order") == Ref(1);
  }

  /**
   * An `OrderItem` whose `order` lacks its mandatory `name`: the `order` is
   * set to null, and then the item itself is invalid, so the shrink fails
   * with "Cannot shrink".
   */
  lemma InvalidOrderCannotShrink()
    ensures ShrinkResult(NamedShop, {0, 1}, ItemAndNamelessOrder, 0) == (ItemWithoutOrder, Fail(CannotShrink))
  {
    var nodes := ItemAndNamelessOrder;
    var attrs := ItemOf(false).attributes;
    InvalidOrderNulled();
    assert ShrunkAttrs(NamedShop, {0, 1}, nodes, {0}, 0, attrs[1..]) == (ItemWithoutOrder, Pass) by {
      assert attrs[1..][1..] == [];
      assert ShrunkAttrs(NamedShop, {0, 1}, ItemWithoutOrder, {0}, 0, []) == (ItemWithoutOrder, Pass);
    }
    assert ShrunkAttr(NamedShop, {0, 1}, nodes, {0}, 0, attrs[0]) == (nodes, Pass);
    assert nodes[0].typ == "OrderItem" && NamedShop.types["OrderItem"] == ItemOf(false) && {} + {0} == {0};
    assert Shrunk0(NamedShop, {0, 1}, nodes, {}, 0) == (ItemWithoutOrder, Pass);
    assert !IsValid(NamedShop, ItemWithoutOrder, 0) by {
      assert ItemWithoutOrder[0].typ == "OrderItem";
      assert !AttrValid(attrs[1], Read(ItemWithoutOrder[0], "order"));
    }
  }

  /** On a graph object: the shrink of that item fails with "Cannot shrink" and leaves its `order` null. */
  method ShrinkItemWithInvalidOrder() returns (out: Outcome<JpaError>, order: Value)
    ensures out == Fail(CannotShrink) && order == Null
  {
    assert WellFormed(NamedShop) by {
      assert NamedShop.types.Keys == {"Order", "OrderItem"};
    }
    var g := new Graph(ItemAndNamelessOrder);
    assert g.ids == {0, 1};
    var shrinker := new EntityGraphShrinker(NamedShop);
    out := shrinker.Shrink(g, 0);
    InvalidOrderCannotShrink();
    order := Read(g.nodes[0], "order");
  }
}
