/**
 * The association fixer's unit tests, on the classes they use: an `Order`
 * with a set `orderItems` mapped by `orderForSet`, a map `orderItemsById`
 * mapped by `orderForMap`, a one-sided set `oneSidedOrderItems`, and a
 * one-to-one pair `previous` (mapped by `next`) and `next`; an `OrderItem`
 * with an id and the many-to-one attributes `orderForSet` and `orderForMap`.
 * Each metamodel below keeps the attributes the rule under test consults.
 */
module FixerScenarios {
  import opened Wrappers
  import opened Jpa
  import opened EntityGraph
  import opened MetamodelUtil
  import opened AssociationRules
  import opened AssociationFixer
  import opened TestEntities

  function OneToManyBy(name: string, ct: CollectionType, mappedBy: string): Attribute {
    Attribute(name, OneToMany, true, true, false, "java.util.Collection", "Order", "OrderItem", ct, "Long",
      Field(NoAnnotations.(oneToMany := Some(mappedBy))))
  }

  function OneToOneBy(name: string, mappedBy: string): Attribute {
    Attribute(name, OneToOne, true, true, false, "Order", "Order", "", AnyCollection, "", Field(NoAnnotations.(oneToOne := Some(mappedBy))))
  }

  const OrderItems := OneToManyBy("orderItems", SetCollection, "orderForSet")
  const OrderItemsById := OneToManyBy("orderItemsById", MapCollection, "orderForMap")
  const OneSidedOrderItems := OneToManyBy("oneSidedOrderItems", SetCollection, "")
  const Previous := OneToOneBy("previous", "next")
  const Next := OneToOneBy("next", "")
  const OrderForSet := Singular("orderForSet", ManyToOne, true, false, "Order", "OrderItem")
  const OrderForMap := Singular("orderForMap", ManyToOne, true, false, "Order", "OrderItem")

  /** `Order` with its one-to-one pair. */
  const LinkedOrder := EntityWith([Previous, Next], IdOf("Order"))
  const LinkedOrders := Metamodel(map["Order" := LinkedOrder])

  /** `Order` with its one-to-many attributes, and `OrderItem`. */
  const FixOrder := EntityWith([OrderItems, OrderItemsById, OneSidedOrderItems], IdOf("Order"))
  const FixItem := EntityWith([IdOf("OrderItem"), OrderForSet, OrderForMap], IdOf("OrderItem"))
  const Orders := Metamodel(map["Order" := FixOrder, "OrderItem" := FixItem])

  /** On `Order`, `orderForSet` maps `orderItems` and `orderForMap` maps `orderItemsById`. */
  lemma OrderMappedBys()
    ensures WithMappedBy(FixOrder.attributes, OneToMany, "orderForSet") == Success([OrderItems])
    ensures WithMappedBy(FixOrder.attributes, OneToMany, "orderForMap") == Success([OrderItemsById])
  {
    var a0, a1, a2 := OrderItems, OrderItemsById, OneSidedOrderItems;
    assert [a0, a1, a2][1..] == [a1, a2] && [a1, a2][1..] == [a2] && [a2][1..] == [];
    assert ResolveMappedBy(a0.member) == Success(Some("orderForSet"));
    assert ResolveMappedBy(a1.member) == Success(Some("orderForMap"));
    assert ResolveMappedBy(a2.member) == Success(None);
    assert WithMappedBy([a2], OneToMany, "orderForSet") == Success([]);
    assert WithMappedBy([a2], OneToMany, "orderForMap") == Success([]);
    assert WithMappedBy([a1, a2], OneToMany, "orderForSet") == Success([]);
    assert WithMappedBy([a1, a2], OneToMany, "orderForMap") == Success([a1]) by { assert [a1] + [] == [a1]; }
    assert WithMappedBy([a0, a1, a2], OneToMany, "orderForSet") == Success([a0]) by { assert [a0] + [] == [a0]; }
  }

  /** `order1.previous = order2`: fixing `previous` sets `order2.next` to `order1`. */
  lemma OneToOneOwnedSide()
    ensures var nodes := map[1 := Node("Order", map["previous" := Ref(2)]), 2 := Node("Order", map[])];
      var acts := OneToOneActions(LinkedOrders, nodes, 1, Previous);
      acts == Success([SetRef(2, "next", 1)]) && Read(Run(LinkedOrders, nodes, acts.value).0[2], "next") == Ref(1)
  {
    assert LinkedOrders.types["Order"] == LinkedOrder;
    assert WithName(LinkedOrder.attributes, OneToOne, "next") == Some(Next);
  }

  /** `order1.next = order2`: fixing `next` sets `order2.previous` to `order1`. */
  lemma OneToOneOwningSide()
    ensures var nodes := map[1 := Node("Order", map["next" := Ref(2)]), 2 := Node("Order", map[])];
      var acts := OneToOneActions(LinkedOrders, nodes, 1, Next);
      acts == Success([SetRef(2, "previous", 1)]) && Read(Run(LinkedOrders, nodes, acts.value).0[2], "previous") == Ref(1)
  {
    assert LinkedOrders.types["Order"] == LinkedOrder;
    assert [Previous, Next][1..] == [Next] && [Next][1..] == [];
    assert ResolveMappedBy(Previous.member) == Success(Some("next"));
    assert ResolveMappedBy(Next.member) == Success(None);
    assert WithMappedBy([Next], OneToOne, "next") == Success([]);
    assert WithMappedBy([Previous, Next], OneToOne, "next") == Success([Previous]) by { assert [Previous] + [] == [Previous]; }
    assert EntityTypeOf(LinkedOrders, "Order") == Success(LinkedOrder);
    assert Names([Previous]) == ["previous"];
    var acts := [SetRef(2, "previous", 1)];
    assert SetEach([2], ["previous"], 1) == acts by {
      assert SetInAll([2], "previous", 1) == acts by { assert [2][1..] == []; }
      assert ["previous"][1..] == [] && acts + [] == acts;
    }
  }

  /** A run of one write is that write. */
  lemma RunOne(mm: Metamodel, nodes: map<NodeId, Node>, act: Action)
    ensures Run(mm, nodes, [act]) == Performed(nodes, Step(mm, nodes, act))
  {
    assert [act][1..] == [];
  }

  const ItemForSet := Node("OrderItem", map["orderForSet" := Ref(3)])

  /** The many-to-one `orderForSet` of an item adds the item to `orderItems` of its order. */
  lemma OrderForSetActions(nodes: map<NodeId, Node>)
    requires 1 in nodes && nodes[1] == ItemForSet
    ensures ManyToOneActions(Orders, nodes, 1, OrderForSet) == Success([AddTo(3, OrderItems, 1)])
  {
    assert Orders.types["Order"] == FixOrder;
    OrderMappedBys();
    assert WithElementType([OrderItems], "OrderItem") == [OrderItems];
    assert ForManyToOne(FixOrder.attributes, OrderForSet) == Success([OrderItems]);
    assert EntityTypeOf(Orders, "Order") == Success(FixOrder);
    var acts := [AddTo(3, OrderItems, 1)];
    assert AddEach([3], [OrderItems], 1) == acts by {
      assert AddToAll([3], OrderItems, 1) == acts by { assert [3][1..] == []; }
      assert [OrderItems][1..] == [] && acts + [] == acts;
    }
  }

  /**
   * `orderItem1.orderForSet = order` where `order.orderItems` holds
   * `orderItem2`: the fix adds `orderItem1`, keeps `orderItem2`, and leaves
   * `orderItemsById`, mapped by the other many-to-one, alone.
   */
  lemma ManyToOneAddsToSet()
    ensures var nodes := map[1 := ItemForSet, 2 := Node("OrderItem", map[]), 3 := OrderWithItem];
      var after := Run(Orders, nodes, ManyToOneActions(Orders, nodes, 1, OrderForSet).value);
      after.1 == Pass && Read(after.0[3], "orderItems") == Coll(HashSetOf, [2, 1]) && Read(after.0[3], "orderItemsById") == MapOf([])
  {
    var nodes := map[1 := ItemForSet, 2 := Node("OrderItem", map[]), 3 := OrderWithItem];
    OrderForSetActions(nodes);
    RunOne(Orders, nodes, AddTo(3, OrderItems, 1));
    AddedToSet(nodes);
    var n := WithValue(OrderWithItem, "orderItems", Coll(HashSetOf, [2, 1]));
    assert Read(n, "orderItemsById") == Read(OrderWithItem, "orderItemsById");
  }

  const OrderWithItem := Node("Order", map["orderItems" := Coll(HashSetOf, [2]), "orderItemsById" := MapOf([])])

  /** Adding `orderItem1` to a set holding `orderItem2` appends it. */
  lemma AddedToSet(nodes: map<NodeId, Node>)
    requires 1 in nodes && 3 in nodes && nodes[3] == OrderWithItem
    ensures Populated(Orders, nodes, 3, OrderItems, 1) == Success(nodes[3 := WithValue(OrderWithItem, "orderItems", Coll(HashSetOf, [2, 1]))])
  {
    assert Read(OrderWithItem, "orderItems") == Coll(HashSetOf, [2]);
    assert Inserted(Coll(HashSetOf, [2]), SetCollection, 1) == Coll(HashSetOf, [2, 1]);
  }

  /**
   * `order1.orderItems` holds `orderItem`, whose `orderForSet` is `order2`:
   * the fix points it at `order1`.
   */
  lemma OneToManyOverwrites()
    ensures var nodes := map[1 := Node("Order", map["orderItems" := Coll(HashSetOf, [3])]), 2 := Node("Order", map[]),
                             3 := Node("OrderItem", map["orderForSet" := Ref(2)])];
      var acts := OneToManyActions(Orders, nodes, 1, OrderItems);
      acts == Success([SetRef(3, "orderForSet", 1)]) && Read(Run(Orders, nodes, acts.value).0[3], "orderForSet") == Ref(1)
  {
    var nodes := map[1 := Node("Order", map["orderItems" := Coll(HashSetOf, [3])]), 2 := Node("Order", map[]),
                     3 := Node("OrderItem", map["orderForSet" := Ref(2)])];
    OrderItemsOwner();
  }

  /** `orderItems` is mapped by `orderForSet`, the many-to-one of `OrderItem` that the fix sets on element 3. */
  lemma OrderItemsOwner()
    ensures Orders.types["OrderItem"] == FixItem
    ensures ResolveMappedBy(OrderItems.member) == Success(Some("orderForSet"))
    ensures WithName(FixItem.attributes, ManyToOne, "orderForSet") == Some(OrderForSet)
    ensures SetEach([3], ["orderForSet"], 1) == [SetRef(3, "orderForSet", 1)]
  {
    var f0, f1, f2 := IdOf("OrderItem"), OrderForSet, OrderForMap;
    assert [f0, f1, f2][1..] == [f1, f2];
    assert WithName([f1, f2], ManyToOne, "orderForSet") == Some(f1);
    assert SetInAll([3], "orderForSet", 1) == [SetRef(3, "orderForSet", 1)];
  }

  /** A one-to-many without `mappedBy` leaves its elements as they are. */
  lemma OneToManyOneSided()
    ensures var nodes := map[1 := Node("Order", map["oneSidedOrderItems" := Coll(HashSetOf, [3])]),
                             3 := Node("OrderItem", map["orderForSet" := Ref(2)])];
      OneToManyActions(Orders, nodes, 1, OneSidedOrderItems) == Success([])
  {
  }

  const ItemById := Node("OrderItem", map["id" := Scalar("7"), "orderForMap" := Ref(3)])

  /** The many-to-one `orderForMap` of an item puts the item into `orderItemsById` of its order. */
  lemma OrderForMapActions(nodes: map<NodeId, Node>)
    requires 1 in nodes && nodes[1] == ItemById
    ensures ManyToOneActions(Orders, nodes, 1, OrderForMap) == Success([AddTo(3, OrderItemsById, 1)])
  {
    assert Orders.types["Order"] == FixOrder;
    OrderMappedBys();
    assert WithElementType([OrderItemsById], "OrderItem") == [OrderItemsById];
    assert ForManyToOne(FixOrder.attributes, OrderForMap) == Success([OrderItemsById]);
    assert EntityTypeOf(Orders, "Order") == Success(FixOrder);
    var acts := [AddTo(3, OrderItemsById, 1)];
    assert AddEach([3], [OrderItemsById], 1) == acts by {
      assert AddToAll([3], OrderItemsById, 1) == acts by { assert [3][1..] == []; }
      assert [OrderItemsById][1..] == [] && acts + [] == acts;
    }
  }

  /** The item's key in `orderItemsById` is its id. */
  lemma ItemKey(nodes: map<NodeId, Node>)
    requires 1 in nodes && nodes[1] == ItemById
    ensures ExtractMapKey(Orders, nodes, OrderItemsById, 1) == Success(Scalar("7"))
  {
    assert Orders.types["OrderItem"] == FixItem;
  }

  /** `orderItem.orderForMap = order`: the item goes into `orderItemsById` under its id. */
  lemma ManyToOnePutsById()
    ensures var nodes := map[1 := ItemById, 3 := OrderWithMap];
      var after := Run(Orders, nodes, ManyToOneActions(Orders, nodes, 1, OrderForMap).value);
      after.1 == Pass && Read(after.0[3], "orderItemsById") == MapOf([(Scalar("7"), 1)])
  {
    var nodes := map[1 := ItemById, 3 := OrderWithMap];
    OrderForMapActions(nodes);
    RunOne(Orders, nodes, AddTo(3, OrderItemsById, 1));
    PutIntoMap(nodes);
  }

  const OrderWithMap := Node("Order", map["orderItemsById" := MapOf([])])

  /** Putting the item into an empty map gives the one entry under its id. */
  lemma PutIntoMap(nodes: map<NodeId, Node>)
    requires 1 in nodes && nodes[1] == ItemById && 3 in nodes && nodes[3] == OrderWithMap
    ensures Populated(Orders, nodes, 3, OrderItemsById, 1) ==
      Success(nodes[3 := WithValue(OrderWithMap, "orderItemsById", MapOf([(Scalar("7"), 1)]))])
  {
    ItemKey(nodes);
    assert Read(OrderWithMap, "orderItemsById") == MapOf([]);
    assert PutEntry(MapOf([]), Scalar("7"), 1) == MapOf([(Scalar("7"), 1)]);
  }

  /** The same, with `orderItemsById` null: the entry goes into a map that is never stored. */
  lemma ManyToOneNullMapStaysNull()
    ensures var nodes := map[1 := ItemById, 3 := Node("Order", map[])];
      var after := Run(Orders, nodes, ManyToOneActions(Orders, nodes, 1, OrderForMap).value);
      after == (nodes, Pass)
  {
    var nodes := map[1 := ItemById, 3 := Node("Order", map[])];
    OrderForMapActions(nodes);
    ItemKey(nodes);
    RunOne(Orders, nodes, AddTo(3, OrderItemsById, 1));
  }

  /** Populating a null set twice with the same item: one new `HashSet` holding the item once. */
  method PopulateNullSetTwice() returns (items: Value)
    ensures items == Coll(HashSetOf, [2])
  {
    var g := new Graph(map[1 := Node("Order", map[]), 2 := Node("OrderItem", map[])]);
    var fixer := new EntityGraphAssociationFixer(Orders);
    var out := fixer.Populate(g, 1, OrderItems, 2);
    out := fixer.Populate(g, 1, OrderItems, 2);
    items := Read(g.nodes[1], "orderItems");
  }

  // ---------------------------------------------------------------------
  // Map keys: `@MapKey(name = "key")` and `@MapKeyJoinColumn(name = "person_id")`.
  // ---------------------------------------------------------------------

  function HolderMap(holder: TypeName, value: TypeName, keyType: TypeName, ann: Annotations): Attribute {
    Attribute("map", OneToMany, true, true, false, "java.util.Map", holder, value, MapCollection, keyType, Field(ann))
  }

  /** `MapWithMapKeyHolder.map`, keyed by the `key` attribute of its values. */
  const KeyedMap := HolderMap("MapWithMapKeyHolder", "MapWithMapKeyValue", "String",
    NoAnnotations.(oneToMany := Some("holder"), mapKey := Some("key")))
  const KeyedValue := EntityWith([IdOf("MapWithMapKeyValue"), Singular("key", Basic, true, false, "String", "MapWithMapKeyValue"),
    Singular("holder", ManyToOne, true, false, "MapWithMapKeyHolder", "MapWithMapKeyValue")], IdOf("MapWithMapKeyValue"))
  const KeyedMaps := Metamodel(map["MapWithMapKeyHolder" := EntityWith([KeyedMap], IdOf("MapWithMapKeyHolder")),
                                   "MapWithMapKeyValue" := KeyedValue])

  const KeyedNodes: map<NodeId, Node> := map[1 := Node("MapWithMapKeyHolder", map["map" := MapOf([])]),
                          2 := Node("MapWithMapKeyValue", map["id" := Scalar("2"), "key" := Scalar("key1"), "holder" := Ref(1)])]

  /** The many-to-one `holder` of the value adds it to `map` of its holder. */
  lemma KeyedActions()
    ensures ManyToOneActions(KeyedMaps, KeyedNodes, 2, KeyedValue.attributes[2]) == Success([AddTo(1, KeyedMap, 2)])
  {
    assert KeyedMaps.types["MapWithMapKeyHolder"].attributes == [KeyedMap];
    assert WithMappedBy([KeyedMap], OneToMany, "holder") == Success([KeyedMap]) by {
      assert ResolveMappedBy(KeyedMap.member) == Success(Some("holder"));
      assert [KeyedMap][1..] == [] && [KeyedMap] + [] == [KeyedMap];
    }
    assert WithElementType([KeyedMap], "MapWithMapKeyValue") == [KeyedMap];
    assert AddEach([1], [KeyedMap], 2) == [AddTo(1, KeyedMap, 2)] by {
      assert AddToAll([1], KeyedMap, 2) == [AddTo(1, KeyedMap, 2)] by { assert [1][1..] == []; }
      assert [KeyedMap][1..] == [] && [AddTo(1, KeyedMap, 2)] + [] == [AddTo(1, KeyedMap, 2)];
    }
  }

  /** With `@MapKey(name = "key")` the value's key is its `key` attribute. */
  lemma KeyedKey()
    ensures ExtractMapKey(KeyedMaps, KeyedNodes, KeyedMap, 2) == Success(Scalar("key1"))
  {
    assert KeyedMaps.types["MapWithMapKeyValue"] == KeyedValue;
    assert MapKeyJoinColumnOf(KeyedMap).None? && MapKeyNameOf(KeyedMap) == Some("key");
    assert FindByName(KeyedValue.attributes, "key") == Some(KeyedValue.attributes[1]);
  }

  /** `mapValue1.holder = holder`: the fix of `holder` puts the value into `holder.map` under its `key`. */
  lemma ManyToOnePutsByMapKey()
    ensures var after := Run(KeyedMaps, KeyedNodes, ManyToOneActions(KeyedMaps, KeyedNodes, 2, KeyedValue.attributes[2]).value);
      after.1 == Pass && Read(after.0[1], "map") == MapOf([(Scalar("key1"), 2)])
  {
    KeyedActions();
    KeyedPut();
    RunOneAdd(KeyedMaps, KeyedNodes, 1, KeyedMap, 2, KeyedNodes[1 := WithValue(KeyedNodes[1], "map", MapOf([(Scalar("key1"), 2)]))]);
  }

  lemma KeyedPut()
    ensures Populated(KeyedMaps, KeyedNodes, 1, KeyedMap, 2) ==
      Success(KeyedNodes[1 := WithValue(KeyedNodes[1], "map", MapOf([(Scalar("key1"), 2)]))])
  {
    KeyedKey();
    assert Read(KeyedNodes[1], "map") == MapOf([]);
    PutIntoEmpty(KeyedMaps, KeyedNodes, 1, KeyedMap, 2, Scalar("key1"));
  }

  /** An entry whose key is known goes into an empty map as its only entry. */
  lemma PutIntoEmpty(mm: Metamodel, nodes: map<NodeId, Node>, t: NodeId, a: Attribute, s: NodeId, key: Value)
    requires t in nodes && s in nodes && a.collection == MapCollection && Read(nodes[t], a.name) == MapOf([])
    requires ExtractMapKey(mm, nodes, a, s) == Success(key) && key != Null
    ensures Populated(mm, nodes, t, a, s) == Success(nodes[t := WithValue(nodes[t], a.name, MapOf([(key, s)]))])
  {
    assert PutEntry(MapOf([]), key, s) == MapOf([(key, s)]);
  }

  /** `MapWithMapKeyJoinColumnHolder.map`, keyed by the value's attribute joined through column `person_id`. */
  const JoinedMap := HolderMap("MapWithMapKeyJoinColumnHolder", "MapWithMapKeyJoinColumnValue", "Person",
    NoAnnotations.(oneToMany := Some("holder"), mapKeyJoinColumn := Some("person_id")))
  const PersonRef := Singular("person", ManyToOne, true, false, "Person", "MapWithMapKeyJoinColumnValue")
    .(member := Field(NoAnnotations.(joinColumn := Some(JoinColumn("person_id", true)))))
  const JoinedValue := EntityWith([IdOf("MapWithMapKeyJoinColumnValue"),
    Singular("holder", ManyToOne, true, false, "MapWithMapKeyJoinColumnHolder", "MapWithMapKeyJoinColumnValue"), PersonRef],
    IdOf("MapWithMapKeyJoinColumnValue"))
  const JoinedMaps := Metamodel(map["MapWithMapKeyJoinColumnHolder" := EntityWith([JoinedMap], IdOf("MapWithMapKeyJoinColumnHolder")),
                                    "MapWithMapKeyJoinColumnValue" := JoinedValue,
                                    "Person" := EntityWith([IdOf("Person")], IdOf("Person"))])

  const JoinedNodes: map<NodeId, Node> := map[1 := Node("MapWithMapKeyJoinColumnHolder", map["map" := MapOf([])]),
                           2 := Node("MapWithMapKeyJoinColumnValue", map["holder" := Ref(1), "person" := Ref(3)]),
                           3 := Node("Person", map[])]

  /** The many-to-one `holder` of the value adds it to `map` of its holder. */
  lemma JoinedActions()
    ensures ManyToOneActions(JoinedMaps, JoinedNodes, 2, JoinedValue.attributes[1]) == Success([AddTo(1, JoinedMap, 2)])
  {
    assert JoinedMaps.types["MapWithMapKeyJoinColumnHolder"].attributes == [JoinedMap];
    assert WithMappedBy([JoinedMap], OneToMany, "holder") == Success([JoinedMap]) by {
      assert ResolveMappedBy(JoinedMap.member) == Success(Some("holder"));
      assert [JoinedMap][1..] == [] && [JoinedMap] + [] == [JoinedMap];
    }
    assert WithElementType([JoinedMap], "MapWithMapKeyJoinColumnValue") == [JoinedMap];
    assert AddEach([1], [JoinedMap], 2) == [AddTo(1, JoinedMap, 2)] by {
      assert AddToAll([1], JoinedMap, 2) == [AddTo(1, JoinedMap, 2)] by { assert [1][1..] == []; }
      assert [JoinedMap][1..] == [] && [AddTo(1, JoinedMap, 2)] + [] == [AddTo(1, JoinedMap, 2)];
    }
  }

  /** With `@MapKeyJoinColumn(name = "person_id")` the value's key is the attribute joined through `person_id`. */
  lemma JoinedKey()
    ensures ExtractMapKey(JoinedMaps, JoinedNodes, JoinedMap, 2) == Success(Ref(3))
  {
    assert JoinedMaps.types["MapWithMapKeyJoinColumnValue"] == JoinedValue;
    var attrs := JoinedValue.attributes;
    assert MapKeyJoinColumnOf(JoinedMap) == Some("person_id");
    assert MapKeyJoinColumnName(JoinedMap, "person_id") == "person_id";
    assert !JoinsKeyColumn(attrs[0], "person_id", "Person") && !JoinsKeyColumn(attrs[1], "person_id", "Person");
    assert JoinsKeyColumn(attrs[2], "person_id", "Person");
    assert FirstKeyColumn(attrs, "person_id", "Person") == Some(PersonRef) by {
      assert attrs[1..][1..] == [PersonRef];
    }
  }

  /** The same classes with `@MapKeyJoinColumn` and `@JoinColumn` both left unnamed. */
  const UnnamedJoinedMap := JoinedMap.(member := Field(NoAnnotations.(oneToMany := Some("holder"), mapKeyJoinColumn := Some(""))))
  const UnnamedPersonRef := PersonRef.(member := Field(NoAnnotations.(joinColumn := Some(JoinColumn("", true)))))
  const UnnamedJoinedValue := JoinedValue.(attributes := [JoinedValue.attributes[0], JoinedValue.attributes[1], UnnamedPersonRef])
  const UnnamedJoinedMaps := Metamodel(JoinedMaps.types["MapWithMapKeyJoinColumnValue" := UnnamedJoinedValue])

  /**
   * Both columns unnamed: the source's lookup of "" finds `person`, whose value
   * is `Ref(3)`, while no attribute joins `map_KEY`, so this model's key is null.
   */
  lemma UnnamedJoinedKey()
    ensures FirstKeyColumn(UnnamedJoinedValue.attributes, MapKeyJoinColumnNameAsWritten(UnnamedJoinedMap, ""), "Person") == Some(UnnamedPersonRef)
    ensures Read(JoinedNodes[2], UnnamedPersonRef.name) == Ref(3)
    ensures ExtractMapKey(UnnamedJoinedMaps, JoinedNodes, UnnamedJoinedMap, 2) == Success(Null)
  {
    var attrs := UnnamedJoinedValue.attributes;
    assert UnnamedJoinedMaps.types["MapWithMapKeyJoinColumnValue"] == UnnamedJoinedValue;
    assert MapKeyJoinColumnOf(UnnamedJoinedMap) == Some("");
    assert !JoinsKeyColumn(attrs[0], "", "Person") && !JoinsKeyColumn(attrs[1], "", "Person");
    assert JoinsKeyColumn(attrs[2], "", "Person");
    assert FirstKeyColumn(attrs, "", "Person") == Some(UnnamedPersonRef) by {
      assert attrs[1..][1..] == [UnnamedPersonRef];
    }
    assert forall j | j in attrs :: !JoinsKeyColumn(j, "map_KEY", "Person");
    ExtractMapKeyUnnamedColumn(UnnamedJoinedMaps, JoinedNodes, UnnamedJoinedMap, 2, UnnamedPersonRef);
  }

  /** `mapValue1.holder = holder`: the fix of `holder` puts the value into `holder.map` under its `person`. */
  lemma ManyToOnePutsByJoinColumn()
    ensures var after := Run(JoinedMaps, JoinedNodes, ManyToOneActions(JoinedMaps, JoinedNodes, 2, JoinedValue.attributes[1]).value);
      after.1 == Pass && Read(after.0[1], "map") == MapOf([(Ref(3), 2)])
  {
    JoinedActions();
    JoinedPut();
    RunOneAdd(JoinedMaps, JoinedNodes, 1, JoinedMap, 2, JoinedNodes[1 := WithValue(JoinedNodes[1], "map", MapOf([(Ref(3), 2)]))]);
  }

  lemma JoinedPut()
    ensures Populated(JoinedMaps, JoinedNodes, 1, JoinedMap, 2) ==
      Success(JoinedNodes[1 := WithValue(JoinedNodes[1], "map", MapOf([(Ref(3), 2)]))])
  {
    JoinedKey();
    assert Read(JoinedNodes[1], "map") == MapOf([]);
    PutIntoEmpty(JoinedMaps, JoinedNodes, 1, JoinedMap, 2, Ref(3));
  }


  // ---------------------------------------------------------------------
  // Two one-to-many sets mapped by the same name, with different element types.
  // ---------------------------------------------------------------------

  function HolderSet(name: string, element: TypeName): Attribute {
    Plural(name, OneToMany, element, "MultiOneToManyHolder").(member := Field(NoAnnotations.(oneToMany := Some("holder"))))
  }

  const Assoc1Set := HolderSet("assoc1Set", "MultiOneToManyHolderAssoc1")
  const Assoc2Set := HolderSet("assoc2Set", "MultiOneToManyHolderAssoc2")
  const Assoc1Holder := Singular("holder", ManyToOne, true, false, "MultiOneToManyHolder", "MultiOneToManyHolderAssoc1")
  const Assoc2Holder := Singular("holder", ManyToOne, true, false, "MultiOneToManyHolder", "MultiOneToManyHolderAssoc2")
  const MultiHolders := Metamodel(map[
    "MultiOneToManyHolder" := EntityWith([IdOf("MultiOneToManyHolder"), Assoc1Set, Assoc2Set], IdOf("MultiOneToManyHolder")),
    "MultiOneToManyHolderAssoc1" := EntityWith([IdOf("MultiOneToManyHolderAssoc1"), Assoc1Holder], IdOf("MultiOneToManyHolderAssoc1")),
    "MultiOneToManyHolderAssoc2" := EntityWith([IdOf("MultiOneToManyHolderAssoc2"), Assoc2Holder], IdOf("MultiOneToManyHolderAssoc2"))])

  const MultiNodes: map<NodeId, Node> := map[1 := Node("MultiOneToManyHolder", map["assoc1Set" := Coll(HashSetOf, [2]), "assoc2Set" := Coll(HashSetOf, [3])]),
                          2 := Node("MultiOneToManyHolderAssoc1", map["holder" := Ref(1)]),
                          3 := Node("MultiOneToManyHolderAssoc2", map["holder" := Ref(1)])]

  /**
   * The `holder` of an `Assoc1` names only `assoc1Set`: `assoc2Set` is mapped
   * by `holder` too, but holds another element type.
   */
  lemma Assoc1GoesToItsOwnSet()
    ensures ManyToOneActions(MultiHolders, MultiNodes, 2, Assoc1Holder) == Success([AddTo(1, Assoc1Set, 2)])
  {
    assert MultiHolders.types["MultiOneToManyHolder"].attributes == [IdOf("MultiOneToManyHolder"), Assoc1Set, Assoc2Set];
    MultiMappedBy();
    MultiElementType();
    AddEachSingle(1, Assoc1Set, 2);
  }

  /** One target and one attribute make one action. */
  lemma AddEachSingle(t: NodeId, e: Attribute, s: NodeId)
    ensures AddEach([t], [e], s) == [AddTo(t, e, s)]
  {
    assert AddToAll([t], e, s) == [AddTo(t, e, s)] by { assert [t][1..] == []; }
    assert [e][1..] == [] && [AddTo(t, e, s)] + [] == [AddTo(t, e, s)];
  }

  lemma MultiMappedBy()
    ensures WithMappedBy([IdOf("MultiOneToManyHolder"), Assoc1Set, Assoc2Set], OneToMany, "holder") == Success([Assoc1Set, Assoc2Set])
  {
    var attrs := [IdOf("MultiOneToManyHolder"), Assoc1Set, Assoc2Set];
    assert attrs[1..] == [Assoc1Set, Assoc2Set] && attrs[1..][1..] == [Assoc2Set] && attrs[1..][1..][1..] == [];
    assert ResolveMappedBy(Assoc1Set.member) == Success(Some("holder"));
    assert ResolveMappedBy(Assoc2Set.member) == Success(Some("holder"));
    assert WithMappedBy([Assoc2Set], OneToMany, "holder") == Success([Assoc2Set]) by {
      assert [Assoc2Set][1..] == [] && [Assoc2Set] + [] == [Assoc2Set];
    }
    assert WithMappedBy(attrs[1..], OneToMany, "holder") == Success([Assoc1Set] + [Assoc2Set]);
    assert [Assoc1Set] + [Assoc2Set] == [Assoc1Set, Assoc2Set];
  }

  lemma MultiElementType()
    ensures WithElementType([Assoc1Set, Assoc2Set], "MultiOneToManyHolderAssoc1") == [Assoc1Set]
  {
    assert [Assoc1Set, Assoc2Set][1..] == [Assoc2Set] && [Assoc2Set][1..] == [];
    assert Assoc1Set.elementType == "MultiOneToManyHolderAssoc1";
    assert Assoc2Set.elementType[25] == '2' != '1' == Assoc1Set.elementType[25];
    assert WithElementType([], "MultiOneToManyHolderAssoc1") == [];
    assert WithElementType([Assoc2Set], "MultiOneToManyHolderAssoc1") == [];
    assert [Assoc1Set] + [] == [Assoc1Set];
  }

  // ---------------------------------------------------------------------
  // Many-to-many: `Order.contacts` and `Order.contactsById` own the
  // association; `Person.orders` and `Person.ordersByIdOwnedByContacts` are
  // mapped by `contacts`, `Person.ordersByIdOwnedByContactsById` by `contactsById`.
  // ---------------------------------------------------------------------

  function ManyToManyBy(name: string, ct: CollectionType, decl: TypeName, element: TypeName, mappedBy: string): Attribute {
    Attribute(name, ManyToMany, true, true, false, if ct == MapCollection then "java.util.Map" else "java.util.Set",
      decl, element, ct, "Long", Field(NoAnnotations.(manyToMany := Some(mappedBy))))
  }

  const Contacts := ManyToManyBy("contacts", SetCollection, "Order", "Person", "")
  const ContactsById := ManyToManyBy("contactsById", MapCollection, "Order", "Person", "")
  const PersonOrders := ManyToManyBy("orders", SetCollection, "Person", "Order", "contacts")
  const OrdersOwnedByContacts := ManyToManyBy("ordersByIdOwnedByContacts", MapCollection, "Person", "Order", "contacts")
  const OrdersOwnedByContactsById := ManyToManyBy("ordersByIdOwnedByContactsById", MapCollection, "Person", "Order", "contactsById")
  const ContactOrder := EntityWith([IdOf("Order"), Contacts, ContactsById], IdOf("Order"))
  const ContactPerson := EntityWith([IdOf("Person"), PersonOrders, OrdersOwnedByContacts, OrdersOwnedByContactsById], IdOf("Person"))
  const Contacted := Metamodel(map["Order" := ContactOrder, "Person" := ContactPerson])

  /** The inverse sides mapped by `contacts` are `orders` and `ordersByIdOwnedByContacts`. */
  lemma MappedByContacts()
    ensures WithMappedBy(ContactPerson.attributes, ManyToMany, "contacts") == Success([PersonOrders, OrdersOwnedByContacts])
  {
    var rest := [PersonOrders, OrdersOwnedByContacts, OrdersOwnedByContactsById];
    MappedByContactsOrders();
    MappedBySkip(IdOf("Person"), rest, "contacts");
    assert ContactPerson.attributes == [IdOf("Person")] + rest by {
      assert ContactPerson.attributes == [IdOf("Person"), PersonOrders, OrdersOwnedByContacts, OrdersOwnedByContactsById];
    }
  }

  /** An attribute of another kind in front of a list leaves its mapped-by selection alone. */
  lemma MappedBySkip(a: Attribute, rest: seq<Attribute>, name: string)
    requires a.kind != ManyToMany
    ensures WithMappedBy([a] + rest, ManyToMany, name) == WithMappedBy(rest, ManyToMany, name)
  {
    assert ([a] + rest)[1..] == rest;
  }

  lemma MappedByContactsOrders()
    ensures WithMappedBy([PersonOrders, OrdersOwnedByContacts, OrdersOwnedByContactsById], ManyToMany, "contacts") ==
      Success([PersonOrders, OrdersOwnedByContacts])
  {
    var tail := [OrdersOwnedByContacts, OrdersOwnedByContactsById];
    MappedByContactsTail();
    MappedByCons(PersonOrders, tail, "contacts", [OrdersOwnedByContacts]);
    assert [PersonOrders] + tail == [PersonOrders, OrdersOwnedByContacts, OrdersOwnedByContactsById];
    assert [PersonOrders] + [OrdersOwnedByContacts] == [PersonOrders, OrdersOwnedByContacts];
  }

  lemma MappedByContactsTail()
    ensures WithMappedBy([OrdersOwnedByContacts, OrdersOwnedByContactsById], ManyToMany, "contacts") == Success([OrdersOwnedByContacts])
  {
    assert |"contactsById"| != |"contacts"|;
    assert WithMappedBy([], ManyToMany, "contacts") == Success([]);
    MappedByCons(OrdersOwnedByContactsById, [], "contacts", []);
    assert [OrdersOwnedByContactsById] + [] == [OrdersOwnedByContactsById];
    MappedByCons(OrdersOwnedByContacts, [OrdersOwnedByContactsById], "contacts", []);
    assert [OrdersOwnedByContacts] + [OrdersOwnedByContactsById] == [OrdersOwnedByContacts, OrdersOwnedByContactsById];
    assert [OrdersOwnedByContacts] + [] == [OrdersOwnedByContacts];
  }

  /** One more many-to-many attribute in front of a list whose mapped-by selection is known. */
  lemma MappedByCons(a: Attribute, rest: seq<Attribute>, name: string, found: seq<Attribute>)
    requires a.kind == ManyToMany && a.member.Field? && WithMappedBy(rest, ManyToMany, name) == Success(found)
    ensures WithMappedBy([a] + rest, ManyToMany, name) ==
      Success(if MappedByOf(a.member.annotations) == Some(name) then [a] + found else found)
  {
    assert ([a] + rest)[1..] == rest;
  }

  const OwningNodes: map<NodeId, Node> := map[1 := Node("Order", map["contacts" := Coll(HashSetOf, [3])]),
                           2 := Node("Order", map[]),
                           3 := Node("Person", map["orders" := Coll(HashSetOf, [2])])]

  /**
   * `order1.contacts` holds `person` (the owning side): the fix adds
   * `order1` to `person.orders` and to `person.ordersByIdOwnedByContacts`,
   * and not to `ordersByIdOwnedByContactsById`, mapped by the other attribute.
   */
  lemma OwningSideAddsToInverses()
    ensures ManyToManyActions(Contacted, OwningNodes, 1, Contacts) ==
      Success([AddTo(3, PersonOrders, 1), AddTo(3, OrdersOwnedByContacts, 1)])
  {
    assert ResolveMappedBy(Contacts.member) == Success(None);
    assert EntityTypeOf(Contacted, "Person") == Success(ContactPerson);
    MappedByContacts();
    OwningSetActions(Contacted, OwningNodes, 1, Contacts, [3], ContactPerson, [PersonOrders, OrdersOwnedByContacts]);
    AddEachPair(3, PersonOrders, OrdersOwnedByContacts, 1);
  }

  /** The owning side of a many-to-many set adds `s` to every inverse attribute, for every element. */
  lemma OwningSetActions(mm: Metamodel, nodes: map<NodeId, Node>, s: NodeId, a: Attribute, elems: seq<NodeId>,
                         endType: ManagedType, ends: seq<Attribute>)
    requires s in nodes && Read(nodes[s], a.name) == Coll(HashSetOf, elems) && a.collection == SetCollection
    requires ResolveMappedBy(a.member) == Success(None) && EntityTypeOf(mm, a.elementType) == Success(endType)
    requires WithMappedBy(endType.attributes, ManyToMany, a.name) == Success(ends)
    ensures ManyToManyActions(mm, nodes, s, a) == Success(AddEach(elems, ends, s))
  {
  }

  /** The inverse side of a many-to-many set adds `s` to the owning attribute of every element. */
  lemma InverseSetActions(mm: Metamodel, nodes: map<NodeId, Node>, s: NodeId, a: Attribute, elems: seq<NodeId>,
                          endType: ManagedType, owner: Attribute)
    requires s in nodes && Read(nodes[s], a.name) == Coll(HashSetOf, elems) && a.collection == SetCollection
    requires ResolveMappedBy(a.member) == Success(Some(owner.name)) && EntityTypeOf(mm, a.elementType) == Success(endType)
    requires WithName(endType.attributes, ManyToMany, owner.name) == Some(owner)
    ensures ManyToManyActions(mm, nodes, s, a) == Success(AddEach(elems, [owner], s))
  {
  }

  /** One target and two attributes make two actions, in the attributes' order. */
  lemma AddEachPair(t: NodeId, e1: Attribute, e2: Attribute, s: NodeId)
    ensures AddEach([t], [e1, e2], s) == [AddTo(t, e1, s), AddTo(t, e2, s)]
  {
    AddEachSingle(t, e2, s);
    assert AddToAll([t], e1, s) == [AddTo(t, e1, s)] by { assert [t][1..] == []; }
    assert [e1, e2][1..] == [e2];
    assert [AddTo(t, e1, s)] + [AddTo(t, e2, s)] == [AddTo(t, e1, s), AddTo(t, e2, s)];
  }

  const OwnedNodes: map<NodeId, Node> := map[1 := Node("Person", map["orders" := Coll(HashSetOf, [3])]),
                          2 := Node("Person", map[]),
                          3 := Node("Order", map["contacts" := Coll(HashSetOf, [2])])]

  /** `person1.orders` holds `order` (the inverse side, mapped by `contacts`): the fix adds `person1` to `order.contacts`. */
  lemma OwnedSideActions()
    ensures ManyToManyActions(Contacted, OwnedNodes, 1, PersonOrders) == Success([AddTo(3, Contacts, 1)])
  {
    assert ResolveMappedBy(PersonOrders.member) == Success(Some("contacts"));
    assert EntityTypeOf(Contacted, "Order") == Success(ContactOrder);
    assert ContactOrder.attributes[1..] == [Contacts, ContactsById];
    assert WithName(ContactOrder.attributes, ManyToMany, "contacts") == Some(Contacts);
    InverseSetActions(Contacted, OwnedNodes, 1, PersonOrders, [3], ContactOrder, Contacts);
    AddEachSingle(3, Contacts, 1);
  }

  /** After the fix `order.contacts` holds `person2` and `person1`. */
  lemma OwnedSideAddsToOwner()
    ensures var after := Run(Contacted, OwnedNodes, ManyToManyActions(Contacted, OwnedNodes, 1, PersonOrders).value);
      after.1 == Pass && Read(after.0[3], "contacts") == Coll(HashSetOf, [2, 1])
  {
    OwnedSideActions();
    OwnedPut();
    RunOneAdd(Contacted, OwnedNodes, 3, Contacts, 1, OwnedNodes[3 := WithValue(OwnedNodes[3], "contacts", Coll(HashSetOf, [2, 1]))]);
  }

  /** A run of one successful add is its result. */
  lemma RunOneAdd(mm: Metamodel, nodes: map<NodeId, Node>, t: NodeId, a: Attribute, s: NodeId, after: map<NodeId, Node>)
    requires t in nodes && s in nodes && Populated(mm, nodes, t, a, s) == Success(after)
    ensures Run(mm, nodes, [AddTo(t, a, s)]) == (after, Pass)
  {
    RunOne(mm, nodes, AddTo(t, a, s));
  }

  lemma OwnedPut()
    ensures Populated(Contacted, OwnedNodes, 3, Contacts, 1) ==
      Success(OwnedNodes[3 := WithValue(OwnedNodes[3], "contacts", Coll(HashSetOf, [2, 1]))])
  {
    assert Read(OwnedNodes[3], "contacts") == Coll(HashSetOf, [2]);
    assert Inserted(Coll(HashSetOf, [2]), SetCollection, 1) == Coll(HashSetOf, [2, 1]);
  }
}
