/**
 * The entity shapes of the min-depth predictor's unit tests, with the
 * attribute nullability a Hibernate 5 metamodel reports for them: an
 * embedded attribute is optional exactly when all of its columns are
 * nullable, `@AttributeOverride` included.
 */
module MinDepthScenarios {
  import opened Wrappers
  import opened Jpa
  import opened MinDepthPredictor
  import opened TestEntities

  /** An entity holding one embedded attribute, optional or not, of the given embeddable. */
  function ParentOf(embeddable: TypeName, optional: bool): ManagedType {
    EntityWith([IdOf("Parent"), Singular("embeddable", Embedded, optional, false, embeddable, "Parent")], IdOf("Parent"))
  }

  /** An embeddable nesting another one through an embedded attribute. */
  function NestingOf(nested: TypeName, optional: bool): ManagedType {
    EmbeddableWith([Singular("nested", Embedded, optional, false, nested, "Nesting")])
  }

  /** Unfolds the maximum over a type with one or two attributes. */
  lemma MaxDepthOfTwo(mm: Metamodel, legacyProvider: bool, t: ManagedType, attrs: seq<Attribute>, visited: set<TypeName>)
    requires WellFormed(mm) && TargetsManaged(mm, attrs) && 1 <= |attrs| <= 2
    ensures MaxDepth(mm, legacyProvider, t, attrs, visited) ==
      var last := if Counted(legacyProvider, t, attrs[|attrs| - 1]) then AttrDepth(mm, legacyProvider, attrs[|attrs| - 1], visited) else 0;
      if |attrs| == 1 then last
      else if Counted(legacyProvider, t, attrs[0]) then Max(AttrDepth(mm, legacyProvider, attrs[0], visited), last)
      else last
  {
    if |attrs| == 1 {
      assert attrs[1..] == [];
    } else {
      assert attrs[1..] == [attrs[1]];
      assert attrs[1..][1..] == [];
      assert TargetsManaged(mm, attrs[1..]);
    }
  }

  /*
   * Each scenario holds in every well-formed persistence unit that contains
   * the test's classes, with Hibernate 5 nullability (`legacyProvider`).
   */

  lemma NoAssociationsDepth(mm: Metamodel)
    requires WellFormed(mm) && mm.types.Keys >= {"SingleLevelEntity"}
    requires mm.types["SingleLevelEntity"] == SingleLevelEntity
    ensures PredictRequiredDepth(mm, true, "SingleLevelEntity") == Success(1)
  {
    MaxDepthOfTwo(mm, true, SingleLevelEntity, SingleLevelEntity.attributes, {"SingleLevelEntity"});
  }

  lemma OneToManyDepth(mm: Metamodel)
    requires WellFormed(mm) && mm.types.Keys >= {"Order"}
    requires mm.types["Order"] == Order
    ensures PredictRequiredDepth(mm, true, "Order") == Success(1)
  {
    MaxDepthOfTwo(mm, true, Order, Order.attributes, {"Order"});
  }

  /** `Order` on a path that already holds the item: only its id counts. */
  lemma OrderBelowItem(mm: Metamodel)
    requires WellFormed(mm) && mm.types.Keys >= {"Order"}
    requires mm.types["Order"] == Order
    ensures Depth0(mm, true, "Order", {"OrderItem"}) == 1
  {
    assert {"OrderItem"} + {"Order"} == {"OrderItem", "Order"};
    MaxDepthOfTwo(mm, true, Order, Order.attributes, {"OrderItem", "Order"});
  }

  lemma MandatoryManyToOneDepth(mm: Metamodel)
    requires WellFormed(mm) && mm.types.Keys >= {"Order", "OrderItem"}
    requires mm.types["Order"] == Order && mm.types["OrderItem"] == ItemOf(false)
    ensures PredictRequiredDepth(mm, true, "OrderItem") == Success(2)
  {
    OrderBelowItem(mm);
    assert {} + {"OrderItem"} == {"OrderItem"};
    MaxDepthOfTwo(mm, true, ItemOf(false), ItemOf(false).attributes, {"OrderItem"});
    assert AttrDepth(mm, true, ItemOf(false).attributes[1], {"OrderItem"}) == 2;
  }

  lemma OptionalManyToOneDepth(mm: Metamodel)
    requires WellFormed(mm) && mm.types.Keys >= {"Order", "OrderItem"}
    requires mm.types["Order"] == Order && mm.types["OrderItem"] == ItemOf(true)
    ensures PredictRequiredDepth(mm, true, "OrderItem") == Success(1)
  {
    MaxDepthOfTwo(mm, true, ItemOf(true), ItemOf(true).attributes, {"OrderItem"});
  }

  /** An embeddable on a path below its parent. */
  lemma ComponentBelowParent(mm: Metamodel, component: TypeName, path: set<TypeName>)
    requires WellFormed(mm) && component in mm.types && component !in path
    requires mm.types[component] in {OptionalComponent, MandatoryComponent}
    ensures Depth0(mm, true, component, path) == 1
  {
    var t := mm.types[component];
    MaxDepthOfTwo(mm, true, t, t.attributes, path + {component});
  }

  lemma OptionalEmbeddableDepth(mm: Metamodel)
    requires WellFormed(mm) && mm.types.Keys >= {"Parent", "OptionalComponent"}
    requires mm.types["Parent"] == ParentOf("OptionalComponent", true) && mm.types["OptionalComponent"] == OptionalComponent
    ensures PredictRequiredDepth(mm, true, "Parent") == Success(1)
  {
    var t := ParentOf("OptionalComponent", true);
    MaxDepthOfTwo(mm, true, t, t.attributes, {"Parent"});
  }

  lemma MandatoryEmbeddableDepth(mm: Metamodel)
    requires WellFormed(mm) && mm.types.Keys >= {"Parent", "MandatoryComponent"}
    requires mm.types["Parent"] == ParentOf("MandatoryComponent", false) && mm.types["MandatoryComponent"] == MandatoryComponent
    ensures PredictRequiredDepth(mm, true, "Parent") == Success(2)
  {
    var t := ParentOf("MandatoryComponent", false);
    ComponentBelowParent(mm, "MandatoryComponent", {"Parent"});
    assert {} + {"Parent"} == {"Parent"};
    MaxDepthOfTwo(mm, true, t, t.attributes, {"Parent"});
    assert AttrDepth(mm, true, t.attributes[1], {"Parent"}) == 2;
  }

  /** The override makes the nested optional component mandatory: two embedded hops and a basic column. */
  lemma NestedMandatoryByOverrideDepth(mm: Metamodel)
    requires WellFormed(mm) && mm.types.Keys >= {"Parent", "Nesting", "OptionalComponent"}
    requires mm.types["Parent"] == ParentOf("Nesting", false)
    requires mm.types["Nesting"] == NestingOf("OptionalComponent", true)
    requires mm.types["OptionalComponent"] == OptionalComponent
    ensures PredictRequiredDepth(mm, true, "Parent") == Success(3)
  {
    var t, n := ParentOf("Nesting", false), NestingOf("OptionalComponent", true);
    ComponentBelowParent(mm, "OptionalComponent", {"Parent", "Nesting"});
    assert {"Parent"} + {"Nesting"} == {"Parent", "Nesting"};
    MaxDepthOfTwo(mm, true, n, n.attributes, {"Parent", "Nesting"});
    assert Depth0(mm, true, "Nesting", {"Parent"}) == 2;
    assert {} + {"Parent"} == {"Parent"};
    MaxDepthOfTwo(mm, true, t, t.attributes, {"Parent"});
    assert AttrDepth(mm, true, t.attributes[1], {"Parent"}) == 3;
  }

  /** The override makes the nested mandatory component optional: only the id counts. */
  lemma NestedOptionalByOverrideDepth(mm: Metamodel)
    requires WellFormed(mm) && mm.types.Keys >= {"Parent", "Nesting", "MandatoryComponent"}
    requires mm.types["Parent"] == ParentOf("Nesting", true)
    requires mm.types["Nesting"] == NestingOf("MandatoryComponent", false)
    requires mm.types["MandatoryComponent"] == MandatoryComponent
    ensures PredictRequiredDepth(mm, true, "Parent") == Success(1)
  {
    var t := ParentOf("Nesting", true);
    MaxDepthOfTwo(mm, true, t, t.attributes, {"Parent"});
  }
}
