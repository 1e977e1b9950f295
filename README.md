# instancio-jpa entity-graph algorithms, modelled in Dafny

instancio-jpa fills JPA entities with generated data and then makes the
generated object graph acceptable to a persistence provider. Four algorithms
walk that graph depth first from a root entity:

- **EntityGraphShrinker** cuts the graph down: a to-one attribute whose target
  is not valid is set to null, and to-many elements (of collections and of map
  values) whose targets are not valid are removed. An instance is valid when
  every singular attribute is set, an id, or optional. A root that is still
  invalid afterwards is reported as "Cannot shrink".
- **EntityGraphAssociationFixer** makes both sides of every association agree.
  A many-to-one adds its owner to the inverse one-to-many collection or map.
  A one-to-one sets the other side. An owned one-to-many sets the many-to-one
  on each element. A many-to-many adds its owner to the other side's
  collection or map.
- **EntityGraphPersister** hands every reachable entity to the
  `EntityManager` in an order the database accepts. It persists the entities
  a row refers to first, then the entity itself, then the entities that refer
  back to it. A walk that comes back to an entity on its own path fails with
  "Cycle detected".
- **EntityGraphMinDepthPredictor** computes the graph depth an entity class
  needs so that its mandatory attributes can be filled.

`JpaMetamodelUtil` provides the annotation lookups they share: `mappedBy`,
`insertable`, the annotation on an attribute's member, and id attributes by
name.

The model is layered like this:

- The JPA metamodel is a value (`Jpa`). It holds managed types with their
  attributes, and the mapping annotations of each attribute's member.
- The object graph is an arena of nodes keyed by object identity
  (`EntityGraph`). Each node holds its attribute values by name. A `Graph`
  object holds the arena and is updated in place; `Graph.SetValue` stands for
  the reflective `setAttributeValue`.
- Each algorithm class is a Dafny class with the Java class's name. Its
  methods follow the Java methods and their loops.
- The shrinker, the fixer and the persister are proved against
  specification functions (`Shrunk0` and `ShrinkResult`, `Fixed0`,
  `Persisted0`): each method's new state and outcome equal the function of
  the old state. The properties are then proved about those functions and
  stated on the methods.
- For the shrinker these are: the graph only shrinks (a to-one value is
  nulled, map entries and collection elements are removed); an instance on
  the walk's path is untouched; a target that is valid in the final graph is
  kept; and the result is Pass exactly when the root is valid, unless a
  to-many value has the wrong shape or an element type is a mapped
  superclass. A target kept early can still be invalid at the end (see
  "## Left out").
- The predictor is pure recursion, so it is a function with lemmas.

The `*_scenarios` modules restate selected unit tests of the repository, and
single rules of the algorithms, on small graphs of the entity classes those
tests use.

## Model

| member | source | states |
|---|---|---|
| MetamodelUtil.GetAnnotations | javax/src/main/java/com/mobecker/instancio/jpa/util/JpaMetamodelUtil.java:168-177 | an attribute whose member is neither a field nor a method has no annotations; otherwise they are that member's |
| MetamodelUtil.NullIfEmpty | javax/src/main/java/com/mobecker/instancio/jpa/util/JpaMetamodelUtil.java:154-156 | the result is absent exactly for the empty string, and otherwise is the string itself |
| MetamodelUtil.DeclaredMappedBys | javax/src/main/java/com/mobecker/instancio/jpa/util/JpaMetamodelUtil.java:128-139 | no `mappedBy` is declared exactly when none of `@OneToOne`, `@OneToMany` and `@ManyToMany` is present |
| MetamodelUtil.MappedByOf | javax/src/main/java/com/mobecker/instancio/jpa/util/JpaMetamodelUtil.java:128-152 | `@OneToOne` is consulted first, then `@OneToMany`, then `@ManyToMany`; the first one present decides, with an empty `mappedBy` read as none; a result is always a non-empty declared `mappedBy` |
| MetamodelUtil.ResolveMappedBy | javax/src/main/java/com/mobecker/instancio/jpa/util/JpaMetamodelUtil.java:118-126 | fails with IllegalArgument exactly for a member that is neither a field nor a method; otherwise gives that member's `mappedBy` |
| MetamodelUtil.MappedByIs | javax/src/main/java/com/mobecker/instancio/jpa/EntityGraphAssociationFixer.java:355 | the `name.equals(resolveMappedBy(member))` test: it holds only for a non-empty name and a field or method member |
| MetamodelUtil.ForbidsInsert | javax/src/main/java/com/mobecker/instancio/jpa/util/JpaMetamodelUtil.java:220-224 | an insert is forbidden only by a `@Column` or `@JoinColumn` present on the member, and always by `@Column(insertable = false)` |
| MetamodelUtil.IsInsertable | javax/src/main/java/com/mobecker/instancio/jpa/util/JpaMetamodelUtil.java:220-224 | false exactly when a `@Column` or `@JoinColumn` present on the member says `insertable = false`; true for other members |
| MetamodelUtil.FindByName | javax/src/main/java/com/mobecker/instancio/jpa/util/JpaMetamodelUtil.java:193-196 | the first attribute with the name, if any; none exactly when no attribute has it |
| MetamodelUtil.IdAttributes | javax/src/main/java/com/mobecker/instancio/jpa/util/JpaMetamodelUtil.java:188-197 | the one id attribute when the type has a single id, else the id-class attributes in their order |
| MetamodelUtil.ResolveIdAttribute | javax/src/main/java/com/mobecker/instancio/jpa/util/JpaMetamodelUtil.java:188-198 | an id attribute with the given name, and none exactly when no id attribute (the single id, or the id-class attributes) has it |
| MetamodelUtilScenarios.MembersOf | testsuite/javax/src/test/java/com/mobecker/instancio/jpa/testsuite/JpaMetamodelUtilTest.java:64-82 | the test's members: each annotation set on a getter and on a field |
| MetamodelUtilScenarios.OwningAndOwnedMembers | testsuite/javax/src/test/java/com/mobecker/instancio/jpa/testsuite/JpaMetamodelUtilTest.java:64-82 | owning members resolve to no `mappedBy` and owned members to "owner" |
| Jpa.ManagedTypeOf | javax/src/main/java/com/mobecker/instancio/jpa/EntityGraphMinDepthPredictor.java:46 | `metamodel.managedType` fails with UnmanagedType exactly for a class that is not managed, and otherwise gives its managed type |
| Jpa.EntityTypeOf | javax/src/main/java/com/mobecker/instancio/jpa/EntityGraphAssociationFixer.java:302 | `metamodel.entity` succeeds exactly for a managed type that is an entity, giving that managed type, and fails with NotAnEntity otherwise |
| EntityGraph.WithValue | javax/src/main/java/com/mobecker/instancio/jpa/util/JpaMetamodelUtil.java:86-108 | setting an attribute makes it read as the new value and leaves every other attribute and the type as they were |
| EntityGraph.WithValueTwice | javax/src/main/java/com/mobecker/instancio/jpa/util/JpaMetamodelUtil.java:86-108 | a second set of the same attribute overrides the first |
| EntityGraph.WithValueSame | javax/src/main/java/com/mobecker/instancio/jpa/util/JpaMetamodelUtil.java:86-108 | setting an attribute to its own value changes nothing |
| EntityGraph.WithValueClosed | javax/src/main/java/com/mobecker/instancio/jpa/util/JpaMetamodelUtil.java:86-108 | setting a reference into the graph keeps the graph closed |
| EntityGraph.ReadClosed | javax/src/main/java/com/mobecker/instancio/jpa/EntityGraphShrinker.java:123-128 | every value read from a closed graph refers into the graph |
| EntityGraph.Graph.constructor | javax/src/main/java/com/mobecker/instancio/jpa/util/JpaMetamodelUtil.java:86-108 | the graph holds the given closed arena |
| EntityGraph.Graph.SetValue | javax/src/main/java/com/mobecker/instancio/jpa/util/JpaMetamodelUtil.java:86-108 | `setAttributeValue` in place: exactly the one attribute of the one instance changes, and the graph stays closed |
| EntityGraph.MapValues | javax/src/main/java/com/mobecker/instancio/jpa/EntityGraphShrinker.java:88-99 | the values of a map, entry by entry |
| EntityGraph.MapKeys | javax/src/main/java/com/mobecker/instancio/jpa/EntityGraphAssociationFixer.java:274-286 | the keys of a map, entry by entry |
| EntityGraph.KeyIndex | javax/src/main/java/com/mobecker/instancio/jpa/EntityGraphAssociationFixer.java:285 | the position of the key's entry, or the map's size when no entry has that key |
| EntityGraph.MapGet | javax/src/main/java/com/mobecker/instancio/jpa/EntityGraphAssociationFixer.java:285 | the value under a key, absent exactly when no entry has the key |
| EntityGraph.MapPut | javax/src/main/java/com/mobecker/instancio/jpa/EntityGraphAssociationFixer.java:285 | `Map.put`: the keys stay where they were, and the new entry either replaces the one with the same key or is added at the end |
| EntityGraph.MapPutGet | javax/src/main/java/com/mobecker/instancio/jpa/EntityGraphAssociationFixer.java:285 | after a put the key maps to the new value, other keys are unchanged, and distinct keys stay distinct |
| Shrinker.Valid0Node | javax/src/main/java/com/mobecker/instancio/jpa/EntityGraphShrinker.java:148-164 | an instance already on the path counts as valid |
| Shrinker.AllValid0 | javax/src/main/java/com/mobecker/instancio/jpa/EntityGraphShrinker.java:154-161 | the `allMatch` over the attributes: plural attributes always pass, so an instance with only plural attributes is valid |
| Shrinker.Valid0Attr | javax/src/main/java/com/mobecker/instancio/jpa/EntityGraphShrinker.java:135-146 | a set non-basic value passes at once, because it is put on the path before its instance is checked; a failing value is unset, not an id and not optional |
| Shrinker.IsValidNode | javax/src/main/java/com/mobecker/instancio/jpa/EntityGraphShrinker.java:130-133 | `isValid` starts from an empty path; an instance without singular attributes is valid |
| Shrinker.AttrValid | javax/src/main/java/com/mobecker/instancio/jpa/EntityGraphShrinker.java:145-160 | a plural attribute always passes; a failing singular attribute is unset, not an id and not optional |
| Shrinker.IsValid | javax/src/main/java/com/mobecker/instancio/jpa/EntityGraphShrinker.java:148-164 | valid exactly when every attribute of the instance's managed type passes `AttrValid`; equal to `isValid` by `ValidIffShallow` |
| Shrinker.OverMappedSuperclass | javax/src/main/java/com/mobecker/instancio/jpa/EntityGraphShrinker.java:100-115 | a to-many attribute over a mapped superclass is in neither the map branch nor the entity-or-embeddable branch, and `shrink0` throws on it |
| Shrinker.Valid0AttrShallow | javax/src/main/java/com/mobecker/instancio/jpa/EntityGraphShrinker.java:135-146 | a set to-one value is put on the path before its target is checked, so a singular attribute is valid exactly when it is set, an id or optional |
| Shrinker.AllValid0Shallow | javax/src/main/java/com/mobecker/instancio/jpa/EntityGraphShrinker.java:148-164 | an instance's attributes all pass exactly when each singular one is set, an id or optional |
| Shrinker.ValidIffShallow | javax/src/main/java/com/mobecker/instancio/jpa/EntityGraphShrinker.java:130-133 | `isValid(Object)` with its recursion equals the shallow check of the instance's own attributes |
| Shrinker.ShrunkTrans | javax/src/main/java/com/mobecker/instancio/jpa/EntityGraphShrinker.java:72-120 | shrinking twice is a shrink: a to-one only goes to null, and a to-many keeps a subsequence |
| Shrinker.ShrunkBySet | javax/src/main/java/com/mobecker/instancio/jpa/EntityGraphShrinker.java:80-84 | writing back a shrunk value of an attribute shrinks the graph |
| Shrinker.ShrunkTyped | javax/src/main/java/com/mobecker/instancio/jpa/EntityGraphShrinker.java:72-120 | shrinking keeps every instance's type |
| Shrinker.ValidAntitone | javax/src/main/java/com/mobecker/instancio/jpa/EntityGraphShrinker.java:130-133 | an instance valid after shrinking was valid before, because shrinking only unsets |
| Shrinker.AttrShrunkStable | javax/src/main/java/com/mobecker/instancio/jpa/EntityGraphShrinker.java:72-120 | an attribute's outcome stays true when later steps shrink the graph further |
| Shrinker.AttrShrunkValue | javax/src/main/java/com/mobecker/instancio/jpa/EntityGraphShrinker.java:80-112 | an attribute's outcome is a shrink of its old value |
| Shrinker.ShapedStable | javax/src/main/java/com/mobecker/instancio/jpa/EntityGraphShrinker.java:86-102 | shrinking keeps every to-many value null or of its attribute's shape, so a graph in shape stays in shape |
| Shrinker.Shrunk0 | javax/src/main/java/com/mobecker/instancio/jpa/EntityGraphShrinker.java:72-120 | the walk from one instance: a visited, null or unknown instance is left alone and passes; a failure is UnexpectedPersistenceType or ClassCast; the instances stay the same |
| Shrinker.ShrunkAttrs | javax/src/main/java/com/mobecker/instancio/jpa/EntityGraphShrinker.java:76-117 | the attributes in order, the first failure ending the loop; a failure is UnexpectedPersistenceType or ClassCast |
| Shrinker.ShrunkAttr | javax/src/main/java/com/mobecker/instancio/jpa/EntityGraphShrinker.java:76-115 | one attribute: a to-many attribute over a mapped superclass fails with UnexpectedPersistenceType and changes nothing |
| Shrinker.ShrunkEntries | javax/src/main/java/com/mobecker/instancio/jpa/EntityGraphShrinker.java:90-98 | the map entries in order, each target shrunk and the entry dropped when the target is invalid |
| Shrinker.ShrunkElems | javax/src/main/java/com/mobecker/instancio/jpa/EntityGraphShrinker.java:102-111 | the collection elements in order, each target shrunk and the element dropped when the target is invalid |
| Shrinker.ShrunkTarget | javax/src/main/java/com/mobecker/instancio/jpa/EntityGraphShrinker.java:80-111 | a target is removed only after a successful shrink of it; a failure removes nothing |
| Shrinker.ShrinkResult | javax/src/main/java/com/mobecker/instancio/jpa/EntityGraphShrinker.java:64-70 | `shrink`: success leaves the root valid; a failure is the walk's error or "Cannot shrink" |
| Shrinker.EntityGraphShrinker.constructor | javax/src/main/java/com/mobecker/instancio/jpa/EntityGraphShrinker.java:55-57 | the shrinker keeps the metamodel |
| Shrinker.EntityGraphShrinker.Shrink | javax/src/main/java/com/mobecker/instancio/jpa/EntityGraphShrinker.java:64-70 | the new graph and outcome are `ShrinkResult` of the old graph; the graph only shrinks; on success the root is valid; a failure is UnexpectedPersistenceType, ClassCast or "Cannot shrink", and "Cannot shrink" exactly when the root stays invalid; without mapped-superclass elements there is no UnexpectedPersistenceType, and with every to-many value of the right shape no ClassCast; when both hold, success exactly when the root ends valid; every attribute of the root reaches its shrink outcome |
| Shrinker.EntityGraphShrinker.Shrink0 | javax/src/main/java/com/mobecker/instancio/jpa/EntityGraphShrinker.java:72-120 | the new graph and outcome are `Shrunk0` of the old graph; null or visited input changes nothing; instances on the path are untouched; the graph only shrinks; a failure is UnexpectedPersistenceType or ClassCast, the first only with mapped-superclass elements and the second only with a to-many value of the wrong shape; an instance with a to-many attribute over a mapped superclass fails; on success every attribute of the instance reaches its outcome: a to-one target, map value or collection element that is valid in the final graph is kept, and what goes is nulled or removed in place |
| Shrinker.EntityGraphShrinker.ShrinkAttribute | javax/src/main/java/com/mobecker/instancio/jpa/EntityGraphShrinker.java:76-115 | the new graph and outcome are `ShrunkAttr`; a to-many attribute over a mapped superclass fails with UnexpectedPersistenceType; a value of the wrong shape fails with ClassCast; only this attribute of the instance changes, and on success it reaches its shrink outcome |
| Shrinker.EntityGraphShrinker.ShrinkTarget | javax/src/main/java/com/mobecker/instancio/jpa/EntityGraphShrinker.java:80-111 | the new graph, outcome and removal are `ShrunkTarget`: the target is shrunk first; an error passes through with nothing written back; otherwise the shrunk value is written back exactly when the target is then invalid |
| Shrinker.EntityGraphShrinker.RemoveIfInvalid | javax/src/main/java/com/mobecker/instancio/jpa/EntityGraphShrinker.java:80-111 | the shrunk value is written back exactly when the target is invalid, and nothing else changes |
| Shrinker.EntityGraphShrinker.ShrinkSingular | javax/src/main/java/com/mobecker/instancio/jpa/EntityGraphShrinker.java:80-84 | the new graph and outcome are `ShrunkAttr`: a set to-one whose target is invalid after shrinking becomes null, and otherwise stays |
| Shrinker.EntityGraphShrinker.ShrinkMapValues | javax/src/main/java/com/mobecker/instancio/jpa/EntityGraphShrinker.java:86-99 | the new graph and outcome are `ShrunkAttr`: a null map is left alone, a value that is not a map fails with ClassCast, and otherwise the map keeps the subsequence of its entries whose values are valid, dropping those that are not |
| Shrinker.EntityGraphShrinker.ShrinkEntry | javax/src/main/java/com/mobecker/instancio/jpa/EntityGraphShrinker.java:90-98 | one entry step of the map loop keeps the loop invariant and the equation with `ShrunkEntries` of the rest |
| Shrinker.EntityGraphShrinker.ShrinkCollection | javax/src/main/java/com/mobecker/instancio/jpa/EntityGraphShrinker.java:100-112 | the new graph and outcome are `ShrunkAttr`: a null collection is left alone, a value that is not a collection fails with ClassCast, and otherwise the collection keeps the subsequence of its elements that are valid, dropping those that are not |
| Shrinker.EntityGraphShrinker.ShrinkElement | javax/src/main/java/com/mobecker/instancio/jpa/EntityGraphShrinker.java:102-111 | one element step of the collection loop keeps the loop invariant and the equation with `ShrunkElems` of the rest |
| ShrinkerScenarios.ShopFacts | testsuite/javax/src/test/java/com/mobecker/instancio/jpa/testsuite/EntityGraphShrinkerTest.java:52-79 | the test's `Order`/`OrderItem` metamodel is well formed and has no mapped-superclass elements |
| ShrinkerScenarios.ShopShaped | testsuite/javax/src/test/java/com/mobecker/instancio/jpa/testsuite/EntityGraphShrinkerTest.java:81-102 | a graph of orders whose `orderItems` is null or a collection, and of order items, has every to-many value in shape |
| ShrinkerScenarios.UnsetOrderPasses | testsuite/javax/src/test/java/com/mobecker/instancio/jpa/testsuite/EntityGraphShrinkerTest.java:52-58 | a new `Order`, with the empty `orderItems` set its class starts with, is valid and left unchanged |
| ShrinkerScenarios.ShrinkUnsetOrder | testsuite/javax/src/test/java/com/mobecker/instancio/jpa/testsuite/EntityGraphShrinkerTest.java:52-58 | a new `Order` shrinks without error |
| ShrinkerScenarios.ShrinkItemWithoutOrder | testsuite/javax/src/test/java/com/mobecker/instancio/jpa/testsuite/EntityGraphShrinkerTest.java:61-67 | an `OrderItem` without its mandatory `order` fails with "Cannot shrink" |
| ShrinkerScenarios.ItemKeepsOrder | testsuite/javax/src/test/java/com/mobecker/instancio/jpa/testsuite/EntityGraphShrinkerTest.java:70-79 | shrinking an `OrderItem` with its `order` passes and leaves the graph as it was |
| ShrinkerScenarios.ShrinkItemWithOrder | testsuite/javax/src/test/java/com/mobecker/instancio/jpa/testsuite/EntityGraphShrinkerTest.java:70-79 | an `OrderItem` with its `order` shrinks without error and keeps the `order` |
| ShrinkerScenarios.OrderUntouched | testsuite/javax/src/test/java/com/mobecker/instancio/jpa/testsuite/EntityGraphShrinkerTest.java:70-79 | the walk into the item's `order`, with the item on the path, changes nothing and passes |
| ShrinkerScenarios.LooseItemUntouched | javax/src/main/java/com/mobecker/instancio/jpa/EntityGraphShrinker.java:100-112 | the walk into an `OrderItem` without its `order`, held by an `Order`, changes nothing and passes |
| ShrinkerScenarios.LooseItemDropped | javax/src/main/java/com/mobecker/instancio/jpa/EntityGraphShrinker.java:100-112 | the `orderItems` loop drops that invalid item |
| ShrinkerScenarios.LooseItemRemoved | javax/src/main/java/com/mobecker/instancio/jpa/EntityGraphShrinker.java:100-112 | shrinking the `Order` passes with its `orderItems` emptied of the invalid item |
| ShrinkerScenarios.ShrinkOrderWithLooseItem | javax/src/main/java/com/mobecker/instancio/jpa/EntityGraphShrinker.java:100-112 | on a graph object, the shrink of that `Order` passes and leaves `orderItems` empty |
| ShrinkerScenarios.NamelessOrderUntouched | javax/src/main/java/com/mobecker/instancio/jpa/EntityGraphShrinker.java:72-120 | the walk into an `Order` with no association changes nothing and passes, even though its mandatory `name` is unset |
| ShrinkerScenarios.InvalidOrderNulled | javax/src/main/java/com/mobecker/instancio/jpa/EntityGraphShrinker.java:80-84 | an item's `order` whose target lacks its mandatory `name` is set to null |
| ShrinkerScenarios.InvalidOrderCannotShrink | javax/src/main/java/com/mobecker/instancio/jpa/EntityGraphShrinker.java:64-84 | shrinking that item nulls its `order` and then fails with "Cannot shrink" |
| ShrinkerScenarios.ShrinkItemWithInvalidOrder | javax/src/main/java/com/mobecker/instancio/jpa/EntityGraphShrinker.java:64-84 | on a graph object, the shrink of that item fails with "Cannot shrink" and leaves its `order` null |
| MinDepthPredictor.IgnoreAttributeNullability | javax/src/main/java/com/mobecker/instancio/jpa/EntityGraphMinDepthPredictor.java:73-87 | holds only with the legacy provider, and never for an entity type |
| MinDepthPredictor.Counted | javax/src/main/java/com/mobecker/instancio/jpa/EntityGraphMinDepthPredictor.java:47-49 | a mandatory singular attribute always counts; unless nullability is ignored, exactly the mandatory singular attributes count |
| MinDepthPredictor.AttrDepth | javax/src/main/java/com/mobecker/instancio/jpa/EntityGraphMinDepthPredictor.java:50-66 | 1 for a basic attribute; at least 1 for a to-one or embedded attribute, and exactly 1 when its target class is on the path; 0 for every other kind |
| MinDepthPredictor.WellFormedTargetsManaged | javax/src/main/java/com/mobecker/instancio/jpa/EntityGraphMinDepthPredictor.java:52-65 | in a well-formed metamodel every embedded and to-one target is a managed type |
| MinDepthPredictor.Depth0 | javax/src/main/java/com/mobecker/instancio/jpa/EntityGraphMinDepthPredictor.java:40-71 | a class already on the path needs depth 0 |
| MinDepthPredictor.MaxDepth | javax/src/main/java/com/mobecker/instancio/jpa/EntityGraphMinDepthPredictor.java:48-67 | the maximum over the counted attributes: it bounds each of them and is one of them, or 0 when none |
| MinDepthPredictor.PredictRequiredDepth | javax/src/main/java/com/mobecker/instancio/jpa/EntityGraphMinDepthPredictor.java:35-38 | fails exactly for an unmanaged class; otherwise the depth from an empty path |
| MinDepthPredictor.DepthBound | javax/src/main/java/com/mobecker/instancio/jpa/EntityGraphMinDepthPredictor.java:40-71 | the depth never exceeds the number of managed classes not on the path |
| MinDepthPredictor.AttrDepthBound | javax/src/main/java/com/mobecker/instancio/jpa/EntityGraphMinDepthPredictor.java:52-65 | one attribute's depth is at most one more than that bound |
| MinDepthPredictor.DepthAntitone | javax/src/main/java/com/mobecker/instancio/jpa/EntityGraphMinDepthPredictor.java:41-43 | a longer path never needs more depth |
| MinDepthPredictor.AttrDepthAntitone | javax/src/main/java/com/mobecker/instancio/jpa/EntityGraphMinDepthPredictor.java:52-65 | the same for one attribute |
| MinDepthPredictor.NothingCountedIsZero | javax/src/main/java/com/mobecker/instancio/jpa/EntityGraphMinDepthPredictor.java:48-67 | a class whose counted attributes are all plural needs depth 0 |
| MinDepthScenarios.MaxDepthOfTwo | javax/src/main/java/com/mobecker/instancio/jpa/EntityGraphMinDepthPredictor.java:67 | the maximum over one or two attributes, unfolded |
| MinDepthScenarios.NoAssociationsDepth | testsuite/javax/src/test/java/com/mobecker/instancio/jpa/testsuite/EntityGraphMinDepthPredictorTest.java:56-62 | an entity with no associations needs depth 1 |
| MinDepthScenarios.OneToManyDepth | testsuite/javax/src/test/java/com/mobecker/instancio/jpa/testsuite/EntityGraphMinDepthPredictorTest.java:65-71 | `Order` with a one-to-many needs depth 1 |
| MinDepthScenarios.OrderBelowItem | testsuite/javax/src/test/java/com/mobecker/instancio/jpa/testsuite/EntityGraphMinDepthPredictorTest.java:74-80 | `Order` below its item needs depth 1 |
| MinDepthScenarios.MandatoryManyToOneDepth | testsuite/javax/src/test/java/com/mobecker/instancio/jpa/testsuite/EntityGraphMinDepthPredictorTest.java:74-80 | `OrderItem` with a mandatory `order` needs depth 2 |
| MinDepthScenarios.OptionalManyToOneDepth | testsuite/javax/src/test/java/com/mobecker/instancio/jpa/testsuite/EntityGraphMinDepthPredictorTest.java:83-89 | `OrderItem` with an optional `order` needs depth 1 |
| MinDepthScenarios.ComponentBelowParent | testsuite/javax/src/test/java/com/mobecker/instancio/jpa/testsuite/EntityGraphMinDepthPredictorTest.java:92-108 | an embeddable below its parent needs depth 1 |
| MinDepthScenarios.OptionalEmbeddableDepth | testsuite/javax/src/test/java/com/mobecker/instancio/jpa/testsuite/EntityGraphMinDepthPredictorTest.java:92-98 | an entity with an optional embedded component needs depth 1 |
| MinDepthScenarios.MandatoryEmbeddableDepth | testsuite/javax/src/test/java/com/mobecker/instancio/jpa/testsuite/EntityGraphMinDepthPredictorTest.java:101-107 | an entity with a mandatory embedded component needs depth 2 |
| MinDepthScenarios.NestedMandatoryByOverrideDepth | testsuite/javax/src/test/java/com/mobecker/instancio/jpa/testsuite/EntityGraphMinDepthPredictorTest.java:110-116 | an optional nested component overridden to mandatory needs depth 3 |
| MinDepthScenarios.NestedOptionalByOverrideDepth | testsuite/javax/src/test/java/com/mobecker/instancio/jpa/testsuite/EntityGraphMinDepthPredictorTest.java:119-125 | a mandatory nested component overridden to optional needs depth 1 |
| AssociationRules.ForManyToOne | javax/src/main/java/com/mobecker/instancio/jpa/EntityGraphAssociationFixer.java:349-358 | exactly the one-to-many attributes whose `mappedBy` names the many-to-one and whose element type declares it; fails on a member that is neither field nor method |
| AssociationRules.WithMappedBy | javax/src/main/java/com/mobecker/instancio/jpa/EntityGraphAssociationFixer.java:360-367 | exactly the attributes of the kind whose `mappedBy` is the name; fails on a member that is neither field nor method |
| AssociationRules.WithElementType | javax/src/main/java/com/mobecker/instancio/jpa/EntityGraphAssociationFixer.java:356 | exactly the attributes with the given element type |
| AssociationRules.WithName | javax/src/main/java/com/mobecker/instancio/jpa/EntityGraphAssociationFixer.java:369-385 | an attribute of the kind with the name, and none exactly when there is no such attribute |
| AssociationRules.NewCollection | javax/src/main/java/com/mobecker/instancio/jpa/EntityGraphAssociationFixer.java:251-266 | a `HashSet` for a set, a list otherwise, and an error exactly for a map |
| AssociationRules.MapKeyJoinColumnNameAsWritten | javax/src/main/java/com/mobecker/instancio/jpa/EntityGraphAssociationFixer.java:305-306 | the column name as the code computes it: the written name, even when it is empty |
| AssociationRules.MapKeyJoinColumnName | javax/src/main/java/com/mobecker/instancio/jpa/EntityGraphAssociationFixer.java:305-306 | the column name is never empty: the written name, or `<attribute>_KEY` when none is written |
| AssociationRules.MapKeyJoinColumnDefaultDiffers | javax/src/main/java/com/mobecker/instancio/jpa/EntityGraphAssociationFixer.java:305-306 | for an unnamed `@MapKeyJoinColumn` the code matches the empty name instead of `<attribute>_KEY` |
| AssociationRules.MapKeyJoinColumnOf | javax/src/main/java/com/mobecker/instancio/jpa/EntityGraphAssociationFixer.java:303-304 | the `@MapKeyJoinColumn` read from the attribute's member, none for a member that is neither field nor method |
| AssociationRules.MapKeyNameOf | javax/src/main/java/com/mobecker/instancio/jpa/EntityGraphAssociationFixer.java:319-320 | the `@MapKey` name, present exactly when the annotation is there with a non-empty name |
| AssociationRules.JoinsKeyColumn | javax/src/main/java/com/mobecker/instancio/jpa/EntityGraphAssociationFixer.java:310-314 | an attribute joins the key column only if it has the map's key type and a field or method member; a field with `@JoinColumn` of that name and the key type always does |
| AssociationRules.FirstKeyColumn | javax/src/main/java/com/mobecker/instancio/jpa/EntityGraphAssociationFixer.java:309-315 | an attribute with a `@JoinColumn` of that name and the map's key type, none exactly when no attribute has both |
| AssociationRules.IdClassValue | javax/src/main/java/com/mobecker/instancio/jpa/EntityGraphAssociationFixer.java:334-347 | the id-class key holds the instance's id-class attribute values, in order |
| AssociationRules.ExtractMapKey | javax/src/main/java/com/mobecker/instancio/jpa/EntityGraphAssociationFixer.java:300-332 | fails exactly when the value is not an entity; with `@MapKeyJoinColumn` the key is the value of the first attribute whose join column has the key column's name, or null when there is none; with `@MapKey` the value of the attribute with that name, or null when there is none; otherwise the single id or the id-class key |
| AssociationRules.ExtractMapKeyWrittenColumn | javax/src/main/java/com/mobecker/instancio/jpa/EntityGraphAssociationFixer.java:303-315 | with a non-empty `@MapKeyJoinColumn` name the key is looked up under that name exactly as written |
| AssociationRules.ExtractMapKeyUnnamedColumn | javax/src/main/java/com/mobecker/instancio/jpa/EntityGraphAssociationFixer.java:303-317 | with an unnamed `@MapKeyJoinColumn` the code as written keys the entry by the first key-type attribute whose `@JoinColumn` is unnamed too; where no attribute joins `<attribute>_KEY`, this model's key is null instead |
| AssociationRules.CastToMany | javax/src/main/java/com/mobecker/instancio/jpa/EntityGraphAssociationFixer.java:159-176 | the cast to `Map` or `Collection` succeeds exactly for null or a value of the attribute's shape, and fails with ClassCast otherwise |
| AssociationRules.Populated | javax/src/main/java/com/mobecker/instancio/jpa/EntityGraphAssociationFixer.java:271-298 | `populateCollectionOrMap`: only the one attribute of the one instance changes; a collection holds the element, a null one replaced by a new collection; a map holds it under its key; a null map or a null key leaves the graph unchanged |
| AssociationRules.Inserted | javax/src/main/java/com/mobecker/instancio/jpa/EntityGraphAssociationFixer.java:288-296 | the collection holds the element, is unchanged when it already did, otherwise grows at the end, and starts as a new collection when null |
| AssociationRules.PutEntry | javax/src/main/java/com/mobecker/instancio/jpa/EntityGraphAssociationFixer.java:285 | the map holds the element under the key, other keys are unchanged, and the key order only grows |
| AssociationRules.MapPutKeys | javax/src/main/java/com/mobecker/instancio/jpa/EntityGraphAssociationFixer.java:285 | a put only appends keys |
| AssociationRules.PopulatedTwice | javax/src/main/java/com/mobecker/instancio/jpa/EntityGraphAssociationFixer.java:288-296 | adding the same element to a collection twice is adding it once |
| AssociationRules.Step | javax/src/main/java/com/mobecker/instancio/jpa/EntityGraphAssociationFixer.java:132-150 | one write keeps the instances and their types, and fails only with ClassCast or NotAnEntity |
| AssociationRules.Run | javax/src/main/java/com/mobecker/instancio/jpa/EntityGraphAssociationFixer.java:130-133 | a run of writes keeps the instances and their types, and fails only with ClassCast or NotAnEntity |
| AssociationRules.AddToAll | javax/src/main/java/com/mobecker/instancio/jpa/EntityGraphAssociationFixer.java:130-133 | exactly one add of the element per target |
| AssociationRules.SetInAll | javax/src/main/java/com/mobecker/instancio/jpa/EntityGraphAssociationFixer.java:185-188 | exactly one set of the attribute per target |
| AssociationRules.AddEach | javax/src/main/java/com/mobecker/instancio/jpa/EntityGraphAssociationFixer.java:241-245 | an add of the element for every target and every end attribute, and nothing else |
| AssociationRules.SetEach | javax/src/main/java/com/mobecker/instancio/jpa/EntityGraphAssociationFixer.java:148-150 | a set for every target and every attribute name, and nothing else |
| AssociationRules.Names | javax/src/main/java/com/mobecker/instancio/jpa/EntityGraphAssociationFixer.java:148-150 | the attributes' names, in order |
| AssociationRules.ManyToOneActions | javax/src/main/java/com/mobecker/instancio/jpa/EntityGraphAssociationFixer.java:126-135 | nothing when the target is not a reference; otherwise an add of the owner to the target's inverse one-to-many attributes, exactly those |
| AssociationRules.OneToOneActions | javax/src/main/java/com/mobecker/instancio/jpa/EntityGraphAssociationFixer.java:137-153 | nothing for a null target; the owning side sets each one-to-one mapped by it; the owned side sets the named one-to-one |
| AssociationRules.OneToManyActions | javax/src/main/java/com/mobecker/instancio/jpa/EntityGraphAssociationFixer.java:155-192 | ClassCast for a value of the wrong shape; nothing for null or an owning side; an owned side sets the named many-to-one on each element to the owner |
| AssociationRules.ManyToManyActions | javax/src/main/java/com/mobecker/instancio/jpa/EntityGraphAssociationFixer.java:194-249 | ClassCast for a value of the wrong shape; nothing for null; the owning side adds the owner to every inverse many-to-many of every element; the owned side adds it to the named one |
| AssociationRules.RuleActions | javax/src/main/java/com/mobecker/instancio/jpa/EntityGraphAssociationFixer.java:92-107 | the dispatch fails with UnknownAttributeType exactly for a kind other than the four associations; every write goes to the owner |
| AssociationRules.RunSetRefs | javax/src/main/java/com/mobecker/instancio/jpa/EntityGraphAssociationFixer.java:144-150 | a run of sets succeeds and leaves each written attribute referring to the owner, and every other attribute as it was |
| AssociationRules.StepAddTo | javax/src/main/java/com/mobecker/instancio/jpa/EntityGraphAssociationFixer.java:271-298 | one add only grows the graph, touches only its target attribute, and leaves the owner in the collection; into a present map, under a non-null key from `ExtractMapKey`, the owner is the value stored under that key |
| AssociationRules.RunAddTos | javax/src/main/java/com/mobecker/instancio/jpa/EntityGraphAssociationFixer.java:130-133 | a run of adds only grows the graph, leaves untouched attributes alone, and on success leaves the owner in every collection it added to |
| AssociationRules.StepClosed | javax/src/main/java/com/mobecker/instancio/jpa/EntityGraphAssociationFixer.java:271-298 | one write keeps the graph closed |
| AssociationRules.RunClosed | javax/src/main/java/com/mobecker/instancio/jpa/EntityGraphAssociationFixer.java:130-133 | a run of writes keeps the graph closed |
| AssociationRules.ManyToOneFixed | javax/src/main/java/com/mobecker/instancio/jpa/EntityGraphAssociationFixer.java:126-135 | after fixing a many-to-one, every inverse one-to-many collection of the target holds the owner |
| AssociationRules.OneToOneFixed | javax/src/main/java/com/mobecker/instancio/jpa/EntityGraphAssociationFixer.java:137-153 | after fixing a one-to-one, the other side refers to the owner |
| AssociationRules.OneToManyFixed | javax/src/main/java/com/mobecker/instancio/jpa/EntityGraphAssociationFixer.java:155-192 | after fixing an owned one-to-many, every element's many-to-one refers to the owner |
| AssociationRules.AddsWithin | javax/src/main/java/com/mobecker/instancio/jpa/EntityGraphAssociationFixer.java:241-245 | adds to a set of targets change nothing outside it, and on success each added-to collection holds the owner |
| AssociationRules.ManyToManyOwningFixed | javax/src/main/java/com/mobecker/instancio/jpa/EntityGraphAssociationFixer.java:238-245 | after fixing an owning many-to-many, every inverse collection of every element holds the owner |
| AssociationRules.ManyToManyInverseFixed | javax/src/main/java/com/mobecker/instancio/jpa/EntityGraphAssociationFixer.java:228-236 | after fixing an owned many-to-many, the named collection of every element holds the owner |
| AssociationFixer.Targets | javax/src/main/java/com/mobecker/instancio/jpa/EntityGraphAssociationFixer.java:108-121 | the instances visited next: a to-one reference, or the collection's elements or map's values; ClassCast for a to-many of the wrong shape |
| AssociationFixer.TargetsWithin | javax/src/main/java/com/mobecker/instancio/jpa/EntityGraphAssociationFixer.java:108-121 | every instance visited next is in the graph |
| AssociationFixer.Fixed0 | javax/src/main/java/com/mobecker/instancio/jpa/EntityGraphAssociationFixer.java:82-124 | the walk keeps the instances and their types, fails only with a fixer error, and changes nothing for an instance already on the path |
| AssociationFixer.FixedAttrs | javax/src/main/java/com/mobecker/instancio/jpa/EntityGraphAssociationFixer.java:88-122 | the same for the loop over an instance's association attributes |
| AssociationFixer.FixedAttr | javax/src/main/java/com/mobecker/instancio/jpa/EntityGraphAssociationFixer.java:92-121 | the same for one attribute: its fix, then the walk into its targets |
| AssociationFixer.VisitAll | javax/src/main/java/com/mobecker/instancio/jpa/EntityGraphAssociationFixer.java:108-121 | the same for the walk into a list of targets |
| AssociationFixer.ActionTargetsWithin | javax/src/main/java/com/mobecker/instancio/jpa/EntityGraphAssociationFixer.java:92-107 | every write of a fix goes to the owner and targets an instance of the graph |
| AssociationFixer.EntityGraphAssociationFixer.constructor | javax/src/main/java/com/mobecker/instancio/jpa/EntityGraphAssociationFixer.java:68-70 | the fixer keeps the metamodel |
| AssociationFixer.EntityGraphAssociationFixer.FixAssociations | javax/src/main/java/com/mobecker/instancio/jpa/EntityGraphAssociationFixer.java:77-80 | the graph and outcome are the walk's from an empty path |
| AssociationFixer.EntityGraphAssociationFixer.FixAssociations0 | javax/src/main/java/com/mobecker/instancio/jpa/EntityGraphAssociationFixer.java:82-124 | the graph and outcome are `Fixed0` of the old graph |
| AssociationFixer.EntityGraphAssociationFixer.FixAttribute | javax/src/main/java/com/mobecker/instancio/jpa/EntityGraphAssociationFixer.java:92-121 | the graph and outcome are `FixedAttr` of the old graph |
| AssociationFixer.EntityGraphAssociationFixer.VisitTargets | javax/src/main/java/com/mobecker/instancio/jpa/EntityGraphAssociationFixer.java:108-121 | the graph and outcome are `VisitAll` of the old graph |
| AssociationFixer.EntityGraphAssociationFixer.ApplyActions | javax/src/main/java/com/mobecker/instancio/jpa/EntityGraphAssociationFixer.java:130-133 | the graph and outcome are `Run` of the writes on the old graph |
| AssociationFixer.EntityGraphAssociationFixer.Perform | javax/src/main/java/com/mobecker/instancio/jpa/EntityGraphAssociationFixer.java:144-150 | the graph and outcome are one `Step` on the old graph |
| AssociationFixer.EntityGraphAssociationFixer.Populate | javax/src/main/java/com/mobecker/instancio/jpa/EntityGraphAssociationFixer.java:271-298 | the graph and outcome are `Populated` on the old graph |
| AssociationFixer.EntityGraphAssociationFixer.InitializeCollection | javax/src/main/java/com/mobecker/instancio/jpa/EntityGraphAssociationFixer.java:251-266 | a new empty collection of the attribute's type is stored in the attribute and returned |
| FixerScenarios.OrderMappedBys | testsuite/javax/src/test/java/com/mobecker/instancio/jpa/testsuite/EntityGraphAssociationFixerTest.java:62-80 | on `Order`, `orderForSet` maps `orderItems` and `orderForMap` maps `orderItemsById` |
| FixerScenarios.OneToOneOwnedSide | testsuite/javax/src/test/java/com/mobecker/instancio/jpa/testsuite/EntityGraphAssociationFixerTest.java:102-114 | fixing `order1.previous = order2` sets `order2.next` to `order1` |
| FixerScenarios.OneToOneOwningSide | testsuite/javax/src/test/java/com/mobecker/instancio/jpa/testsuite/EntityGraphAssociationFixerTest.java:117-129 | fixing `order1.next = order2` sets `order2.previous` to `order1` |
| FixerScenarios.RunOne | javax/src/main/java/com/mobecker/instancio/jpa/EntityGraphAssociationFixer.java:130-133 | a run of one write is that write |
| FixerScenarios.OrderForSetActions | testsuite/javax/src/test/java/com/mobecker/instancio/jpa/testsuite/EntityGraphAssociationFixerTest.java:132-146 | an item's `orderForSet` adds the item to its order's `orderItems` |
| FixerScenarios.ManyToOneAddsToSet | testsuite/javax/src/test/java/com/mobecker/instancio/jpa/testsuite/EntityGraphAssociationFixerTest.java:132-146 | fixing `orderItem1.orderForSet = order` leaves `order.orderItems` holding `orderItem2` and `orderItem1` |
| FixerScenarios.AddedToSet | testsuite/javax/src/test/java/com/mobecker/instancio/jpa/testsuite/EntityGraphAssociationFixerTest.java:132-146 | adding `orderItem1` to a set holding `orderItem2` appends it |
| FixerScenarios.OneToManyOverwrites | testsuite/javax/src/test/java/com/mobecker/instancio/jpa/testsuite/EntityGraphAssociationFixerTest.java:62-80 | fixing `order1.orderItems` sets the item's `orderForSet` from `order2` to `order1` |
| FixerScenarios.OrderItemsOwner | testsuite/javax/src/test/java/com/mobecker/instancio/jpa/testsuite/EntityGraphAssociationFixerTest.java:62-80 | `orderItems` is mapped by the item's `orderForSet`, which the fix sets |
| FixerScenarios.OneToManyOneSided | testsuite/javax/src/test/java/com/mobecker/instancio/jpa/testsuite/EntityGraphAssociationFixerTest.java:83-99 | a one-to-many without `mappedBy` leaves the item's `orderForSet` at `order2` |
| FixerScenarios.OrderForMapActions | testsuite/javax/src/test/java/com/mobecker/instancio/jpa/testsuite/EntityGraphAssociationFixerTest.java:62-80 | an item's `orderForMap` puts the item into its order's `orderItemsById` |
| FixerScenarios.ItemKey | testsuite/javax/src/test/java/com/mobecker/instancio/jpa/testsuite/EntityGraphAssociationFixerTest.java:62-80 | the item's key in `orderItemsById` is its id |
| FixerScenarios.ManyToOnePutsById | testsuite/javax/src/test/java/com/mobecker/instancio/jpa/testsuite/EntityGraphAssociationFixerTest.java:62-80 | fixing `orderItem.orderForMap = order` puts the item into `orderItemsById` under its id |
| FixerScenarios.PutIntoMap | testsuite/javax/src/test/java/com/mobecker/instancio/jpa/testsuite/EntityGraphAssociationFixerTest.java:62-80 | putting the item into an empty map gives the single entry under its id |
| FixerScenarios.ManyToOneNullMapStaysNull | javax/src/main/java/com/mobecker/instancio/jpa/EntityGraphAssociationFixer.java:277-279 | with `orderItemsById` null, the new map is never stored, so the attribute stays null |
| FixerScenarios.PopulateNullSetTwice | javax/src/main/java/com/mobecker/instancio/jpa/EntityGraphAssociationFixer.java:288-296 | populating a null set twice with one item gives one new `HashSet` holding the item once |
| FixerScenarios.KeyedActions | testsuite/javax/src/test/java/com/mobecker/instancio/jpa/testsuite/EntityGraphAssociationFixerTest.java:196-209 | the value's many-to-one `holder` adds it to `map` of its holder |
| FixerScenarios.KeyedKey | testsuite/javax/src/test/java/com/mobecker/instancio/jpa/testsuite/EntityGraphAssociationFixerTest.java:196-209 | with `@MapKey(name = "key")` the value's key is its `key` attribute |
| FixerScenarios.KeyedPut | testsuite/javax/src/test/java/com/mobecker/instancio/jpa/testsuite/EntityGraphAssociationFixerTest.java:196-209 | putting the value into the empty map gives the single entry under `"key1"` |
| FixerScenarios.ManyToOnePutsByMapKey | testsuite/javax/src/test/java/com/mobecker/instancio/jpa/testsuite/EntityGraphAssociationFixerTest.java:196-209 | fixing `mapValue1.holder = holder` puts the value into `holder.map` under its key |
| FixerScenarios.JoinedActions | testsuite/javax/src/test/java/com/mobecker/instancio/jpa/testsuite/EntityGraphAssociationFixerTest.java:211-225 | the value's many-to-one `holder` adds it to `map` of its holder |
| FixerScenarios.JoinedKey | testsuite/javax/src/test/java/com/mobecker/instancio/jpa/testsuite/EntityGraphAssociationFixerTest.java:211-225 | with `@MapKeyJoinColumn(name = "person_id")` the key is the `person` attribute, joined through `person_id` |
| FixerScenarios.JoinedPut | testsuite/javax/src/test/java/com/mobecker/instancio/jpa/testsuite/EntityGraphAssociationFixerTest.java:211-225 | putting the value into the empty map gives the single entry under its person |
| FixerScenarios.UnnamedJoinedKey | javax/src/main/java/com/mobecker/instancio/jpa/EntityGraphAssociationFixer.java:303-317 | with both columns unnamed, the lookup of "" finds `person`, whose value is `Ref(3)`, while this model's key is null |
| FixerScenarios.ManyToOnePutsByJoinColumn | testsuite/javax/src/test/java/com/mobecker/instancio/jpa/testsuite/EntityGraphAssociationFixerTest.java:211-225 | fixing `mapValue1.holder = holder` puts the value into `holder.map` under its `person` |
| FixerScenarios.Assoc1GoesToItsOwnSet | testsuite/javax/src/test/java/com/mobecker/instancio/jpa/testsuite/EntityGraphAssociationFixerTest.java:227-244 | an `Assoc1`'s `holder` adds it to `assoc1Set` only, although `assoc2Set` is mapped by `holder` too |
| FixerScenarios.MultiMappedBy | testsuite/javax/src/test/java/com/mobecker/instancio/jpa/testsuite/EntityGraphAssociationFixerTest.java:400-408 | both sets of the holder are mapped by `holder` |
| FixerScenarios.MultiElementType | testsuite/javax/src/test/java/com/mobecker/instancio/jpa/testsuite/EntityGraphAssociationFixerTest.java:400-408 | of the two, only `assoc1Set` holds `Assoc1` |
| FixerScenarios.MappedByContacts | testsuite/javax/src/test/java/com/mobecker/instancio/jpa/testsuite/EntityGraphAssociationFixerTest.java:301-313 | on `Person`, `orders` and `ordersByIdOwnedByContacts` are mapped by `contacts`, and `ordersByIdOwnedByContactsById` is not |
| FixerScenarios.MappedByContactsOrders | testsuite/javax/src/test/java/com/mobecker/instancio/jpa/testsuite/EntityGraphAssociationFixerTest.java:301-313 | among `orders` and the two map attributes, `orders` and `ordersByIdOwnedByContacts` are mapped by `contacts` |
| FixerScenarios.MappedByContactsTail | testsuite/javax/src/test/java/com/mobecker/instancio/jpa/testsuite/EntityGraphAssociationFixerTest.java:308-312 | of the two map attributes, only `ordersByIdOwnedByContacts` is mapped by `contacts` |
| FixerScenarios.OwningSideAddsToInverses | testsuite/javax/src/test/java/com/mobecker/instancio/jpa/testsuite/EntityGraphAssociationFixerTest.java:148-172 | fixing `order1.contacts` adds `order1` to `person.orders` and `person.ordersByIdOwnedByContacts` |
| FixerScenarios.OwningSetActions | javax/src/main/java/com/mobecker/instancio/jpa/EntityGraphAssociationFixer.java:223-248 | the owning side of a many-to-many set adds the owner to every inverse attribute mapped by it, for every element |
| FixerScenarios.InverseSetActions | javax/src/main/java/com/mobecker/instancio/jpa/EntityGraphAssociationFixer.java:223-248 | the inverse side of a many-to-many set adds the owner to the owning attribute of every element |
| FixerScenarios.OwnedSideActions | testsuite/javax/src/test/java/com/mobecker/instancio/jpa/testsuite/EntityGraphAssociationFixerTest.java:174-194 | fixing `person1.orders` adds `person1` to `order.contacts` |
| FixerScenarios.OwnedSideAddsToOwner | testsuite/javax/src/test/java/com/mobecker/instancio/jpa/testsuite/EntityGraphAssociationFixerTest.java:174-194 | after the fix `order.contacts` holds `person2` and `person1` |
| FixerScenarios.OwnedPut | testsuite/javax/src/test/java/com/mobecker/instancio/jpa/testsuite/EntityGraphAssociationFixerTest.java:174-194 | adding `person1` to a set holding `person2` appends it |
| Persister.Persisted | javax/src/main/java/com/mobecker/instancio/jpa/EntityGraphPersister.java:90 | after `persist(x)` the store contains `x`, and `x` is the latest persist call |
| Persister.GrewTrans | javax/src/main/java/com/mobecker/instancio/jpa/EntityGraphPersister.java:66-113 | the store only grows, transitively |
| Persister.GrewPersisted | javax/src/main/java/com/mobecker/instancio/jpa/EntityGraphPersister.java:90 | persisting a new entity grows the store |
| Persister.IsOwnedSide | javax/src/main/java/com/mobecker/instancio/jpa/EntityGraphPersister.java:115-117 | an attribute is the owned side exactly when its member declares a `mappedBy`; fails on a member that is neither field nor method |
| Persister.PersistsFirst | javax/src/main/java/com/mobecker/instancio/jpa/EntityGraphPersister.java:79-89 | the first loop follows exactly the insertable many-to-one and owning one-to-one attributes |
| Persister.PersistsLater | javax/src/main/java/com/mobecker/instancio/jpa/EntityGraphPersister.java:91-111 | the second loop follows exactly the owned one-to-one attributes and the insertable to-many attributes |
| Persister.CycleStep | javax/src/main/java/com/mobecker/instancio/jpa/EntityGraphPersister.java:70-76 | a cycle found at a successor of the path's end is a cycle below the path |
| Persister.CyclePop | javax/src/main/java/com/mobecker/instancio/jpa/EntityGraphPersister.java:77-112 | a cycle below the path with `x` pushed is a cycle at `x` |
| Persister.FollowsThrough | javax/src/main/java/com/mobecker/instancio/jpa/EntityGraphPersister.java:79-111 | a target of an attribute the walk follows is a successor of the instance |
| Persister.WalkedThen | javax/src/main/java/com/mobecker/instancio/jpa/EntityGraphPersister.java:66-113 | walking twice is a walk: the store only grows and no entity on the path is persisted |
| Persister.WalkedAround | javax/src/main/java/com/mobecker/instancio/jpa/EntityGraphPersister.java:77-112 | pushing `x`, walking, persisting `x` and walking on is a walk from the path without `x` |
| Persister.WalkedOffPath | javax/src/main/java/com/mobecker/instancio/jpa/EntityGraphPersister.java:112 | popping `x` off the path keeps a walk a walk |
| Persister.UnvisitedShrinks | javax/src/main/java/com/mobecker/instancio/jpa/EntityGraphPersister.java:77 | pushing an instance not on the path shrinks the set of unvisited instances |
| Persister.Persisted0 | javax/src/main/java/com/mobecker/instancio/jpa/EntityGraphPersister.java:66-113 | an instance already managed leaves the store and passes; one on the path, not yet managed, fails with "Cycle detected" on the path extended by it; the store only grows, with nothing on the path persisted; success leaves the entity contained; a reported cycle extends the path by steps the walk takes and ends at an instance already on it |
| Persister.ReferencedFirst | javax/src/main/java/com/mobecker/instancio/jpa/EntityGraphPersister.java:79-90 | an entity persisted by the walk is an entity, and every instance its first-loop attributes refer to was contained before it was persisted |
| Persister.PersistedFirst | javax/src/main/java/com/mobecker/instancio/jpa/EntityGraphPersister.java:79-89 | on success every first-loop target is contained; failures are cycles below the path |
| Persister.PersistedLater | javax/src/main/java/com/mobecker/instancio/jpa/EntityGraphPersister.java:91-111 | on success every second-loop target off the path is contained; failures are cycles below the path |
| Persister.PersistedLaterOne | javax/src/main/java/com/mobecker/instancio/jpa/EntityGraphPersister.java:92-109 | the same for one attribute of the second loop |
| Persister.PersistedAll | javax/src/main/java/com/mobecker/instancio/jpa/EntityGraphPersister.java:100-109 | on success every element off the path is contained; failures are cycles below the path |
| Persister.EntityStore.constructor | javax/src/main/java/com/mobecker/instancio/jpa/EntityGraphPersister.java:51-54 | a store holding the already-managed instances and no persist calls |
| Persister.EntityStore.Persist | javax/src/main/java/com/mobecker/instancio/jpa/EntityGraphPersister.java:90 | the store after the call is `Persisted` of the store before it |
| Persister.EntityGraphPersister.constructor | javax/src/main/java/com/mobecker/instancio/jpa/EntityGraphPersister.java:51-54 | the persister keeps its entity manager and metamodel |
| Persister.EntityGraphPersister.Persist | javax/src/main/java/com/mobecker/instancio/jpa/EntityGraphPersister.java:61-64 | the store and outcome are the walk's from an empty path |
| Persister.EntityGraphPersister.Persist0 | javax/src/main/java/com/mobecker/instancio/jpa/EntityGraphPersister.java:66-113 | the store and outcome are `Persisted0` of the old store |
| Persister.EntityGraphPersister.PersistLater | javax/src/main/java/com/mobecker/instancio/jpa/EntityGraphPersister.java:92-109 | the store and outcome are `PersistedLaterOne` of the old store |
| Persister.EntityGraphPersister.PersistAll | javax/src/main/java/com/mobecker/instancio/jpa/EntityGraphPersister.java:100-109 | the store and outcome are `PersistedAll` of the old store |
| PersisterScenarios.ItemFirst | javax/src/main/java/com/mobecker/instancio/jpa/EntityGraphPersister.java:79-88 | the first loop of an item follows only its `order` |
| PersisterScenarios.ItemLater | testsuite/javax/src/test/java/com/mobecker/instancio/jpa/testsuite/EntityGraphPersisterTest.java:86-98 | the second loop of an item follows nothing |
| PersisterScenarios.ItemPersisted | javax/src/main/java/com/mobecker/instancio/jpa/EntityGraphPersister.java:79-89 | an item is persisted after its `order` |
| PersisterScenarios.LoneItem | testsuite/javax/src/test/java/com/mobecker/instancio/jpa/testsuite/EntityGraphPersisterTest.java:71-83 | an item without an `order` is simply persisted |
| PersisterScenarios.OrderFirst | testsuite/javax/src/test/java/com/mobecker/instancio/jpa/testsuite/EntityGraphPersisterTest.java:71-98 | the first loop of an order follows nothing |
| PersisterScenarios.OrderFollowsItems | testsuite/javax/src/test/java/com/mobecker/instancio/jpa/testsuite/EntityGraphPersisterTest.java:71-98 | an order's `orderItems` are its successors |
| PersisterScenarios.OrderLater | testsuite/javax/src/test/java/com/mobecker/instancio/jpa/testsuite/EntityGraphPersisterTest.java:71-98 | the second loop of an order persists its items |
| PersisterScenarios.OrderPersisted | testsuite/javax/src/test/java/com/mobecker/instancio/jpa/testsuite/EntityGraphPersisterTest.java:71-98 | an order is persisted, then its items |
| PersisterScenarios.OneItem | testsuite/javax/src/test/java/com/mobecker/instancio/jpa/testsuite/EntityGraphPersisterTest.java:71-83 | a collection of one item without an `order` persists the item |
| PersisterScenarios.FlatItems | testsuite/javax/src/test/java/com/mobecker/instancio/jpa/testsuite/EntityGraphPersisterTest.java:71-83 | two items without an `order` are persisted in collection order |
| PersisterScenarios.FlatOrder | testsuite/javax/src/test/java/com/mobecker/instancio/jpa/testsuite/EntityGraphPersisterTest.java:71-83 | an order is persisted before its two items |
| PersisterScenarios.FlatOrderFirst | testsuite/javax/src/test/java/com/mobecker/instancio/jpa/testsuite/EntityGraphPersisterTest.java:71-83 | persisting the flat order logs the order, then its items, and succeeds |
| PersisterScenarios.ItemUnderOrder | javax/src/main/java/com/mobecker/instancio/jpa/EntityGraphPersister.java:79-110 | an item whose `order` holds it is persisted after the order, which skips the item on the path |
| PersisterScenarios.ItemAfterOrder | javax/src/main/java/com/mobecker/instancio/jpa/EntityGraphPersister.java:61-112 | persisting the item logs its order, then the item, and succeeds |
| PersisterScenarios.ParentFirst | javax/src/main/java/com/mobecker/instancio/jpa/EntityGraphPersister.java:79-89 | a category's `parent` is followed in the first loop |
| PersisterScenarios.ParentFails | javax/src/main/java/com/mobecker/instancio/jpa/EntityGraphPersister.java:84-87 | a failure of the parent stops the first loop with the same failure |
| PersisterScenarios.ParentPropagates | javax/src/main/java/com/mobecker/instancio/jpa/EntityGraphPersister.java:84-87 | a failure of the parent is the category's failure |
| PersisterScenarios.ParentCycle | javax/src/main/java/com/mobecker/instancio/jpa/EntityGraphPersister.java:70-76 | two categories that are each other's parent fail with the cycle 0, 1, 0 |

## Left out

- Reflection is not modelled: getters, setters and field access are reads and writes of a node's attribute map. The attribute order of the metamodel is the order of a sequence, and `findAny` takes the first match.
- A map key is a `Value`. An id-class key is the tuple of the id-class attribute values, and the no-argument constructor call that builds it is not modelled.
- A Java `HashSet` or `HashMap` is a list in insertion order, and object identity is the node's id. `equals`/`hashCode` of user classes are not modelled; membership compares identities.
- A to-one attribute that holds a value of the wrong shape reads as null.
- The `EntityManager` is reduced to the set of managed instances and the order of the `persist` calls. Transactions, flushes, database constraints and id generation are not modelled.
- Logging is left out.
- The provider version check behind `ignoreAttributeNullability` is a boolean parameter (`legacyProvider`). `JpaProviderVersionUtil` is not part of this model.
- The Instancio front end that builds the graphs and calls these classes is not part of this model.
- The `visited` set or list, which the Java code mutates and restores, is a value passed down the recursion.
- The persister's cycle message names the instances by node id. Java prints `class@identityHashCode`.
- A collection that the walk modifies while iterating it can raise `ConcurrentModificationException` in Java. The model iterates a snapshot and never raises it.
- Shrinker.EntityGraphShrinker.Shrink0: states that every target valid in the final graph is kept and that what remains is a subsequence of the old value, but not that every kept target is still valid at the end. A later step of the walk can invalidate a target kept earlier, and the Java code does not revisit it either.
- Shrinker.EntityGraphShrinker.Shrink: "no failure other than Cannot shrink" also needs every to-many value to be null or of its attribute's shape (`ToManyShaped`), because a map or collection attribute holding another kind of value throws ClassCast, as the casts in `shrink0` do.
- AssociationRules.ExtractMapKey: an unnamed `@MapKeyJoinColumn` is looked up under `<attribute>_KEY`, the corrected name of the Findings row. The code as written looks up "", which is also the name of an unnamed `@JoinColumn`: it keys the entry by the first attribute of the key type whose `@JoinColumn` is unnamed and puts it there. Where no attribute joins `<attribute>_KEY`, this model's key is null and no entry is put (`ExtractMapKeyUnnamedColumn`, `UnnamedJoinedKey`).
- A null element inside a collection, or a null value inside a map, cannot be represented: collection elements and map values are node ids.
- Two attributes that share one collection or map object are two separate values; aliasing between collections is not modelled.
- The many-to-many tests are restated rule by rule for the set attributes; the map attributes `contactsById`, `ordersByIdOwnedByContacts` and `ordersByIdOwnedByContactsById`, and the walk of `fixAssociations` over the whole graph, are not replayed for them.
- The scenario metamodels keep only the attributes that the rule in question reads. The flat order's items carry a null `order`, as in the flat entity classes.

## Findings

| source | as written | input that shows it | evidently intended | confidence | as-written member | corrected member |
|---|---|---|---|---|---|---|
| javax/src/main/java/com/mobecker/instancio/jpa/EntityGraphAssociationFixer.java:305-306 | the default column name is used only when `mapKeyJoinColumn.name()` is null, which an annotation element never is: an unnamed `@MapKeyJoinColumn` has name "" | a map attribute `m` annotated `@MapKeyJoinColumn` without a name: the code looks for a `@JoinColumn` named "" instead of `m_KEY`, and so matches any key-type attribute whose `@JoinColumn` is unnamed (`ExtractMapKeyUnnamedColumn`) | an empty name falls back to `<attribute>_KEY` | not executed | AssociationRules.MapKeyJoinColumnDefaultDiffers | AssociationRules.MapKeyJoinColumnName |
