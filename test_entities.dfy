/**
 * The entity classes of the unit tests, as the metamodel describes them: an
 * `Order` with an id and a one-to-many `orderItems`, an `OrderItem` with an
 * id and a many-to-one `order`, and single-attribute embeddables.
 */
module TestEntities {
  import opened Wrappers
  import opened Jpa

  const NoAnnotations := Annotations(None, None, None, None, None, None, None)

  function Singular(name: string, kind: AttrKind, optional: bool, isId: bool, target: TypeName, decl: TypeName): Attribute {
    Attribute(name, kind, kind in {ManyToOne, OneToOne}, optional, isId, target, decl, "", AnyCollection, "", Field(NoAnnotations))
  }

  function Plural(name: string, kind: AttrKind, element: TypeName, decl: TypeName): Attribute {
    Attribute(name, kind, true, true, false, "java.util.Set", decl, element, SetCollection, "", Field(NoAnnotations))
  }

  function IdOf(decl: TypeName): Attribute {
    Singular("id", Basic, false, true, "Long", decl)
  }

  function EntityWith(attrs: seq<Attribute>, id: Attribute): ManagedType {
    ManagedType(Entity, attrs, SingleId(id))
  }

  function EmbeddableWith(attrs: seq<Attribute>): ManagedType {
    ManagedType(Embeddable, attrs, IdClass([]))
  }

  const SingleLevelEntity := EntityWith([IdOf("SingleLevelEntity")], IdOf("SingleLevelEntity"))
  const Order := EntityWith([IdOf("Order"), Plural("orderItems", OneToMany, "OrderItem", "Order")], IdOf("Order"))
  const OptionalComponent := EmbeddableWith([Singular("name", Basic, true, false, "String", "OptionalComponent")])
  const MandatoryComponent := EmbeddableWith([Singular("name", Basic, false, false, "String", "MandatoryComponent")])

  function ItemOf(optional: bool): ManagedType {
    EntityWith([IdOf("OrderItem"), Singular("order", ManyToOne, optional, false, "Order", "OrderItem")], IdOf("OrderItem"))
  }
}
