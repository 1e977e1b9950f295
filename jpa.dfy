/**
 * The part of the JPA metamodel the entity-graph algorithms consult: managed
 * types, their attributes, and the mapping annotations found on each
 * attribute's Java member.
 */
module Jpa {
  import opened Wrappers

  /** A Java class, by name. */
  type TypeName = string

  datatype PersistenceType = Entity | Embeddable | MappedSuperclass | BasicType

  /** The persistent attribute type of an attribute. */
  datatype AttrKind =
    | Basic
    | Embedded
    | ManyToOne
    | OneToOne
    | OneToMany
    | ManyToMany
    | ElementCollection

  /** The collection type of a plural attribute. */
  datatype CollectionType = AnyCollection | SetCollection | ListCollection | MapCollection

  /** A `@JoinColumn` annotation: its `name` and `insertable` elements. */
  datatype JoinColumn = JoinColumn(name: string, insertable: bool)

  /**
   * The mapping annotations present on a Java member. `None` means the
   * annotation is absent; otherwise the element values are recorded, with
   * Java's defaults ("" for a name or `mappedBy`, true for `insertable`)
   * where the element is not written.
   */
  datatype Annotations = Annotations(
    oneToOne: Option<string>,         // @OneToOne, with its mappedBy
    oneToMany: Option<string>,        // @OneToMany, with its mappedBy
    manyToMany: Option<string>,       // @ManyToMany, with its mappedBy
    column: Option<bool>,             // @Column, with its insertable
    joinColumn: Option<JoinColumn>,   // @JoinColumn
    mapKey: Option<string>,           // @MapKey, with its name
    mapKeyJoinColumn: Option<string>) // @MapKeyJoinColumn, with its name

  /** The Java member an attribute is mapped through. */
  datatype Member = Field(annotations: Annotations) | Method(annotations: Annotations) | OtherMember

  /**
   * A persistent attribute. `isAssociation` is reported by the JPA provider
   * and is not derived from `kind`. `optional` and `isId` are meaningful for
   * singular attributes; `elementType`, `collection` and `keyJavaType` for
   * plural ones.
   */
  datatype Attribute = Attribute(
    name: string,
    kind: AttrKind,
    isAssociation: bool,
    optional: bool,
    isId: bool,
    javaType: TypeName,
    declaringType: TypeName,
    elementType: TypeName,
    collection: CollectionType,
    keyJavaType: TypeName,
    member: Member)

  /** How an identifiable type is identified. A type without an id has an empty id class. */
  datatype IdShape = SingleId(idAttribute: Attribute) | IdClass(idClassAttributes: seq<Attribute>)

  datatype ManagedType = ManagedType(persistence: PersistenceType, attributes: seq<Attribute>, id: IdShape)

  /** The metamodel: every managed type by its Java class. */
  datatype Metamodel = Metamodel(types: map<TypeName, ManagedType>)

  /** The exceptions the algorithms can raise. */
  datatype JpaError =
    | IllegalArgument                 // resolveMappedBy on a member that is neither field nor method
    | NotAnEntity(typ: TypeName)      // Metamodel.entity on a class that is not an entity
    | UnmanagedType(typ: TypeName)    // Metamodel.managedType on a class that is not managed
    | UnexpectedPersistenceType       // a to-many attribute over a mapped superclass
    | UnknownAttributeType(kind: AttrKind)
    | UnknownCollectionType
    | CannotShrink
    | CycleDetected(chain: seq<nat>)  // the visited path, then the node reached again
    | ClassCast                       // a to-many value that is not a Collection

  predicate IsSingular(a: Attribute) {
    a.kind in {Basic, Embedded, ManyToOne, OneToOne}
  }

  predicate IsPlural(a: Attribute) {
    !IsSingular(a)
  }

  /** The persistence type of a plural attribute's element type. */
  function ElementPersistence(mm: Metamodel, a: Attribute): PersistenceType {
    if a.elementType in mm.types then mm.types[a.elementType].persistence else BasicType
  }

  /** `Metamodel.managedType`: throws for a class that is not managed. */
  function ManagedTypeOf(mm: Metamodel, t: TypeName): (r: Result<ManagedType, JpaError>)
    ensures r.Failure? <==> t !in mm.types
    ensures r.Failure? ==> r.error == UnmanagedType(t)
    ensures r.Success? ==> r.value == mm.types[t]
  {
    if t in mm.types then Success(mm.types[t]) else Failure(UnmanagedType(t))
  }

  /** `Metamodel.entity`: throws for a class that is not an entity. */
  function EntityTypeOf(mm: Metamodel, t: TypeName): (r: Result<ManagedType, JpaError>)
    ensures r.Success? <==> ManagedTypeOf(mm, t).Success? && ManagedTypeOf(mm, t).value.persistence == Entity
    ensures r.Success? ==> r == ManagedTypeOf(mm, t)
    ensures r.Failure? ==> r.error == NotAnEntity(t)
  {
    if t in mm.types && mm.types[t].persistence == Entity then Success(mm.types[t]) else Failure(NotAnEntity(t))
  }

  /**
   * What a JPA provider guarantees of the metamodel it builds: the target of
   * every to-one or embedded attribute is a managed type, and attribute names
   * are distinct within a type.
   */
  predicate WellFormed(mm: Metamodel) {
    forall t | t in mm.types ::
      (forall i | 0 <= i < |mm.types[t].attributes| ::
         mm.types[t].attributes[i].kind in {Embedded, ManyToOne, OneToOne} ==>
           mm.types[t].attributes[i].javaType in mm.types) &&
      (forall i, j | 0 <= i < j < |mm.types[t].attributes| ::
         mm.types[t].attributes[i].name != mm.types[t].attributes[j].name)
  }
}
