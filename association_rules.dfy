/**
 * The decisions of EntityGraphAssociationFixer that read the graph but do
 * not change it: the attribute lookups, the map key of a new map entry, the
 * value an insertion leaves in a collection or map, and, for each kind of
 * association, the writes that make the other side agree. Every `fix*`
 * method of the fixer first does all of its lookups and only then writes,
 * so each is modelled as a list of `Action`s computed here and performed in
 * order by `Run`.
 */
module AssociationRules {
  import opened Wrappers
  import opened Jpa
  import opened EntityGraph
  import opened MetamodelUtil

  // ---------------------------------------------------------------------
  // The `find*` lookups.
  // ---------------------------------------------------------------------

  /**
   * The attributes of `kind` whose `mappedBy` resolves to `mappedBy`, in
   * order; resolving the member of an attribute of that kind that is neither
   * a field nor a method throws.
   */
  function WithMappedBy(attrs: seq<Attribute>, kind: AttrKind, mappedBy: string): (r: Result<seq<Attribute>, JpaError>)
    ensures r.Failure? <==> exists i | 0 <= i < |attrs| :: attrs[i].kind == kind && attrs[i].member.OtherMember?
    ensures r.Failure? ==> r.error == IllegalArgument
    ensures r.Success? ==> forall a :: a in r.value <==> a in attrs && a.kind == kind && MappedByIs(a.member, mappedBy)
  {
    if |attrs| == 0 then Success([])
    else
      assert forall i | 1 <= i < |attrs| :: attrs[i] == attrs[1..][i - 1];
      var rest := WithMappedBy(attrs[1..], kind, mappedBy);
      if attrs[0].kind != kind then rest
      else match ResolveMappedBy(attrs[0].member)
        case Failure(e) => Failure(e)
        case Success(mb) =>
          if rest.Failure? then rest
          else Success(if mb == Some(mappedBy) then [attrs[0]] + rest.value else rest.value)
  }

  /** The attributes whose element type is `elementType`, in order. */
  function WithElementType(attrs: seq<Attribute>, elementType: TypeName): (r: seq<Attribute>)
    ensures forall a :: a in r <==> a in attrs && a.elementType == elementType
  {
    if |attrs| == 0 then []
    else if attrs[0].elementType == elementType then [attrs[0]] + WithElementType(attrs[1..], elementType)
    else WithElementType(attrs[1..], elementType)
  }

  /**
   * `findReflectiveAttributesForManyToOne`: the one-to-many attributes mapped
   * by the many-to-one `m2o` whose element type declares `m2o`.
   */
  function ForManyToOne(attrs: seq<Attribute>, m2o: Attribute): (r: Result<seq<Attribute>, JpaError>)
    ensures r.Failure? <==> exists i | 0 <= i < |attrs| :: attrs[i].kind == OneToMany && attrs[i].member.OtherMember?
    ensures r.Failure? ==> r.error == IllegalArgument
    ensures r.Success? ==> forall a :: a in r.value <==>
      a in attrs && a.kind == OneToMany && MappedByIs(a.member, m2o.name) && a.elementType == m2o.declaringType
  {
    match WithMappedBy(attrs, OneToMany, m2o.name)
    case Failure(e) => Failure(e)
    case Success(found) => Success(WithElementType(found, m2o.declaringType))
  }

  /**
   * `find*WithAttributeName`: an attribute of `kind` called `name`. The
   * source's `findAny` on a sequential stream yields the first; names are
   * distinct within a type, so there is at most one.
   */
  function WithName(attrs: seq<Attribute>, kind: AttrKind, name: string): (r: Option<Attribute>)
    ensures r.Some? ==> r.value in attrs && r.value.kind == kind && r.value.name == name
    ensures r.None? <==> forall a | a in attrs :: !(a.kind == kind && a.name == name)
  {
    if |attrs| == 0 then None
    else if attrs[0].kind == kind && attrs[0].name == name then Some(attrs[0])
    else WithName(attrs[1..], kind, name)
  }

  // ---------------------------------------------------------------------
  // Map keys and collection creation.
  // ---------------------------------------------------------------------

  /** `initializeCollection`'s choice: a `HashSet` for a set, an `ArrayList` for a list or plain collection. */
  function NewCollection(ct: CollectionType): (r: Result<Container, JpaError>)
    ensures r.Failure? <==> ct == MapCollection
    ensures r.Failure? ==> r.error == UnknownCollectionType
    ensures r.Success? ==> (r.value == HashSetOf <==> ct == SetCollection)
  {
    match ct
    case SetCollection => Success(HashSetOf)
    case ListCollection => Success(ArrayListOf)
    case AnyCollection => Success(ArrayListOf)
    case MapCollection => Failure(UnknownCollectionType)
  }

  /** The `@MapKeyJoinColumn` on the member of a map attribute, with its `name`. */
  function MapKeyJoinColumnOf(a: Attribute): (r: Option<string>)
    ensures a.member.OtherMember? ==> r.None?
    ensures r.Some? ==> GetAnnotations(a).Some? && GetAnnotations(a).value.mapKeyJoinColumn == r
  {
    if GetAnnotations(a).Some? then GetAnnotations(a).value.mapKeyJoinColumn else None
  }

  /** The non-empty `name` of a `@MapKey` on the member of a map attribute. */
  function MapKeyNameOf(a: Attribute): (r: Option<string>)
    ensures a.member.OtherMember? ==> r.None?
    ensures r.Some? ==> r.value != "" && GetAnnotations(a).Some? && GetAnnotations(a).value.mapKey == r
    ensures GetAnnotations(a).Some? && GetAnnotations(a).value.mapKey.Some? && GetAnnotations(a).value.mapKey.value != "" ==> r.Some?
  {
    var ann := GetAnnotations(a);
    if ann.Some? && ann.value.mapKey.Some? && ann.value.mapKey.value != "" then ann.value.mapKey else None
  }

  /**
   * The key column name as the source computes it: it falls back to
   * `<attribute>_KEY` only when the annotation's `name` is null, which a Java
   * annotation element never is, so the written name is used as it stands,
   * the empty default included.
   */
  function MapKeyJoinColumnNameAsWritten(a: Attribute, written: string): (r: string)
    ensures r == written
  {
    written
  }

  /**
   * The key column name with the default of the JPA specification for an
   * unnamed `@MapKeyJoinColumn`: the attribute name followed by `_KEY`.
   */
  function MapKeyJoinColumnName(a: Attribute, written: string): (r: string)
    ensures r != ""
    ensures written != "" ==> r == written
    ensures written == "" ==> r == a.name + "_KEY"
  {
    if written == "" then a.name + "_KEY" else written
  }

  /** With the annotation's default name the source looks for a join column named "", unlike the default. */
  lemma MapKeyJoinColumnDefaultDiffers(a: Attribute)
    ensures MapKeyJoinColumnNameAsWritten(a, "") == ""
    ensures MapKeyJoinColumnName(a, "") == a.name + "_KEY" != MapKeyJoinColumnNameAsWritten(a, "")
  {
    assert |MapKeyJoinColumnName(a, "")| > 0;
  }

  /** `k` is mapped through `@JoinColumn(name = column)` and has the map's key type. */
  predicate JoinsKeyColumn(k: Attribute, column: string, keyType: TypeName)
    ensures JoinsKeyColumn(k, column, keyType) ==> k.javaType == keyType && !k.member.OtherMember?
    ensures (k.member.Field? && k.member.annotations.joinColumn.Some? &&
             k.member.annotations.joinColumn.value.name == column && k.javaType == keyType) ==> JoinsKeyColumn(k, column, keyType)
  {
    GetAnnotations(k).Some? && GetAnnotations(k).value.joinColumn.Some? &&
    GetAnnotations(k).value.joinColumn.value.name == column && k.javaType == keyType
  }

  /** The first attribute that `JoinsKeyColumn`. */
  function FirstKeyColumn(attrs: seq<Attribute>, column: string, keyType: TypeName): (r: Option<Attribute>)
    ensures r.Some? ==> r.value in attrs && JoinsKeyColumn(r.value, column, keyType)
    ensures r.None? <==> forall k | k in attrs :: !JoinsKeyColumn(k, column, keyType)
  {
    if |attrs| == 0 then None
    else if JoinsKeyColumn(attrs[0], column, keyType) then Some(attrs[0])
    else FirstKeyColumn(attrs[1..], column, keyType)
  }

  /** The values of the id-class attributes of `n`, in order: an instance of the id class. */
  function IdClassValue(n: Node, attrs: seq<Attribute>): (r: seq<Value>)
    ensures |r| == |attrs| && forall i | 0 <= i < |attrs| :: r[i] == Read(n, attrs[i].name)
  {
    if |attrs| == 0 then [] else [Read(n, attrs[0].name)] + IdClassValue(n, attrs[1..])
  }

  /**
   * `extractMapKey`: the key under which the entity `s` goes into the map
   * attribute `a`. The entity type of `s` is looked up first; then the key
   * is, by precedence, the attribute joined through the `@MapKeyJoinColumn`,
   * the attribute named by a non-empty `@MapKey`, the single id, or an
   * instance of the id class. A missing attribute yields a null key.
   */
  function ExtractMapKey(mm: Metamodel, nodes: map<NodeId, Node>, a: Attribute, s: NodeId): (r: Result<Value, JpaError>)
    requires s in nodes
    ensures r.Failure? <==> EntityTypeOf(mm, nodes[s].typ).Failure?
    ensures r.Failure? ==> r.error == NotAnEntity(nodes[s].typ)
    ensures r.Success? && MapKeyJoinColumnOf(a).Some? ==>
      var column := MapKeyJoinColumnName(a, MapKeyJoinColumnOf(a).value);
      ((exists k | k in mm.types[nodes[s].typ].attributes :: JoinsKeyColumn(k, column, a.keyJavaType)) ==>
        exists k | k in mm.types[nodes[s].typ].attributes ::
          JoinsKeyColumn(k, column, a.keyJavaType) && r.value == Read(nodes[s], k.name)) &&
      ((forall k | k in mm.types[nodes[s].typ].attributes :: !JoinsKeyColumn(k, column, a.keyJavaType)) ==> r.value == Null)
    ensures r.Success? && MapKeyJoinColumnOf(a).None? && MapKeyNameOf(a).Some? ==>
      ((exists k | k in mm.types[nodes[s].typ].attributes :: k.name == MapKeyNameOf(a).value) ==>
        exists k | k in mm.types[nodes[s].typ].attributes :: k.name == MapKeyNameOf(a).value && r.value == Read(nodes[s], k.name)) &&
      ((forall k | k in mm.types[nodes[s].typ].attributes :: k.name != MapKeyNameOf(a).value) ==> r.value == Null)
    ensures r.Success? && MapKeyJoinColumnOf(a).None? && MapKeyNameOf(a).None? ==>
      match mm.types[nodes[s].typ].id
      case SingleId(id) => r.value == Read(nodes[s], id.name)
      case IdClass(attrs) =>
        (r.value.Composite? && |r.value.parts| == |attrs| &&
         forall i | 0 <= i < |attrs| :: r.value.parts[i] == Read(nodes[s], attrs[i].name))
  {
    match EntityTypeOf(mm, nodes[s].typ)
    case Failure(e) => Failure(e)
    case Success(t) =>
      if MapKeyJoinColumnOf(a).Some? then
        var column := MapKeyJoinColumnName(a, MapKeyJoinColumnOf(a).value);
        match FirstKeyColumn(t.attributes, column, a.keyJavaType)
        case Some(k) => Success(Read(nodes[s], k.name))
        case None => Success(Null)
      else if MapKeyNameOf(a).Some? then
        match FindByName(t.attributes, MapKeyNameOf(a).value)
        case Some(k) => Success(Read(nodes[s], k.name))
        case None => Success(Null)
      else
        match t.id
        case SingleId(id) => Success(Read(nodes[s], id.name))
        case IdClass(attrs) => Success(Composite(IdClassValue(nodes[s], attrs)))
  }

  /**
   * A `@MapKeyJoinColumn` with a written name is looked up under exactly that
   * name, as the source does; only the unnamed one is looked up under the
   * default instead of "".
   */
  lemma ExtractMapKeyWrittenColumn(mm: Metamodel, nodes: map<NodeId, Node>, a: Attribute, s: NodeId)
    requires s in nodes && MapKeyJoinColumnOf(a).Some? && MapKeyJoinColumnOf(a).value != ""
    requires EntityTypeOf(mm, nodes[s].typ).Success?
    ensures ExtractMapKey(mm, nodes, a, s) ==
      Success(match FirstKeyColumn(mm.types[nodes[s].typ].attributes, MapKeyJoinColumnNameAsWritten(a, MapKeyJoinColumnOf(a).value), a.keyJavaType)
              case Some(k) => Read(nodes[s], k.name)
              case None => Null)
  {
  }

  /**
   * With an unnamed `@MapKeyJoinColumn` the source looks for a `@JoinColumn`
   * named "", which is what an unnamed `@JoinColumn` has: it keys the entry by
   * the first such attribute of the key type. Where no attribute joins the
   * default `<attribute>_KEY`, this model's key is null instead, and the entry
   * is not put.
   */
  lemma ExtractMapKeyUnnamedColumn(mm: Metamodel, nodes: map<NodeId, Node>, a: Attribute, s: NodeId, k: Attribute)
    requires s in nodes && MapKeyJoinColumnOf(a) == Some("")
    requires EntityTypeOf(mm, nodes[s].typ).Success?
    requires FirstKeyColumn(mm.types[nodes[s].typ].attributes, MapKeyJoinColumnNameAsWritten(a, ""), a.keyJavaType) == Some(k)
    requires forall j | j in mm.types[nodes[s].typ].attributes :: !JoinsKeyColumn(j, a.name + "_KEY", a.keyJavaType)
    requires Read(nodes[s], k.name) != Null
    ensures ExtractMapKey(mm, nodes, a, s) == Success(Null)
    ensures ExtractMapKey(mm, nodes, a, s) != Success(Read(nodes[s], k.name))
  {
  }

  // ---------------------------------------------------------------------
  // Insertion into the other side's collection or map.
  // ---------------------------------------------------------------------

  /** `ys` starts with `xs`. */
  predicate Extends<T(==)>(xs: seq<T>, ys: seq<T>) {
    |xs| <= |ys| && ys[..|xs|] == xs
  }

  predicate NoDuplicates<T(==)>(xs: seq<T>) {
    forall i, j | 0 <= i < j < |xs| :: xs[i] != xs[j]
  }

  /**
   * The cast of a to-many value to `Map` for a map attribute, to `Collection`
   * otherwise; null passes.
   */
  function CastToMany(a: Attribute, v: Value): (r: Result<Value, JpaError>)
    ensures r.Success? <==> v == Null || (a.collection == MapCollection && v.MapOf?) || (a.collection != MapCollection && v.Coll?)
    ensures r.Success? ==> r.value == v
    ensures r.Failure? ==> r.error == ClassCast
  {
    if v == Null || (a.collection == MapCollection && v.MapOf?) || (a.collection != MapCollection && v.Coll?) then Success(v)
    else Failure(ClassCast)
  }

  /**
   * `populateCollectionOrMap(t, a, s)`: the graph after `s` is put into the
   * attribute `a` of `t`.
   * - A map attribute gets the entry (key, `s`), the key from `ExtractMapKey`,
   *   replacing an entry with that key; a null key is skipped, and so is a
   *   null map, for the source puts into a new map that it never stores.
   * - A collection gets `s` appended unless it already holds it; a null
   *   collection is first replaced by a new empty one.
   */
  function Populated(mm: Metamodel, nodes: map<NodeId, Node>, t: NodeId, a: Attribute, s: NodeId): (r: Result<map<NodeId, Node>, JpaError>)
    requires t in nodes && s in nodes
    ensures r.Failure? <==> (CastToMany(a, Read(nodes[t], a.name)).Failure? ||
                             (a.collection == MapCollection && EntityTypeOf(mm, nodes[s].typ).Failure?))
    ensures r.Failure? ==> r.error in {ClassCast, NotAnEntity(nodes[s].typ)}
    ensures r.Success? ==> r.value.Keys == nodes.Keys && r.value[t].typ == nodes[t].typ
    ensures r.Success? ==> forall y | y in nodes && y != t :: r.value[y] == nodes[y]
    ensures r.Success? ==> forall name | name != a.name :: Read(r.value[t], name) == Read(nodes[t], name)
    ensures r.Success? && a.collection != MapCollection ==>
      var v, w := Read(nodes[t], a.name), Read(r.value[t], a.name);
      w.Coll? && s in w.elems &&
      (v.Coll? ==> w.container == v.container && Extends(v.elems, w.elems) && (NoDuplicates(v.elems) ==> NoDuplicates(w.elems))) &&
      (v == Null ==> w.elems == [s] && w.container == NewCollection(a.collection).value)
    ensures r.Success? && a.collection == MapCollection ==>
      var v, w, key := Read(nodes[t], a.name), Read(r.value[t], a.name), ExtractMapKey(mm, nodes, a, s).value;
      if v.MapOf? && key != Null then w.MapOf? && MapGet(w.entries, key) == Some(s) &&
        Extends(MapKeys(v.entries), MapKeys(w.entries)) &&
        forall k | k != key :: MapGet(w.entries, k) == MapGet(v.entries, k)
      else r.value == nodes
  {
    var v := Read(nodes[t], a.name);
    if CastToMany(a, v).Failure? then Failure(ClassCast)
    else if a.collection == MapCollection then
      match ExtractMapKey(mm, nodes, a, s)
      case Failure(e) => Failure(e)
      case Success(key) =>
        if v.MapOf? && key != Null then Success(nodes[t := WithValue(nodes[t], a.name, PutEntry(v, key, s))])
        else Success(nodes)
    else if v.Coll? && s in v.elems then Success(nodes)
    else Success(nodes[t := WithValue(nodes[t], a.name, Inserted(v, a.collection, s))])
  }

  /** A collection after `add` unless it `contains` the element; a null collection is first replaced by a new empty one. */
  function Inserted(v: Value, ct: CollectionType, s: NodeId): (w: Value)
    requires ct != MapCollection && (v == Null || v.Coll?)
    ensures w.Coll? && s in w.elems
    ensures v.Coll? ==> w.container == v.container && Extends(v.elems, w.elems) && (NoDuplicates(v.elems) ==> NoDuplicates(w.elems))
    ensures v.Coll? && s in v.elems ==> w == v
    ensures v == Null ==> w.elems == [s] && w.container == NewCollection(ct).value
    ensures forall ids | RefersWithin(v, ids) && s in ids :: RefersWithin(w, ids)
  {
    if v.Coll? then
      if s in v.elems then v
      else
        assert (v.elems + [s])[..|v.elems|] == v.elems;
        Coll(v.container, v.elems + [s])
    else Coll(NewCollection(ct).value, [s])
  }

  /** A map after `put(key, s)`. */
  function PutEntry(v: Value, key: Value, s: NodeId): (w: Value)
    requires v.MapOf?
    ensures w.MapOf? && MapGet(w.entries, key) == Some(s)
    ensures Extends(MapKeys(v.entries), MapKeys(w.entries))
    ensures forall k | k != key :: MapGet(w.entries, k) == MapGet(v.entries, k)
    ensures forall ids | RefersWithin(v, ids) && s in ids :: RefersWithin(w, ids)
  {
    MapPutGet(v.entries, key, s);
    MapPutKeys(v.entries, key, s);
    MapOf(MapPut(v.entries, key, s))
  }

  lemma MapPutKeys(entries: seq<(Value, NodeId)>, key: Value, value: NodeId)
    ensures Extends(MapKeys(entries), MapKeys(MapPut(entries, key, value)))
  {
    var r := MapPut(entries, key, value);
    assert MapKeys(r)[..|entries|] == MapKeys(entries);
  }

  /** Putting the same element into the same collection again changes nothing: fixing twice adds no duplicate. */
  lemma PopulatedTwice(mm: Metamodel, nodes: map<NodeId, Node>, t: NodeId, a: Attribute, s: NodeId)
    requires t in nodes && s in nodes && a.collection != MapCollection
    requires Read(nodes[t], a.name) == Null || Read(nodes[t], a.name).Coll?
    ensures Populated(mm, nodes, t, a, s).Success?
    ensures Populated(mm, Populated(mm, nodes, t, a, s).value, t, a, s) == Populated(mm, nodes, t, a, s)
  {
  }

  // ---------------------------------------------------------------------
  // The writes of the fix rules.
  // ---------------------------------------------------------------------

  /**
   * One write of a fix rule: `setAttributeValue(target, attribute, value)` of
   * a reference, or `populateCollectionOrMap(target, attr, elem)`.
   */
  datatype Action =
    | SetRef(target: NodeId, attrName: string, value: NodeId)
    | AddTo(target: NodeId, attr: Attribute, elem: NodeId)

  /** The instance a write puts into the target. */
  function Written(act: Action): NodeId {
    if act.SetRef? then act.value else act.elem
  }

  /** The name of the attribute a write changes. */
  function AttrName(act: Action): string {
    if act.SetRef? then act.attrName else act.attr.name
  }

  /** The outcome of a step that may throw: the new graph, or the old one and the exception. */
  function Performed(nodes: map<NodeId, Node>, r: Result<map<NodeId, Node>, JpaError>): (map<NodeId, Node>, Outcome<JpaError>) {
    match r
    case Success(next) => (next, Pass)
    case Failure(e) => (nodes, Fail(e))
  }

  /** The graph after one write. */
  function Step(mm: Metamodel, nodes: map<NodeId, Node>, act: Action): (r: Result<map<NodeId, Node>, JpaError>)
    ensures r.Success? ==> r.value.Keys == nodes.Keys && forall y | y in nodes :: r.value[y].typ == nodes[y].typ
    ensures r.Failure? ==> r.error == ClassCast || r.error.NotAnEntity?
  {
    match act
    case SetRef(t, name, v) =>
      if t in nodes then Success(nodes[t := WithValue(nodes[t], name, Ref(v))]) else Success(nodes)
    case AddTo(t, a, s) =>
      if t in nodes && s in nodes then Populated(mm, nodes, t, a, s) else Success(nodes)
  }

  /** The writes done in order; the first one that throws ends the run, its predecessors done. */
  function Run(mm: Metamodel, nodes: map<NodeId, Node>, acts: seq<Action>): (r: (map<NodeId, Node>, Outcome<JpaError>))
    ensures r.0.Keys == nodes.Keys && forall y | y in nodes :: r.0[y].typ == nodes[y].typ
    ensures r.1.Fail? ==> r.1.error == ClassCast || r.1.error.NotAnEntity?
    decreases |acts|
  {
    if |acts| == 0 then (nodes, Pass)
    else match Step(mm, nodes, acts[0])
      case Failure(e) => (nodes, Fail(e))
      case Success(next) => Run(mm, next, acts[1..])
  }

  function AddToAll(targets: seq<NodeId>, e: Attribute, s: NodeId): (r: seq<Action>)
    ensures forall act | act in r :: act.AddTo? && act.target in targets && act.attr == e && act.elem == s
    ensures forall t | t in targets :: AddTo(t, e, s) in r
  {
    if |targets| == 0 then [] else [AddTo(targets[0], e, s)] + AddToAll(targets[1..], e, s)
  }

  function SetInAll(targets: seq<NodeId>, name: string, s: NodeId): (r: seq<Action>)
    ensures forall act | act in r :: act.SetRef? && act.target in targets && act.attrName == name && act.value == s
    ensures forall t | t in targets :: SetRef(t, name, s) in r
  {
    if |targets| == 0 then [] else [SetRef(targets[0], name, s)] + SetInAll(targets[1..], name, s)
  }

  /** The same element added to each attribute of `ends` of each of `targets`, attribute by attribute. */
  function AddEach(targets: seq<NodeId>, ends: seq<Attribute>, s: NodeId): (r: seq<Action>)
    ensures forall act | act in r :: act.AddTo? && act.target in targets && act.attr in ends && act.elem == s
    ensures forall t, e | t in targets && e in ends :: AddTo(t, e, s) in r
  {
    if |ends| == 0 then []
    else
      AddToAll(targets, ends[0], s) + AddEach(targets, ends[1..], s)
  }

  /** The same reference written into each attribute of `names` of each of `targets`. */
  function SetEach(targets: seq<NodeId>, names: seq<string>, s: NodeId): (r: seq<Action>)
    ensures forall act | act in r :: act.SetRef? && act.target in targets && act.attrName in names && act.value == s
    ensures forall t, n | t in targets && n in names :: SetRef(t, n, s) in r
  {
    if |names| == 0 then []
    else
      SetInAll(targets, names[0], s) + SetEach(targets, names[1..], s)
  }

  function Names(attrs: seq<Attribute>): (r: seq<string>)
    ensures |r| == |attrs| && forall i | 0 <= i < |attrs| :: r[i] == attrs[i].name
  {
    if |attrs| == 0 then [] else [attrs[0].name] + Names(attrs[1..])
  }

  /** The attributes of a managed type; none for an unmanaged class. */
  function AttributesOfType(mm: Metamodel, t: TypeName): seq<Attribute> {
    if t in mm.types then mm.types[t].attributes else []
  }

  /** The instances a to-many value holds: a map's values or a collection's elements; none for null. */
  function Members(v: Value): seq<NodeId> {
    match v
    case MapOf(entries) => MapValues(entries)
    case Coll(_, elems) => elems
    case _ => []
  }

  /**
   * `fixManyToOneAssociation`: `s` is added to every one-to-many attribute of
   * the target `V` that is mapped by `a` and whose element type declares `a`.
   */
  function ManyToOneActions(mm: Metamodel, nodes: map<NodeId, Node>, s: NodeId, a: Attribute): (r: Result<seq<Action>, JpaError>)
    requires s in nodes
    ensures !Read(nodes[s], a.name).Ref? ==> r == Success([])
    ensures r.Failure? ==> r.error in {NotAnEntity(a.javaType), IllegalArgument}
    ensures r.Success? ==> forall act | act in r.value :: act.AddTo? && act.elem == s && act.target == Read(nodes[s], a.name).id
    ensures r.Success? && Read(nodes[s], a.name).Ref? ==> forall e :: AddTo(Read(nodes[s], a.name).id, e, s) in r.value <==>
      e in AttributesOfType(mm, a.javaType) && e.kind == OneToMany && MappedByIs(e.member, a.name) && e.elementType == a.declaringType
  {
    var v := Read(nodes[s], a.name);
    if !v.Ref? then Success([])
    else match EntityTypeOf(mm, a.javaType)
      case Failure(e) => Failure(e)
      case Success(endType) =>
        match ForManyToOne(endType.attributes, a)
        case Failure(e) => Failure(e)
        case Success(ends) => Success(AddEach([v.id], ends, s))
  }

  /**
   * `fixOneToOneAssociation`: on the inverse side (`mappedBy` = m) the
   * one-to-one attribute m of the target is set to `s`; on the owning side
   * every one-to-one attribute of the target mapped by `a` is.
   */
  function OneToOneActions(mm: Metamodel, nodes: map<NodeId, Node>, s: NodeId, a: Attribute): (r: Result<seq<Action>, JpaError>)
    requires s in nodes
    ensures !Read(nodes[s], a.name).Ref? ==> r == Success([])
    ensures r.Failure? ==> r.error in {NotAnEntity(a.javaType), IllegalArgument}
    ensures r.Success? ==> forall act | act in r.value :: act.SetRef? && act.value == s && act.target == Read(nodes[s], a.name).id
    ensures r.Success? && Read(nodes[s], a.name).Ref? && ResolveMappedBy(a.member) == Success(None) ==>
      forall e | e in AttributesOfType(mm, a.javaType) && e.kind == OneToOne && MappedByIs(e.member, a.name) ::
        SetRef(Read(nodes[s], a.name).id, e.name, s) in r.value
    ensures r.Success? && Read(nodes[s], a.name).Ref? && ResolveMappedBy(a.member).Success? && ResolveMappedBy(a.member).value.Some? ==>
      var m := ResolveMappedBy(a.member).value.value;
      (forall act | act in r.value :: act.attrName == m) &&
      ((exists e | e in AttributesOfType(mm, a.javaType) :: e.kind == OneToOne && e.name == m) ==>
         SetRef(Read(nodes[s], a.name).id, m, s) in r.value)
  {
    var v := Read(nodes[s], a.name);
    if !v.Ref? then Success([])
    else match ResolveMappedBy(a.member)
      case Failure(e) => Failure(e)
      case Success(mappedBy) =>
        match EntityTypeOf(mm, a.javaType)
        case Failure(e) => Failure(e)
        case Success(endType) =>
          if mappedBy.Some? then
            match WithName(endType.attributes, OneToOne, mappedBy.value)
            case Some(e) => Success([SetRef(v.id, e.name, s)])
            case None => Success([])
          else
            match WithMappedBy(endType.attributes, OneToOne, a.name)
            case Failure(e) => Failure(e)
            case Success(ends) =>
              var names := Names(ends);
              assert forall e | e in ends :: e.name in names;
              Success(SetEach([v.id], names, s))
  }

  /**
   * `fixOneToManyAssociation`: with `mappedBy` = m, the many-to-one attribute
   * m of every element or map value is set to `s`; without, nothing changes.
   */
  function OneToManyActions(mm: Metamodel, nodes: map<NodeId, Node>, s: NodeId, a: Attribute): (r: Result<seq<Action>, JpaError>)
    requires s in nodes
    ensures CastToMany(a, Read(nodes[s], a.name)).Failure? ==> r == Failure(ClassCast)
    ensures Read(nodes[s], a.name) == Null || ResolveMappedBy(a.member) == Success(None) ==> r.Success? ==> r.value == []
    ensures r.Failure? ==> r.error in {ClassCast, NotAnEntity(a.elementType), IllegalArgument}
    ensures r.Success? ==> forall act | act in r.value ::
      act.SetRef? && act.value == s && act.target in Members(Read(nodes[s], a.name)) &&
      ResolveMappedBy(a.member) == Success(Some(act.attrName))
    ensures (r.Success? && ResolveMappedBy(a.member).Success? && ResolveMappedBy(a.member).value.Some? &&
             WithName(AttributesOfType(mm, a.elementType), ManyToOne, ResolveMappedBy(a.member).value.value).Some?) ==>
      forall y | y in Members(Read(nodes[s], a.name)) :: SetRef(y, ResolveMappedBy(a.member).value.value, s) in r.value
  {
    match CastToMany(a, Read(nodes[s], a.name))
    case Failure(e) => Failure(e)
    case Success(v) =>
      if v == Null then Success([])
      else match ResolveMappedBy(a.member)
        case Failure(e) => Failure(e)
        case Success(mappedBy) =>
          if mappedBy.None? then Success([])
          else match EntityTypeOf(mm, a.elementType)
            case Failure(e) => Failure(e)
            case Success(endType) =>
              match WithName(endType.attributes, ManyToOne, mappedBy.value)
              case Some(e) => Success(SetEach(Members(v), [e.name], s))
              case None => Success([])
  }

  /**
   * `fixManyToManyAssociation`: `s` is added, for every element or map value,
   * to the attribute named by `mappedBy` on the inverse side, and to every
   * many-to-many attribute mapped by `a` on the owning side.
   */
  function ManyToManyActions(mm: Metamodel, nodes: map<NodeId, Node>, s: NodeId, a: Attribute): (r: Result<seq<Action>, JpaError>)
    requires s in nodes
    ensures CastToMany(a, Read(nodes[s], a.name)).Failure? ==> r == Failure(ClassCast)
    ensures Read(nodes[s], a.name) == Null ==> r == Success([])
    ensures r.Failure? ==> r.error in {ClassCast, NotAnEntity(a.elementType), IllegalArgument}
    ensures r.Success? ==> forall act | act in r.value ::
      act.AddTo? && act.elem == s && act.target in Members(Read(nodes[s], a.name)) &&
      act.attr in AttributesOfType(mm, a.elementType) && act.attr.kind == ManyToMany
    ensures r.Success? && ResolveMappedBy(a.member) == Success(None) ==>
      forall y, e | y in Members(Read(nodes[s], a.name)) && e in AttributesOfType(mm, a.elementType) &&
        e.kind == ManyToMany && MappedByIs(e.member, a.name) :: AddTo(y, e, s) in r.value
    ensures r.Success? && ResolveMappedBy(a.member).Success? && ResolveMappedBy(a.member).value.Some? ==>
      (forall act | act in r.value :: act.attr.name == ResolveMappedBy(a.member).value.value) &&
      (WithName(AttributesOfType(mm, a.elementType), ManyToMany, ResolveMappedBy(a.member).value.value).Some? ==>
         forall y | y in Members(Read(nodes[s], a.name)) ::
           AddTo(y, WithName(AttributesOfType(mm, a.elementType), ManyToMany, ResolveMappedBy(a.member).value.value).value, s) in r.value)
  {
    match CastToMany(a, Read(nodes[s], a.name))
    case Failure(e) => Failure(e)
    case Success(v) =>
      if v == Null then Success([])
      else match ResolveMappedBy(a.member)
        case Failure(e) => Failure(e)
        case Success(mappedBy) =>
          match EntityTypeOf(mm, a.elementType)
          case Failure(e) => Failure(e)
          case Success(endType) =>
            if mappedBy.Some? then
              match WithName(endType.attributes, ManyToMany, mappedBy.value)
              case Some(e) => Success(AddEach(Members(v), [e], s))
              case None => Success([])
            else
              match WithMappedBy(endType.attributes, ManyToMany, a.name)
              case Failure(e) => Failure(e)
              case Success(ends) => Success(AddEach(Members(v), ends, s))
  }

  /** The dispatch of `fixAssociations0` on the kind of an association attribute. */
  function RuleActions(mm: Metamodel, nodes: map<NodeId, Node>, s: NodeId, a: Attribute): (r: Result<seq<Action>, JpaError>)
    requires s in nodes
    ensures a.kind !in {ManyToOne, OneToOne, OneToMany, ManyToMany} <==> r == Failure(UnknownAttributeType(a.kind))
    ensures r.Success? ==> forall act | act in r.value :: Written(act) == s
  {
    match a.kind
    case ManyToOne => ManyToOneActions(mm, nodes, s, a)
    case OneToOne => OneToOneActions(mm, nodes, s, a)
    case OneToMany => OneToManyActions(mm, nodes, s, a)
    case ManyToMany => ManyToManyActions(mm, nodes, s, a)
    case _ => Failure(UnknownAttributeType(a.kind))
  }

  // ---------------------------------------------------------------------
  // What a run of writes does.
  // ---------------------------------------------------------------------

  /** Some write of `acts` changes attribute `name` of `y`. */
  predicate Touched(acts: seq<Action>, y: NodeId, name: string) {
    exists i | 0 <= i < |acts| :: acts[i].target == y && AttrName(acts[i]) == name
  }

  /** No collection loses an element or changes class, and no map loses a key. */
  predicate GrowsValue(v: Value, w: Value) {
    (v.Coll? ==> w.Coll? && w.container == v.container && Extends(v.elems, w.elems)) &&
    (v.MapOf? ==> w.MapOf? && Extends(MapKeys(v.entries), MapKeys(w.entries)))
  }

  ghost predicate Grows(before: map<NodeId, Node>, after: map<NodeId, Node>) {
    before.Keys == after.Keys &&
    forall y, name | y in before :: GrowsValue(Read(before[y], name), Read(after[y], name))
  }

  lemma ExtendsTrans<T>(xs: seq<T>, ys: seq<T>, zs: seq<T>)
    requires Extends(xs, ys) && Extends(ys, zs)
    ensures Extends(xs, zs)
  {
    assert zs[..|xs|] == zs[..|ys|][..|xs|];
  }

  lemma GrowsTrans(a: map<NodeId, Node>, b: map<NodeId, Node>, c: map<NodeId, Node>)
    requires Grows(a, b) && Grows(b, c)
    ensures Grows(a, c)
  {
    forall y, name | y in a ensures GrowsValue(Read(a[y], name), Read(c[y], name)) {
      var u, v, w := Read(a[y], name), Read(b[y], name), Read(c[y], name);
      assert GrowsValue(u, v) && GrowsValue(v, w);
      if u.Coll? { ExtendsTrans(u.elems, v.elems, w.elems); }
      if u.MapOf? { ExtendsTrans(MapKeys(u.entries), MapKeys(v.entries), MapKeys(w.entries)); }
    }
  }

  /** Writing references: each named attribute ends up referring to `s`, and nothing else changes. */
  lemma {:induction false} RunSetRefs(mm: Metamodel, nodes: map<NodeId, Node>, acts: seq<Action>, s: NodeId)
    requires forall act | act in acts :: act.SetRef? && act.value == s
    ensures Run(mm, nodes, acts).1 == Pass
    ensures forall y, name | y in nodes ::
      Read(Run(mm, nodes, acts).0[y], name) == if SetRef(y, name, s) in acts then Ref(s) else Read(nodes[y], name)
    decreases |acts|
  {
    if |acts| > 0 {
      var next := Step(mm, nodes, acts[0]).value;
      RunSetRefs(mm, next, acts[1..], s);
      forall y, name | y in nodes
        ensures Read(Run(mm, nodes, acts).0[y], name) == if SetRef(y, name, s) in acts then Ref(s) else Read(nodes[y], name)
      {
        assert acts == [acts[0]] + acts[1..];
        assert SetRef(y, name, s) in acts <==> SetRef(y, name, s) == acts[0] || SetRef(y, name, s) in acts[1..];
      }
    }
  }

  /** One insertion grows the graph and changes only its own attribute. */
  lemma StepAddTo(mm: Metamodel, nodes: map<NodeId, Node>, act: Action, s: NodeId)
    requires act.AddTo? && act.elem == s
    requires Step(mm, nodes, act).Success?
    ensures Grows(nodes, Step(mm, nodes, act).value)
    ensures forall y, name | y in nodes && !(y == act.target && name == act.attr.name) ::
      Read(Step(mm, nodes, act).value[y], name) == Read(nodes[y], name)
    ensures act.target in nodes && s in nodes && act.attr.collection != MapCollection ==>
      var w := Read(Step(mm, nodes, act).value[act.target], act.attr.name);
      w.Coll? && s in w.elems
    ensures act.target in nodes && s in nodes && act.attr.collection == MapCollection ==>
      var v, w := Read(nodes[act.target], act.attr.name), Read(Step(mm, nodes, act).value[act.target], act.attr.name);
      var key := ExtractMapKey(mm, nodes, act.attr, s);
      key.Success? && (v.MapOf? && key.value != Null ==> w.MapOf? && MapGet(w.entries, key.value) == Some(s))
  {
    var next := Step(mm, nodes, act).value;
    if act.target in nodes && s in nodes {
      var t, a := act.target, act.attr;
      forall y, name | y in nodes ensures GrowsValue(Read(nodes[y], name), Read(next[y], name)) {
        if y == t && name == a.name {
          var v := Read(nodes[t], a.name);
          assert CastToMany(a, v).Success?;
        }
      }
    }
  }

  /**
   * Inserting `s` into collections and maps: no collection or map loses an
   * entry, attributes no write names keep their values, and when the run
   * does not throw, `s` is in every collection it was added to.
   */
  lemma {:induction false} RunAddTos(mm: Metamodel, nodes: map<NodeId, Node>, acts: seq<Action>, s: NodeId)
    requires forall act | act in acts :: act.AddTo? && act.elem == s
    ensures Grows(nodes, Run(mm, nodes, acts).0)
    ensures forall y, name | y in nodes && !Touched(acts, y, name) :: Read(Run(mm, nodes, acts).0[y], name) == Read(nodes[y], name)
    ensures Run(mm, nodes, acts).1 == Pass && s in nodes ==>
      forall act | act in acts && act.target in nodes && act.attr.collection != MapCollection ::
        Read(Run(mm, nodes, acts).0[act.target], act.attr.name).Coll? && s in Read(Run(mm, nodes, acts).0[act.target], act.attr.name).elems
    decreases |acts|
  {
    if |acts| > 0 && Step(mm, nodes, acts[0]).Success? {
      var next := Step(mm, nodes, acts[0]).value;
      var last := Run(mm, nodes, acts).0;
      assert acts == [acts[0]] + acts[1..];
      StepAddTo(mm, nodes, acts[0], s);
      RunAddTos(mm, next, acts[1..], s);
      GrowsTrans(nodes, next, last);
      forall y, name | y in nodes && !Touched(acts, y, name) ensures Read(last[y], name) == Read(nodes[y], name) {
        forall i | 0 <= i < |acts[1..]| ensures !(acts[1..][i].target == y && AttrName(acts[1..][i]) == name) {
          assert acts[1..][i] == acts[i + 1];
        }
        assert AttrName(acts[0]) == acts[0].attr.name;
      }
      if Run(mm, nodes, acts).1 == Pass && s in nodes {
        forall act | act in acts && act.target in nodes && act.attr.collection != MapCollection
          ensures Read(last[act.target], act.attr.name).Coll? && s in Read(last[act.target], act.attr.name).elems
        {
          if act != acts[0] {
            assert act in acts[1..];
          } else {
            var w := Read(next[act.target], act.attr.name);
            assert GrowsValue(w, Read(last[act.target], act.attr.name));
          }
        }
      }
    }
  }

  /** One write of `s`, an instance of the graph, keeps the graph free of dangling references. */
  lemma StepClosed(mm: Metamodel, nodes: map<NodeId, Node>, act: Action, s: NodeId)
    requires Closed(nodes) && s in nodes && Written(act) == s
    requires Step(mm, nodes, act).Success?
    ensures Closed(Step(mm, nodes, act).value)
  {
    var next := Step(mm, nodes, act).value;
    if act.target in nodes && next != nodes {
      var t, name := act.target, AttrName(act);
      ReadClosed(nodes, t, name);
      var w := Read(next[t], name);
      if act.AddTo? {
        assert next == nodes[t := WithValue(nodes[t], name, w)];
      }
      assert RefersWithin(w, nodes.Keys);
      WithValueClosed(nodes, t, name, w);
    }
  }

  /** A graph without dangling references stays so after a run that writes `s` from the graph. */
  lemma {:induction false} RunClosed(mm: Metamodel, nodes: map<NodeId, Node>, acts: seq<Action>, s: NodeId)
    requires Closed(nodes) && s in nodes
    requires forall act | act in acts :: Written(act) == s
    ensures Closed(Run(mm, nodes, acts).0)
    decreases |acts|
  {
    if |acts| > 0 && Step(mm, nodes, acts[0]).Success? {
      assert acts[0] in acts;
      StepClosed(mm, nodes, acts[0], s);
      RunClosed(mm, Step(mm, nodes, acts[0]).value, acts[1..], s);
    }
  }

  // ---------------------------------------------------------------------
  // What each rule establishes.
  // ---------------------------------------------------------------------

  /**
   * Many-to-one `a` of `s` set to `v`: unless a map key cannot be computed,
   * `s` ends up in every one-to-many collection of `v` mapped by `a` whose
   * element type declares `a`; only `v` changes, and it loses no entry.
   */
  lemma ManyToOneFixed(mm: Metamodel, nodes: map<NodeId, Node>, s: NodeId, a: Attribute)
    requires s in nodes && ManyToOneActions(mm, nodes, s, a).Success?
    ensures var v, r := Read(nodes[s], a.name), Run(mm, nodes, ManyToOneActions(mm, nodes, s, a).value);
      Grows(nodes, r.0) &&
      (forall y, name | y in nodes && (!v.Ref? || y != v.id) :: Read(r.0[y], name) == Read(nodes[y], name)) &&
      (r.1 == Pass && v.Ref? && v.id in nodes ==>
         forall e | e in AttributesOfType(mm, a.javaType) && e.kind == OneToMany && MappedByIs(e.member, a.name) &&
                    e.elementType == a.declaringType && e.collection != MapCollection ::
           Read(r.0[v.id], e.name).Coll? && s in Read(r.0[v.id], e.name).elems)
  {
    var acts := ManyToOneActions(mm, nodes, s, a).value;
    RunAddTos(mm, nodes, acts, s);
    var v := Read(nodes[s], a.name);
    forall y, name | y in nodes && (!v.Ref? || y != v.id) ensures !Touched(acts, y, name) {
      forall i | 0 <= i < |acts| ensures acts[i].target != y {
        assert acts[i] in acts;
      }
    }
    if v.Ref? {
      forall e | e in AttributesOfType(mm, a.javaType) && e.kind == OneToMany && MappedByIs(e.member, a.name) && e.elementType == a.declaringType
        ensures AddTo(v.id, e, s) in acts
      {
      }
    }
  }

  /**
   * One-to-one `a` of `s` set to `v`: on the inverse side (`mappedBy` = m)
   * the one-to-one attribute m of `v` now refers to `s`; on the owning side
   * every one-to-one attribute of `v` mapped by `a` does. Only `v` changes,
   * and the fix never throws once the lookups succeed.
   */
  lemma OneToOneFixed(mm: Metamodel, nodes: map<NodeId, Node>, s: NodeId, a: Attribute)
    requires s in nodes && OneToOneActions(mm, nodes, s, a).Success?
    ensures var v, r := Read(nodes[s], a.name), Run(mm, nodes, OneToOneActions(mm, nodes, s, a).value);
      r.1 == Pass &&
      (forall y, name | y in nodes && (!v.Ref? || y != v.id) :: Read(r.0[y], name) == Read(nodes[y], name)) &&
      (v.Ref? && v.id in nodes && ResolveMappedBy(a.member) == Success(None) ==>
         forall e | e in AttributesOfType(mm, a.javaType) && e.kind == OneToOne && MappedByIs(e.member, a.name) ::
           Read(r.0[v.id], e.name) == Ref(s)) &&
      (v.Ref? && v.id in nodes && ResolveMappedBy(a.member).Success? && ResolveMappedBy(a.member).value.Some? ==>
         var m := ResolveMappedBy(a.member).value.value;
         (forall name | name != m :: Read(r.0[v.id], name) == Read(nodes[v.id], name)) &&
         ((exists e | e in AttributesOfType(mm, a.javaType) :: e.kind == OneToOne && e.name == m) ==> Read(r.0[v.id], m) == Ref(s)))
  {
    var acts := OneToOneActions(mm, nodes, s, a).value;
    RunSetRefs(mm, nodes, acts, s);
  }

  /**
   * One-to-many `a` of `s` with `mappedBy` = m, when the element type has a
   * many-to-one attribute m: every element or map value now refers to `s`
   * through m, whatever it referred to before, and nothing else changes.
   */
  lemma OneToManyFixed(mm: Metamodel, nodes: map<NodeId, Node>, s: NodeId, a: Attribute, m: string)
    requires s in nodes && OneToManyActions(mm, nodes, s, a).Success?
    requires ResolveMappedBy(a.member) == Success(Some(m))
    requires WithName(AttributesOfType(mm, a.elementType), ManyToOne, m).Some?
    ensures var r := Run(mm, nodes, OneToManyActions(mm, nodes, s, a).value);
      r.1 == Pass &&
      (forall y | y in Members(Read(nodes[s], a.name)) && y in nodes :: Read(r.0[y], m) == Ref(s)) &&
      (forall y, name | y in nodes && (name != m || y !in Members(Read(nodes[s], a.name))) :: Read(r.0[y], name) == Read(nodes[y], name))
  {
    var acts := OneToManyActions(mm, nodes, s, a).value;
    RunSetRefs(mm, nodes, acts, s);
  }

  /** A run inserting `s` into instances of `ys` only: only those change, none loses an entry. */
  lemma AddsWithin(mm: Metamodel, nodes: map<NodeId, Node>, acts: seq<Action>, s: NodeId, ys: seq<NodeId>)
    requires forall act | act in acts :: act.AddTo? && act.elem == s && act.target in ys
    ensures Grows(nodes, Run(mm, nodes, acts).0)
    ensures forall y, name | y in nodes && y !in ys :: Read(Run(mm, nodes, acts).0[y], name) == Read(nodes[y], name)
    ensures Run(mm, nodes, acts).1 == Pass && s in nodes ==>
      forall act | act in acts && act.target in nodes && act.attr.collection != MapCollection ::
        Read(Run(mm, nodes, acts).0[act.target], act.attr.name).Coll? && s in Read(Run(mm, nodes, acts).0[act.target], act.attr.name).elems
  {
    RunAddTos(mm, nodes, acts, s);
    forall y, name | y in nodes && y !in ys ensures !Touched(acts, y, name) {
      forall i | 0 <= i < |acts| ensures acts[i].target != y {
        assert acts[i] in acts;
      }
    }
  }

  /**
   * Many-to-many `a` of `s` on the owning side: unless a map key cannot be
   * computed, `s` ends up in every many-to-many collection mapped by `a` of
   * every element or map value; existing entries are kept and only the
   * elements change.
   */
  lemma ManyToManyOwningFixed(mm: Metamodel, nodes: map<NodeId, Node>, s: NodeId, a: Attribute)
    requires s in nodes && ManyToManyActions(mm, nodes, s, a).Success?
    requires ResolveMappedBy(a.member) == Success(None)
    ensures var ys, r := Members(Read(nodes[s], a.name)), Run(mm, nodes, ManyToManyActions(mm, nodes, s, a).value);
      Grows(nodes, r.0) &&
      (forall y, name | y in nodes && y !in ys :: Read(r.0[y], name) == Read(nodes[y], name)) &&
      (r.1 == Pass ==>
         forall y, e | y in ys && y in nodes && e in AttributesOfType(mm, a.elementType) && e.kind == ManyToMany &&
                       MappedByIs(e.member, a.name) && e.collection != MapCollection ::
           Read(r.0[y], e.name).Coll? && s in Read(r.0[y], e.name).elems)
  {
    var acts := ManyToManyActions(mm, nodes, s, a).value;
    var ys := Members(Read(nodes[s], a.name));
    AddsWithin(mm, nodes, acts, s, ys);
    var r := Run(mm, nodes, acts);
    if r.1 == Pass {
      forall y, e | y in ys && y in nodes && e in AttributesOfType(mm, a.elementType) && e.kind == ManyToMany &&
                    MappedByIs(e.member, a.name) && e.collection != MapCollection
        ensures Read(r.0[y], e.name).Coll? && s in Read(r.0[y], e.name).elems
      {
        assert AddTo(y, e, s) in acts;
      }
    }
  }

  /**
   * Many-to-many `a` of `s` on the inverse side (`mappedBy` = m), when the
   * element type has a many-to-many attribute m: unless a map key cannot be
   * computed, `s` ends up in collection m of every element or map value;
   * existing entries are kept and only the elements change.
   */
  lemma ManyToManyInverseFixed(mm: Metamodel, nodes: map<NodeId, Node>, s: NodeId, a: Attribute, e: Attribute)
    requires s in nodes && ManyToManyActions(mm, nodes, s, a).Success?
    requires ResolveMappedBy(a.member).Success? && ResolveMappedBy(a.member).value.Some?
    requires WithName(AttributesOfType(mm, a.elementType), ManyToMany, ResolveMappedBy(a.member).value.value) == Some(e)
    ensures var ys, r := Members(Read(nodes[s], a.name)), Run(mm, nodes, ManyToManyActions(mm, nodes, s, a).value);
      Grows(nodes, r.0) &&
      (forall y, name | y in nodes && y !in ys :: Read(r.0[y], name) == Read(nodes[y], name)) &&
      (r.1 == Pass && e.collection != MapCollection ==>
         forall y | y in ys && y in nodes :: Read(r.0[y], e.name).Coll? && s in Read(r.0[y], e.name).elems)
  {
    var acts := ManyToManyActions(mm, nodes, s, a).value;
    AddsWithin(mm, nodes, acts, s, Members(Read(nodes[s], a.name)));
  }
}
