/**
 * Annotation-driven decisions shared by the graph algorithms: which side of
 * an association carries `mappedBy`, whether an attribute is insertable, and
 * lookup of id attributes by name.
 */
module MetamodelUtil {
  import opened Wrappers
  import opened Jpa

  /** The annotations reachable through an attribute's Java member; none for a member that is neither field nor method. */
  function GetAnnotations(a: Attribute): (r: Option<Annotations>)
    ensures r.None? <==> a.member.OtherMember?
    ensures r.Some? ==> r.value == a.member.annotations
  {
    match a.member
    case Field(ann) => Some(ann)
    case Method(ann) => Some(ann)
    case OtherMember => None
  }

  /** An empty string stands for "not set". */
  function NullIfEmpty(s: string): (r: Option<string>)
    ensures r.None? <==> s == ""
    ensures r.Some? ==> r.value == s
  {
    if s == "" then None else Some(s)
  }

  /** The `mappedBy` values written on the association annotations present on a member. */
  function DeclaredMappedBys(ann: Annotations): (r: set<string>)
    ensures r == {} <==> ann.oneToOne.None? && ann.oneToMany.None? && ann.manyToMany.None?
  {
    (if ann.oneToOne.Some? then {ann.oneToOne.value} else {}) +
    (if ann.oneToMany.Some? then {ann.oneToMany.value} else {}) +
    (if ann.manyToMany.Some? then {ann.manyToMany.value} else {})
  }

  /**
   * `mappedBy` of the first association annotation present, in the order
   * OneToOne, OneToMany, ManyToMany, with an empty value read as absent.
   */
  function MappedByOf(ann: Annotations): (r: Option<string>)
    ensures r.Some? ==> r.value != "" && r.value in DeclaredMappedBys(ann)
    ensures DeclaredMappedBys(ann) == {} ==> r.None?
    ensures ann.oneToOne.Some? ==> r == NullIfEmpty(ann.oneToOne.value)
    ensures ann.oneToOne.None? && ann.oneToMany.Some? ==> r == NullIfEmpty(ann.oneToMany.value)
    ensures ann.oneToOne.None? && ann.oneToMany.None? && ann.manyToMany.Some? ==> r == NullIfEmpty(ann.manyToMany.value)
  {
    if ann.oneToOne.Some? then NullIfEmpty(ann.oneToOne.value)
    else if ann.oneToMany.Some? then NullIfEmpty(ann.oneToMany.value)
    else if ann.manyToMany.Some? then NullIfEmpty(ann.manyToMany.value)
    else None
  }

  /** `resolveMappedBy`: fields and methods are read alike; any other member is an illegal argument. */
  function ResolveMappedBy(m: Member): (r: Result<Option<string>, JpaError>)
    ensures r.Failure? <==> m.OtherMember?
    ensures r.Failure? ==> r.error == IllegalArgument
    ensures r.Success? ==> r.value == MappedByOf(m.annotations)
  {
    match m
    case Field(ann) => Success(MappedByOf(ann))
    case Method(ann) => Success(MappedByOf(ann))
    case OtherMember => Failure(IllegalArgument)
  }

  /** True when `member`'s mappedBy resolves to exactly `name`, the `name.equals(resolveMappedBy(...))` test. */
  predicate MappedByIs(m: Member, name: string)
    ensures MappedByIs(m, name) ==> name != "" && !m.OtherMember?
  {
    ResolveMappedBy(m) == Success(Some(name))
  }

  /** The member carries `@Column(insertable = false)` or `@JoinColumn(insertable = false)`. */
  predicate ForbidsInsert(ann: Annotations)
    ensures ForbidsInsert(ann) ==> ann.column.Some? || ann.joinColumn.Some?
    ensures ann.column == Some(false) ==> ForbidsInsert(ann)
  {
    ann.column == Some(false) || (ann.joinColumn.Some? && !ann.joinColumn.value.insertable)
  }

  /**
   * `isInsertable`: false exactly when the member carries `@Column(insertable = false)`
   * or `@JoinColumn(insertable = false)`.
   */
  function IsInsertable(a: Attribute): (r: bool)
    ensures !r <==> (GetAnnotations(a).Some? && ForbidsInsert(GetAnnotations(a).value))
    ensures a.member.OtherMember? ==> r
  {
    var column := if GetAnnotations(a).Some? then GetAnnotations(a).value.column else None;
    var joinColumn := if GetAnnotations(a).Some? then GetAnnotations(a).value.joinColumn else None;
    (column.None? || column.value) && (joinColumn.None? || joinColumn.value.insertable)
  }

  /** The id attributes of a type: its single id, or the attributes of its id class. */
  function IdAttributes(t: ManagedType): (r: seq<Attribute>)
    ensures t.id.SingleId? ==> |r| == 1 && t.id.idAttribute in r
    ensures t.id.IdClass? ==> r == t.id.idClassAttributes
  {
    match t.id
    case SingleId(a) => [a]
    case IdClass(attrs) => attrs
  }

  /** The first attribute called `name`, the `filter(...).findAny()` of a sequential stream. */
  function FindByName(attrs: seq<Attribute>, name: string): (r: Option<Attribute>)
    ensures r.Some? ==> r.value.name == name && r.value in attrs
    ensures r.None? <==> forall a | a in attrs :: a.name != name
    ensures r.Some? ==> exists i | 0 <= i < |attrs| :: attrs[i] == r.value && forall j | 0 <= j < i :: attrs[j].name != name
  {
    if |attrs| == 0 then None
    else if attrs[0].name == name then Some(attrs[0])
    else
      var r := FindByName(attrs[1..], name);
      assert forall a | a in attrs[1..] :: a in attrs;
      assert r.Some? ==> exists i | 0 <= i < |attrs| :: attrs[i] == r.value && forall j | 0 <= j < i :: attrs[j].name != name by {
        if r.Some? {
          var i :| 0 <= i < |attrs[1..]| && attrs[1..][i] == r.value && forall j | 0 <= j < i :: attrs[1..][j].name != name;
          assert attrs[i + 1] == r.value;
          assert forall j | 0 <= j < i + 1 :: attrs[j].name != name by {
            forall j | 0 <= j < i + 1 ensures attrs[j].name != name {
              if j > 0 { assert attrs[j] == attrs[1..][j - 1]; }
            }
          }
        }
      }
      r
  }

  /**
   * `resolveIdAttribute`: the id attribute called `name`, or none when the
   * type has no id attribute of that name.
   */
  function ResolveIdAttribute(t: ManagedType, name: string): (r: Option<Attribute>)
    ensures r.Some? ==> r.value.name == name && r.value in IdAttributes(t)
    ensures r.None? <==> forall a | a in IdAttributes(t) :: a.name != name
  {
    match t.id
    case SingleId(a) => if a.name == name then Some(a) else None
    case IdClass(attrs) => FindByName(attrs, name)
  }
}
