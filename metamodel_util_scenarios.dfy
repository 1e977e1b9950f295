/**
 * `resolveMappedBy` on the members of a class annotated like the one its
 * unit test reads: each association annotation on a field and on a getter,
 * once without and once with `mappedBy = "owner"`.
 */
module MetamodelUtilScenarios {
  import opened Wrappers
  import opened Jpa
  import opened MetamodelUtil
  import opened TestEntities

  /** `@OneToOne`, `@OneToMany` and `@ManyToMany`, each carrying the given `mappedBy`. */
  function Annotated(mappedBy: string): seq<Annotations> {
    [NoAnnotations.(oneToOne := Some(mappedBy)),
     NoAnnotations.(oneToMany := Some(mappedBy)),
     NoAnnotations.(manyToMany := Some(mappedBy))]
  }

  /** Each annotation set on a getter and on a field. */
  function MembersOf(anns: seq<Annotations>): (r: seq<Member>)
    ensures |r| == 2 * |anns|
    ensures forall i | 0 <= i < |anns| :: r[i] == Method(anns[i]) && r[|anns| + i] == Field(anns[i])
  {
    seq(|anns|, i requires 0 <= i < |anns| => Method(anns[i])) + seq(|anns|, i requires 0 <= i < |anns| => Field(anns[i]))
  }

  /** Owning members resolve to no `mappedBy`; owned members to "owner". */
  lemma OwningAndOwnedMembers()
    ensures forall m | m in MembersOf(Annotated("")) :: ResolveMappedBy(m) == Success(None)
    ensures forall m | m in MembersOf(Annotated("owner")) :: ResolveMappedBy(m) == Success(Some("owner"))
  {
  }
}
