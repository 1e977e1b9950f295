/**
 * EntityGraphMinDepthPredictor: the depth an object graph must have so that
 * every mandatory attribute of an entity can be filled. A pure recursion over
 * the metamodel; the visited set is a path argument.
 */
module MinDepthPredictor {
  import opened Wrappers
  import opened Jpa

  /**
   * `ignoreAttributeNullability`: Hibernate 5 and older report unreliable
   * nullability inside embeddables and mapped superclasses. `legacyProvider`
   * stands for the provider version probe.
   */
  predicate IgnoreAttributeNullability(legacyProvider: bool, t: ManagedType)
    ensures IgnoreAttributeNullability(legacyProvider, t) ==> legacyProvider && t.persistence != Entity
  {
    legacyProvider && (t.persistence == Embeddable || t.persistence == MappedSuperclass)
  }

  /** The attribute filter of the stream: which attributes of `t` count toward the depth. */
  predicate Counted(legacyProvider: bool, t: ManagedType, a: Attribute)
    ensures IsSingular(a) && !a.optional ==> Counted(legacyProvider, t, a)
    ensures !IgnoreAttributeNullability(legacyProvider, t) ==> (Counted(legacyProvider, t, a) <==> IsSingular(a) && !a.optional)
  {
    IgnoreAttributeNullability(legacyProvider, t) || (IsSingular(a) && !a.optional)
  }

  /** Every to-one or embedded attribute in `attrs` leads to a managed type. */
  predicate TargetsManaged(mm: Metamodel, attrs: seq<Attribute>) {
    forall i | 0 <= i < |attrs| :: attrs[i].kind in {Embedded, ManyToOne, OneToOne} ==> attrs[i].javaType in mm.types
  }

  lemma WellFormedTargetsManaged(mm: Metamodel, typ: TypeName)
    requires WellFormed(mm) && typ in mm.types
    ensures TargetsManaged(mm, mm.types[typ].attributes)
  {
  }

  function Max(x: nat, y: nat): nat {
    if x < y then y else x
  }

  /** `predictRequiredMaxDepth0`: 0 for a type already on the path, else the deepest counted attribute. */
  function Depth0(mm: Metamodel, legacyProvider: bool, typ: TypeName, visited: set<TypeName>): (r: nat)
    requires WellFormed(mm) && typ in mm.types
    ensures typ in visited ==> r == 0
    decreases mm.types.Keys - visited, 0, 0
  {
    if typ in visited then 0
    else
      WellFormedTargetsManaged(mm, typ);
      MaxDepth(mm, legacyProvider, mm.types[typ], mm.types[typ].attributes, visited + {typ})
  }

  /** The depth one attribute contributes: a hop for to-one and embedded, 1 for basic, 0 otherwise. */
  function AttrDepth(mm: Metamodel, legacyProvider: bool, a: Attribute, visited: set<TypeName>): (r: nat)
    requires WellFormed(mm)
    requires a.kind in {Embedded, ManyToOne, OneToOne} ==> a.javaType in mm.types
    ensures a.kind == Basic ==> r == 1
    ensures a.kind in {Embedded, ManyToOne, OneToOne} ==> r >= 1
    ensures a.kind in {Embedded, ManyToOne, OneToOne} && a.javaType in visited ==> r == 1
    ensures a.kind !in {Basic, Embedded, ManyToOne, OneToOne} ==> r == 0
    decreases mm.types.Keys - visited, 0, 1
  {
    match a.kind
    case OneToOne => 1 + Depth0(mm, legacyProvider, a.javaType, visited)
    case ManyToOne => 1 + Depth0(mm, legacyProvider, a.javaType, visited)
    case Embedded => 1 + Depth0(mm, legacyProvider, a.javaType, visited)
    case Basic => 1
    case _ => 0
  }

  /**
   * `.max().orElse(0)` over the counted attributes of `t`: the result bounds
   * every counted attribute's depth and is 0 or attained by one of them.
   */
  function MaxDepth(mm: Metamodel, legacyProvider: bool, t: ManagedType, attrs: seq<Attribute>, visited: set<TypeName>): (r: nat)
    requires WellFormed(mm) && TargetsManaged(mm, attrs)
    ensures forall i | 0 <= i < |attrs| && Counted(legacyProvider, t, attrs[i]) ::
      AttrDepth(mm, legacyProvider, attrs[i], visited) <= r
    ensures r == 0 || exists i | 0 <= i < |attrs| ::
      Counted(legacyProvider, t, attrs[i]) && AttrDepth(mm, legacyProvider, attrs[i], visited) == r
    decreases mm.types.Keys - visited, 1, |attrs|
  {
    if |attrs| == 0 then 0
    else
      assert TargetsManaged(mm, attrs[1..]) by {
        forall i | 0 <= i < |attrs[1..]| ensures attrs[1..][i] == attrs[i + 1] { }
      }
      var rest := MaxDepth(mm, legacyProvider, t, attrs[1..], visited);
      assert forall i | 1 <= i < |attrs| :: attrs[i] == attrs[1..][i - 1];
      assert rest == 0 || exists i | 0 <= i < |attrs| ::
        Counted(legacyProvider, t, attrs[i]) && AttrDepth(mm, legacyProvider, attrs[i], visited) == rest by {
        if rest != 0 {
          var j :| 0 <= j < |attrs[1..]| &&
            Counted(legacyProvider, t, attrs[1..][j]) && AttrDepth(mm, legacyProvider, attrs[1..][j], visited) == rest;
          assert attrs[j + 1] == attrs[1..][j];
        }
      }
      if Counted(legacyProvider, t, attrs[0]) then Max(AttrDepth(mm, legacyProvider, attrs[0], visited), rest) else rest
  }

  /** `predictRequiredDepth`: the depth from an empty path; an unmanaged class is rejected by the metamodel. */
  function PredictRequiredDepth(mm: Metamodel, legacyProvider: bool, cls: TypeName): (r: Result<nat, JpaError>)
    requires WellFormed(mm)
    ensures r.Failure? <==> cls !in mm.types
    ensures r.Failure? ==> r.error == UnmanagedType(cls)
    ensures r.Success? ==> r.value == Depth0(mm, legacyProvider, cls, {})
  {
    match ManagedTypeOf(mm, cls)
    case Failure(e) => Failure(e)
    case Success(_) => Success(Depth0(mm, legacyProvider, cls, {}))
  }

  /** The depth never exceeds the number of managed types not yet on the path. */
  lemma {:induction false} DepthBound(mm: Metamodel, legacyProvider: bool, typ: TypeName, visited: set<TypeName>)
    requires WellFormed(mm) && typ in mm.types
    ensures Depth0(mm, legacyProvider, typ, visited) <= |mm.types.Keys - visited|
    decreases mm.types.Keys - visited, 0, 0
  {
    if typ !in visited {
      WellFormedTargetsManaged(mm, typ);
      var attrs := mm.types[typ].attributes;
      var v' := visited + {typ};
      var r := MaxDepth(mm, legacyProvider, mm.types[typ], attrs, v');
      assert mm.types.Keys - v' == (mm.types.Keys - visited) - {typ};
      if r != 0 {
        var i :| 0 <= i < |attrs| && Counted(legacyProvider, mm.types[typ], attrs[i]) &&
          AttrDepth(mm, legacyProvider, attrs[i], v') == r;
        AttrDepthBound(mm, legacyProvider, attrs[i], v');
      }
    }
  }

  lemma {:induction false} AttrDepthBound(mm: Metamodel, legacyProvider: bool, a: Attribute, visited: set<TypeName>)
    requires WellFormed(mm)
    requires a.kind in {Embedded, ManyToOne, OneToOne} ==> a.javaType in mm.types
    ensures AttrDepth(mm, legacyProvider, a, visited) <= 1 + |mm.types.Keys - visited|
    decreases mm.types.Keys - visited, 0, 1
  {
    if a.kind in {Embedded, ManyToOne, OneToOne} {
      DepthBound(mm, legacyProvider, a.javaType, visited);
    }
  }

  /** A longer path never makes the depth larger: cutting more cycles only removes hops. */
  lemma {:induction false} DepthAntitone(mm: Metamodel, legacyProvider: bool, typ: TypeName, visited: set<TypeName>, more: set<TypeName>)
    requires WellFormed(mm) && typ in mm.types && visited <= more
    ensures Depth0(mm, legacyProvider, typ, more) <= Depth0(mm, legacyProvider, typ, visited)
    decreases mm.types.Keys - visited, 0, 0
  {
    if typ !in more {
      WellFormedTargetsManaged(mm, typ);
      var t := mm.types[typ];
      var attrs := t.attributes;
      var v', m' := visited + {typ}, more + {typ};
      var r := MaxDepth(mm, legacyProvider, t, attrs, m');
      if r != 0 {
        var i :| 0 <= i < |attrs| && Counted(legacyProvider, t, attrs[i]) &&
          AttrDepth(mm, legacyProvider, attrs[i], m') == r;
        AttrDepthAntitone(mm, legacyProvider, attrs[i], v', m');
      }
    }
  }

  lemma {:induction false} AttrDepthAntitone(mm: Metamodel, legacyProvider: bool, a: Attribute, visited: set<TypeName>, more: set<TypeName>)
    requires WellFormed(mm) && visited <= more
    requires a.kind in {Embedded, ManyToOne, OneToOne} ==> a.javaType in mm.types
    ensures AttrDepth(mm, legacyProvider, a, more) <= AttrDepth(mm, legacyProvider, a, visited)
    decreases mm.types.Keys - visited, 0, 1
  {
    if a.kind in {Embedded, ManyToOne, OneToOne} {
      DepthAntitone(mm, legacyProvider, a.javaType, visited, more);
    }
  }

  /** A type whose counted attributes are all plural or element collections needs no depth at all. */
  lemma {:induction false} NothingCountedIsZero(mm: Metamodel, legacyProvider: bool, typ: TypeName, visited: set<TypeName>)
    requires WellFormed(mm) && typ in mm.types
    requires forall a | a in mm.types[typ].attributes :: Counted(legacyProvider, mm.types[typ], a) ==> IsPlural(a)
    ensures Depth0(mm, legacyProvider, typ, visited) == 0
  {
    if typ !in visited {
      WellFormedTargetsManaged(mm, typ);
      var t := mm.types[typ];
      assert forall i | 0 <= i < |t.attributes| :: t.attributes[i] in t.attributes;
    }
  }
}
