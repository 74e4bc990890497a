/** `Enumeration`: the instances of a "smart enum" class, immutable `(Id, Name)`
    pairs, with two equality overloads that disagree, a hash over `(Name, Id)` and
    an ordering by `Id` alone. */
module Enumerations {
  import opened Runtime

  /** An enumeration instance: the full name of its runtime type, and the `Id`
      and `Name` fixed by its constructor. */
  datatype Enumeration = Enumeration(typeName: string, id: Int32, name: string)

  /** The constructor of a declared instance of class `typeName`. */
  function New(typeName: string, id: Int32, name: string): (e: Enumeration)
    ensures e.typeName == typeName && e.id == id && e.name == name
    ensures ToString(e) == name
  {
    Enumeration(typeName, id, name)
  }

  /** `ToString()`: the name. */
  function ToString(e: Enumeration): string
  {
    e.name
  }

  /** `Equals(Enumeration)`: compares `Name` and `Id` but not the runtime type;
      a null argument is dereferenced. */
  function EqualsEnumeration(self: Enumeration, other: Option<Enumeration>): (r: Result<bool>)
    ensures r.Err? <==> other.None?
    ensures r.Err? ==> r.error == NullReference
    ensures other == Some(self) ==> r == Ok(true)
  {
    match other
    case None => Err(NullReference)
    case Some(o) => Ok(self.name == o.name && self.id == o.id)
  }

  /** `Equals(object)`: an enumeration of the same runtime type with the same
      `Id`; the name is not consulted. */
  function Equals(self: Enumeration, obj: Option<Object<Enumeration>>): (r: bool)
    ensures r ==> obj.Some? && obj.value.Is? && obj.value.value.id == self.id
    ensures obj == Some(Is(self)) ==> r
  {
    match obj
    case Some(Is(other)) =>
      var typeMatches := self.typeName == other.typeName;
      var valueMatches := self.id == other.id;
      typeMatches && valueMatches
    case _ => false
  }

  lemma EqualsRejectsNonEnumerations(self: Enumeration, typeName: string)
    ensures !Equals(self, None) && !Equals(self, Some(Foreign(typeName)))
  {
  }

  /** `Equals(object)` holds exactly on the same runtime type and `Id`, whatever
      the two names are, and is an equivalence relation. */
  lemma EqualsByTypeAndId(a: Enumeration, b: Enumeration, c: Enumeration, n: string, m: string)
    ensures Equals(a, Some(Is(b))) <==> a.typeName == b.typeName && a.id == b.id
    ensures Equals(a.(name := n), Some(Is(b.(name := m)))) == Equals(a, Some(Is(b)))
    ensures Equals(a, Some(Is(a)))
    ensures Equals(a, Some(Is(b))) == Equals(b, Some(Is(a)))
    ensures Equals(a, Some(Is(b))) && Equals(b, Some(Is(c))) ==> Equals(a, Some(Is(c)))
  {
  }

  /** `Equals(Enumeration)` holds exactly on equal `Name` and `Id`, whatever the
      runtime types are; it throws on null. */
  lemma EqualsEnumerationByNameAndId(a: Enumeration, b: Enumeration, s: string, t: string)
    ensures EqualsEnumeration(a, None) == Err(NullReference)
    ensures EqualsEnumeration(a, Some(b)) == Ok(a.name == b.name && a.id == b.id)
    ensures EqualsEnumeration(a.(typeName := s), Some(b.(typeName := t))) == EqualsEnumeration(a, Some(b))
  {
  }

  /** The two overloads disagree in both directions: same class and `Id` with
      different names, and different classes with the same `Id` and name. */
  lemma EqualsOverloadsDisagree()
    ensures Equals(New("Color", 1, "Red"), Some(Is(New("Color", 1, "Crimson"))))
    ensures EqualsEnumeration(New("Color", 1, "Red"), Some(New("Color", 1, "Crimson"))) == Ok(false)
    ensures !Equals(New("Color", 1, "Red"), Some(Is(New("Size", 1, "Red"))))
    ensures EqualsEnumeration(New("Color", 1, "Red"), Some(New("Size", 1, "Red"))) == Ok(true)
  {
  }

  /** `GetHashCode`: `HashCode.Combine(Name, Id)`, a function of the pair. */
  function GetHashCode(e: Enumeration, combine: (string, Int32) -> bv32): bv32
  {
    combine(e.name, e.id)
  }

  /** Objects equal under `Equals(Enumeration)` hash equal. */
  lemma HashConsistentWithEqualsEnumeration(a: Enumeration, b: Enumeration, combine: (string, Int32) -> bv32)
    requires EqualsEnumeration(a, Some(b)) == Ok(true)
    ensures GetHashCode(a, combine) == GetHashCode(b, combine)
  {
  }

  /** Within one class, the names are determined by the ids: the declarer's
      obligation that `Id`s are unique. */
  ghost predicate UniqueIds(declared: set<Enumeration>)
  {
    forall a, b | a in declared && b in declared ::
      a.typeName == b.typeName && a.id == b.id ==> a.name == b.name
  }

  /** Objects equal under `Equals(object)` hash equal only when ids are unique
      within their class; otherwise two equal objects can hash their different
      names. */
  lemma HashConsistentWithEquals(declared: set<Enumeration>, a: Enumeration, b: Enumeration,
                                 combine: (string, Int32) -> bv32)
    requires UniqueIds(declared) && a in declared && b in declared
    requires Equals(a, Some(Is(b)))
    ensures GetHashCode(a, combine) == GetHashCode(b, combine)
  {
  }

  lemma HashInconsistentWithoutUniqueIds()
    ensures var a, b := New("Color", 1, "Red"), New("Color", 1, "Crimson");
      Equals(a, Some(Is(b))) && !UniqueIds({a, b}) &&
      GetHashCode(a, (n, i) => if n == "Red" then 0 else 1) != GetHashCode(b, (n, i) => if n == "Red" then 0 else 1)
  {
    var a, b := New("Color", 1, "Red"), New("Color", 1, "Crimson");
    assert a in {a, b} && b in {a, b} && a.name != b.name;
  }

  /** `CompareTo(object)`: casts the argument to `Enumeration` and compares the
      ids; the runtime types are not checked. */
  function CompareTo(self: Enumeration, other: Option<Object<Enumeration>>): (r: Result<int>)
    ensures r.Ok? <==> other.Some? && other.value.Is?
    ensures r.Ok? ==> -1 <= r.value <= 1
    ensures r.Ok? ==> (r.value == 0 <==> other.value.value.id == self.id)
  {
    match other
    case None => Err(NullReference)
    case Some(Foreign(_)) => Err(InvalidCast)
    case Some(Is(o)) => Ok(CompareInt(self.id, o.id))
  }

  /** A null argument is dereferenced and a non-enumeration fails the cast: both
      throw instead of returning. */
  lemma CompareToFailures(self: Enumeration, typeName: string)
    ensures CompareTo(self, None) == Err(NullReference)
    ensures CompareTo(self, Some(Foreign(typeName))) == Err(InvalidCast)
  {
  }

  /** On enumerations `CompareTo` returns, its sign is that of the `Id`
      comparison, and so it is reflexive-zero, antisymmetric and transitive. */
  lemma CompareToOrdersById(a: Enumeration, b: Enumeration, c: Enumeration)
    ensures CompareTo(a, Some(Is(b))).Ok?
    ensures CompareTo(a, Some(Is(b))).value < 0 <==> a.id < b.id
    ensures CompareTo(a, Some(Is(b))).value == 0 <==> a.id == b.id
    ensures CompareTo(a, Some(Is(a))) == Ok(0)
    ensures CompareTo(b, Some(Is(a))).value == -CompareTo(a, Some(Is(b))).value
    ensures CompareTo(a, Some(Is(b))).value < 0 && CompareTo(b, Some(Is(c))).value < 0 ==>
              CompareTo(a, Some(Is(c))).value < 0
  {
  }

  /** The ordering ignores names and classes: it is 0 on objects `Equals(object)`
      rejects when only their classes differ. */
  lemma CompareToIgnoresType()
    ensures CompareTo(New("Color", 1, "Red"), Some(Is(New("Size", 1, "Small")))) == Ok(0)
    ensures !Equals(New("Color", 1, "Red"), Some(Is(New("Size", 1, "Small"))))
  {
  }
}
