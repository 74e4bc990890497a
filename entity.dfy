/** `Entity<TId>`: an object whose equality is its identity, an identifier of type
    `TId`, with a guard that keeps entities whose identifier is still the type's
    default ("transient" entities) from matching each other; and `Entity`, the
    same with `long` identifiers. */
module Entities {
  import opened Runtime

  /** A value of the identifier type: `Null` is possible only when `TId` is a
      reference type or a `Nullable<T>`. */
  datatype Id<T> = Null | Val(v: T)

  /** What `Equals` needs to know of `TId`: its `default(TId)`, a given `zero`
      for a non-nullable value type and null for a reference type or a
      `Nullable<T>`. Calling `Equals` on a null `Nullable<T>` returns whether the
      argument is null as well; calling it on a null reference throws. */
  datatype IdType<T> = ValueType(zero: T) | NullableValueType | ReferenceType
  {
    function Default(): Id<T>
    {
      if ValueType? then Val(zero) else Null
    }

    /** A field of a value type is never null. */
    predicate Admits(id: Id<T>)
    {
      ValueType? ==> id.Val?
    }
  }

  /** An entity: its reference identity, the full name of its runtime type and its
      `Id`, which no member of the base class reassigns. */
  datatype Entity<T> = Entity(ref: nat, typeName: string, id: Id<T>)

  /** Two handles with the same reference denote the same object. */
  predicate SameHeap<T(==)>(a: Entity<T>, b: Entity<T>)
  {
    a.ref == b.ref ==> a == b
  }

  /** `Id.Equals(x)` for a non-null `Id`: a value equals only itself, and a non-null
      object never equals null. */
  function IdEquals<T(==)>(id: Id<T>, x: Id<T>): bool
    requires id.Val?
  {
    x == id
  }

  /** `Equals(object)` as written: the argument's kind, reference identity,
      runtime type, the default-id guard, then id equality. The guard calls
      `Equals` on each id in turn, which throws when that id is a null reference
      and is true when it is a null `Nullable<T>`. */
  function EqualsAsWritten<T(==)>(self: Entity<T>, obj: Option<Object<Entity<T>>>, t: IdType<T>): (r: Result<bool>)
    ensures r.Err? ==> r.error == NullReference && !t.NullableValueType? &&
                       (self.id.Null? || (obj.Some? && obj.value.Is? && obj.value.value.id.Null?))
    ensures obj.None? || (obj.Some? && obj.value.Foreign?) ==> r == Ok(false)
    ensures obj == Some(Is(self)) ==> r == Ok(true)
  {
    match obj
    case None => Ok(false)
    case Some(Foreign(_)) => Ok(false)
    case Some(Is(other)) =>
      if self.ref == other.ref then Ok(true)
      else if self.typeName != other.typeName then Ok(false)
      else if self.id.Null? then (if t.NullableValueType? then Ok(false) else Err(NullReference))
      else if IdEquals(self.id, t.Default()) then Ok(false)
      else if other.id.Null? then (if t.NullableValueType? then Ok(false) else Err(NullReference))
      else if IdEquals(other.id, t.Default()) then Ok(false)
      else Ok(IdEquals(self.id, other.id))
  }

  /** Two distinct transient entities of one class whose identifier type is a
      reference type (a `string` id, say): the guard calls `Equals` on a null id. */
  lemma TransientReferenceIdsThrow(a: Entity<string>, b: Entity<string>)
    requires a.ref != b.ref && a.typeName == b.typeName && a.id == Null
    ensures EqualsAsWritten(a, Some(Is(b)), ReferenceType) == Err(NullReference)
    ensures EqualsAsWritten(b, Some(Is(a)), ReferenceType) == Err(NullReference)
  {
  }

  /** With a `Nullable<T>` identifier the guard never throws, and the code as
      written returns what the null-safe `Equals` returns, for every input. */
  lemma NullableIdsNeverThrow<T>(self: Entity<T>, obj: Option<Object<Entity<T>>>)
    ensures EqualsAsWritten(self, obj, NullableValueType) == Ok(Equals(self, obj, NullableValueType))
  {
  }

  /** `Equals(object)` with a null-safe default-id guard: the same chain of rules,
      where an id that is the default (null included) makes two distinct entities
      unequal instead of throwing. */
  function Equals<T(==)>(self: Entity<T>, obj: Option<Object<Entity<T>>>, t: IdType<T>): (r: bool)
    ensures obj.None? || (obj.Some? && obj.value.Foreign?) ==> !r
    ensures obj == Some(Is(self)) ==> r
  {
    match obj
    case None => false
    case Some(Foreign(_)) => false
    case Some(Is(other)) =>
      if self.ref == other.ref then true
      else if self.typeName != other.typeName then false
      else if self.id == t.Default() || other.id == t.Default() then false
      else self.id == other.id
  }

  /** Where no id is null the corrected guard changes nothing: `Equals` returns
      what the code as written returns. In particular it always does so for
      value-typed identifiers. */
  lemma EqualsAgreesWithAsWritten<T>(self: Entity<T>, obj: Option<Object<Entity<T>>>, t: IdType<T>)
    requires self.id.Val?
    requires obj.Some? && obj.value.Is? ==> obj.value.value.id.Val?
    ensures EqualsAsWritten(self, obj, t) == Ok(Equals(self, obj, t))
  {
  }

  /** The rule order of `Equals`: reference identity first (so an entity equals
      itself even with a default id), then the runtime type, then the default-id
      guard, then id equality. */
  lemma EqualsRuleOrder<T>(a: Entity<T>, b: Entity<T>, t: IdType<T>)
    requires SameHeap(a, b)
    ensures a.ref == b.ref ==> Equals(a, Some(Is(b)), t)
    ensures a.ref != b.ref && a.typeName != b.typeName ==> !Equals(a, Some(Is(b)), t)
    ensures a.ref != b.ref && (a.id == t.Default() || b.id == t.Default()) ==> !Equals(a, Some(Is(b)), t)
    ensures Equals(a, Some(Is(b)), t) <==>
              a.ref == b.ref ||
              (a.typeName == b.typeName && a.id != t.Default() && b.id != t.Default() && a.id == b.id)
  {
  }

  /** `Equals` is an equivalence relation over the entities of one heap: two
      distinct objects are identified only by a shared non-default id. */
  lemma EqualsEquivalence<T>(a: Entity<T>, b: Entity<T>, c: Entity<T>, t: IdType<T>)
    requires SameHeap(a, b) && SameHeap(b, c) && SameHeap(a, c)
    ensures Equals(a, Some(Is(a)), t)
    ensures Equals(a, Some(Is(b)), t) == Equals(b, Some(Is(a)), t)
    ensures Equals(a, Some(Is(b)), t) && Equals(b, Some(Is(c)), t) ==> Equals(a, Some(Is(c)), t)
  {
  }

  /** Two distinct transient entities are never equal, whatever their class. */
  lemma TransientEntitiesNeverEqual<T>(a: Entity<T>, b: Entity<T>, t: IdType<T>)
    requires a.ref != b.ref && a.id == t.Default()
    ensures !Equals(a, Some(Is(b)), t) && !Equals(b, Some(Is(a)), t)
  {
  }

  /** `operator ==`: true on two nulls, false on exactly one null, else `Equals`. */
  function OpEquals<T(==)>(a: Option<Entity<T>>, b: Option<Entity<T>>, t: IdType<T>): bool
  {
    if a.None? && b.None? then true
    else if a.None? || b.None? then false
    else Equals(a.value, Some(Is(b.value)), t)
  }

  /** `operator !=`. */
  function OpNotEquals<T(==)>(a: Option<Entity<T>>, b: Option<Entity<T>>, t: IdType<T>): bool
  {
    !OpEquals(a, b, t)
  }

  /** `operator ==` as written: `a.Equals(b)` is the as-written `Equals(object)`,
      so a comparison that reaches a null reference-typed id throws. */
  function OpEqualsAsWritten<T(==)>(a: Option<Entity<T>>, b: Option<Entity<T>>, t: IdType<T>): (r: Result<bool>)
    ensures a.None? || b.None? ==> r == Ok(a.None? && b.None?)
  {
    if a.None? && b.None? then Ok(true)
    else if a.None? || b.None? then Ok(false)
    else EqualsAsWritten(a.value, Some(Is(b.value)), t)
  }

  /** The operator as written returns what the null-safe `==` returns whenever no
      id involved is null, and throws on two distinct entities of one class with
      a reference-typed identifier when the first one's id is null. */
  lemma OperatorsAsWritten<T>(a: Option<Entity<T>>, b: Option<Entity<T>>, t: IdType<T>)
    ensures (a.Some? ==> a.value.id.Val?) && (b.Some? ==> b.value.id.Val?) ==>
              OpEqualsAsWritten(a, b, t) == Ok(OpEquals(a, b, t))
    ensures a.Some? && b.Some? && a.value.ref != b.value.ref && a.value.typeName == b.value.typeName &&
            a.value.id.Null? && t.ReferenceType? ==>
              OpEqualsAsWritten(a, b, t) == Err(NullReference) && !OpEquals(a, b, t)
  {
    if a.Some? && b.Some? && a.value.id.Val? && b.value.id.Val? {
      EqualsAgreesWithAsWritten(a.value, Some(Is(b.value)), t);
    }
  }

  lemma OperatorsNullSafe<T>(a: Option<Entity<T>>, b: Option<Entity<T>>, t: IdType<T>)
    requires a.Some? && b.Some? ==> SameHeap(a.value, b.value)
    ensures OpEquals(None, None, t) && !OpNotEquals(None, None, t)
    ensures a.Some? ==> !OpEquals(a, None, t) && !OpEquals(None, a, t) && OpNotEquals(a, None, t)
    ensures a.Some? && b.Some? ==> OpEquals(a, b, t) == Equals(a.value, Some(Is(b.value)), t)
    ensures OpNotEquals(a, b, t) == !OpEquals(a, b, t)
    ensures OpEquals(a, b, t) == OpEquals(b, a, t)
  {
  }

  /** The text `(GetType().ToString() + Id)` is hashed: the type name followed by
      the id's text, and nothing for a null id. */
  function HashKey<T>(e: Entity<T>, idText: T -> string): (key: string)
    ensures e.typeName <= key
    ensures e.id.Null? ==> key == e.typeName
  {
    e.typeName + if e.id.Null? then "" else idText(e.id.v)
  }

  /** `GetHashCode`: the string hash of the key. */
  function GetHashCode<T>(e: Entity<T>, idText: T -> string, stringHash: string -> bv32): bv32
  {
    stringHash(HashKey(e, idText))
  }

  /** Equal entities hash equal, whatever the id text and string hash are. */
  lemma HashConsistentWithEquals<T>(a: Entity<T>, b: Entity<T>, t: IdType<T>,
                                idText: T -> string, stringHash: string -> bv32)
    requires SameHeap(a, b) && Equals(a, Some(Is(b)), t)
    ensures GetHashCode(a, idText, stringHash) == GetHashCode(b, idText, stringHash)
  {
  }

  // ---------------------------------------------------------------- Entity

  /** `Entity`: `Entity<long>`, whose transient id is 0. */
  const LongId: IdType<Int64> := ValueType(0)

  /** A `long` id is never null, so every comparison returns, and the code as
      written agrees with `Equals`. */
  lemma LongEntityEqualsTotal(a: Entity<Int64>, obj: Option<Object<Entity<Int64>>>)
    requires LongId.Admits(a.id)
    requires obj.Some? && obj.value.Is? ==> LongId.Admits(obj.value.value.id)
    ensures EqualsAsWritten(a, obj, LongId) == Ok(Equals(a, obj, LongId))
    ensures LongId.Default() == Val(0)
  {
    EqualsAgreesWithAsWritten(a, obj, LongId);
  }

  /** The hash keys of two `long` entities of different classes can coincide: an
      `Order1` with id 23 and an `Order12` with id 3 both hash the text "Order123". */
  lemma LongHashKeysCanCollide()
    ensures HashKey(Entity(0, "Order1", Val(23)), DecimalText) ==
            HashKey(Entity(1, "Order12", Val(3)), DecimalText)
    ensures !Equals(Entity(0, "Order1", Val(23)), Some(Is(Entity(1, "Order12", Val(3)))), LongId)
  {
    assert Digits(23) == "23";
    assert Digits(3) == "3";
  }
}
