# Depra.Domain base types in Dafny

A Dafny model of the four Domain-Driven-Design base classes of Depra.Domain and
the rules they use for equality, ordering, hashing and identity. The four classes
are `ValueObject` / `ValueObject<T>`, `Entity<TId>` / `Entity`, `Enumeration` and
`AggregateRoot`.

- `runtime.dfy` (module `Runtime`) models the .NET facilities the classes use.
  A null reference is `Option.None`. An exception is `Result.Err` with its kind.
  An argument of static type `object` is `Object<T>`: either an instance of the
  class family, or a `Foreign` object known by its type name. The module also has
  `int`/`long` ranges, `Int32.CompareTo` (`CompareInt`), ordinal string
  comparison (`CompareOrdinal`) and the decimal text of a `long`.
- `value_object.dfy` (module `ValueObjects`) is a value object. It is a reference
  token, the full name of its runtime type, and its sequence of equality
  components (`Comp`: null, `int`, `string`, or an equality-only object).
  - `Equals`, the operators and `CompareComponents` are functions.
  - `CompareTo` is a method with the source's `for` loop. It is proved equal to
    the function `CompareToSpec`.
  - Both hash folds are modelled. Hashes are `bv32`, the bit pattern of a C#
    `int`, so `bv32` arithmetic is C#'s `unchecked` arithmetic.
- `entity.dfy` (module `Entities`) is `Entity<TId>`. It holds a reference token,
  a type name and an `Id<T>`. The id is `Null` only when `TId` is a reference type
  or a `Nullable<T>`. `IdType<T>` says which, and supplies `default(TId)`. `Entity` is the instance with `Int64` ids
  and default 0.
- `enumeration.dfy` (module `Enumerations`) is `Enumeration`: `(typeName, Id,
  Name)` with both `Equals` overloads, `GetHashCode` and `CompareTo`.
- `aggregate_root.dfy` (module `AggregateRoots`) is `AggregateRoot`: a class whose
  `seq` field is the `_domainEvents` list. `AddDomainEvent` and `ClearEvents`
  update it in place. The inherited `Id` is a field they leave unchanged.

Reference identity is a `ref` number. Lemmas that need two handles of one object
to agree take `SameHeap` as a precondition: equal `ref` implies equal value.
String hashes, component hashes and `HashCode.Combine` are function parameters.
So every hash property holds for every hash function.

Where the code departs from what a value-object or entity base class is meant to
do, the model follows the code:

- The code's `CompareTo` is not a total order. See `CompareComponentsNotAntisymmetric`
  and `CompareToNotAntisymmetric`.
- The default build's hash is the unseeded XOR fold. It ignores order and throws
  on zero components.
- `Enumeration.Equals(Enumeration)` compares names, not runtime types.
- An entity with a default id equals itself through the reference check.
- The generic entity's default-id guard throws on a null id (see Findings).
- `ValueObject`'s `==` compares components only, so objects of two classes with
  equal components are `==` though `Equals` rejects them (see Findings).

## Model

| member | source | states |
|---|---|---|
| `Runtime.CompareInt` | Domain/Enumeration.cs:44 | `Int32.CompareTo` returns -1, 0 or 1, negative exactly when the first id is smaller and 0 exactly on equal ids |
| `Runtime.CompareOrdinal` | Domain/ValueObject.cs:37 | the ordinal comparison of two type names is -1, 0 or 1 |
| `Runtime.CompareOrdinalZeroIff` | Domain/ValueObject.cs:35-38 | the ordinal comparison is 0 exactly on equal names |
| `Runtime.CompareOrdinalAntisymmetric` | Domain/ValueObject.cs:35-38 | swapping the names negates the ordinal comparison |
| `Runtime.CompareOrdinalTransitive` | Domain/ValueObject.cs:35-38 | ordinal "less than" is transitive |
| `Runtime.DecimalText` | Domain/Entity.cs:53 | a `long` as text: a minus sign exactly for a negative value, then decimal digits without a leading zero whose value is the magnitude of the number |
| `ValueObjects.SequenceEqual` | Domain/ValueObject.cs:88 | no contract of its own; characterised by `ValueObjects.SequenceEqualIff` |
| `ValueObjects.SequenceEqualIff` | Domain/ValueObject.cs:88 | `SequenceEqual` holds iff the sequences have the same length and are pairwise equal in order |
| `ValueObjects.EqualsValueObject` | Domain/ValueObject.cs:88 | no contract of its own; characterised by `ValueObjects.EqualsValueObjectIff` |
| `ValueObjects.Equals` | Domain/ValueObject.cs:11-24 | `Equals(null)` is false and a non-value-object argument is never equal |
| `ValueObjects.EqualsSameReference` | Domain/ValueObject.cs:18-21 | the same reference is always equal |
| `ValueObjects.EqualsDifferentTypes` | Domain/ValueObject.cs:23 | objects of different runtime types are never equal, whatever their components |
| `ValueObjects.EqualsValueObjectIff` | Domain/ValueObject.cs:88 | the private `Equals(ValueObject)` holds exactly when the component sequences are equal, whatever the runtime types |
| `ValueObjects.EqualsIff` | Domain/ValueObject.cs:23 | equal iff same runtime type, same number of components and pairwise equal components in order |
| `ValueObjects.EqualsIsValueEquality` | Domain/ValueObject.cs:23 | equal iff same runtime type and equal component sequences |
| `ValueObjects.EqualsEquivalence` | Domain/ValueObject.cs:11-24 | `Equals` is reflexive, symmetric and transitive |
| `ValueObjects.OpEquals` | Domain/ValueObject.cs:56-69 | no contract of its own; characterised by `ValueObjects.OperatorsNullSafe` and `ValueObjects.OpEqualsIgnoresType` |
| `ValueObjects.OpNotEquals` | Domain/ValueObject.cs:71 | no contract of its own; characterised by `ValueObjects.OperatorsNullSafe` |
| `ValueObjects.OperatorsNullSafe` | Domain/ValueObject.cs:56-71 | `==` as written is true on two nulls, false on exactly one, otherwise true exactly on equal component sequences (the private overload at line 88); `!=` negates it; `==` is an equivalence |
| `ValueObjects.OpEqualsIgnoresType` | Domain/ValueObject.cs:68 | objects of different runtime types with equal components are `==` although `Equals(object)` rejects them |
| `ValueObjects.OpEqualsTyped` | Domain/ValueObject.cs:56-69 | no contract of its own; the corrected operator, characterised by `ValueObjects.OperatorsTypedNullSafe` |
| `ValueObjects.OpNotEqualsTyped` | Domain/ValueObject.cs:71 | no contract of its own; the corrected `!=`, characterised by `ValueObjects.OperatorsTypedNullSafe` |
| `ValueObjects.OperatorsTypedNullSafe` | Domain/ValueObject.cs:11-24 | the intended `==` is null-safe, agrees with `Equals(object)`, is `==` as written restricted to one runtime type, and is an equivalence |
| `ValueObjects.CompareComparable` | Domain/ValueObject.cs:107-110 | `int` against `string` throws `ArgumentException` and nothing else does; a returned result is -1, 0 or 1 |
| `ValueObjects.CompareComponents` | Domain/ValueObject.cs:90-113 | throws (`ArgumentException`) exactly on two comparable components of different kinds; a returned result is -1, 0 or 1 |
| `ValueObjects.CompareComponentsNullFirst` | Domain/ValueObject.cs:92-105 | two nulls compare 0; a null first gives -1; a null second gives 1 |
| `ValueObjects.CompareComponentsZeroIff` | Domain/ValueObject.cs:90-113 | a returned component comparison is 0 exactly on equal components |
| `ValueObjects.CompareComponentsReflexive` | Domain/ValueObject.cs:90-113 | every component compares 0 with itself |
| `ValueObjects.CompareComponentsAntisymmetric` | Domain/ValueObject.cs:107-110 | without equality-only components, swapping negates the result and a type-mismatch exception occurs both ways |
| `ValueObjects.CompareComponentsNotAntisymmetric` | Domain/ValueObject.cs:112 | any two unequal non-null components that are not both comparable give -1 in both directions |
| `ValueObjects.CompareComponentsTransitive` | Domain/ValueObject.cs:90-110 | without equality-only components, "less than" is transitive |
| `ValueObjects.CompareSeq` | Domain/ValueObject.cs:41-53 | the loop throws only `ArgumentException`, or `IndexOutOfRangeException` when the other object has fewer components; a returned result is -1, 0 or 1; it never returns 0 against an object with fewer components |
| `ValueObjects.CompareSeqZeroIff` | Domain/ValueObject.cs:44-53 | the component loop gives 0 iff the other object has at least as many components and every compared pair ties |
| `ValueObjects.CompareSeqFirstDecisive` | Domain/ValueObject.cs:44-51 | the loop returns the result of the first pair that does not tie, or that pair's exception |
| `ValueObjects.CompareSeqShortOther` | Domain/ValueObject.cs:46 | if the other object has fewer components and the shared prefix ties, the loop reads past the other array |
| `ValueObjects.CompareSeqIgnoresExtra` | Domain/ValueObject.cs:44-46 | components of the other object beyond this object's count never affect the result |
| `ValueObjects.CompareSeqReflexive` | Domain/ValueObject.cs:44-53 | a component list compares 0 with itself |
| `ValueObjects.CompareSeqAntisymmetric` | Domain/ValueObject.cs:41-53 | for equally long lists without equality-only components, swapping the sides negates the result |
| `ValueObjects.CompareSeqTransitive` | Domain/ValueObject.cs:41-53 | for equally long lists without equality-only components, "less than" is transitive |
| `ValueObjects.CompareToSpec` | Domain/ValueObject.cs:30-54 | throws exactly on a null argument or when the component loop of two objects of one type throws; a returned result is -1, 0 or 1 |
| `ValueObjects.CompareTo` | Domain/ValueObject.cs:28-54 | the loop returns what `CompareToSpec` gives: an exception on null; ordinal type-name order across types; otherwise the first non-zero component comparison, else 0 |
| `ValueObjects.CompareToAcrossTypes` | Domain/ValueObject.cs:35-38 | across runtime types the result is non-zero, has the sign of the ordinal type-name comparison, and flips sign when the arguments swap |
| `ValueObjects.CompareToZeroIffEquals` | Domain/ValueObject.cs:30-54 | within one type and component count, `CompareTo` is 0 exactly when `Equals` holds |
| `ValueObjects.CompareToSameType` | Domain/ValueObject.cs:40-53 | within one type the first non-tying component decides, and surplus components on the other side are ignored |
| `ValueObjects.CompareToNotAntisymmetric` | Domain/ValueObject.cs:44-53 | two objects can each compare less than the other, and a longer object against a shorter one throws while the reverse call returns 0 |
| `ValueObjects.CompareToOrder` | Domain/ValueObject.cs:30-54 | for objects of equal component count without equality-only components, `CompareTo` is antisymmetric and transitive, across types as well as within one |
| `ValueObjects.ComponentHash` | Domain/ValueObject.cs:79 | no contract of its own; `obj?.GetHashCode() ?? 0`, a null component hashing to 0 (also line 84); characterised by `ValueObjects.HashConsistentWithEquals` and `ValueObjects.XorAllPermutation` |
| `ValueObjects.XorFrom` | Domain/ValueObject.cs:85 | no contract of its own; the unseeded `Aggregate((x, y) => x ^ y)`, characterised by `ValueObjects.XorFromIsXorAll` |
| `ValueObjects.XorFold` | Domain/ValueObject.cs:83-85 | the unseeded fold throws `InvalidOperationException` exactly on an empty component list |
| `ValueObjects.SeededFold` | Domain/ValueObject.cs:74-81 | no contract of its own; characterised by `ValueObjects.SeededFoldOrderSensitive` and `ValueObjects.HashConsistentWithEquals` |
| `ValueObjects.SeedFrom` | Domain/ValueObject.cs:75-81 | no contract of its own; the fold step by step, characterised by `ValueObjects.SeededFoldOrderSensitive` |
| `ValueObjects.Combine` | Domain/ValueObject.cs:79 | no contract of its own; one unchecked `current * 23 + hash` step |
| `ValueObjects.GetHashCode` | Domain/ValueObject.cs:26 | fails exactly in the default build on zero components; the seeded build gives 1 there |
| `ValueObjects.XorFromIsXorAll` | Domain/ValueObject.cs:83-85 | the unseeded left fold from the first hash is the XOR of all component hashes |
| `ValueObjects.XorAllPermutation` | Domain/ValueObject.cs:83-85 | the XOR of the component hashes depends only on the multiset of components |
| `ValueObjects.XorFoldPermutationInvariant` | Domain/ValueObject.cs:83-85 | the default hash does not change when the components are permuted |
| `ValueObjects.XorFoldFailsOnEmpty` | Domain/ValueObject.cs:83-85 | the default hash throws on an object with no components |
| `ValueObjects.SeededFoldOrderSensitive` | Domain/ValueObject.cs:74-81 | the seeded hash is 1 on zero components; it computes `h*23 + ch` from 1, so components hashing 1 and 2 give 554 in one order and 576 in the other, where the XOR fold gives 3 both ways |
| `ValueObjects.HashConsistentWithEquals` | Domain/ValueObject.cs:26 | equal objects have equal hashes under either fold, for every component hash |
| `ValueObjects.AsValueObject` | Domain/ValueObject.cs:122-125 | a `ValueObject<T>`'s components are exactly `[Value]` |
| `ValueObjects.Convert` | Domain/ValueObject.cs:129 | the implicit conversion throws `NullReferenceException` exactly on a null wrapper, and otherwise yields the wrapper's one component |
| `ValueObjects.SingleEqualityAndOrder` | Domain/ValueObject.cs:116-129 | the implicit conversion yields `Value`; wrappers are equal iff same type and equal values, and within a type they compare as their values |
| `Entities.IdEquals` | Domain/Entity.cs:28-33 | no contract of its own; `Id.Equals(x)` on a non-null id, characterised by `Entities.EqualsAgreesWithAsWritten` and `Entities.NullableIdsNeverThrow` |
| `Entities.EqualsAsWritten` | Domain/Entity.cs:11-34 | null and non-entity arguments give false and the entity itself gives true; the only exception is `NullReferenceException`, raised only when an id is null and `TId` is not `Nullable<T>` |
| `Entities.TransientReferenceIdsThrow` | Domain/Entity.cs:28 | with a reference-typed id, when one of two distinct same-type entities has a null id, `Equals` throws in both directions |
| `Entities.NullableIdsNeverThrow` | Domain/Entity.cs:28 | with a `Nullable<T>` id the guard never throws, and the code as written agrees with the null-safe `Equals` for every input |
| `Entities.Equals` | Domain/Entity.cs:11-34 | a null or non-entity argument is never equal, and an entity always equals itself |
| `Entities.EqualsAgreesWithAsWritten` | Domain/Entity.cs:11-34 | when no id is null, the null-safe `Equals` returns what the code as written returns |
| `Entities.EqualsRuleOrder` | Domain/Entity.cs:18-33 | same reference is equal (even with a default id); otherwise different types, or a default id on either side, are unequal; otherwise equal iff ids are equal |
| `Entities.EqualsEquivalence` | Domain/Entity.cs:11-34 | `Equals` is reflexive, symmetric and transitive |
| `Entities.TransientEntitiesNeverEqual` | Domain/Entity.cs:28-31 | two distinct entities are unequal in both directions when one has the default id |
| `Entities.OpEqualsAsWritten` | Domain/Entity.cs:36-49 | `==` as written is true on two nulls and false on exactly one, and otherwise is the as-written `Equals` |
| `Entities.OperatorsAsWritten` | Domain/Entity.cs:36-49 | `==` as written equals the null-safe `==` whenever no id is null, and throws on two distinct same-class entities with a reference-typed id when the first id is null |
| `Entities.OpEquals` | Domain/Entity.cs:36-49 | no contract of its own; the null-safe operator, characterised by `Entities.OperatorsNullSafe` |
| `Entities.OpNotEquals` | Domain/Entity.cs:51 | no contract of its own; characterised by `Entities.OperatorsNullSafe` |
| `Entities.OperatorsNullSafe` | Domain/Entity.cs:36-51 | the null-safe `==` is true on two nulls, false on exactly one, otherwise the null-safe `Equals`, and symmetric; `!=` negates it |
| `Entities.HashKey` | Domain/Entity.cs:53 | the hashed text begins with the runtime type name, and is that name alone for a null id |
| `Entities.GetHashCode` | Domain/Entity.cs:53 | no contract of its own; characterised by `Entities.HashConsistentWithEquals` |
| `Entities.HashConsistentWithEquals` | Domain/Entity.cs:53 | the hash depends only on type name and id text, so equal entities hash equal for every id text and string hash |
| `Entities.LongEntityEqualsTotal` | Domain/Entity.cs:56-60 | for `Entity` the id is a `long` whose default is 0, and `Equals` as written never throws and matches the null-safe rules |
| `Entities.LongHashKeysCanCollide` | Domain/Entity.cs:53 | unequal entities of different types can hash the same text ("Order1"+"23" = "Order12"+"3") |
| `Enumerations.New` | Domain/Enumeration.cs:19-22 | the constructor stores `Id` and `Name` unchanged and `ToString` returns `Name` |
| `Enumerations.ToString` | Domain/Enumeration.cs:22 | no contract of its own; characterised by `Enumerations.New` |
| `Enumerations.EqualsEnumeration` | Domain/Enumeration.cs:24-25 | throws `NullReferenceException` exactly on a null argument; an instance equals itself |
| `Enumerations.Equals` | Domain/Enumeration.cs:27-38 | true only on an enumeration with the same `Id`; an instance equals itself |
| `Enumerations.EqualsRejectsNonEnumerations` | Domain/Enumeration.cs:27-37 | `Equals(object)` is false on null and on a non-enumeration |
| `Enumerations.EqualsByTypeAndId` | Domain/Enumeration.cs:27-34 | `Equals(object)` holds iff same runtime type and same `Id`, whatever the names; it is an equivalence |
| `Enumerations.EqualsEnumerationByNameAndId` | Domain/Enumeration.cs:24-25 | `Equals(Enumeration)` holds iff same `Name` and `Id`, whatever the runtime types, and throws on null |
| `Enumerations.EqualsOverloadsDisagree` | Domain/Enumeration.cs:24-34 | the overloads disagree both ways: same type and id with other names, and other types with the same id and name |
| `Enumerations.GetHashCode` | Domain/Enumeration.cs:40-41 | no contract of its own; characterised by `Enumerations.HashConsistentWithEqualsEnumeration` |
| `Enumerations.HashConsistentWithEqualsEnumeration` | Domain/Enumeration.cs:40-41 | objects equal under `Equals(Enumeration)` hash equal for every `Combine` |
| `Enumerations.HashConsistentWithEquals` | Domain/Enumeration.cs:40-41 | objects equal under `Equals(object)` hash equal when ids are unique within each class |
| `Enumerations.HashInconsistentWithoutUniqueIds` | Domain/Enumeration.cs:40-41 | without unique ids, objects equal under `Equals(object)` can hash differently |
| `Enumerations.CompareTo` | Domain/Enumeration.cs:43-44 | returns exactly on an enumeration argument, then -1, 0 or 1, and 0 exactly on equal ids |
| `Enumerations.CompareToFailures` | Domain/Enumeration.cs:43-44 | `CompareTo` throws on null (dereference) and on a non-enumeration (invalid cast) |
| `Enumerations.CompareToOrdersById` | Domain/Enumeration.cs:43-44 | on enumerations `CompareTo` returns with the sign of the id comparison: 0 on itself, antisymmetric, transitive |
| `Enumerations.CompareToIgnoresType` | Domain/Enumeration.cs:43-44 | instances of different classes with one id compare 0 though `Equals(object)` rejects them |
| `AggregateRoots.AggregateRoot.constructor` | Domain/AggregateRoot.cs:15 | a new aggregate has no events and the transient id 0 |
| `AggregateRoots.AggregateRoot.DomainEvents` | Domain/AggregateRoot.cs:9 | no contract of its own; characterised by the contracts of `AddDomainEvent` and `ClearEvents` |
| `AggregateRoots.AggregateRoot.AddDomainEvent` | Domain/AggregateRoot.cs:11 | the log becomes the old log plus the new event: one longer, earlier events unchanged and in order; the id is unchanged |
| `AggregateRoots.AggregateRoot.ClearEvents` | Domain/AggregateRoot.cs:13 | the log becomes empty, so clearing an empty log changes nothing; the id is unchanged |
| `AggregateRoots.RecordAfterClear` | Domain/AggregateRoot.cs:9-13 | after a clear, events added one by one are exactly what `DomainEvents` shows, in call order, and the id is unchanged |
| `AggregateRoots.RecordFromNew` | Domain/AggregateRoot.cs:9-15 | a new aggregate shows exactly the events added since construction, in call order; two clears in a row both leave it empty |

## Left out

- `Enumeration.GetAll<T>` is not modelled. It finds instances by .NET reflection over a class's static fields, which has no counterpart here.
- `ValueObject<T>.ToString` is not modelled. It only delegates to the value's own `ToString`.
- Concrete hash values are not modelled: string hashes, component `GetHashCode` and `HashCode.Combine`. .NET randomises them per process, so they are function parameters and only consistency properties are stated.
- The .NET type system is not modelled: `GetType()`, `Type.ToString()`, casts and inheritance. A runtime type is its full-name tag. A failed cast or a null dereference is an `Err` result.
- Equality components are limited to null, `int`, `string` and one equality-only kind. Other `IComparable` types are not modelled, and neither are mixed numeric types such as `int` against `long`.
- ValueObjects.CompareComponentsZeroIff, ValueObjects.CompareToZeroIffEquals, ValueObjects.CompareComponents: `string` components are compared ordinally, and these two lemmas rest on that order. .NET's `String.CompareTo` is culture-sensitive and can return 0 for distinct strings, such as strings that differ only by an ignorable code point like U+00AD.
- Runtime.CompareOrdinal: it compares Dafny characters, which are Unicode scalar values, while .NET compares UTF-16 code units. The two orders differ only beyond the Basic Multilingual Plane. Also, .NET promises only the sign of the result, and the model returns -1, 0 or 1.
- ValueObjects.SeededFoldOrderSensitive: order sensitivity is shown for one pair of component hashes, not proved for all pairs. The general claim is that two different hashes whose difference is not 2^31 give different results when swapped. Stated over `bv32` multiplication, that claim exceeds the verifier's resource limit.
- The protected `Id` setter of `Entity<TId>` is not modelled. Nothing reassigns it after the constructor `Entity(TId id)` sets it, and the aggregate's `id` field keeps its value across both event operations.
- Runtime.DecimalText: it writes a `long` as the invariant culture does. The entity hash key formats the id with the current culture, whose negative sign may differ.
- Entities.OperatorsNullSafe, Entities.EqualsRuleOrder, Entities.EqualsEquivalence: these are stated for the null-safe `Equals`. With a reference-typed id, the code as written throws `NullReferenceException` once a comparison reaches a null id. See `TransientReferenceIdsThrow` and `OperatorsAsWritten`.
- The aliasing of `DomainEvents` is not modelled. It returns the live list behind an `IReadOnlyList` view, which a caller could observe changing later. Thread safety is not modelled either; the code has no concurrency logic.

## Findings

| source | as written | input that shows it | evidently intended | confidence | as-written member | corrected member |
|---|---|---|---|---|---|---|
| Domain/ValueObject.cs:83-85 | the default build folds the component hashes with an unseeded `Aggregate` | a value object whose `GetEqualityComponents` yields nothing: `GetHashCode` throws `InvalidOperationException`, and swapping two components never changes the hash | every value object has a hash; the seeded fold at lines 74-81 has one, and it depends on order | medium (the seeded fold exists behind a flag), not executed | `ValueObjects.XorFoldFailsOnEmpty` | `ValueObjects.SeededFoldOrderSensitive` |
| Domain/ValueObject.cs:68 | `operator ==` calls `a.Equals(b)` with `b` of static type `ValueObject`, which binds to the private `Equals(ValueObject)` and compares components only | a `Money` and an `Email` value object, each with the single component 10: `money == email` is true while `money.Equals(email)` is false | `==` agrees with `Equals(object)`, so objects of different classes are never `==` | medium, not executed | `ValueObjects.OpEqualsIgnoresType` | `ValueObjects.OperatorsTypedNullSafe` |
| Domain/Entity.cs:28 | the default-id guard calls `Id.Equals(default(TId))` on the id itself | an `Entity<string>` subclass with two distinct instances built by the parameterless constructor (both `Id` null): `a.Equals(b)` throws `NullReferenceException` | two transient entities compare unequal, as they do for value-typed ids | high, not executed | `Entities.TransientReferenceIdsThrow` | `Entities.TransientEntitiesNeverEqual` |

`Entities.EqualsAsWritten` models the guard as written. `Entities.Equals` is the
null-safe version. `Entities.OpEqualsAsWritten` is `==` as written, and
`Entities.OpEquals` is the null-safe `==`. `Entities.EqualsAgreesWithAsWritten`
shows the two agree whenever no id is null. That covers every `Entity` and
`AggregateRoot`, whose ids are `long`, and every `Nullable<T>` id
(`Entities.NullableIdsNeverThrow`).
