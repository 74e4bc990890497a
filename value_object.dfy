/** `ValueObject`: an immutable object whose equality, ordering and hash derive from
    the ordered sequence of "equality components" its concrete class declares, and
    `ValueObject<T>`, whose only component is its wrapped `Value`. */
module ValueObjects {
  import opened Runtime

  /** One equality component, boxed as `object`: null, a boxed `int`, a `string`
      (both `IComparable`), or an object of a class that implements only
      `Equals`, identified by its value. */
  datatype Comp = Null | Int(i: Int32) | Str(s: string) | Opaque(tag: int)

  /** A value object: its reference identity, the full name of its runtime type,
      and what `GetEqualityComponents` yields for it. */
  datatype ValueObject = ValueObject(ref: nat, typeName: string, components: seq<Comp>)

  /** Two handles with the same reference denote the same object. */
  predicate SameHeap(a: ValueObject, b: ValueObject)
  {
    a.ref == b.ref ==> a == b
  }

  // ---------------------------------------------------------------- equality

  /** `Enumerable.SequenceEqual` with the default comparer: walks both sequences
      together, comparing elements with `object.Equals`. */
  function SequenceEqual(xs: seq<Comp>, ys: seq<Comp>): bool
  {
    if |xs| == 0 then |ys| == 0
    else |ys| != 0 && xs[0] == ys[0] && SequenceEqual(xs[1..], ys[1..])
  }

  lemma {:induction false} SequenceEqualIff(xs: seq<Comp>, ys: seq<Comp>)
    ensures SequenceEqual(xs, ys) <==> |xs| == |ys| && forall i | 0 <= i < |xs| :: xs[i] == ys[i]
  {
    if |xs| != 0 && |ys| != 0 {
      SequenceEqualIff(xs[1..], ys[1..]);
      if |xs| == |ys| && forall i | 0 <= i < |xs| :: xs[i] == ys[i] {
        assert forall i | 0 <= i < |xs| - 1 :: xs[1..][i] == ys[1..][i] by {
          forall i | 0 <= i < |xs| - 1 ensures xs[1..][i] == ys[1..][i] {
            assert xs[i + 1] == ys[i + 1];
          }
        }
      }
      if SequenceEqual(xs, ys) {
        forall i | 0 <= i < |xs| ensures xs[i] == ys[i] {
          if i > 0 { assert xs[1..][i - 1] == ys[1..][i - 1]; }
        }
      }
    }
  }

  /** `Equals(object)`: false on null, true on the same reference, and otherwise
      true exactly when the argument has the same runtime type and equal components. */
  function Equals(self: ValueObject, obj: Option<Object<ValueObject>>): (r: bool)
    ensures obj.None? ==> !r
    ensures obj.Some? && obj.value.Foreign? ==> !r
  {
    match obj
    case None => false
    case Some(Foreign(_)) => false
    case Some(Is(other)) =>
      if self.ref == other.ref then true
      else other.typeName == self.typeName && EqualsValueObject(self, other)
  }

  /** The private `Equals(ValueObject)`: the two component sequences are equal,
      whatever the two runtime types are. */
  function EqualsValueObject(self: ValueObject, other: ValueObject): bool
  {
    SequenceEqual(self.components, other.components)
  }

  /** The private overload is exactly equality of the component sequences. */
  lemma EqualsValueObjectIff(a: ValueObject, b: ValueObject)
    ensures EqualsValueObject(a, b) <==> a.components == b.components
  {
    SequenceEqualIff(a.components, b.components);
    if a.components != b.components && |a.components| == |b.components| {
      var i :| 0 <= i < |a.components| && a.components[i] != b.components[i];
    }
  }

  lemma EqualsSameReference(a: ValueObject, b: ValueObject)
    requires a.ref == b.ref
    ensures Equals(a, Some(Is(b)))
  {
  }

  lemma EqualsDifferentTypes(a: ValueObject, b: ValueObject)
    requires a.typeName != b.typeName && SameHeap(a, b)
    ensures !Equals(a, Some(Is(b)))
  {
  }

  /** For objects of one runtime type, equality is equality of the component
      sequences: same length, pairwise equal in order. */
  lemma EqualsIff(a: ValueObject, b: ValueObject)
    requires SameHeap(a, b)
    ensures Equals(a, Some(Is(b))) <==>
              a.typeName == b.typeName && |a.components| == |b.components| &&
              forall i | 0 <= i < |a.components| :: a.components[i] == b.components[i]
  {
    SequenceEqualIff(a.components, b.components);
    SequenceEqualIff(b.components, b.components);
  }

  lemma EqualsIsValueEquality(a: ValueObject, b: ValueObject)
    requires SameHeap(a, b)
    ensures Equals(a, Some(Is(b))) <==> a.typeName == b.typeName && a.components == b.components
  {
    EqualsIff(a, b);
    if a.typeName == b.typeName && a.components == b.components {
      assert |a.components| == |b.components|;
    }
  }

  /** `Equals` is an equivalence relation over the objects of one heap. */
  lemma EqualsEquivalence(a: ValueObject, b: ValueObject, c: ValueObject)
    requires SameHeap(a, b) && SameHeap(b, c) && SameHeap(a, c)
    ensures Equals(a, Some(Is(a)))
    ensures Equals(a, Some(Is(b))) == Equals(b, Some(Is(a)))
    ensures Equals(a, Some(Is(b))) && Equals(b, Some(Is(c))) ==> Equals(a, Some(Is(c)))
  {
    EqualsIsValueEquality(a, b);
    EqualsIsValueEquality(b, a);
    EqualsIsValueEquality(b, c);
    EqualsIsValueEquality(a, c);
  }

  /** `operator ==` as written: true on two nulls, false on exactly one null,
      else `a.Equals(b)`. Inside the class `b` has static type `ValueObject`, so
      the call binds to the private `Equals(ValueObject)`, which compares the
      components and not the runtime types. */
  function OpEquals(a: Option<ValueObject>, b: Option<ValueObject>): bool
  {
    if a.None? && b.None? then true
    else if a.None? || b.None? then false
    else EqualsValueObject(a.value, b.value)
  }

  /** `operator !=`. */
  function OpNotEquals(a: Option<ValueObject>, b: Option<ValueObject>): bool
  {
    !OpEquals(a, b)
  }

  /** The operators as written are null-safe, `!=` negates `==`, and `==` is
      equality of the component sequences, hence an equivalence. */
  lemma OperatorsNullSafe(a: Option<ValueObject>, b: Option<ValueObject>, c: Option<ValueObject>)
    ensures OpEquals(None, None) && !OpNotEquals(None, None)
    ensures a.Some? ==> !OpEquals(a, None) && !OpEquals(None, a) && OpNotEquals(a, None)
    ensures a.Some? && b.Some? ==> (OpEquals(a, b) <==> a.value.components == b.value.components)
    ensures OpNotEquals(a, b) == !OpEquals(a, b)
    ensures OpEquals(a, a)
    ensures OpEquals(a, b) == OpEquals(b, a)
    ensures OpEquals(a, b) && OpEquals(b, c) ==> OpEquals(a, c)
  {
    if a.Some? && b.Some? {
      EqualsValueObjectIff(a.value, b.value);
      EqualsValueObjectIff(b.value, a.value);
    }
    if a.Some? { EqualsValueObjectIff(a.value, a.value); }
    if b.Some? && c.Some? { EqualsValueObjectIff(b.value, c.value); }
    if a.Some? && c.Some? { EqualsValueObjectIff(a.value, c.value); }
  }

  /** `==` as written identifies objects of different classes whose components
      agree (a `Money` of 10 and an `Email` of 10), which `Equals` rejects. */
  lemma OpEqualsIgnoresType(a: ValueObject, b: ValueObject)
    requires SameHeap(a, b)
    requires a.typeName != b.typeName && a.components == b.components
    ensures OpEquals(Some(a), Some(b)) && !Equals(a, Some(Is(b)))
  {
    EqualsValueObjectIff(a, b);
  }

  /** `operator ==` as intended: `Equals(object)`, so that the runtime type counts. */
  function OpEqualsTyped(a: Option<ValueObject>, b: Option<ValueObject>): bool
  {
    if a.None? && b.None? then true
    else if a.None? || b.None? then false
    else Equals(a.value, Some(Is(b.value)))
  }

  function OpNotEqualsTyped(a: Option<ValueObject>, b: Option<ValueObject>): bool
  {
    !OpEqualsTyped(a, b)
  }

  predicate SameHeapOpt(a: Option<ValueObject>, b: Option<ValueObject>)
  {
    a.Some? && b.Some? ==> SameHeap(a.value, b.value)
  }

  /** The intended operators are null-safe, agree with `Equals`, are `==` as
      written restricted to one runtime type, and `==` is an equivalence over
      nullable references of one heap. */
  lemma OperatorsTypedNullSafe(a: Option<ValueObject>, b: Option<ValueObject>, c: Option<ValueObject>)
    requires SameHeapOpt(a, b) && SameHeapOpt(b, c) && SameHeapOpt(a, c)
    ensures OpEqualsTyped(None, None) && !OpNotEqualsTyped(None, None)
    ensures a.Some? ==> !OpEqualsTyped(a, None) && !OpEqualsTyped(None, a) && OpNotEqualsTyped(a, None)
    ensures a.Some? && b.Some? ==> OpEqualsTyped(a, b) == Equals(a.value, Some(Is(b.value)))
    ensures a.Some? && b.Some? ==>
              (OpEqualsTyped(a, b) <==> OpEquals(a, b) && a.value.typeName == b.value.typeName)
    ensures OpNotEqualsTyped(a, b) == !OpEqualsTyped(a, b)
    ensures OpEqualsTyped(a, a)
    ensures OpEqualsTyped(a, b) == OpEqualsTyped(b, a)
    ensures OpEqualsTyped(a, b) && OpEqualsTyped(b, c) ==> OpEqualsTyped(a, c)
  {
    if a.Some? && b.Some? && c.Some? {
      EqualsEquivalence(a.value, b.value, c.value);
    } else if a.Some? && b.Some? {
      EqualsEquivalence(a.value, b.value, b.value);
    } else if a.Some? {
      EqualsEquivalence(a.value, a.value, a.value);
    }
    if a.Some? && b.Some? {
      EqualsIsValueEquality(a.value, b.value);
      EqualsValueObjectIff(a.value, b.value);
    }
  }

  // ---------------------------------------------------------------- ordering

  predicate Comparable(c: Comp)
  {
    c.Int? || c.Str?
  }

  /** `IComparable.CompareTo` of an `int` or a `string` given another boxed
      comparable: a value of another type raises `ArgumentException`. Strings are
      compared ordinally. */
  function CompareComparable(x: Comp, y: Comp): (r: Result<int>)
    requires Comparable(x) && Comparable(y)
    ensures r.Err? <==> x.Int? != y.Int?
    ensures r.Err? ==> r.error == Argument
    ensures r.Ok? ==> -1 <= r.value <= 1
  {
    if x.Int? && y.Int? then Ok(CompareInt(x.i, y.i))
    else if x.Str? && y.Str? then Ok(CompareOrdinal(x.s, y.s))
    else Err(Argument)
  }

  /** `CompareComponents`: null sorts before every non-null component; two
      comparable components use their own ordering; anything else is 0 when equal
      and -1 otherwise. */
  function CompareComponents(x: Comp, y: Comp): (r: Result<int>)
    ensures r.Err? <==> Comparable(x) && Comparable(y) && x.Int? != y.Int?
    ensures r.Err? ==> r.error == Argument
    ensures r.Ok? ==> -1 <= r.value <= 1
  {
    if x.Null? && y.Null? then Ok(0)
    else if x.Null? then Ok(-1)
    else if y.Null? then Ok(1)
    else if Comparable(x) && Comparable(y) then CompareComparable(x, y)
    else if x == y then Ok(0)
    else Ok(-1)
  }

  /** The sign of a comparison seen from the other side; exceptions are kept. */
  function Negate(r: Result<int>): Result<int>
  {
    match r
    case Ok(c) => Ok(-c)
    case Err(e) => Err(e)
  }

  lemma CompareComponentsNullFirst(x: Comp)
    requires !x.Null?
    ensures CompareComponents(Null, Null) == Ok(0)
    ensures CompareComponents(Null, x) == Ok(-1)
    ensures CompareComponents(x, Null) == Ok(1)
  {
  }

  /** A returned comparison is 0 exactly on equal components. */
  lemma CompareComponentsZeroIff(x: Comp, y: Comp)
    requires CompareComponents(x, y).Ok?
    ensures CompareComponents(x, y).value == 0 <==> x == y
  {
    if x.Str? && y.Str? {
      CompareOrdinalZeroIff(x.s, y.s);
    }
  }

  lemma CompareComponentsReflexive(x: Comp)
    ensures CompareComponents(x, x) == Ok(0)
  {
    if x.Str? {
      CompareOrdinalZeroIff(x.s, x.s);
    }
  }

  /** Without a non-comparable component, swapping the arguments negates the
      result, and an exception is raised in both directions. */
  lemma CompareComponentsAntisymmetric(x: Comp, y: Comp)
    requires !x.Opaque? && !y.Opaque?
    ensures CompareComponents(y, x) == Negate(CompareComponents(x, y))
  {
    if x.Str? && y.Str? {
      CompareOrdinalAntisymmetric(x.s, y.s);
    }
  }

  /** Two unequal non-null components that are not both comparable are each
      "less" than the other. */
  lemma CompareComponentsNotAntisymmetric(x: Comp, y: Comp)
    requires !x.Null? && !y.Null? && !(Comparable(x) && Comparable(y)) && x != y
    ensures CompareComponents(x, y) == Ok(-1) && CompareComponents(y, x) == Ok(-1)
  {
  }

  lemma CompareComponentsTransitive(x: Comp, y: Comp, z: Comp)
    requires !x.Opaque? && !y.Opaque? && !z.Opaque?
    requires CompareComponents(x, y).Ok? && CompareComponents(x, y).value < 0
    requires CompareComponents(y, z).Ok? && CompareComponents(y, z).value < 0
    ensures CompareComponents(x, z).Ok? && CompareComponents(x, z).value < 0
  {
    if x.Str? && y.Str? && z.Str? {
      CompareOrdinalTransitive(x.s, y.s, z.s);
    }
  }

  /** The component loop of `CompareTo` for two objects of one runtime type: the
      first non-zero `CompareComponents` in index order, else 0. The loop runs over
      this object's components and indexes the other's array at the same position. */
  function CompareSeq(xs: seq<Comp>, ys: seq<Comp>): (r: Result<int>)
    ensures r.Err? ==> r.error == Argument || (r.error == IndexOutOfRange && |ys| < |xs|)
    ensures r.Ok? ==> -1 <= r.value <= 1
    ensures |ys| < |xs| ==> r != Ok(0)
  {
    if |xs| == 0 then Ok(0)
    else if |ys| == 0 then Err(IndexOutOfRange)
    else
      match CompareComponents(xs[0], ys[0])
      case Err(e) => Err(e)
      case Ok(c) => if c != 0 then Ok(c) else CompareSeq(xs[1..], ys[1..])
  }

  /** Every component compared so far gave 0. */
  ghost predicate TiedUpTo(xs: seq<Comp>, ys: seq<Comp>, k: nat)
  {
    k <= |xs| && k <= |ys| &&
    forall j | 0 <= j < k :: CompareComponents(xs[j], ys[j]) == Ok(0)
  }

  /** 0 exactly when the other object has at least as many components and every
      compared pair ties. */
  lemma {:induction false} CompareSeqZeroIff(xs: seq<Comp>, ys: seq<Comp>)
    ensures CompareSeq(xs, ys) == Ok(0) <==> TiedUpTo(xs, ys, |xs|)
  {
    if |xs| != 0 && |ys| != 0 {
      CompareSeqZeroIff(xs[1..], ys[1..]);
      if TiedUpTo(xs, ys, |xs|) {
        assert CompareComponents(xs[0], ys[0]) == Ok(0);
        forall j | 0 <= j < |xs| - 1
          ensures CompareComponents(xs[1..][j], ys[1..][j]) == Ok(0)
        {
          assert xs[1..][j] == xs[j + 1] && ys[1..][j] == ys[j + 1];
        }
      }
      if CompareSeq(xs, ys) == Ok(0) {
        forall j | 0 <= j < |xs| ensures CompareComponents(xs[j], ys[j]) == Ok(0) {
          if j > 0 { assert xs[j] == xs[1..][j - 1] && ys[j] == ys[1..][j - 1]; }
        }
      }
    }
  }

  /** The result is that of the first position that does not tie: its non-zero
      comparison, or the exception it raises. */
  lemma {:induction false} CompareSeqFirstDecisive(xs: seq<Comp>, ys: seq<Comp>, k: nat)
    requires TiedUpTo(xs, ys, k) && k < |xs| && k < |ys|
    requires CompareComponents(xs[k], ys[k]) != Ok(0)
    ensures CompareSeq(xs, ys) == CompareComponents(xs[k], ys[k])
  {
    if k > 0 {
      assert CompareComponents(xs[0], ys[0]) == Ok(0);
      assert TiedUpTo(xs[1..], ys[1..], k - 1) by {
        forall j | 0 <= j < k - 1
          ensures CompareComponents(xs[1..][j], ys[1..][j]) == Ok(0)
        {
          assert xs[1..][j] == xs[j + 1] && ys[1..][j] == ys[j + 1];
        }
      }
      CompareSeqFirstDecisive(xs[1..], ys[1..], k - 1);
    }
  }

  /** When the other object has fewer components and the shared prefix ties, the
      loop reads past the end of the other array. */
  lemma {:induction false} CompareSeqShortOther(xs: seq<Comp>, ys: seq<Comp>)
    requires |ys| < |xs| && TiedUpTo(xs, ys, |ys|)
    ensures CompareSeq(xs, ys) == Err(IndexOutOfRange)
  {
    if |ys| != 0 {
      assert CompareComponents(xs[0], ys[0]) == Ok(0);
      assert TiedUpTo(xs[1..], ys[1..], |ys| - 1) by {
        forall j | 0 <= j < |ys| - 1
          ensures CompareComponents(xs[1..][j], ys[1..][j]) == Ok(0)
        {
          assert xs[1..][j] == xs[j + 1] && ys[1..][j] == ys[j + 1];
        }
      }
      CompareSeqShortOther(xs[1..], ys[1..]);
    }
  }

  /** Components of the other object beyond this object's count are never read. */
  lemma {:induction false} CompareSeqIgnoresExtra(xs: seq<Comp>, ys: seq<Comp>, extra: seq<Comp>)
    requires |xs| <= |ys|
    ensures CompareSeq(xs, ys + extra) == CompareSeq(xs, ys)
  {
    if |xs| != 0 {
      assert (ys + extra)[0] == ys[0];
      assert (ys + extra)[1..] == ys[1..] + extra;
      CompareSeqIgnoresExtra(xs[1..], ys[1..], extra);
    }
  }

  lemma {:induction false} CompareSeqReflexive(xs: seq<Comp>)
    ensures CompareSeq(xs, xs) == Ok(0)
  {
    if |xs| != 0 {
      CompareComponentsReflexive(xs[0]);
      CompareSeqReflexive(xs[1..]);
    }
  }

  predicate NoOpaque(xs: seq<Comp>)
  {
    forall i | 0 <= i < |xs| :: !xs[i].Opaque?
  }

  /** Between equally long component lists without non-comparable components,
      swapping the sides negates the result. */
  lemma {:induction false} CompareSeqAntisymmetric(xs: seq<Comp>, ys: seq<Comp>)
    requires |xs| == |ys| && NoOpaque(xs) && NoOpaque(ys)
    ensures CompareSeq(ys, xs) == Negate(CompareSeq(xs, ys))
  {
    if |xs| != 0 {
      CompareComponentsAntisymmetric(xs[0], ys[0]);
      assert NoOpaque(xs[1..]) && NoOpaque(ys[1..]) by {
        forall i | 0 <= i < |xs| - 1 ensures !xs[1..][i].Opaque? && !ys[1..][i].Opaque? {
          assert xs[1..][i] == xs[i + 1] && ys[1..][i] == ys[i + 1];
        }
      }
      CompareSeqAntisymmetric(xs[1..], ys[1..]);
    }
  }

  /** Between equally long component lists without non-comparable components,
      "less than" is transitive. */
  lemma {:induction false} CompareSeqTransitive(xs: seq<Comp>, ys: seq<Comp>, zs: seq<Comp>)
    requires |xs| == |ys| == |zs| && NoOpaque(xs) && NoOpaque(ys) && NoOpaque(zs)
    requires CompareSeq(xs, ys).Ok? && CompareSeq(xs, ys).value < 0
    requires CompareSeq(ys, zs).Ok? && CompareSeq(ys, zs).value < 0
    ensures CompareSeq(xs, zs).Ok? && CompareSeq(xs, zs).value < 0
  {
    var x, y, z := xs[0], ys[0], zs[0];
    assert !x.Opaque? && !y.Opaque? && !z.Opaque?;
    var cxy, cyz := CompareComponents(x, y), CompareComponents(y, z);
    assert cxy.Ok? && cyz.Ok?;
    if cxy.value == 0 && cyz.value == 0 {
      CompareComponentsZeroIff(x, y);
      CompareComponentsZeroIff(y, z);
      assert NoOpaque(xs[1..]) && NoOpaque(ys[1..]) && NoOpaque(zs[1..]) by {
        forall i | 0 <= i < |xs| - 1
          ensures !xs[1..][i].Opaque? && !ys[1..][i].Opaque? && !zs[1..][i].Opaque?
        {
          assert xs[1..][i] == xs[i + 1] && ys[1..][i] == ys[i + 1] && zs[1..][i] == zs[i + 1];
        }
      }
      CompareSeqTransitive(xs[1..], ys[1..], zs[1..]);
    } else if cxy.value == 0 {
      CompareComponentsZeroIff(x, y);
    } else if cyz.value == 0 {
      CompareComponentsZeroIff(y, z);
    } else {
      CompareComponentsTransitive(x, y, z);
    }
  }

  /** `CompareTo(object)`: a null argument is dereferenced; objects of different
      runtime types are ordered by the ordinal comparison of their type names;
      objects of one type by their components. */
  function CompareToSpec(self: ValueObject, obj: Option<Object<ValueObject>>): (r: Result<int>)
    ensures r.Err? <==> obj.None? || (obj.value.Is? && obj.value.value.typeName == self.typeName &&
                                      CompareSeq(self.components, obj.value.value.components).Err?)
    ensures r.Ok? ==> -1 <= r.value <= 1
  {
    match obj
    case None => Err(NullReference)
    case Some(Foreign(t)) => Ok(CompareOrdinal(self.typeName, t))
    case Some(Is(other)) =>
      if self.typeName != other.typeName then Ok(CompareOrdinal(self.typeName, other.typeName))
      else CompareSeq(self.components, other.components)
  }

  /** `CompareTo(object)` and `CompareTo(ValueObject)`, with the component loop. */
  method CompareTo(self: ValueObject, obj: Option<Object<ValueObject>>) returns (r: Result<int>)
    ensures r == CompareToSpec(self, obj)
  {
    if obj.None? {
      return Err(NullReference);
    }
    var otherType := if obj.value.Is? then obj.value.value.typeName else obj.value.typeName;
    if self.typeName != otherType || obj.value.Foreign? {
      return Ok(CompareOrdinal(self.typeName, otherType));
    }
    var components := self.components;
    var otherComponents := obj.value.value.components;
    for i := 0 to |components|
      invariant TiedUpTo(components, otherComponents, i)
      invariant CompareSeq(components, otherComponents) == CompareSeq(components[i..], otherComponents[i..])
    {
      if i >= |otherComponents| {
        return Err(IndexOutOfRange);
      }
      var comparisonResult := CompareComponents(components[i], otherComponents[i]);
      if comparisonResult.Err? {
        return comparisonResult;
      }
      if comparisonResult.value != 0 {
        return comparisonResult;
      }
      assert components[i..][1..] == components[i + 1..];
      assert otherComponents[i..][1..] == otherComponents[i + 1..];
    }
    return Ok(0);
  }

  /** Objects of different runtime types: the sign is that of the ordinal
      comparison of the type names, and swapping the arguments flips it. */
  lemma CompareToAcrossTypes(a: ValueObject, b: ValueObject)
    requires a.typeName != b.typeName
    ensures CompareToSpec(a, Some(Is(b))).Ok? && CompareToSpec(b, Some(Is(a))).Ok?
    ensures CompareToSpec(a, Some(Is(b))).value < 0 <==> CompareOrdinal(a.typeName, b.typeName) < 0
    ensures CompareToSpec(a, Some(Is(b))).value != 0
    ensures CompareToSpec(b, Some(Is(a))).value == -CompareToSpec(a, Some(Is(b))).value
  {
    CompareOrdinalZeroIff(a.typeName, b.typeName);
    CompareOrdinalAntisymmetric(a.typeName, b.typeName);
  }

  /** Within one runtime type and one component count, `CompareTo` is 0 exactly
      when `Equals` holds. */
  lemma CompareToZeroIffEquals(a: ValueObject, b: ValueObject)
    requires SameHeap(a, b) && a.typeName == b.typeName
    requires |a.components| == |b.components|
    ensures CompareToSpec(a, Some(Is(b))) == Ok(0) <==> Equals(a, Some(Is(b)))
  {
    var xs, ys := a.components, b.components;
    CompareSeqZeroIff(xs, ys);
    EqualsIff(a, b);
    if CompareToSpec(a, Some(Is(b))) == Ok(0) {
      forall i | 0 <= i < |xs| ensures xs[i] == ys[i] {
        CompareComponentsZeroIff(xs[i], ys[i]);
      }
    }
    if Equals(a, Some(Is(b))) {
      forall i | 0 <= i < |xs| ensures CompareComponents(xs[i], ys[i]) == Ok(0) {
        CompareComponentsReflexive(xs[i]);
      }
    }
  }

  /** Within one runtime type, the first differing component decides, and the
      other object's surplus components are ignored. */
  lemma CompareToSameType(a: ValueObject, b: ValueObject, k: nat, extra: seq<Comp>)
    requires a.typeName == b.typeName
    requires TiedUpTo(a.components, b.components, k) && k < |a.components| && k < |b.components|
    ensures CompareComponents(a.components[k], b.components[k]) != Ok(0) ==>
              CompareToSpec(a, Some(Is(b))) == CompareComponents(a.components[k], b.components[k])
    ensures |a.components| <= |b.components| ==>
              CompareToSpec(a, Some(Is(b.(components := b.components + extra)))) == CompareToSpec(a, Some(Is(b)))
  {
    if CompareComponents(a.components[k], b.components[k]) != Ok(0) {
      CompareSeqFirstDecisive(a.components, b.components, k);
    }
    if |a.components| <= |b.components| {
      CompareSeqIgnoresExtra(a.components, b.components, extra);
    }
  }

  /** `CompareTo` is not antisymmetric: two objects of one type whose single
      components are unequal and not comparable are each less than the other,
      and an object with more components than the other fails while the reverse
      call returns. */
  lemma CompareToNotAntisymmetric()
    ensures CompareToSpec(ValueObject(0, "T", [Opaque(1)]), Some(Is(ValueObject(1, "T", [Opaque(2)])))) == Ok(-1)
    ensures CompareToSpec(ValueObject(1, "T", [Opaque(2)]), Some(Is(ValueObject(0, "T", [Opaque(1)])))) == Ok(-1)
    ensures CompareToSpec(ValueObject(0, "T", [Int(1), Int(2)]), Some(Is(ValueObject(1, "T", [Int(1)])))) == Err(IndexOutOfRange)
    ensures CompareToSpec(ValueObject(1, "T", [Int(1)]), Some(Is(ValueObject(0, "T", [Int(1), Int(2)])))) == Ok(0)
  {
  }

  /** Objects whose mutual comparisons are all defined by an order: same-type
      objects have equally many components, none of them non-comparable. */
  ghost predicate Orderable(a: ValueObject, b: ValueObject)
  {
    a.typeName == b.typeName ==>
      |a.components| == |b.components| && NoOpaque(a.components) && NoOpaque(b.components)
  }

  /** Under `Orderable`, `CompareTo` is antisymmetric and transitive, across
      runtime types as well as within one. */
  lemma CompareToOrder(a: ValueObject, b: ValueObject, c: ValueObject)
    requires Orderable(a, b) && Orderable(b, c) && Orderable(a, c)
    ensures CompareToSpec(b, Some(Is(a))) == Negate(CompareToSpec(a, Some(Is(b))))
    ensures CompareToSpec(a, Some(Is(b))).Ok? && CompareToSpec(a, Some(Is(b))).value < 0 &&
            CompareToSpec(b, Some(Is(c))).Ok? && CompareToSpec(b, Some(Is(c))).value < 0 ==>
            CompareToSpec(a, Some(Is(c))).Ok? && CompareToSpec(a, Some(Is(c))).value < 0
  {
    if a.typeName == b.typeName {
      CompareSeqAntisymmetric(a.components, b.components);
    } else {
      CompareOrdinalAntisymmetric(a.typeName, b.typeName);
    }
    var ab, bc := CompareToSpec(a, Some(Is(b))), CompareToSpec(b, Some(Is(c)));
    if ab.Ok? && ab.value < 0 && bc.Ok? && bc.value < 0 {
      if a.typeName == b.typeName == c.typeName {
        CompareSeqTransitive(a.components, b.components, c.components);
      } else if a.typeName == b.typeName {
        // b and c differ in type, and so do a and c
      } else if b.typeName == c.typeName {
        // a and b differ in type, and so do a and c
      } else {
        CompareOrdinalTransitive(a.typeName, b.typeName, c.typeName);
        CompareOrdinalZeroIff(a.typeName, c.typeName);
      }
    }
  }

  // ---------------------------------------------------------------- hashing

  /** `obj?.GetHashCode() ?? 0`: the hash of a component, 0 for null. Hashes are
      the bit patterns of `int` values, so `bv32` arithmetic is C#'s unchecked
      `int` arithmetic. */
  function ComponentHash(c: Comp, hash: Comp -> bv32): bv32
  {
    if c.Null? then 0 else hash(c)
  }

  /** The XOR of the hashes of all components, 0 on none. */
  function XorAll(cs: seq<Comp>, hash: Comp -> bv32): bv32
  {
    if |cs| == 0 then 0 else ComponentHash(cs[0], hash) ^ XorAll(cs[1..], hash)
  }

  /** `Select(componentHash).Aggregate(func)` after the first element: the
      accumulator is XORed with each further hash, left to right. */
  function XorFrom(acc: bv32, cs: seq<Comp>, hash: Comp -> bv32): bv32
    decreases |cs|
  {
    if |cs| == 0 then acc else XorFrom(acc ^ ComponentHash(cs[0], hash), cs[1..], hash)
  }

  /** The default build's `GetHashCodePrivate`: the XOR of the component hashes,
      folded without a seed, which throws on an empty component list. */
  function XorFold(cs: seq<Comp>, hash: Comp -> bv32): (r: Result<bv32>)
    ensures r.Err? <==> |cs| == 0
    ensures r.Err? ==> r.error == InvalidOperation
  {
    if |cs| == 0 then Err(InvalidOperation) else Ok(XorFrom(ComponentHash(cs[0], hash), cs[1..], hash))
  }

  /** The `ALLOW_UNSAFE_CODE` build's `GetHashCodePrivate`: start at 1 and fold
      `h * 23 + componentHash` with wrap-around. */
  function SeededFold(cs: seq<Comp>, hash: Comp -> bv32): bv32
  {
    SeedFrom(1, cs, hash)
  }

  function SeedFrom(acc: bv32, cs: seq<Comp>, hash: Comp -> bv32): bv32
    decreases |cs|
  {
    if |cs| == 0 then acc else SeedFrom(Combine(acc, ComponentHash(cs[0], hash)), cs[1..], hash)
  }

  /** One step of the seeded fold, in unchecked `int` arithmetic. */
  function Combine(acc: bv32, h: bv32): bv32
  {
    acc * 23 + h
  }

  /** `GetHashCode`, with the compile flag as a parameter. */
  function GetHashCode(v: ValueObject, allowUnsafeCode: bool, hash: Comp -> bv32): (r: Result<bv32>)
    ensures r.Err? <==> !allowUnsafeCode && |v.components| == 0
    ensures allowUnsafeCode && |v.components| == 0 ==> r == Ok(1)
  {
    if allowUnsafeCode then Ok(SeededFold(v.components, hash)) else XorFold(v.components, hash)
  }

  lemma {:induction false} XorFromIsXorAll(acc: bv32, cs: seq<Comp>, hash: Comp -> bv32)
    ensures XorFrom(acc, cs, hash) == acc ^ XorAll(cs, hash)
    decreases |cs|
  {
    if |cs| != 0 {
      XorFromIsXorAll(acc ^ ComponentHash(cs[0], hash), cs[1..], hash);
    }
  }

  /** Taking one component out of the XOR. */
  lemma {:induction false} XorAllRemove(cs: seq<Comp>, k: nat, hash: Comp -> bv32)
    requires k < |cs|
    ensures XorAll(cs, hash) == ComponentHash(cs[k], hash) ^ XorAll(cs[..k] + cs[k + 1..], hash)
  {
    if k > 0 {
      XorAllRemove(cs[1..], k - 1, hash);
      assert cs[1..][..k - 1] + cs[1..][k..] == (cs[..k] + cs[k + 1..])[1..];
    } else {
      assert cs[..0] + cs[1..] == cs[1..];
    }
  }

  lemma {:induction false} XorAllPermutation(cs: seq<Comp>, ds: seq<Comp>, hash: Comp -> bv32)
    requires multiset(cs) == multiset(ds)
    ensures XorAll(cs, hash) == XorAll(ds, hash)
    decreases |cs|
  {
    if |cs| == 0 {
      assert |ds| == |multiset(ds)| == 0;
    } else {
      assert cs[0] in multiset(ds);
      var k :| 0 <= k < |ds| && ds[k] == cs[0];
      var rest := ds[..k] + ds[k + 1..];
      assert ds == ds[..k] + [ds[k]] + ds[k + 1..];
      assert multiset(ds) == multiset(ds[..k]) + multiset{ds[k]} + multiset(ds[k + 1..]);
      assert cs == [cs[0]] + cs[1..];
      assert multiset(cs) == multiset{cs[0]} + multiset(cs[1..]);
      assert multiset(rest) == multiset(ds[..k]) + multiset(ds[k + 1..]);
      assert multiset(cs[1..]) == multiset(cs) - multiset{cs[0]};
      assert multiset(rest) == multiset(ds) - multiset{ds[k]};
      XorAllRemove(ds, k, hash);
      XorAllPermutation(cs[1..], rest, hash);
    }
  }

  /** The XOR fold does not depend on the order of the components. */
  lemma XorFoldPermutationInvariant(cs: seq<Comp>, ds: seq<Comp>, hash: Comp -> bv32)
    requires multiset(cs) == multiset(ds)
    ensures XorFold(cs, hash) == XorFold(ds, hash)
  {
    assert |cs| == |multiset(cs)| == |ds|;
    if |cs| != 0 {
      XorFromIsXorAll(ComponentHash(cs[0], hash), cs[1..], hash);
      XorFromIsXorAll(ComponentHash(ds[0], hash), ds[1..], hash);
      XorAllPermutation(cs, ds, hash);
    }
  }

  /** The default build throws on an object without components. */
  lemma XorFoldFailsOnEmpty(v: ValueObject, hash: Comp -> bv32)
    requires v.components == []
    ensures GetHashCode(v, false, hash) == Err(InvalidOperation)
  {
  }

  /** The seeded fold is defined on the empty component list, and unlike the XOR
      fold it tells apart the two orders of a pair of components. */
  lemma SeededFoldOrderSensitive()
    ensures forall hash: Comp -> bv32 :: GetHashCode(ValueObject(0, "T", []), true, hash) == Ok(1)
    ensures SeededFold([Int(1), Int(2)], c => if c == Int(1) then 1 else 2) == 554
    ensures SeededFold([Int(2), Int(1)], c => if c == Int(1) then 1 else 2) == 576
    ensures XorFold([Int(1), Int(2)], c => if c == Int(1) then 1 else 2) == Ok(3)
    ensures XorFold([Int(2), Int(1)], c => if c == Int(1) then 1 else 2) == Ok(3)
  {
    var h: Comp -> bv32 := c => if c == Int(1) then 1 else 2;
    var xs, ys := [Int(1), Int(2)], [Int(2), Int(1)];
    assert xs[1..] == [Int(2)] && ys[1..] == [Int(1)] && xs[1..][1..] == [] && ys[1..][1..] == [];
    assert SeedFrom(1, xs, h) == SeedFrom(24, [Int(2)], h) == SeedFrom(554, [], h);
    assert SeedFrom(1, ys, h) == SeedFrom(25, [Int(1)], h) == SeedFrom(576, [], h);
  }

  /** Equal objects have equal hashes under either fold. */
  lemma HashConsistentWithEquals(a: ValueObject, b: ValueObject, allowUnsafeCode: bool, hash: Comp -> bv32)
    requires SameHeap(a, b) && Equals(a, Some(Is(b)))
    ensures GetHashCode(a, allowUnsafeCode, hash) == GetHashCode(b, allowUnsafeCode, hash)
  {
    EqualsIsValueEquality(a, b);
  }

  // ---------------------------------------------------------------- ValueObject<T>

  /** `ValueObject<T>`: a value object wrapping one `Value`. */
  datatype Single = Single(ref: nat, typeName: string, value: Comp)

  /** The `ValueObject` a `ValueObject<T>` is: its only component is `Value`. */
  function AsValueObject(s: Single): (v: ValueObject)
    ensures v.ref == s.ref && v.typeName == s.typeName && v.components == [s.value]
  {
    ValueObject(s.ref, s.typeName, [s.value])
  }

  /** The implicit conversion to `T`: it reads `Value`, so a null wrapper throws. */
  function Convert(s: Option<Single>): (r: Result<Comp>)
    ensures s.None? <==> r == Err(NullReference)
    ensures s.Some? ==> r == Ok(AsValueObject(s.value).components[0])
  {
    match s
    case None => Err(NullReference)
    case Some(w) => Ok(w.value)
  }

  /** Two wrappers of one heap are equal
      exactly when they have the same runtime type and equal values, and are
      ordered as their values are. */
  lemma SingleEqualityAndOrder(a: Single, b: Single)
    requires a.ref == b.ref ==> a == b
    ensures Equals(AsValueObject(a), Some(Is(AsValueObject(b)))) <==>
              a.typeName == b.typeName && Convert(Some(a)) == Convert(Some(b))
    ensures a.typeName == b.typeName ==>
              CompareToSpec(AsValueObject(a), Some(Is(AsValueObject(b)))) ==
              CompareComponents(Convert(Some(a)).value, Convert(Some(b)).value)
  {
    EqualsIsValueEquality(AsValueObject(a), AsValueObject(b));
    var xs, ys := [a.value], [b.value];
    assert xs[1..] == [] && ys[1..] == [];
    assert CompareSeq(xs[1..], ys[1..]) == Ok(0);
  }
}
