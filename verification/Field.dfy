/** Fields of characteristic two, as the erasure coder uses them: addition is its own
    inverse, so the source subtracts by adding (exclusive or).

    A field is a record of operations.  Its axioms are the instances of one predicate,
    `Holds`, so a proof only ever sees the instances it names. */
module Fields {

  datatype Field<!T> = Field(zero: T, one: T, add: (T, T) -> T, mul: (T, T) -> T, inv: T -> T)

  /** An instance of a field axiom. */
  datatype Law<T> =
    | AddZeroLaw(a: T)
    | AddSelfLaw(a: T)
    | AddCommLaw(a: T, b: T)
    | AddAssocLaw(a: T, b: T, c: T)
    | MulOneLaw(a: T)
    | MulCommLaw(a: T, b: T)
    | MulAssocLaw(a: T, b: T, c: T)
    | DistributeLaw(a: T, b: T, c: T)
    | InverseLaw(a: T)
    | OneNotZeroLaw

  ghost predicate Holds<T>(F: Field<T>, law: Law<T>) {
    match law
    case AddZeroLaw(a) => F.add(a, F.zero) == a
    case AddSelfLaw(a) => F.add(a, a) == F.zero
    case AddCommLaw(a, b) => F.add(a, b) == F.add(b, a)
    case AddAssocLaw(a, b, c) => F.add(F.add(a, b), c) == F.add(a, F.add(b, c))
    case MulOneLaw(a) => F.mul(a, F.one) == a
    case MulCommLaw(a, b) => F.mul(a, b) == F.mul(b, a)
    case MulAssocLaw(a, b, c) => F.mul(F.mul(a, b), c) == F.mul(a, F.mul(b, c))
    case DistributeLaw(a, b, c) => F.mul(a, F.add(b, c)) == F.add(F.mul(a, b), F.mul(a, c))
    case InverseLaw(a) => a != F.zero ==> F.mul(a, F.inv(a)) == F.one
    case OneNotZeroLaw => F.one != F.zero
  }

  ghost predicate IsField<T(!new)>(F: Field<T>) {
    forall law: Law<T> :: Holds(F, law)
  }

  lemma AddZero<T(!new)>(F: Field<T>, a: T)
    requires IsField(F)
    ensures F.add(a, F.zero) == a && F.add(F.zero, a) == a
  {
    assert Holds(F, AddZeroLaw(a)) && Holds(F, AddCommLaw(a, F.zero));
  }

  lemma AddSelf<T(!new)>(F: Field<T>, a: T)
    requires IsField(F)
    ensures F.add(a, a) == F.zero
  {
    assert Holds(F, AddSelfLaw(a));
  }

  lemma AddComm<T(!new)>(F: Field<T>, a: T, b: T)
    requires IsField(F)
    ensures F.add(a, b) == F.add(b, a)
  {
    assert Holds(F, AddCommLaw(a, b));
  }

  lemma AddAssoc<T(!new)>(F: Field<T>, a: T, b: T, c: T)
    requires IsField(F)
    ensures F.add(F.add(a, b), c) == F.add(a, F.add(b, c))
  {
    assert Holds(F, AddAssocLaw(a, b, c));
  }

  /** Two sums added termwise. */
  lemma AddShuffle<T(!new)>(F: Field<T>, a: T, b: T, c: T, d: T)
    requires IsField(F)
    ensures F.add(F.add(a, b), F.add(c, d)) == F.add(F.add(a, c), F.add(b, d))
  {
    AddAssoc(F, a, b, F.add(c, d));
    AddAssoc(F, b, c, d);
    AddComm(F, b, c);
    AddAssoc(F, c, b, d);
    AddAssoc(F, a, c, F.add(b, d));
  }

  /** In characteristic two, a zero sum means equal terms. */
  lemma AddCancel<T(!new)>(F: Field<T>, a: T, b: T)
    requires IsField(F)
    ensures F.add(a, b) == F.zero <==> a == b
  {
    AddSelf(F, a);
    AddSelf(F, b);
    AddAssoc(F, a, b, b);
    AddZero(F, a);
    AddZero(F, b);
  }

  lemma MulOne<T(!new)>(F: Field<T>, a: T)
    requires IsField(F)
    ensures F.mul(a, F.one) == a && F.mul(F.one, a) == a
  {
    assert Holds(F, MulOneLaw(a)) && Holds(F, MulCommLaw(a, F.one));
  }

  lemma MulComm<T(!new)>(F: Field<T>, a: T, b: T)
    requires IsField(F)
    ensures F.mul(a, b) == F.mul(b, a)
  {
    assert Holds(F, MulCommLaw(a, b));
  }

  lemma MulAssoc<T(!new)>(F: Field<T>, a: T, b: T, c: T)
    requires IsField(F)
    ensures F.mul(F.mul(a, b), c) == F.mul(a, F.mul(b, c))
  {
    assert Holds(F, MulAssocLaw(a, b, c));
  }

  lemma Distribute<T(!new)>(F: Field<T>, a: T, b: T, c: T)
    requires IsField(F)
    ensures F.mul(a, F.add(b, c)) == F.add(F.mul(a, b), F.mul(a, c))
    ensures F.mul(F.add(b, c), a) == F.add(F.mul(b, a), F.mul(c, a))
  {
    assert Holds(F, DistributeLaw(a, b, c));
    MulComm(F, a, F.add(b, c));
    MulComm(F, a, b);
    MulComm(F, a, c);
  }

  lemma MulZero<T(!new)>(F: Field<T>, a: T)
    requires IsField(F)
    ensures F.mul(a, F.zero) == F.zero && F.mul(F.zero, a) == F.zero
  {
    AddSelf(F, F.zero);
    AddSelf(F, F.mul(a, F.zero));
    Distribute(F, a, F.zero, F.zero);
    MulComm(F, a, F.zero);
  }

  lemma Inverse<T(!new)>(F: Field<T>, a: T)
    requires IsField(F) && a != F.zero
    ensures F.mul(a, F.inv(a)) == F.one && F.mul(F.inv(a), a) == F.one
    ensures F.inv(a) != F.zero
  {
    assert Holds(F, InverseLaw(a)) && Holds(F, OneNotZeroLaw);
    MulComm(F, a, F.inv(a));
    MulZero(F, a);
  }

  lemma OneNotZero<T(!new)>(F: Field<T>)
    requires IsField(F)
    ensures F.one != F.zero
  {
    assert Holds(F, OneNotZeroLaw);
  }

  /** A field has no zero divisors. */
  lemma NoZeroDivisors<T(!new)>(F: Field<T>, a: T, b: T)
    requires IsField(F) && F.mul(a, b) == F.zero
    ensures a == F.zero || b == F.zero
  {
    if a != F.zero {
      Inverse(F, a);
      MulAssoc(F, F.inv(a), a, b);
      MulOne(F, b);
      MulZero(F, F.inv(a));
    }
  }
}
