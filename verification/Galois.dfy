/** Arithmetic by logarithm tables (internal/reedsolomon/galois.go: galMultiply, galDivide,
    galExp), for any cyclic group with a zero adjoined, and the field of 256 elements. */
module LogArithmetic {

  /** A multiplication whose non-zero elements are the powers of one generator. */
  datatype Tables<!T> = Tables(zero: T, mul: (T, T) -> T, exp: nat -> T, log: T -> nat, order: nat)

  datatype Fact<T> =
    | OrderFact
    | LogFact(a: T)
    | ExpFact(m: nat)
    | SumFact(m: nat, n: nat)
    | PeriodFact(m: nat)
    | ZeroFact(a: T)

  ghost predicate Holds<T>(t: Tables<T>, fact: Fact<T>) {
    match fact
    case OrderFact => t.order > 0
    case LogFact(a) => a != t.zero ==> t.log(a) < t.order && t.exp(t.log(a)) == a
    case ExpFact(m) => t.exp(m) != t.zero
    case SumFact(m, n) => t.mul(t.exp(m), t.exp(n)) == t.exp(m + n)
    case PeriodFact(m) => t.exp(m + t.order) == t.exp(m)
    case ZeroFact(a) => t.mul(a, t.zero) == t.zero && t.mul(t.zero, a) == t.zero
  }

  ghost predicate Cyclic<T(!new)>(t: Tables<T>) {
    forall fact: Fact<T> :: Holds(t, fact)
  }

  lemma Commutes<T(!new)>(t: Tables<T>, a: T, b: T)
    requires Cyclic(t)
    ensures t.mul(a, b) == t.mul(b, a)
  {
    assert Holds(t, ZeroFact(a)) && Holds(t, ZeroFact(b));
    if a != t.zero && b != t.zero {
      assert Holds(t, LogFact(a)) && Holds(t, LogFact(b));
      var m, n := t.log(a), t.log(b);
      assert Holds(t, SumFact(m, n)) && Holds(t, SumFact(n, m));
    }
  }

  lemma Associates<T(!new)>(t: Tables<T>, a: T, b: T, c: T)
    requires Cyclic(t)
    ensures t.mul(t.mul(a, b), c) == t.mul(a, t.mul(b, c))
  {
    assert Holds(t, ZeroFact(a)) && Holds(t, ZeroFact(b)) && Holds(t, ZeroFact(c));
    assert Holds(t, ZeroFact(t.mul(a, b))) && Holds(t, ZeroFact(t.mul(b, c)));
    if a != t.zero && b != t.zero && c != t.zero {
      assert Holds(t, LogFact(a)) && Holds(t, LogFact(b)) && Holds(t, LogFact(c));
      var l, m, n := t.log(a), t.log(b), t.log(c);
      assert Holds(t, SumFact(l, m)) && Holds(t, SumFact(l + m, n));
      assert Holds(t, SumFact(m, n)) && Holds(t, SumFact(l, m + n));
    }
  }

  /** galMultiply, by adding logarithms. */
  function Multiply<T(!new, ==)>(t: Tables<T>, a: T, b: T): (r: T)
    requires Cyclic(t)
    ensures r == t.mul(a, b)
  {
    assert Holds(t, ZeroFact(a)) && Holds(t, ZeroFact(b));
    if a == t.zero || b == t.zero then t.zero
    else
      assert Holds(t, LogFact(a)) && Holds(t, LogFact(b)) && Holds(t, SumFact(t.log(a), t.log(b)));
      t.exp(t.log(a) + t.log(b))
  }

  /** galDivide: the quotient times the divisor is the dividend.  A zero divisor of a
      non-zero dividend is refused. */
  function Divide<T(!new, ==)>(t: Tables<T>, a: T, b: T): (r: T)
    requires Cyclic(t)
    requires a != t.zero ==> b != t.zero
    ensures t.mul(r, b) == a
  {
    assert Holds(t, ZeroFact(b));
    if a == t.zero then t.zero
    else
      assert Holds(t, LogFact(a)) && Holds(t, LogFact(b));
      var logResult := t.log(a) - t.log(b);
      var k := if logResult < 0 then logResult + t.order else logResult;
      assert Holds(t, SumFact(k, t.log(b))) && Holds(t, PeriodFact(t.log(a)));
      t.exp(k)
  }

  /** a multiplied by itself n times. */
  function Power<T>(t: Tables<T>, a: T, n: nat): T {
    if n == 0 then t.exp(0) else t.mul(Power(t, a, n - 1), a)
  }

  lemma {:induction false} PowerOfExp<T(!new)>(t: Tables<T>, l: nat, n: nat)
    requires Cyclic(t)
    ensures Power(t, t.exp(l), n) == t.exp(l * n)
  {
    if n > 0 {
      PowerOfExp(t, l, n - 1);
      assert l * (n - 1) + l == l * n;
      assert Holds(t, SumFact(l * (n - 1), l));
    }
  }

  /** galExp: the logarithm times n, brought into the table by repeated subtraction. */
  method Exponentiate<T(!new, ==)>(t: Tables<T>, a: T, n: nat) returns (r: T)
    requires Cyclic(t)
    ensures r == Power(t, a, n)
  {
    if n == 0 {
      return t.exp(0);
    }
    if a == t.zero {
      assert Holds(t, ZeroFact(Power(t, a, n - 1)));
      return t.zero;
    }
    assert Holds(t, LogFact(a)) && Holds(t, OrderFact);
    PowerOfExp(t, t.log(a), n);
    var logResult: nat := t.log(a) * n;
    while logResult >= t.order
      invariant t.exp(logResult) == Power(t, a, n)
    {
      assert Holds(t, PeriodFact(logResult - t.order));
      logResult := logResult - t.order;
    }
    return t.exp(logResult);
  }
}

module Gf256 {
  import opened Gf256Tables
  import F = Fields
  import L = LogArithmetic

  function LogFrom(a: Byte, i: nat): nat
    decreases 255 - i
  {
    if i >= 255 || Exp(i) == a then i else LogFrom(a, i + 1)
  }

  /** The logarithm table. */
  function Log(a: Byte): nat {
    LogFrom(a, 0)
  }

  lemma {:induction false} LogFromFinds(a: Byte, i: nat, j: nat)
    requires i <= j < 255 && Exp(j) == a
    ensures LogFrom(a, i) < 255 && Exp(LogFrom(a, i)) == a
    decreases 255 - i
  {
    if Exp(i) != a {
      LogFromFinds(a, i + 1, j);
    }
  }

  lemma ExpLog(a: Byte)
    requires a != ZERO
    ensures Log(a) < 255 && Exp(Log(a)) == a
  {
    NonZeroIsPower(a);
    var j :| 0 <= j < 255 && Exp(j) == a;
    LogFromFinds(a, 0, j);
  }

  lemma {:induction false} ExpNonZero(n: nat)
    ensures Exp(n) != ZERO
  {
    if n > 0 {
      ExpNonZero(n - 1);
    }
  }

  function GfTables(): L.Tables<Byte> {
    L.Tables(ZERO, Product, Exp, Log, 255)
  }

  lemma GfFact(fact: L.Fact<Byte>)
    ensures L.Holds(GfTables(), fact)
  {
    match fact
    case OrderFact =>
    case LogFact(a) => if a != ZERO { ExpLog(a); }
    case ExpFact(m) => ExpNonZero(m);
    case SumFact(m, n) => ProductExp(m, n);
    case PeriodFact(m) => ExpPeriod(m);
    case ZeroFact(a) => ProductZero(a);
  }

  /** The non-zero bytes are the powers of x. */
  lemma GfIsCyclic()
    ensures L.Cyclic(GfTables())
  {
    forall fact: L.Fact<Byte> ensures L.Holds(GfTables(), fact) {
      GfFact(fact);
    }
  }

  function Reciprocal(a: Byte): Byte {
    GfIsCyclic();
    if a == ZERO then ZERO else L.Divide(GfTables(), ONE, a)
  }

  function Gf(): F.Field<Byte> {
    F.Field(ZERO, ONE, Xor, Product, Reciprocal)
  }

  lemma AddLaw(law: F.Law<Byte>)
    requires law.AddZeroLaw? || law.AddSelfLaw? || law.AddCommLaw? || law.AddAssocLaw?
    ensures F.Holds(Gf(), law)
  {
  }

  lemma MulLaw(law: F.Law<Byte>)
    requires law.MulOneLaw? || law.MulCommLaw? || law.MulAssocLaw? || law.DistributeLaw?
    ensures F.Holds(Gf(), law)
  {
    GfIsCyclic();
    match law
    case MulOneLaw(a) => L.Commutes(GfTables(), a, ONE); ProductOne(a);
    case MulCommLaw(a, b) => L.Commutes(GfTables(), a, b);
    case MulAssocLaw(a, b, c) => L.Associates(GfTables(), a, b, c);
    case DistributeLaw(a, b, c) => MulStepsRight(a, b, c, 8);
  }

  lemma InverseLaw(a: Byte)
    ensures F.Holds(Gf(), F.InverseLaw(a))
  {
    GfIsCyclic();
    if a != ZERO {
      L.Commutes(GfTables(), Reciprocal(a), a);
    }
  }

  /** Bytes under exclusive or and reduced multiplication form a field. */
  lemma GfIsField()
    ensures F.IsField(Gf())
  {
    forall law: F.Law<Byte> ensures F.Holds(Gf(), law) {
      match law
      case OneNotZeroLaw =>
      case InverseLaw(a) => InverseLaw(a);
      case AddZeroLaw(_) => AddLaw(law);
      case AddSelfLaw(_) => AddLaw(law);
      case AddCommLaw(_, _) => AddLaw(law);
      case AddAssocLaw(_, _, _) => AddLaw(law);
      case MulOneLaw(_) => MulLaw(law);
      case MulCommLaw(_, _) => MulLaw(law);
      case MulAssocLaw(_, _, _) => MulLaw(law);
      case DistributeLaw(_, _, _) => MulLaw(law);
    }
  }

  // ---------- row numbers as field elements ----------

  function Digit(k: nat): Nibble {
    var r3 := if k >= 8 then k - 8 else k;
    var r2 := if r3 >= 4 then r3 - 4 else r3;
    var r1 := if r2 >= 2 then r2 - 2 else r2;
    Nibble(k >= 8, r3 >= 4, r2 >= 2, r1 >= 1)
  }

  function DigitValue(d: Nibble): nat {
    (if d.b3 then 8 else 0) + (if d.b2 then 4 else 0) + (if d.b1 then 2 else 0) + (if d.b0 then 1 else 0)
  }

  /** byte(n). */
  function ToByte(n: nat): Byte {
    Byte(Digit(n / 16), Digit(n % 16))
  }

  /** The number a byte stands for. */
  function ByteValue(b: Byte): nat {
    DigitValue(b.hi) * 16 + DigitValue(b.lo)
  }

  lemma ToByteValue(n: nat)
    requires n < 256
    ensures ByteValue(ToByte(n)) == n
  {
    assert DigitValue(Digit(n / 16)) == n / 16 && DigitValue(Digit(n % 16)) == n % 16;
  }

  lemma ByteOf(b: Byte)
    ensures ByteValue(b) < 256 && ToByte(ByteValue(b)) == b
  {
    assert ByteValue(b) / 16 == DigitValue(b.hi) && ByteValue(b) % 16 == DigitValue(b.lo);
  }

  /** What fixes the product, with the field's laws: twice a byte is its number doubled, reduced by 29
      in place of 256. */
  lemma TimesTwo(a: Byte)
    ensures ByteValue(a) < 128 ==> ByteValue(Gf().mul(ToByte(2), a)) == 2 * ByteValue(a)
    ensures ByteValue(a) >= 128 ==> Gf().mul(ToByte(2), a) == Xor(ToByte(2 * ByteValue(a) - 256), ToByte(29))
  {
    assert ToByte(2) == XTimes(ONE, 1) && ToByte(29) == Byte(N1, ND);
    ProductXTimes(ONE, a, 1);
    ProductOne(a);
    DoubleValue(a);
  }

  lemma DoubleValue(a: Byte)
    ensures ByteValue(a) < 128 ==> ByteValue(XTime(a)) == 2 * ByteValue(a)
    ensures ByteValue(a) >= 128 ==> XTime(a) == Xor(ToByte(2 * ByteValue(a) - 256), Byte(N1, ND))
  {
    if a.hi.b3 {
      var double := Byte(Nibble(a.hi.b2, a.hi.b1, a.hi.b0, a.lo.b3), Nibble(a.lo.b2, a.lo.b1, a.lo.b0, false));
      assert ByteValue(double) == 2 * ByteValue(a) - 256;
      ByteOf(double);
    }
  }

  lemma ToByteInjective(m: nat, n: nat)
    requires m < 256 && n < 256 && ToByte(m) == ToByte(n)
    ensures m == n
  {
    assert DigitValue(Digit(m / 16)) == m / 16 && DigitValue(Digit(m % 16)) == m % 16;
    assert DigitValue(Digit(n / 16)) == n / 16 && DigitValue(Digit(n % 16)) == n % 16;
  }
}
