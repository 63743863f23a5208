/** Codecs of the wire format (renterhost/encoding.go) and the ways to combine them.  A codec is
    lawful when an encoding has exactly the stated size, is at least as long as the smallest one,
    and decodes, whatever follows it, to the value and what follows. */
module Codecs {

  type Byte = b: nat | b < 256

  datatype Parsed<+T> = Got(value: T, rest: seq<Byte>) | Bad

  /** min is the size of the empty value: what the length-prefix guard reckons with. */
  datatype Codec<!T> = Codec(valid: T -> bool, enc: T -> seq<Byte>, size: T -> nat, dec: seq<Byte> -> Parsed<T>, min: nat)

  /** One value, with one continuation. */
  ghost predicate Law<T>(c: Codec<T>, x: T, pad: seq<Byte>) {
    c.valid(x) ==> c.dec(c.enc(x) + pad) == Got(x, pad) && |c.enc(x)| == c.size(x) >= c.min
  }

  ghost predicate Lawful<T(!new)>(c: Codec<T>) {
    forall x, pad :: Law(c, x, pad)
  }

  lemma RoundTrip<T(!new)>(c: Codec<T>, x: T, pad: seq<Byte>)
    requires Lawful(c) && c.valid(x)
    ensures |c.enc(x)| == c.size(x) && c.dec(c.enc(x) + pad) == Got(x, pad)
  {
    assert Law(c, x, pad);
  }

  /** Lawful encodings are injective, even as prefixes of a message. */
  lemma Injective<T(!new)>(c: Codec<T>, x: T, y: T, p: seq<Byte>, q: seq<Byte>)
    requires Lawful(c) && c.valid(x) && c.valid(y) && c.enc(x) + p == c.enc(y) + q
    ensures x == y && p == q
  {
    assert Law(c, x, p) && Law(c, y, q);
  }

  // ---------- pairs ----------

  function Pair<A, B>(a: Codec<A>, b: Codec<B>): Codec<(A, B)> {
    Codec((x: (A, B)) => a.valid(x.0) && b.valid(x.1),
          (x: (A, B)) => a.enc(x.0) + b.enc(x.1),
          (x: (A, B)) => PairSize(a, b, x),
          (s: seq<Byte>) => DecodePair(a, b, s),
          a.min + b.min)
  }

  function PairSize<A, B>(a: Codec<A>, b: Codec<B>, x: (A, B)): nat {
    a.size(x.0) + b.size(x.1)
  }

  function DecodePair<A, B>(a: Codec<A>, b: Codec<B>, s: seq<Byte>): Parsed<(A, B)> {
    match a.dec(s)
    case Bad => Bad
    case Got(x, rest) =>
      match b.dec(rest)
      case Bad => Bad
      case Got(y, rest') => Got((x, y), rest')
  }

  lemma PairLawful<A(!new), B(!new)>(a: Codec<A>, b: Codec<B>)
    requires Lawful(a) && Lawful(b)
    ensures Lawful(Pair(a, b))
  {
    forall x: (A, B), pad ensures Law(Pair(a, b), x, pad) {
      assert Law(a, x.0, b.enc(x.1) + pad) && Law(b, x.1, pad);
      assert (a.enc(x.0) + b.enc(x.1)) + pad == a.enc(x.0) + (b.enc(x.1) + pad);
    }
  }

  // ---------- records ----------

  /** A codec for B from one for A, by a view of each as the other. */
  function View<A, B>(a: Codec<A>, to: A -> B, from: B -> A): Codec<B> {
    Codec((y: B) => a.valid(from(y)), (y: B) => a.enc(from(y)), (y: B) => a.size(from(y)),
          (s: seq<Byte>) => DecodeView(a, to, s), a.min)
  }

  function DecodeView<A, B>(a: Codec<A>, to: A -> B, s: seq<Byte>): Parsed<B> {
    match a.dec(s)
    case Bad => Bad
    case Got(x, rest) => Got(to(x), rest)
  }

  lemma ViewLawful<A(!new), B(!new)>(a: Codec<A>, to: A -> B, from: B -> A)
    requires Lawful(a) && forall y :: to(from(y)) == y
    ensures Lawful(View(a, to, from))
  {
    forall y: B, pad ensures Law(View(a, to, from), y, pad) {
      assert Law(a, from(y), pad);
    }
  }

  // ---------- numbers ----------

  function Pow256(k: nat): (p: nat)
    ensures p >= 1
  {
    if k == 0 then 1 else 256 * Pow256(k - 1)
  }

  /** k bytes, the least significant first. */
  function LittleEndian(u: nat, k: nat): (s: seq<Byte>)
    ensures |s| == k
  {
    if k == 0 then [] else [u % 256] + LittleEndian(u / 256, k - 1)
  }

  function FromLittleEndian(s: seq<Byte>): nat {
    if |s| == 0 then 0 else s[0] + 256 * FromLittleEndian(s[1..])
  }

  lemma {:induction false} LittleEndianRoundTrip(u: nat, k: nat)
    requires u < Pow256(k)
    ensures FromLittleEndian(LittleEndian(u, k)) == u
    decreases k
  {
    if k > 0 {
      LittleEndianRoundTrip(u / 256, k - 1);
      assert LittleEndian(u, k)[1..] == LittleEndian(u / 256, k - 1);
    }
  }

  const U64 := 0x1_0000_0000_0000_0000

  lemma Pow256Eight()
    ensures Pow256(8) == U64
  {
    assert Pow256(4) == 0x1_0000_0000;
  }

  /** writeUint64, readUint64 */
  function Uint64(): Codec<nat> {
    Codec((u: nat) => u < U64, (u: nat) => LittleEndian(u, 8), (u: nat) => 8, (s: seq<Byte>) => DecodeUint64(s), 8)
  }

  function DecodeUint64(s: seq<Byte>): Parsed<nat> {
    if |s| < 8 then Bad else Got(FromLittleEndian(s[..8]), s[8..])
  }

  lemma DecodeUint64Of(u: nat, pad: seq<Byte>)
    requires u < U64
    ensures DecodeUint64(LittleEndian(u, 8) + pad) == Got(u, pad)
  {
    Pow256Eight();
    LittleEndianRoundTrip(u, 8);
    var s := LittleEndian(u, 8) + pad;
    assert s[..8] == LittleEndian(u, 8) && s[8..] == pad;
  }

  lemma Uint64Lawful()
    ensures Lawful(Uint64()) && forall s: seq<Byte> :: Uint64().dec(s).Bad? <==> |s| < 8
  {
    forall u: nat, pad ensures Law(Uint64(), u, pad) {
      if u < U64 {
        DecodeUint64Of(u, pad);
      }
    }
  }

  /** writeBool, readBool */
  function Boolean(): Codec<bool> {
    Codec((b: bool) => true, (b: bool) => [if b then 1 else 0], (b: bool) => 1, (s: seq<Byte>) => DecodeBool(s), 1)
  }

  function DecodeBool(s: seq<Byte>): Parsed<bool> {
    if |s| == 0 || s[0] > 1 then Bad else Got(s[0] == 1, s[1..])
  }

  lemma BooleanLawful()
    ensures Lawful(Boolean()) && forall s: seq<Byte> :: Boolean().dec(s).Bad? <==> |s| == 0 || s[0] > 1
  {
    forall b: bool, pad ensures Law(Boolean(), b, pad) {
      var e: seq<Byte> := [if b then 1 else 0];
      assert (e + pad)[0] == (if b then 1 else 0) && (e + pad)[1..] == pad;
    }
  }

  // ---------- bytes ----------

  /** An array of n bytes. */
  function Fixed(n: nat): Codec<seq<Byte>> {
    Codec((x: seq<Byte>) => |x| == n, (x: seq<Byte>) => x, (x: seq<Byte>) => n, (s: seq<Byte>) => DecodeFixed(n, s), n)
  }

  function DecodeFixed(n: nat, s: seq<Byte>): Parsed<seq<Byte>> {
    if |s| < n then Bad else Got(s[..n], s[n..])
  }

  lemma FixedLawful(n: nat)
    ensures Lawful(Fixed(n)) && forall s: seq<Byte> :: Fixed(n).dec(s).Bad? <==> |s| < n
  {
    forall x: seq<Byte>, pad ensures Law(Fixed(n), x, pad) {
      if |x| == n {
        assert (x + pad)[..n] == x && (x + pad)[n..] == pad;
      }
    }
  }

  /** readPrefix: a count that the rest of the message has room for. */
  function DecodePrefix(elem: nat, s: seq<Byte>): Parsed<nat>
    requires elem > 0
  {
    match DecodeUint64(s)
    case Bad => Bad
    case Got(n, rest) => if n > |rest| / elem then Bad else Got(n, rest)
  }

  /** writePrefixedBytes, readPrefixedBytes */
  function Bytes(): Codec<seq<Byte>> {
    Codec((x: seq<Byte>) => |x| < U64, (x: seq<Byte>) => LittleEndian(|x|, 8) + x, (x: seq<Byte>) => 8 + |x|,
          (s: seq<Byte>) => DecodeBytes(s), 8)
  }

  function DecodeBytes(s: seq<Byte>): Parsed<seq<Byte>> {
    match DecodePrefix(1, s)
    case Bad => Bad
    case Got(n, rest) => DecodeFixed(n, rest)
  }

  lemma BytesLawful()
    ensures Lawful(Bytes())
    ensures forall s: seq<Byte> :: Bytes().dec(s).Bad? <==> |s| < 8 || FromLittleEndian(s[..8]) > |s| - 8
  {
    forall x: seq<Byte>, pad ensures Law(Bytes(), x, pad) {
      if |x| < U64 {
        assert (LittleEndian(|x|, 8) + x) + pad == LittleEndian(|x|, 8) + (x + pad);
        DecodeUint64Of(|x|, x + pad);
        assert (x + pad)[..|x|] == x && (x + pad)[|x|..] == pad;
      }
    }
  }

  // ---------- lists ----------

  function EncodeAll<T>(c: Codec<T>, xs: seq<T>): seq<Byte> {
    if |xs| == 0 then [] else c.enc(xs[0]) + EncodeAll(c, xs[1..])
  }

  function SizeAll<T>(c: Codec<T>, xs: seq<T>): nat {
    if |xs| == 0 then 0 else c.size(xs[0]) + SizeAll(c, xs[1..])
  }

  function DecodeAll<T>(c: Codec<T>, n: nat, s: seq<Byte>): Parsed<seq<T>>
    decreases n
  {
    if n == 0 then Got([], s)
    else
      match c.dec(s)
      case Bad => Bad
      case Got(x, rest) =>
        match DecodeAll(c, n - 1, rest)
        case Bad => Bad
        case Got(xs, rest') => Got([x] + xs, rest')
  }

  predicate ValidAll<T>(c: Codec<T>, xs: seq<T>) {
    forall i :: 0 <= i < |xs| ==> c.valid(xs[i])
  }

  /** A count, then the elements; the guard reckons with elem bytes for each. */
  function ListOf<T>(c: Codec<T>, elem: nat): Codec<seq<T>>
    requires elem > 0
  {
    Codec((xs: seq<T>) => |xs| < U64 && ValidAll(c, xs), (xs: seq<T>) => LittleEndian(|xs|, 8) + EncodeAll(c, xs),
          (xs: seq<T>) => 8 + SizeAll(c, xs), (s: seq<Byte>) => DecodeList(c, elem, s), 8)
  }

  function DecodeList<T>(c: Codec<T>, elem: nat, s: seq<Byte>): Parsed<seq<T>>
    requires elem > 0
  {
    match DecodePrefix(elem, s)
    case Bad => Bad
    case Got(n, rest) => DecodeAll(c, n, rest)
  }

  lemma {:induction false} AllLawful<T(!new)>(c: Codec<T>, elem: nat, xs: seq<T>, pad: seq<Byte>)
    requires Lawful(c) && ValidAll(c, xs) && elem <= c.min
    ensures DecodeAll(c, |xs|, EncodeAll(c, xs) + pad) == Got(xs, pad)
    ensures |EncodeAll(c, xs)| == SizeAll(c, xs) >= Product(elem, |xs|)
  {
    if |xs| == 0 {
      assert EncodeAll(c, xs) + pad == pad;
    } else {
      var rest := EncodeAll(c, xs[1..]);
      AllLawful(c, elem, xs[1..], pad);
      assert Law(c, xs[0], rest + pad);
      assert (c.enc(xs[0]) + rest) + pad == c.enc(xs[0]) + (rest + pad);
      assert [xs[0]] + xs[1..] == xs;
    }
  }

  /** elem * n */
  function Product(elem: nat, n: nat): nat {
    if n == 0 then 0 else elem + Product(elem, n - 1)
  }

  lemma {:induction false} ProductMonotone(elem: nat, i: nat, j: nat)
    requires i <= j
    ensures Product(elem, i) <= Product(elem, j)
    decreases j
  {
    if i < j {
      ProductMonotone(elem, i, j - 1);
    }
  }

  lemma {:induction false} ProductIs(elem: nat, n: nat)
    ensures Product(elem, n) == elem * n
  {
    if n > 0 {
      ProductIs(elem, n - 1);
      assert elem * n == elem * (n - 1) + elem;
    }
  }

  lemma BelowNext(elem: nat, room: nat)
    requires elem > 0
    ensures room < Product(elem, room / elem + 1)
  {
    var q := room / elem;
    assert room == elem * q + room % elem;
    ProductIs(elem, q);
  }

  lemma Fits(elem: nat, n: nat, room: nat)
    requires elem > 0 && Product(elem, n) <= room
    ensures n <= room / elem
  {
    BelowNext(elem, room);
    if n > room / elem {
      ProductMonotone(elem, room / elem + 1, n);
    }
  }

  /** The guard never refuses a list that was encoded; it refuses a count that there is no room for. */
  lemma ListLawful<T(!new)>(c: Codec<T>, elem: nat)
    requires Lawful(c) && 0 < elem <= c.min
    ensures Lawful(ListOf(c, elem))
    ensures forall s: seq<Byte> :: |s| < 8 || FromLittleEndian(s[..8]) > (|s| - 8) / elem ==> ListOf(c, elem).dec(s).Bad?
  {
    forall xs: seq<T>, pad ensures Law(ListOf(c, elem), xs, pad) {
      if |xs| < U64 && ValidAll(c, xs) {
        ListLaw(c, elem, xs, pad);
      }
    }
  }

  lemma ListLaw<T(!new)>(c: Codec<T>, elem: nat, xs: seq<T>, pad: seq<Byte>)
    requires Lawful(c) && 0 < elem <= c.min && |xs| < U64 && ValidAll(c, xs)
    ensures Law(ListOf(c, elem), xs, pad)
  {
    var body := EncodeAll(c, xs);
    AllLawful(c, elem, xs, pad);
    ListDecodes(c, elem, xs, body, pad);
  }

  lemma ListDecodes<T(!new)>(c: Codec<T>, elem: nat, xs: seq<T>, body: seq<Byte>, pad: seq<Byte>)
    requires 0 < elem && |xs| < U64 && Product(elem, |xs|) <= |body| && DecodeAll(c, |xs|, body + pad) == Got(xs, pad)
    ensures DecodeList(c, elem, (LittleEndian(|xs|, 8) + body) + pad) == Got(xs, pad)
  {
    assert (LittleEndian(|xs|, 8) + body) + pad == LittleEndian(|xs|, 8) + (body + pad);
    PrefixOf(elem, |xs|, body + pad);
  }

  /** A prefix whose elements fit is read back. */
  lemma PrefixOf(elem: nat, n: nat, rest: seq<Byte>)
    requires 0 < elem && n < U64 && Product(elem, n) <= |rest|
    ensures DecodePrefix(elem, LittleEndian(n, 8) + rest) == Got(n, rest)
  {
    DecodeUint64Of(n, rest);
    Fits(elem, n, |rest|);
  }

  // ---------- currency ----------

  /** The bytes of a big integer, the most significant first, without leading zeros. */
  function BigEndian(n: nat): seq<Byte> {
    if n == 0 then [] else BigEndian(n / 256) + [n % 256]
  }

  /** SetBytes: leading zeros are allowed. */
  function FromBigEndian(s: seq<Byte>): nat {
    if |s| == 0 then 0 else FromBigEndian(s[..|s| - 1]) * 256 + s[|s| - 1]
  }

  lemma {:induction false} BigEndianRoundTrip(n: nat)
    ensures FromBigEndian(BigEndian(n)) == n
  {
    if n > 0 {
      BigEndianRoundTrip(n / 256);
      var s := BigEndian(n);
      assert s[..|s| - 1] == BigEndian(n / 256);
    }
  }

  /** objCurrency */
  function Currency(): Codec<nat> {
    View(Bytes(), (s: seq<Byte>) => FromBigEndian(s), (n: nat) => BigEndian(n))
  }

  lemma CurrencyLawful()
    ensures Lawful(Currency())
  {
    BytesLawful();
    forall n: nat ensures FromBigEndian(BigEndian(n)) == n {
      BigEndianRoundTrip(n);
    }
    ViewLawful(Bytes(), (s: seq<Byte>) => FromBigEndian(s), (n: nat) => BigEndian(n));
  }
}
