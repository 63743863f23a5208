/** The message buffer (renterhost/encoding.go, objBuffer): a cursor with a sticky error, and the
    objects that go into a contract revision, written and read step by step. */
module Buffers {
  import opened Codecs
  import opened Encoding

  /** What reading a value left: the value and the rest, or an error. */
  ghost predicate Reads<T>(c: Codec<T>, before: seq<Byte>, value: T, after: seq<Byte>, err: bool) {
    match c.dec(before)
    case Bad => err
    case Got(x, rest) => !err && value == x && after == rest
  }

  /** Reading one value after another. */
  lemma ReadsPair<A, B>(a: Codec<A>, b: Codec<B>, s0: seq<Byte>, x: A, s1: seq<Byte>, e1: bool, y: B, s2: seq<Byte>, e2: bool)
    requires Reads(a, s0, x, s1, e1) && (e1 ==> e2) && (!e1 ==> Reads(b, s1, y, s2, e2))
    ensures Reads(Pair(a, b), s0, (x, y), s2, e2)
  {
  }

  lemma ReadsView<A, B>(a: Codec<A>, to: A -> B, from: B -> A, s0: seq<Byte>, x: A, s1: seq<Byte>, e: bool)
    requires Reads(a, s0, x, s1, e)
    ensures Reads(View(a, to, from), s0, to(x), s1, e)
  {
  }

  class ObjBuffer {
    var buf: seq<Byte>
    var err: bool

    constructor (buf: seq<Byte>)
      ensures this.buf == buf && !err
    {
      this.buf, err := buf, false;
    }

    method Write(p: seq<Byte>)
      modifies this`buf
      ensures buf == old(buf) + p
    {
      buf := buf + p;
    }

    method WriteByte(b: Byte)
      modifies this`buf
      ensures buf == old(buf) + [b]
    {
      buf := buf + [b];
    }

    method WriteBool(p: bool)
      modifies this`buf
      ensures buf == old(buf) + Boolean().enc(p)
    {
      if p {
        WriteByte(1);
      } else {
        WriteByte(0);
      }
    }

    method WriteUint64(u: nat)
      requires u < U64
      modifies this`buf
      ensures buf == old(buf) + Uint64().enc(u)
    {
      Write(LittleEndian(u, 8));
    }

    method WritePrefixedBytes(p: seq<Byte>)
      requires |p| < U64
      modifies this`buf
      ensures buf == old(buf) + Bytes().enc(p)
    {
      ghost var before := buf;
      WriteUint64(|p|);
      Write(p);
      assert buf == before + (LittleEndian(|p|, 8) + p);
    }

    /** read: a short buffer is used up. */
    method Read(n: nat) returns (p: seq<Byte>)
      modifies this
      ensures old(err) ==> err && buf == old(buf)
      ensures !old(err) ==> Reads(Fixed(n), old(buf), p, buf, err)
      ensures |p| == n
    {
      p := seq(n, _ => 0);
      if err {
        return;
      }
      if |buf| < n {
        buf, err := [], true;
      } else {
        p, buf := buf[..n], buf[n..];
      }
    }

    method ReadBool() returns (p: bool)
      modifies this
      ensures old(err) ==> err && buf == old(buf)
      ensures !old(err) ==> Reads(Boolean(), old(buf), p, buf, err)
    {
      p := false;
      if err {
        return;
      }
      if |buf| == 0 {
        err := true;
        return;
      }
      var c := buf[0];
      buf := buf[1..];
      if c != 0 && c != 1 {
        err := true;
        return;
      }
      p := c == 1;
    }

    method ReadUint64() returns (u: nat)
      modifies this
      ensures old(err) ==> err && buf == old(buf) && u == 0
      ensures !old(err) ==> Reads(Uint64(), old(buf), u, buf, err) && (err ==> u == 0)
    {
      if err {
        return 0;
      }
      if |buf| < 8 {
        buf, err := [], true;
        return 0;
      }
      u := FromLittleEndian(buf[..8]);
      buf := buf[8..];
    }

    /** readPrefix: no more elements than the rest of the message has room for. */
    method ReadPrefix(elem: nat) returns (n: nat)
      requires elem > 0
      modifies this
      ensures old(err) ==> err && buf == old(buf)
      ensures err ==> n == 0
      ensures !old(err) ==>
        match DecodePrefix(elem, old(buf))
        case Bad => err
        case Got(k, rest) => !err && n == k && buf == rest
    {
      n := ReadUint64();
      if n > |buf| / elem {
        err := true;
        n := 0;
      }
    }

    method ReadPrefixedBytes() returns (p: seq<Byte>)
      modifies this
      ensures old(err) ==> err
      ensures !old(err) ==> Reads(Bytes(), old(buf), p, buf, err)
    {
      var n := ReadPrefix(1);
      p := Read(n);
    }
  }

  // ---------- currency ----------

  /** x >> 8k */
  function Drop(x: nat, k: nat): nat
    decreases k
  {
    if k == 0 then x else Drop(x / 256, k - 1)
  }

  /** The value of a big integer's words, the least significant first. */
  function Value(words: seq<nat>): nat {
    if |words| == 0 then 0 else words[0] + U64 * Value(words[1..])
  }

  lemma {:induction false} DropAdd(x: nat, j: nat, k: nat)
    ensures Drop(x, j + k) == Drop(Drop(x, j), k)
    decreases j
  {
    if j > 0 {
      DropAdd(x / 256, j - 1, k);
    }
  }

  lemma DropStep(x: nat, k: nat)
    ensures Drop(x, k + 1) == Drop(x, k) / 256
  {
    DropAdd(x, k, 1);
  }

  /** Shifting within the low k bytes leaves the high part in place. */
  lemma {:induction false} DropMix(a: nat, b: nat, k: nat, i: nat, high: nat)
    requires i <= k && high == Pow256(k) * b
    ensures Drop(a + high, i) == Drop(a, i) + Pow256(k - i) * b
    decreases i
  {
    if i > 0 {
      PowTimes(k - 1, b);
      var p := Pow256(k - 1) * b;
      DropStart(a, p, i);
      DropMix(a / 256, b, k - 1, i - 1, p);
    }
  }

  lemma DropStart(a: nat, p: nat, i: nat)
    requires i > 0
    ensures Drop(a + 256 * p, i) == Drop(a / 256 + p, i - 1)
  {
    assert (a + 256 * p) / 256 == a / 256 + p;
  }

  lemma {:induction false} DropAll(a: nat, k: nat)
    requires a < Pow256(k)
    ensures Drop(a, k) == 0
    decreases k
  {
    if k > 0 {
      DropAll(a / 256, k - 1);
    }
  }

  ghost predicate Words(words: seq<nat>) {
    forall i :: 0 <= i < |words| ==> words[i] < U64
  }

  lemma PowTimes(k: nat, v: nat)
    ensures Pow256(k + 1) * v == 256 * (Pow256(k) * v)
  {
    var p := Pow256(k);
    assert (256 * p) * v == 256 * (p * v);
  }

  /** A low word's byte does not depend on what is above the word. */
  lemma ByteOfSum(low: nat, q: nat, whole: nat, next: nat, lowNext: nat)
    requires whole == low + 256 * q && next == lowNext + q
    ensures low % 256 == whole % 256 && (next == 0 ==> low == whole)
  {
  }

  lemma DropEight(w: nat, v: nat, i: nat)
    requires i <= 8
    ensures Drop(w + U64 * v, i) == Drop(w, i) + Pow256(8 - i) * v
  {
    WordTimes(v);
    DropMix(w, v, 8, i, U64 * v);
  }

  lemma WordTimes(v: nat)
    ensures U64 * v == Pow256(8) * v
  {
    Pow256Eight();
  }

  lemma LowByte(w: nat, v: nat, i: nat, whole: nat)
    requires i < 8 && whole == w + U64 * v
    ensures Drop(w, i) % 256 == Drop(whole, i) % 256
    ensures Drop(whole, i + 1) == 0 ==> Drop(w, i) == Drop(whole, i)
  {
    var q := Pow256(7 - i) * v;
    assert Drop(whole, i) == Drop(w, i) + 256 * q by {
      DropEight(w, v, i);
      PowTimes(7 - i, v);
    }
    assert Drop(whole, i + 1) == Drop(w, i + 1) + q by {
      DropEight(w, v, i + 1);
    }
    ByteOfSum(Drop(w, i), q, Drop(whole, i), Drop(whole, i + 1), Drop(w, i + 1));
  }

  lemma HighWords(w: nat, v: nat, i: nat)
    requires w < U64 && i >= 8
    ensures Drop(w + U64 * v, i) == Drop(v, i - 8)
  {
    DropEight(w, v, 8);
    Pow256Eight();
    DropAll(w, 8);
    DropAdd(w + U64 * v, 8, i - 8);
  }

  /** Byte i of the number is byte i % 8 of word i / 8, and so is everything above it when there is
      nothing above it. */
  lemma {:induction false} WordByte(words: seq<nat>, i: nat)
    requires Words(words) && i < 8 * |words|
    ensures Drop(words[i / 8], i % 8) % 256 == Drop(Value(words), i) % 256
    ensures Drop(Value(words), i + 1) == 0 ==> Drop(words[i / 8], i % 8) == Drop(Value(words), i)
    decreases |words|
  {
    var w, v := words[0], Value(words[1..]);
    if i < 8 {
      LowByte(w, v, i, Value(words));
    } else {
      HighWords(w, v, i);
      HighWords(w, v, i + 1);
      assert (i - 8) / 8 == i / 8 - 1 && (i - 8) % 8 == i % 8 && i - 7 == i - 8 + 1;
      WordByte(words[1..], i - 8);
    }
  }

  lemma {:induction false} ValueFits(words: seq<nat>)
    requires Words(words)
    ensures Drop(Value(words), 8 * |words|) == 0
    decreases |words|
  {
    if |words| > 0 {
      var w, v := words[0], Value(words[1..]);
      HighWords(w, v, 8 * |words|);
      ValueFits(words[1..]);
    }
  }

  lemma {:induction false} BigEndianLength(n: nat, k: nat)
    requires Drop(n, k) == 0 && (k > 0 ==> Drop(n, k - 1) != 0)
    ensures |BigEndian(n)| == k
    decreases k
  {
    if k > 0 {
      if k > 1 {
        BigEndianLength(n / 256, k - 1);
      } else {
        assert Drop(n, 1) == Drop(n / 256, 0) == n / 256;
      }
    }
  }

  /** The top byte of a currency's words: one less than how many bytes it takes. */
  method TopByte(words: seq<nat>) returns (top: int)
    requires Words(words)
    ensures -1 <= top < 8 * |words| && |BigEndian(Value(words))| == top + 1 && Drop(Value(words), top + 1) == 0
    ensures forall i :: 0 <= i <= top ==> Drop(Value(words), i) != 0
  {
    ghost var v := Value(words);
    ValueFits(words);
    top := 8 * |words| - 1;
    while top >= 0
      invariant -1 <= top < 8 * |words| && Drop(v, top + 1) == 0
      decreases top
    {
      WordByte(words, top);
      if Drop(words[top / 8], top % 8) != 0 {
        break;
      }
      top := top - 1;
    }
    BigEndianLength(v, top + 1);
    forall i | 0 <= i <= top ensures Drop(v, i) != 0 {
      DropAdd(v, i, top - i);
      DropZero(top - i);
    }
  }

  lemma {:induction false} DropZero(k: nat)
    ensures Drop(0, k) == 0
  {
    if k > 0 {
      DropZero(k - 1);
    }
  }

  /** The words of a big integer. */
  function Bits(n: nat): seq<nat> {
    if n == 0 then [] else [n % U64] + Bits(n / U64)
  }

  lemma {:induction false} BitsValue(n: nat)
    ensures Words(Bits(n)) && Value(Bits(n)) == n
  {
    if n > 0 {
      BitsValue(n / U64);
      assert Bits(n)[1..] == Bits(n / U64);
    }
  }

  /** objCurrency.marshalledSize */
  method CurrencySize(n: nat) returns (size: nat)
    ensures size == Currency().size(n)
  {
    BitsValue(n);
    var top := TopByte(Bits(n));
    return 8 + top + 1;
  }

  /** objCurrency.marshalBuffer */
  method MarshalCurrency(b: ObjBuffer, words: seq<nat>)
    requires Words(words) && Currency().valid(Value(words))
    modifies b`buf
    ensures b.buf == old(b.buf) + Currency().enc(Value(words))
  {
    ghost var v, before := Value(words), b.buf;
    var i := TopByte(words);
    var top := i;
    b.WriteUint64(i + 1);
    ghost var start := b.buf;
    assert start == start + BigEndian(Drop(v, i + 1));
    while i >= 0
      invariant -1 <= i <= top && b.buf == start + BigEndian(Drop(v, i + 1))
      decreases i
    {
      WordByte(words, i);
      DropStep(v, i);
      b.WriteByte(Drop(words[i / 8], i % 8) % 256);
      assert BigEndian(Drop(v, i)) == BigEndian(Drop(v, i + 1)) + [Drop(v, i) % 256];
      i := i - 1;
    }
    assert b.buf == before + (LittleEndian(top + 1, 8) + BigEndian(v));
  }

  method UnmarshalCurrency(b: ObjBuffer) returns (n: nat)
    modifies b
    ensures old(b.err) ==> b.err
    ensures !old(b.err) ==> Reads(Currency(), old(b.buf), n, b.buf, b.err)
  {
    var s := b.ReadPrefixedBytes();
    n := FromBigEndian(s);
  }

  // ---------- the parts of a revision ----------

  lemma Assoc(done: seq<Byte>, next: seq<Byte>, rest: seq<Byte>)
    ensures done + (next + rest) == (done + next) + rest
  {
  }

  lemma PairParts<A, B>(a: Codec<A>, b: Codec<B>, x: A, y: B)
    ensures Pair(a, b).valid((x, y)) <==> a.valid(x) && b.valid(y)
    ensures Pair(a, b).enc((x, y)) == a.enc(x) + b.enc(y)
  {
  }

  lemma ViewParts<A, B>(a: Codec<A>, to: A -> B, from: B -> A, y: B, x: A)
    requires x == from(y)
    ensures View(a, to, from).valid(y) <==> a.valid(x)
    ensures View(a, to, from).enc(y) == a.enc(x)
  {
  }

  lemma PublicKeyParts(k: SiaPublicKey)
    ensures SiaPublicKeyCodec().valid(k) <==> |k.algorithm| == 16 && |k.key| < U64
    ensures SiaPublicKeyCodec().enc(k) == k.algorithm + Bytes().enc(k.key)
  {
    ViewParts(SiaPublicKeyParts(), ToSiaPublicKey, FromSiaPublicKey, k, (k.algorithm, k.key));
    PairParts(Fixed(16), Bytes(), k.algorithm, k.key);
  }

  lemma OutputParts(o: SiacoinOutput)
    ensures SiacoinOutputCodec().valid(o) <==> Currency().valid(o.value) && |o.unlockHash| == 32
    ensures SiacoinOutputCodec().enc(o) == Currency().enc(o.value) + o.unlockHash
  {
    ViewParts(SiacoinOutputParts(), ToSiacoinOutput, FromSiacoinOutput, o, (o.value, o.unlockHash));
    PairParts(Currency(), Fixed(32), o.value, o.unlockHash);
  }

  lemma ConditionsParts(uc: UnlockConditions)
    ensures UnlockConditionsCodec().valid(uc) <==>
      uc.timelock < U64 && ListOf(SiaPublicKeyCodec(), 24).valid(uc.publicKeys) && uc.signaturesRequired < U64
    ensures UnlockConditionsCodec().enc(uc)
      == Uint64().enc(uc.timelock) + (ListOf(SiaPublicKeyCodec(), 24).enc(uc.publicKeys) + Uint64().enc(uc.signaturesRequired))
  {
    var c := ListOf(SiaPublicKeyCodec(), 24);
    ViewParts(UnlockConditionsParts(), ToUnlockConditions, FromUnlockConditions, uc, (uc.timelock, (uc.publicKeys, uc.signaturesRequired)));
    PairParts(Uint64(), Pair(c, Uint64()), uc.timelock, (uc.publicKeys, uc.signaturesRequired));
    PairParts(c, Uint64(), uc.publicKeys, uc.signaturesRequired);
  }

  method MarshalPublicKey(b: ObjBuffer, k: SiaPublicKey)
    requires SiaPublicKeyCodec().valid(k)
    modifies b`buf
    ensures b.buf == old(b.buf) + SiaPublicKeyCodec().enc(k)
  {
    PublicKeyParts(k);
    Assoc(b.buf, k.algorithm, Bytes().enc(k.key));
    b.Write(k.algorithm);
    b.WritePrefixedBytes(k.key);
  }

  method UnmarshalPublicKey(b: ObjBuffer) returns (k: SiaPublicKey)
    modifies b
    ensures old(b.err) ==> b.err
    ensures !old(b.err) ==> Reads(SiaPublicKeyCodec(), old(b.buf), k, b.buf, b.err)
  {
    var algorithm := b.Read(16);
    var key := b.ReadPrefixedBytes();
    k := SiaPublicKey(algorithm, key);
  }

  method MarshalOutput(b: ObjBuffer, o: SiacoinOutput)
    requires SiacoinOutputCodec().valid(o)
    modifies b`buf
    ensures b.buf == old(b.buf) + SiacoinOutputCodec().enc(o)
  {
    OutputParts(o);
    BitsValue(o.value);
    Assoc(b.buf, Currency().enc(o.value), o.unlockHash);
    MarshalCurrency(b, Bits(o.value));
    b.Write(o.unlockHash);
  }

  method UnmarshalOutput(b: ObjBuffer) returns (o: SiacoinOutput)
    modifies b
    ensures old(b.err) ==> b.err
    ensures !old(b.err) ==> Reads(SiacoinOutputCodec(), old(b.buf), o, b.buf, b.err)
  {
    var value := UnmarshalCurrency(b);
    var unlockHash := b.Read(32);
    o := SiacoinOutput(value, unlockHash);
  }

  // ---------- lists ----------

  /** What the element loop has of a list after some of it. */
  function Prepend<T>(xs: seq<T>, p: Parsed<seq<T>>): Parsed<seq<T>> {
    match p
    case Bad => Bad
    case Got(ys, rest) => Got(xs + ys, rest)
  }

  /** The loop over n elements, with n - left of them read: what is still to come decides.  Stated
      for every k so that it is unfolded only where Decides is named. */
  ghost predicate HalfRead<T>(c: Codec<T>, n: nat, s0: seq<Byte>, xs: seq<T>, left: nat, s: seq<Byte>, err: bool) {
    forall k: nat :: Decides(c, n, s0, xs, left, s, err, k)
  }

  ghost predicate Decides<T>(c: Codec<T>, n: nat, s0: seq<Byte>, xs: seq<T>, left: nat, s: seq<Byte>, err: bool, k: nat) {
    k == n ==> DecodeAll(c, k, s0) == if err then Bad else Prepend(xs, DecodeAll(c, left, s))
  }

  lemma HalfReadStep<T>(c: Codec<T>, n: nat, s0: seq<Byte>, xs: seq<T>, left: nat, s: seq<Byte>, err: bool, x: T, s': seq<Byte>, err': bool)
    requires left > 0 && HalfRead(c, n, s0, xs, left, s, err)
    requires (err ==> err') && (!err ==> Reads(c, s, x, s', err'))
    ensures HalfRead(c, n, s0, xs + [x], left - 1, s', err')
  {
    assert Decides(c, n, s0, xs, left, s, err, n);
    if !err && !err' {
      match DecodeAll(c, left - 1, s')
      case Bad =>
      case Got(ys, rest) => assert xs + ([x] + ys) == (xs + [x]) + ys;
    }
  }

  lemma HalfReadStart<T>(c: Codec<T>, n: nat, s: seq<Byte>)
    ensures HalfRead(c, n, s, [], n, s, false)
  {
    match DecodeAll(c, n, s)
    case Bad =>
    case Got(ys, rest) => assert [] + ys == ys;
  }

  lemma HalfReadDone<T>(c: Codec<T>, n: nat, s0: seq<Byte>, xs: seq<T>, s: seq<Byte>, err: bool)
    requires HalfRead(c, n, s0, xs, 0, s, err)
    ensures ReadsAll(c, n, s0, xs, s, err)
  {
    assert Decides(c, n, s0, xs, 0, s, err, n);
    assert xs + [] == xs;
  }

  ghost predicate ReadsAll<T>(c: Codec<T>, n: nat, before: seq<Byte>, xs: seq<T>, after: seq<Byte>, err: bool) {
    DecodeAll(c, n, before) == if err then Bad else Got(xs, after)
  }

  /** The element loop. */
  method UnmarshalOutputsOf(b: ObjBuffer, n: nat) returns (os: seq<SiacoinOutput>)
    modifies b
    ensures old(b.err) ==> b.err
    ensures !old(b.err) ==> ReadsAll(SiacoinOutputCodec(), n, old(b.buf), os, b.buf, b.err)
  {
    os := [];
    ghost var c, s0, e0 := SiacoinOutputCodec(), b.buf, b.err;
    HalfReadStart(c, n, s0);
    for i := 0 to n
      invariant |os| == i && (e0 ==> b.err)
      invariant !e0 ==> HalfRead(c, n, s0, os, n - i, b.buf, b.err)
    {
      ghost var s, e := b.buf, b.err;
      var o := UnmarshalOutput(b);
      if !e0 {
        HalfReadStep(c, n, s0, os, n - i, s, e, o, b.buf, b.err);
      }
      os := os + [o];
    }
    if !e0 {
      HalfReadDone(c, n, s0, os, b.buf, b.err);
    }
  }

  method UnmarshalOutputs(b: ObjBuffer) returns (os: seq<SiacoinOutput>)
    modifies b
    ensures old(b.err) ==> b.err
    ensures !old(b.err) ==> Reads(ListOf(SiacoinOutputCodec(), 40), old(b.buf), os, b.buf, b.err)
  {
    var n := b.ReadPrefix(40);
    os := UnmarshalOutputsOf(b, n);
  }

  /** The element loop. */
  method UnmarshalKeysOf(b: ObjBuffer, n: nat) returns (ks: seq<SiaPublicKey>)
    modifies b
    ensures old(b.err) ==> b.err
    ensures !old(b.err) ==> ReadsAll(SiaPublicKeyCodec(), n, old(b.buf), ks, b.buf, b.err)
  {
    ks := [];
    ghost var c, s0, e0 := SiaPublicKeyCodec(), b.buf, b.err;
    HalfReadStart(c, n, s0);
    for i := 0 to n
      invariant |ks| == i && (e0 ==> b.err)
      invariant !e0 ==> HalfRead(c, n, s0, ks, n - i, b.buf, b.err)
    {
      ghost var s, e := b.buf, b.err;
      var k := UnmarshalPublicKey(b);
      if !e0 {
        HalfReadStep(c, n, s0, ks, n - i, s, e, k, b.buf, b.err);
      }
      ks := ks + [k];
    }
    if !e0 {
      HalfReadDone(c, n, s0, ks, b.buf, b.err);
    }
  }

  method UnmarshalKeys(b: ObjBuffer) returns (ks: seq<SiaPublicKey>)
    modifies b
    ensures old(b.err) ==> b.err
    ensures !old(b.err) ==> Reads(ListOf(SiaPublicKeyCodec(), 24), old(b.buf), ks, b.buf, b.err)
  {
    var n := b.ReadPrefix(24);
    ks := UnmarshalKeysOf(b, n);
  }

  method MarshalOutputs(b: ObjBuffer, os: seq<SiacoinOutput>)
    requires ListOf(SiacoinOutputCodec(), 40).valid(os)
    modifies b`buf
    ensures b.buf == old(b.buf) + ListOf(SiacoinOutputCodec(), 40).enc(os)
  {
    ghost var c, before := SiacoinOutputCodec(), b.buf;
    Assoc(before, LittleEndian(|os|, 8), EncodeAll(c, os));
    b.WriteUint64(|os|);
    ghost var start := b.buf;
    for i := 0 to |os|
      invariant b.buf + EncodeAll(c, os[i..]) == start + EncodeAll(c, os)
    {
      assert os[i..][1..] == os[i + 1..];
      Assoc(b.buf, c.enc(os[i]), EncodeAll(c, os[i + 1..]));
      MarshalOutput(b, os[i]);
    }
    assert b.buf + EncodeAll(c, []) == b.buf;
  }

  method MarshalKeys(b: ObjBuffer, ks: seq<SiaPublicKey>)
    requires ListOf(SiaPublicKeyCodec(), 24).valid(ks)
    modifies b`buf
    ensures b.buf == old(b.buf) + ListOf(SiaPublicKeyCodec(), 24).enc(ks)
  {
    ghost var c, before := SiaPublicKeyCodec(), b.buf;
    Assoc(before, LittleEndian(|ks|, 8), EncodeAll(c, ks));
    b.WriteUint64(|ks|);
    ghost var start := b.buf;
    for i := 0 to |ks|
      invariant b.buf + EncodeAll(c, ks[i..]) == start + EncodeAll(c, ks)
    {
      assert ks[i..][1..] == ks[i + 1..];
      Assoc(b.buf, c.enc(ks[i]), EncodeAll(c, ks[i + 1..]));
      MarshalPublicKey(b, ks[i]);
    }
    assert b.buf + EncodeAll(c, []) == b.buf;
  }

  // ---------- unlock conditions and revisions ----------

  method MarshalUnlockConditions(b: ObjBuffer, uc: UnlockConditions)
    requires UnlockConditionsCodec().valid(uc)
    modifies b`buf
    ensures b.buf == old(b.buf) + UnlockConditionsCodec().enc(uc)
  {
    ConditionsParts(uc);
    ghost var keys, sigs := ListOf(SiaPublicKeyCodec(), 24).enc(uc.publicKeys), Uint64().enc(uc.signaturesRequired);
    Assoc(b.buf, Uint64().enc(uc.timelock), keys + sigs);
    b.WriteUint64(uc.timelock);
    Assoc(b.buf, keys, sigs);
    MarshalKeys(b, uc.publicKeys);
    b.WriteUint64(uc.signaturesRequired);
  }

  method UnmarshalUnlockConditions(b: ObjBuffer) returns (uc: UnlockConditions)
    modifies b
    ensures old(b.err) ==> b.err
    ensures !old(b.err) ==> Reads(UnlockConditionsCodec(), old(b.buf), uc, b.buf, b.err)
  {
    var timelock := b.ReadUint64();
    var keys := UnmarshalKeys(b);
    var sigs := b.ReadUint64();
    uc := UnlockConditions(timelock, keys, sigs);
  }

  lemma RevisionParts(rev: FileContractRevision)
    requires FileContractRevisionCodec().valid(rev)
    ensures Fixed(32).valid(rev.parentId)
    ensures UnlockConditionsCodec().valid(rev.unlockConditions)
    ensures Uint64().valid(rev.revisionNumber)
    ensures Uint64().valid(rev.fileSize)
    ensures Fixed(32).valid(rev.fileMerkleRoot)
    ensures Uint64().valid(rev.windowStart)
    ensures Uint64().valid(rev.windowEnd)
    ensures ListOf(SiacoinOutputCodec(), 40).valid(rev.validProofOutputs)
    ensures ListOf(SiacoinOutputCodec(), 40).valid(rev.missedProofOutputs)
    ensures Fixed(32).valid(rev.unlockHash)
    ensures FileContractRevisionCodec().enc(rev) ==
      Fixed(32).enc(rev.parentId)
      + (UnlockConditionsCodec().enc(rev.unlockConditions)
      + (Uint64().enc(rev.revisionNumber)
      + (Uint64().enc(rev.fileSize)
      + (Fixed(32).enc(rev.fileMerkleRoot)
      + (Uint64().enc(rev.windowStart)
      + (Uint64().enc(rev.windowEnd)
      + (ListOf(SiacoinOutputCodec(), 40).enc(rev.validProofOutputs)
      + (ListOf(SiacoinOutputCodec(), 40).enc(rev.missedProofOutputs)
      + (Fixed(32).enc(rev.unlockHash))))))))))
  {
    ViewParts(FileContractRevisionParts(), ToFileContractRevision, FromFileContractRevision, rev,
      FromFileContractRevision(rev));
    var c9 := Fixed(32);
    var c8 := Pair(ListOf(SiacoinOutputCodec(), 40), c9);
    var c7 := Pair(ListOf(SiacoinOutputCodec(), 40), c8);
    var c6 := Pair(Uint64(), c7);
    var c5 := Pair(Uint64(), c6);
    var c4 := Pair(Fixed(32), c5);
    var c3 := Pair(Uint64(), c4);
    var c2 := Pair(Uint64(), c3);
    var c1 := Pair(UnlockConditionsCodec(), c2);
    var c0 := Pair(Fixed(32), c1);
    PairParts(Fixed(32), c1, rev.parentId, (rev.unlockConditions,
        (rev.revisionNumber, (rev.fileSize, (rev.fileMerkleRoot,
        (rev.windowStart, (rev.windowEnd, (rev.validProofOutputs, (rev.missedProofOutputs, rev.unlockHash)))))))));
    PairParts(UnlockConditionsCodec(), c2, rev.unlockConditions,
        (rev.revisionNumber, (rev.fileSize, (rev.fileMerkleRoot,
        (rev.windowStart, (rev.windowEnd, (rev.validProofOutputs, (rev.missedProofOutputs, rev.unlockHash))))))));
    PairParts(Uint64(), c3, rev.revisionNumber, (rev.fileSize,
        (rev.fileMerkleRoot, (rev.windowStart, (rev.windowEnd, (rev.validProofOutputs, (rev.missedProofOutputs, rev.unlockHash)))))));
    PairParts(Uint64(), c4, rev.fileSize, (rev.fileMerkleRoot,
        (rev.windowStart, (rev.windowEnd, (rev.validProofOutputs, (rev.missedProofOutputs, rev.unlockHash))))));
    PairParts(Fixed(32), c5, rev.fileMerkleRoot, (rev.windowStart,
        (rev.windowEnd, (rev.validProofOutputs, (rev.missedProofOutputs, rev.unlockHash)))));
    PairParts(Uint64(), c6, rev.windowStart, (rev.windowEnd, (rev.validProofOutputs, (rev.missedProofOutputs, rev.unlockHash))));
    PairParts(Uint64(), c7, rev.windowEnd, (rev.validProofOutputs, (rev.missedProofOutputs, rev.unlockHash)));
    PairParts(ListOf(SiacoinOutputCodec(), 40), c8, rev.validProofOutputs, (rev.missedProofOutputs, rev.unlockHash));
    PairParts(ListOf(SiacoinOutputCodec(), 40), c9, rev.missedProofOutputs, rev.unlockHash);
  }

  /** objFileContractRevision.marshalBuffer */
  method MarshalRevision(b: ObjBuffer, rev: FileContractRevision)
    requires FileContractRevisionCodec().valid(rev)
    modifies b`buf
    ensures b.buf == old(b.buf) + FileContractRevisionCodec().enc(rev)
  {
    RevisionParts(rev);
    ghost var r9 := Fixed(32).enc(rev.unlockHash);
    ghost var r8 := ListOf(SiacoinOutputCodec(), 40).enc(rev.missedProofOutputs) + r9;
    ghost var r7 := ListOf(SiacoinOutputCodec(), 40).enc(rev.validProofOutputs) + r8;
    ghost var r6 := Uint64().enc(rev.windowEnd) + r7;
    ghost var r5 := Uint64().enc(rev.windowStart) + r6;
    ghost var r4 := Fixed(32).enc(rev.fileMerkleRoot) + r5;
    ghost var r3 := Uint64().enc(rev.fileSize) + r4;
    ghost var r2 := Uint64().enc(rev.revisionNumber) + r3;
    ghost var r1 := UnlockConditionsCodec().enc(rev.unlockConditions) + r2;
    Assoc(b.buf, Fixed(32).enc(rev.parentId), r1);
    b.Write(rev.parentId);
    Assoc(b.buf, UnlockConditionsCodec().enc(rev.unlockConditions), r2);
    MarshalUnlockConditions(b, rev.unlockConditions);
    Assoc(b.buf, Uint64().enc(rev.revisionNumber), r3);
    b.WriteUint64(rev.revisionNumber);
    Assoc(b.buf, Uint64().enc(rev.fileSize), r4);
    b.WriteUint64(rev.fileSize);
    Assoc(b.buf, Fixed(32).enc(rev.fileMerkleRoot), r5);
    b.Write(rev.fileMerkleRoot);
    Assoc(b.buf, Uint64().enc(rev.windowStart), r6);
    b.WriteUint64(rev.windowStart);
    Assoc(b.buf, Uint64().enc(rev.windowEnd), r7);
    b.WriteUint64(rev.windowEnd);
    Assoc(b.buf, ListOf(SiacoinOutputCodec(), 40).enc(rev.validProofOutputs), r8);
    MarshalOutputs(b, rev.validProofOutputs);
    Assoc(b.buf, ListOf(SiacoinOutputCodec(), 40).enc(rev.missedProofOutputs), r9);
    MarshalOutputs(b, rev.missedProofOutputs);
    b.Write(rev.unlockHash);
  }

  /** objFileContractRevision.unmarshalBuffer */
  method UnmarshalRevision(b: ObjBuffer) returns (rev: FileContractRevision)
    modifies b
    ensures old(b.err) ==> b.err
    ensures !old(b.err) ==> Reads(FileContractRevisionCodec(), old(b.buf), rev, b.buf, b.err)
  {
    ghost var s0, e0 := b.buf, b.err;
    var parentId := b.Read(32);
    ghost var s1, e1 := b.buf, b.err;
    var unlockConditions := UnmarshalUnlockConditions(b);
    ghost var s2, e2 := b.buf, b.err;
    var revisionNumber := b.ReadUint64();
    ghost var s3, e3 := b.buf, b.err;
    var fileSize := b.ReadUint64();
    ghost var s4, e4 := b.buf, b.err;
    var fileMerkleRoot := b.Read(32);
    ghost var s5, e5 := b.buf, b.err;
    var windowStart := b.ReadUint64();
    ghost var s6, e6 := b.buf, b.err;
    var windowEnd := b.ReadUint64();
    ghost var s7, e7 := b.buf, b.err;
    var validProofOutputs := UnmarshalOutputs(b);
    ghost var s8, e8 := b.buf, b.err;
    var missedProofOutputs := UnmarshalOutputs(b);
    ghost var s9, e9 := b.buf, b.err;
    var unlockHash := b.Read(32);
    ghost var s10, e10 := b.buf, b.err;
    rev := FileContractRevision(parentId, unlockConditions, revisionNumber, fileSize, fileMerkleRoot, windowStart,
        windowEnd, validProofOutputs, missedProofOutputs, unlockHash);
    if !e0 {
      RevisionReads(s0, rev, s1, e1, s2, e2, s3, e3, s4, e4, s5, e5, s6, e6, s7, e7, s8, e8, s9, e9, s10, e10);
    }
  }

  /** Ten fields read one after another make up a revision. */
  lemma RevisionReads(s0: seq<Byte>, rev: FileContractRevision, s1: seq<Byte>, e1: bool, s2: seq<Byte>, e2: bool, s3: seq<Byte>, e3: bool,
    s4: seq<Byte>, e4: bool, s5: seq<Byte>, e5: bool, s6: seq<Byte>, e6: bool, s7: seq<Byte>, e7: bool, s8: seq<Byte>, e8: bool,
    s9: seq<Byte>, e9: bool, s10: seq<Byte>, e10: bool)
    requires Reads(Fixed(32), s0, rev.parentId, s1, e1)
    requires (e1 ==> e2) && (!e1 ==> Reads(UnlockConditionsCodec(), s1, rev.unlockConditions, s2, e2))
    requires (e2 ==> e3) && (!e2 ==> Reads(Uint64(), s2, rev.revisionNumber, s3, e3))
    requires (e3 ==> e4) && (!e3 ==> Reads(Uint64(), s3, rev.fileSize, s4, e4))
    requires (e4 ==> e5) && (!e4 ==> Reads(Fixed(32), s4, rev.fileMerkleRoot, s5, e5))
    requires (e5 ==> e6) && (!e5 ==> Reads(Uint64(), s5, rev.windowStart, s6, e6))
    requires (e6 ==> e7) && (!e6 ==> Reads(Uint64(), s6, rev.windowEnd, s7, e7))
    requires (e7 ==> e8) && (!e7 ==> Reads(ListOf(SiacoinOutputCodec(), 40), s7, rev.validProofOutputs, s8, e8))
    requires (e8 ==> e9) && (!e8 ==> Reads(ListOf(SiacoinOutputCodec(), 40), s8, rev.missedProofOutputs, s9, e9))
    requires (e9 ==> e10) && (!e9 ==> Reads(Fixed(32), s9, rev.unlockHash, s10, e10))
    ensures Reads(FileContractRevisionCodec(), s0, rev, s10, e10)
  {
    var c9 := Fixed(32);
    var c8 := Pair(ListOf(SiacoinOutputCodec(), 40), c9);
    var c7 := Pair(ListOf(SiacoinOutputCodec(), 40), c8);
    var c6 := Pair(Uint64(), c7);
    var c5 := Pair(Uint64(), c6);
    var c4 := Pair(Fixed(32), c5);
    var c3 := Pair(Uint64(), c4);
    var c2 := Pair(Uint64(), c3);
    var c1 := Pair(UnlockConditionsCodec(), c2);
    var c0 := Pair(Fixed(32), c1);
    if !e8 {
      ReadsPair(ListOf(SiacoinOutputCodec(), 40), c9, s8, rev.missedProofOutputs, s9, e9, rev.unlockHash, s10, e10);
    }
    if !e7 {
      ReadsPair(ListOf(SiacoinOutputCodec(), 40), c8, s7, rev.validProofOutputs, s8, e8,
          (rev.missedProofOutputs, rev.unlockHash), s10, e10);
    }
    if !e6 {
      ReadsPair(Uint64(), c7, s6, rev.windowEnd, s7, e7, (rev.validProofOutputs, (rev.missedProofOutputs, rev.unlockHash)), s10, e10);
    }
    if !e5 {
      ReadsPair(Uint64(), c6, s5, rev.windowStart, s6, e6, (rev.windowEnd,
          (rev.validProofOutputs, (rev.missedProofOutputs, rev.unlockHash))), s10, e10);
    }
    if !e4 {
      ReadsPair(Fixed(32), c5, s4, rev.fileMerkleRoot, s5, e5,
          (rev.windowStart, (rev.windowEnd, (rev.validProofOutputs, (rev.missedProofOutputs, rev.unlockHash)))), s10, e10);
    }
    if !e3 {
      ReadsPair(Uint64(), c4, s3, rev.fileSize, s4, e4, (rev.fileMerkleRoot,
          (rev.windowStart, (rev.windowEnd, (rev.validProofOutputs, (rev.missedProofOutputs, rev.unlockHash))))), s10, e10);
    }
    if !e2 {
      ReadsPair(Uint64(), c3, s2, rev.revisionNumber, s3, e3,
          (rev.fileSize, (rev.fileMerkleRoot, (rev.windowStart,
          (rev.windowEnd, (rev.validProofOutputs, (rev.missedProofOutputs, rev.unlockHash)))))), s10, e10);
    }
    if !e1 {
      ReadsPair(UnlockConditionsCodec(), c2, s1, rev.unlockConditions, s2, e2,
          (rev.revisionNumber, (rev.fileSize, (rev.fileMerkleRoot,
          (rev.windowStart, (rev.windowEnd, (rev.validProofOutputs, (rev.missedProofOutputs, rev.unlockHash))))))), s10, e10);
    }
    ReadsPair(Fixed(32), c1, s0, rev.parentId, s1, e1, (rev.unlockConditions,
        (rev.revisionNumber, (rev.fileSize, (rev.fileMerkleRoot,
        (rev.windowStart, (rev.windowEnd, (rev.validProofOutputs, (rev.missedProofOutputs, rev.unlockHash)))))))), s10, e10);
    ReadsView(FileContractRevisionParts(), ToFileContractRevision, FromFileContractRevision, s0,
      FromFileContractRevision(rev), s10, e10);
  }
}
