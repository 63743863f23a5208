/** The bytes on the wire (renterhost/encoding.go), field by field: what the codecs write is one
    concatenation of the fields of an object, in their order. */
module Layouts {
  import opened Codecs
  import opened Encoding

  // ---------- numbers ----------

  /** Eight bytes, the least significant first. */
  function Word(u: nat): (s: seq<Byte>)
    ensures |s| == 8
  {
    seq(8, i requires 0 <= i < 8 => u / Pow256(i) % 256)
  }

  lemma DivideTwice(u: nat, p: nat)
    requires p > 0
    ensures u / 256 / p == u / (256 * p)
  {
    var q, r := u / 256, u % 256;
    var d, e := q / p, q % p;
    assert q == d * p + e && u == 256 * q + r;
    assert u == d * (256 * p) + (256 * e + r);
    DivisionIs(u, 256 * p, d, 256 * e + r);
  }

  lemma DivisionIs(u: nat, p: nat, d: nat, r: nat)
    requires p > 0 && u == d * p + r && r < p
    ensures u / p == d
  {
    var q, s := u / p, u % p;
    assert u == q * p + s;
    Unequal(d, q, p, r, s);
  }

  lemma Unequal(d: nat, q: nat, p: nat, r: nat, s: nat)
    requires r < p && s < p && d * p + r == q * p + s
    ensures d == q
  {
    if d < q {
      NextMultiple(d, q, p);
    } else if q < d {
      NextMultiple(q, d, p);
    }
  }

  lemma {:induction false} NextMultiple(d: nat, q: nat, p: nat)
    requires d < q
    ensures d * p + p <= q * p
    decreases q
  {
    assert q * p == (q - 1) * p + p;
    if d < q - 1 {
      NextMultiple(d, q - 1, p);
    }
  }

  lemma {:induction false} LittleEndianAt(u: nat, k: nat, i: nat)
    requires i < k
    ensures LittleEndian(u, k)[i] == u / Pow256(i) % 256
    decreases i
  {
    if i > 0 {
      LittleEndianAt(u / 256, k - 1, i - 1);
      DivideTwice(u, Pow256(i - 1));
    }
  }

  /** writeUint64 */
  lemma WordBytes(u: nat)
    ensures Uint64().enc(u) == Word(u) && LittleEndian(u, 8) == Word(u)
  {
    forall i | 0 <= i < 8 ensures LittleEndian(u, 8)[i] == Word(u)[i] {
      LittleEndianAt(u, 8, i);
    }
  }

  /** How many bytes a number has, without leading zeros. */
  function Length(n: nat): nat {
    if n == 0 then 0 else 1 + Length(n / 256)
  }

  lemma {:induction false} LengthIs(n: nat)
    ensures n < Pow256(Length(n)) && (n > 0 ==> Pow256(Length(n) - 1) <= n)
  {
    if n > 0 {
      LengthIs(n / 256);
    }
  }

  /** Its bytes, the most significant first. */
  function Digits(n: nat): (s: seq<Byte>)
    ensures |s| == Length(n)
  {
    seq(Length(n), i requires 0 <= i < Length(n) => n / Pow256(Length(n) - 1 - i) % 256)
  }

  function Amount(n: nat): seq<Byte> {
    Word(Length(n)) + Digits(n)
  }

  lemma {:induction false} BigEndianAt(n: nat, i: nat)
    ensures |BigEndian(n)| == Length(n)
    ensures i < Length(n) ==> BigEndian(n)[i] == n / Pow256(Length(n) - 1 - i) % 256
  {
    if n > 0 {
      BigEndianAt(n / 256, i);
      if i < Length(n) - 1 {
        DivideTwice(n, Pow256(Length(n) - 2 - i));
      }
    }
  }

  /** objCurrency */
  lemma AmountBytes(n: nat)
    ensures Currency().enc(n) == Amount(n)
  {
    BigEndianAt(n, 0);
    forall i | 0 <= i < Length(n) ensures BigEndian(n)[i] == Digits(n)[i] {
      BigEndianAt(n, i);
    }
    assert BigEndian(n) == Digits(n);
    WordBytes(Length(n));
  }

  /** writePrefixedBytes */
  function Prefixed(s: seq<Byte>): seq<Byte> {
    Word(|s|) + s
  }

  lemma PrefixedBytes(s: seq<Byte>)
    ensures Bytes().enc(s) == Prefixed(s)
  {
    WordBytes(|s|);
  }

  // ---------- lists ----------

  function Concat<T>(f: T -> seq<Byte>, xs: seq<T>): seq<Byte> {
    if |xs| == 0 then [] else f(xs[0]) + Concat(f, xs[1..])
  }

  /** How many, then one after the other. */
  function List<T>(f: T -> seq<Byte>, xs: seq<T>): seq<Byte> {
    Word(|xs|) + Concat(f, xs)
  }

  lemma {:induction false} AllBytes<T>(c: Codec<T>, f: T -> seq<Byte>, xs: seq<T>)
    requires forall i :: 0 <= i < |xs| ==> c.enc(xs[i]) == f(xs[i])
    ensures EncodeAll(c, xs) == Concat(f, xs)
  {
    if |xs| > 0 {
      AllBytes(c, f, xs[1..]);
    }
  }

  lemma ListBytes<T>(c: Codec<T>, elem: nat, f: T -> seq<Byte>, xs: seq<T>)
    requires elem > 0 && forall i :: 0 <= i < |xs| ==> c.enc(xs[i]) == f(xs[i])
    ensures ListOf(c, elem).enc(xs) == List(f, xs)
  {
    WordBytes(|xs|);
    AllBytes(c, f, xs);
  }

  // ---------- records ----------

  lemma PairBytes<A, B>(a: Codec<A>, b: Codec<B>, x: A, y: B, p: seq<Byte>, q: seq<Byte>)
    requires a.enc(x) == p && b.enc(y) == q
    ensures Pair(a, b).enc((x, y)) == p + q
  {
  }

  lemma ViewBytes<A, B>(a: Codec<A>, to: A -> B, from: B -> A, y: B, s: seq<Byte>)
    requires a.enc(from(y)) == s
    ensures View(a, to, from).enc(y) == s
  {
  }

  lemma FixedBytes(n: nat, s: seq<Byte>)
    ensures Fixed(n).enc(s) == s
  {
  }

  // ---------- objects ----------

  function Same(s: seq<Byte>): seq<Byte> {
    s
  }

  lemma HashesLayout(xs: seq<seq<Byte>>)
    ensures ListOf(Fixed(32), 32).enc(xs) == List(Same, xs)
  {
    forall i | 0 <= i < |xs| ensures Fixed(32).enc(xs[i]) == Same(xs[i]) {
      FixedBytes(32, xs[i]);
    }
    ListBytes(Fixed(32), 32, Same, xs);
  }

  lemma AmountsLayout(xs: seq<nat>)
    ensures ListOf(Currency(), 8).enc(xs) == List(Amount, xs)
  {
    forall i | 0 <= i < |xs| ensures Currency().enc(xs[i]) == Amount(xs[i]) {
      AmountBytes(xs[i]);
    }
    ListBytes(Currency(), 8, Amount, xs);
  }

  lemma DataLayout(xs: seq<seq<Byte>>)
    ensures ListOf(Bytes(), 1).enc(xs) == List(Prefixed, xs)
  {
    forall i | 0 <= i < |xs| ensures Bytes().enc(xs[i]) == Prefixed(xs[i]) {
      PrefixedBytes(xs[i]);
    }
    ListBytes(Bytes(), 1, Prefixed, xs);
  }

  function SiaPublicKeyBytes(k: SiaPublicKey): seq<Byte> {
    k.algorithm + Prefixed(k.key)
  }

  lemma SiaPublicKeyLayout(k: SiaPublicKey)
    ensures SiaPublicKeyCodec().enc(k) == SiaPublicKeyBytes(k)
  {
    FixedBytes(16, k.algorithm);
    PrefixedBytes(k.key);
    PairBytes(Fixed(16), Bytes(), k.algorithm, k.key, k.algorithm, Prefixed(k.key));
    ViewBytes(SiaPublicKeyParts(), ToSiaPublicKey, FromSiaPublicKey, k, k.algorithm + Prefixed(k.key));
  }

  lemma SiaPublicKeysLayout(xs: seq<SiaPublicKey>)
    ensures ListOf(SiaPublicKeyCodec(), 24).enc(xs) == List(SiaPublicKeyBytes, xs)
  {
    forall i | 0 <= i < |xs| ensures SiaPublicKeyCodec().enc(xs[i]) == SiaPublicKeyBytes(xs[i]) {
      SiaPublicKeyLayout(xs[i]);
    }
    ListBytes(SiaPublicKeyCodec(), 24, SiaPublicKeyBytes, xs);
  }

  function UnlockConditionsBytes(u: UnlockConditions): seq<Byte> {
    Word(u.timelock) + (List(SiaPublicKeyBytes, u.publicKeys) + Word(u.signaturesRequired))
  }

  lemma UnlockConditionsLayout(u: UnlockConditions)
    ensures UnlockConditionsCodec().enc(u) == UnlockConditionsBytes(u)
  {
    WordBytes(u.timelock);
    SiaPublicKeysLayout(u.publicKeys);
    WordBytes(u.signaturesRequired);
    PairBytes(ListOf(SiaPublicKeyCodec(), 24), Uint64(), u.publicKeys, u.signaturesRequired,
      List(SiaPublicKeyBytes, u.publicKeys), Word(u.signaturesRequired));
    var c1, v1 := Pair(ListOf(SiaPublicKeyCodec(), 24), Uint64()), (u.publicKeys, u.signaturesRequired);
    var b1 := List(SiaPublicKeyBytes, u.publicKeys) + Word(u.signaturesRequired);
    PairBytes(Uint64(), c1, u.timelock, v1, Word(u.timelock), b1);
    ViewBytes(UnlockConditionsParts(), ToUnlockConditions, FromUnlockConditions, u, Word(u.timelock) + b1);
  }

  function SiacoinInputBytes(x: SiacoinInput): seq<Byte> {
    x.parentId + UnlockConditionsBytes(x.unlockConditions)
  }

  lemma SiacoinInputLayout(x: SiacoinInput)
    ensures SiacoinInputCodec().enc(x) == SiacoinInputBytes(x)
  {
    FixedBytes(32, x.parentId);
    UnlockConditionsLayout(x.unlockConditions);
    PairBytes(Fixed(32), UnlockConditionsCodec(), x.parentId, x.unlockConditions,
      x.parentId, UnlockConditionsBytes(x.unlockConditions));
    ViewBytes(SiacoinInputParts(), ToSiacoinInput, FromSiacoinInput,
      x, x.parentId + UnlockConditionsBytes(x.unlockConditions));
  }

  lemma SiacoinInputsLayout(xs: seq<SiacoinInput>)
    ensures ListOf(SiacoinInputCodec(), 56).enc(xs) == List(SiacoinInputBytes, xs)
  {
    forall i | 0 <= i < |xs| ensures SiacoinInputCodec().enc(xs[i]) == SiacoinInputBytes(xs[i]) {
      SiacoinInputLayout(xs[i]);
    }
    ListBytes(SiacoinInputCodec(), 56, SiacoinInputBytes, xs);
  }

  function SiacoinOutputBytes(x: SiacoinOutput): seq<Byte> {
    Amount(x.value) + x.unlockHash
  }

  lemma SiacoinOutputLayout(x: SiacoinOutput)
    ensures SiacoinOutputCodec().enc(x) == SiacoinOutputBytes(x)
  {
    AmountBytes(x.value);
    FixedBytes(32, x.unlockHash);
    PairBytes(Currency(), Fixed(32), x.value, x.unlockHash, Amount(x.value), x.unlockHash);
    ViewBytes(SiacoinOutputParts(), ToSiacoinOutput, FromSiacoinOutput, x, Amount(x.value) + x.unlockHash);
  }

  lemma SiacoinOutputsLayout(xs: seq<SiacoinOutput>)
    ensures ListOf(SiacoinOutputCodec(), 40).enc(xs) == List(SiacoinOutputBytes, xs)
  {
    forall i | 0 <= i < |xs| ensures SiacoinOutputCodec().enc(xs[i]) == SiacoinOutputBytes(xs[i]) {
      SiacoinOutputLayout(xs[i]);
    }
    ListBytes(SiacoinOutputCodec(), 40, SiacoinOutputBytes, xs);
  }

  function SiafundInputBytes(x: SiafundInput): seq<Byte> {
    x.parentId + (UnlockConditionsBytes(x.unlockConditions) + x.claimUnlockHash)
  }

  lemma SiafundInputLayout(x: SiafundInput)
    ensures SiafundInputCodec().enc(x) == SiafundInputBytes(x)
  {
    FixedBytes(32, x.parentId);
    UnlockConditionsLayout(x.unlockConditions);
    FixedBytes(32, x.claimUnlockHash);
    PairBytes(UnlockConditionsCodec(), Fixed(32), x.unlockConditions, x.claimUnlockHash,
      UnlockConditionsBytes(x.unlockConditions), x.claimUnlockHash);
    var c1, v1 := Pair(UnlockConditionsCodec(), Fixed(32)), (x.unlockConditions, x.claimUnlockHash);
    var b1 := UnlockConditionsBytes(x.unlockConditions) + x.claimUnlockHash;
    PairBytes(Fixed(32), c1, x.parentId, v1, x.parentId, b1);
    ViewBytes(SiafundInputParts(), ToSiafundInput, FromSiafundInput, x, x.parentId + b1);
  }

  lemma SiafundInputsLayout(xs: seq<SiafundInput>)
    ensures ListOf(SiafundInputCodec(), 88).enc(xs) == List(SiafundInputBytes, xs)
  {
    forall i | 0 <= i < |xs| ensures SiafundInputCodec().enc(xs[i]) == SiafundInputBytes(xs[i]) {
      SiafundInputLayout(xs[i]);
    }
    ListBytes(SiafundInputCodec(), 88, SiafundInputBytes, xs);
  }

  function SiafundOutputBytes(x: SiafundOutput): seq<Byte> {
    Amount(x.value) + (x.unlockHash + Amount(x.claimStart))
  }

  lemma SiafundOutputLayout(x: SiafundOutput)
    ensures SiafundOutputCodec().enc(x) == SiafundOutputBytes(x)
  {
    AmountBytes(x.value);
    FixedBytes(32, x.unlockHash);
    AmountBytes(x.claimStart);
    PairBytes(Fixed(32), Currency(), x.unlockHash, x.claimStart, x.unlockHash, Amount(x.claimStart));
    var c1, v1 := Pair(Fixed(32), Currency()), (x.unlockHash, x.claimStart);
    var b1 := x.unlockHash + Amount(x.claimStart);
    PairBytes(Currency(), c1, x.value, v1, Amount(x.value), b1);
    ViewBytes(SiafundOutputParts(), ToSiafundOutput, FromSiafundOutput, x, Amount(x.value) + b1);
  }

  lemma SiafundOutputsLayout(xs: seq<SiafundOutput>)
    ensures ListOf(SiafundOutputCodec(), 48).enc(xs) == List(SiafundOutputBytes, xs)
  {
    forall i | 0 <= i < |xs| ensures SiafundOutputCodec().enc(xs[i]) == SiafundOutputBytes(xs[i]) {
      SiafundOutputLayout(xs[i]);
    }
    ListBytes(SiafundOutputCodec(), 48, SiafundOutputBytes, xs);
  }

  function FileContractBytes(x: FileContract): seq<Byte> {
    Word(x.fileSize) + (x.fileMerkleRoot + (Word(x.windowStart) + (Word(x.windowEnd) + (Amount(x.payout) + (
    List(SiacoinOutputBytes, x.validProofOutputs) + (List(SiacoinOutputBytes, x.missedProofOutputs) + (
    x.unlockHash + Word(x.revisionNumber))))))))
  }

  lemma FileContractLayout(x: FileContract)
    ensures FileContractCodec().enc(x) == FileContractBytes(x)
  {
    WordBytes(x.fileSize);
    FixedBytes(32, x.fileMerkleRoot);
    WordBytes(x.windowStart);
    WordBytes(x.windowEnd);
    AmountBytes(x.payout);
    SiacoinOutputsLayout(x.validProofOutputs);
    SiacoinOutputsLayout(x.missedProofOutputs);
    FixedBytes(32, x.unlockHash);
    WordBytes(x.revisionNumber);
    PairBytes(Fixed(32), Uint64(), x.unlockHash, x.revisionNumber, x.unlockHash, Word(x.revisionNumber));
    var c7, v7 := Pair(Fixed(32), Uint64()), (x.unlockHash, x.revisionNumber);
    var b7 := x.unlockHash + Word(x.revisionNumber);
    PairBytes(ListOf(SiacoinOutputCodec(), 40), c7, x.missedProofOutputs, v7,
      List(SiacoinOutputBytes, x.missedProofOutputs), b7);
    var c6, v6 := Pair(ListOf(SiacoinOutputCodec(), 40), c7), (x.missedProofOutputs, v7);
    var b6 := List(SiacoinOutputBytes, x.missedProofOutputs) + b7;
    PairBytes(ListOf(SiacoinOutputCodec(), 40), c6, x.validProofOutputs, v6,
      List(SiacoinOutputBytes, x.validProofOutputs), b6);
    var c5, v5 := Pair(ListOf(SiacoinOutputCodec(), 40), c6), (x.validProofOutputs, v6);
    var b5 := List(SiacoinOutputBytes, x.validProofOutputs) + b6;
    PairBytes(Currency(), c5, x.payout, v5, Amount(x.payout), b5);
    var c4, v4 := Pair(Currency(), c5), (x.payout, v5);
    var b4 := Amount(x.payout) + b5;
    PairBytes(Uint64(), c4, x.windowEnd, v4, Word(x.windowEnd), b4);
    var c3, v3 := Pair(Uint64(), c4), (x.windowEnd, v4);
    var b3 := Word(x.windowEnd) + b4;
    PairBytes(Uint64(), c3, x.windowStart, v3, Word(x.windowStart), b3);
    var c2, v2 := Pair(Uint64(), c3), (x.windowStart, v3);
    var b2 := Word(x.windowStart) + b3;
    PairBytes(Fixed(32), c2, x.fileMerkleRoot, v2, x.fileMerkleRoot, b2);
    var c1, v1 := Pair(Fixed(32), c2), (x.fileMerkleRoot, v2);
    var b1 := x.fileMerkleRoot + b2;
    PairBytes(Uint64(), c1, x.fileSize, v1, Word(x.fileSize), b1);
    ViewBytes(FileContractParts(), ToFileContract, FromFileContract, x, Word(x.fileSize) + b1);
  }

  lemma FileContractsLayout(xs: seq<FileContract>)
    ensures ListOf(FileContractCodec(), 120).enc(xs) == List(FileContractBytes, xs)
  {
    forall i | 0 <= i < |xs| ensures FileContractCodec().enc(xs[i]) == FileContractBytes(xs[i]) {
      FileContractLayout(xs[i]);
    }
    ListBytes(FileContractCodec(), 120, FileContractBytes, xs);
  }

  function FileContractRevisionBytes(x: FileContractRevision): seq<Byte> {
    x.parentId + (UnlockConditionsBytes(x.unlockConditions) + (Word(x.revisionNumber) + (Word(x.fileSize) + (
    x.fileMerkleRoot + (Word(x.windowStart) + (Word(x.windowEnd) + (
    List(SiacoinOutputBytes, x.validProofOutputs) + (List(SiacoinOutputBytes, x.missedProofOutputs) +
    x.unlockHash))))))))
  }

  lemma FileContractRevisionLayout(x: FileContractRevision)
    ensures FileContractRevisionCodec().enc(x) == FileContractRevisionBytes(x)
  {
    FixedBytes(32, x.parentId);
    UnlockConditionsLayout(x.unlockConditions);
    WordBytes(x.revisionNumber);
    WordBytes(x.fileSize);
    FixedBytes(32, x.fileMerkleRoot);
    WordBytes(x.windowStart);
    WordBytes(x.windowEnd);
    SiacoinOutputsLayout(x.validProofOutputs);
    SiacoinOutputsLayout(x.missedProofOutputs);
    FixedBytes(32, x.unlockHash);
    PairBytes(ListOf(SiacoinOutputCodec(), 40), Fixed(32), x.missedProofOutputs, x.unlockHash,
      List(SiacoinOutputBytes, x.missedProofOutputs), x.unlockHash);
    var c8, v8 := Pair(ListOf(SiacoinOutputCodec(), 40), Fixed(32)), (x.missedProofOutputs, x.unlockHash);
    var b8 := List(SiacoinOutputBytes, x.missedProofOutputs) + x.unlockHash;
    PairBytes(ListOf(SiacoinOutputCodec(), 40), c8, x.validProofOutputs, v8,
      List(SiacoinOutputBytes, x.validProofOutputs), b8);
    var c7, v7 := Pair(ListOf(SiacoinOutputCodec(), 40), c8), (x.validProofOutputs, v8);
    var b7 := List(SiacoinOutputBytes, x.validProofOutputs) + b8;
    PairBytes(Uint64(), c7, x.windowEnd, v7, Word(x.windowEnd), b7);
    var c6, v6 := Pair(Uint64(), c7), (x.windowEnd, v7);
    var b6 := Word(x.windowEnd) + b7;
    PairBytes(Uint64(), c6, x.windowStart, v6, Word(x.windowStart), b6);
    var c5, v5 := Pair(Uint64(), c6), (x.windowStart, v6);
    var b5 := Word(x.windowStart) + b6;
    PairBytes(Fixed(32), c5, x.fileMerkleRoot, v5, x.fileMerkleRoot, b5);
    var c4, v4 := Pair(Fixed(32), c5), (x.fileMerkleRoot, v5);
    var b4 := x.fileMerkleRoot + b5;
    PairBytes(Uint64(), c4, x.fileSize, v4, Word(x.fileSize), b4);
    var c3, v3 := Pair(Uint64(), c4), (x.fileSize, v4);
    var b3 := Word(x.fileSize) + b4;
    PairBytes(Uint64(), c3, x.revisionNumber, v3, Word(x.revisionNumber), b3);
    var c2, v2 := Pair(Uint64(), c3), (x.revisionNumber, v3);
    var b2 := Word(x.revisionNumber) + b3;
    PairBytes(UnlockConditionsCodec(), c2, x.unlockConditions, v2, UnlockConditionsBytes(x.unlockConditions), b2);
    var c1, v1 := Pair(UnlockConditionsCodec(), c2), (x.unlockConditions, v2);
    var b1 := UnlockConditionsBytes(x.unlockConditions) + b2;
    PairBytes(Fixed(32), c1, x.parentId, v1, x.parentId, b1);
    ViewBytes(FileContractRevisionParts(), ToFileContractRevision, FromFileContractRevision, x, x.parentId + b1);
  }

  lemma FileContractRevisionsLayout(xs: seq<FileContractRevision>)
    ensures ListOf(FileContractRevisionCodec(), 168).enc(xs) == List(FileContractRevisionBytes, xs)
  {
    forall i | 0 <= i < |xs| ensures FileContractRevisionCodec().enc(xs[i]) == FileContractRevisionBytes(xs[i]) {
      FileContractRevisionLayout(xs[i]);
    }
    ListBytes(FileContractRevisionCodec(), 168, FileContractRevisionBytes, xs);
  }

  function StorageProofBytes(x: StorageProof): seq<Byte> {
    x.parentId + (x.segment + List(Same, x.hashSet))
  }

  lemma StorageProofLayout(x: StorageProof)
    ensures StorageProofCodec().enc(x) == StorageProofBytes(x)
  {
    FixedBytes(32, x.parentId);
    FixedBytes(64, x.segment);
    HashesLayout(x.hashSet);
    PairBytes(Fixed(64), ListOf(Fixed(32), 32), x.segment, x.hashSet, x.segment, List(Same, x.hashSet));
    var c1, v1 := Pair(Fixed(64), ListOf(Fixed(32), 32)), (x.segment, x.hashSet);
    var b1 := x.segment + List(Same, x.hashSet);
    PairBytes(Fixed(32), c1, x.parentId, v1, x.parentId, b1);
    ViewBytes(StorageProofParts(), ToStorageProof, FromStorageProof, x, x.parentId + b1);
  }

  lemma StorageProofsLayout(xs: seq<StorageProof>)
    ensures ListOf(StorageProofCodec(), 104).enc(xs) == List(StorageProofBytes, xs)
  {
    forall i | 0 <= i < |xs| ensures StorageProofCodec().enc(xs[i]) == StorageProofBytes(xs[i]) {
      StorageProofLayout(xs[i]);
    }
    ListBytes(StorageProofCodec(), 104, StorageProofBytes, xs);
  }

  lemma WordsLayout(xs: seq<nat>)
    ensures ListOf(Uint64(), 8).enc(xs) == List(Word, xs)
  {
    forall i | 0 <= i < |xs| ensures Uint64().enc(xs[i]) == Word(xs[i]) {
      WordBytes(xs[i]);
    }
    ListBytes(Uint64(), 8, Word, xs);
  }

  function Flag(b: bool): seq<Byte> {
    [if b then 1 else 0]
  }

  function Words(us: seq<nat>): seq<Byte> {
    List(Word, us)
  }

  function CoveredFieldsBytes(x: CoveredFields): seq<Byte> {
    Flag(x.wholeTransaction) + Concat(Words, [x.siacoinInputs, x.siacoinOutputs, x.fileContracts, x.fileContractRevisions,
        x.storageProofs, x.siafundInputs, x.siafundOutputs, x.minerFees, x.arbitraryData, x.transactionSignatures])
  }

  lemma CoveredFieldsLayout(x: CoveredFields)
    ensures CoveredFieldsCodec().enc(x) == CoveredFieldsBytes(x)
  {
    var fields := FromCoveredFields(x).1;
    forall i | 0 <= i < |fields| ensures ListOf(Uint64(), 8).enc(fields[i]) == Words(fields[i]) {
      WordsLayout(fields[i]);
    }
    AllBytes(ListOf(Uint64(), 8), Words, fields);
    var bytes := Concat(Words, fields);
    PairBytes(Boolean(), Repeat(10, ListOf(Uint64(), 8)), x.wholeTransaction, fields, Flag(x.wholeTransaction), bytes);
    ViewBytes(CoveredFieldsParts(), ToCoveredFields, FromCoveredFields, x, Flag(x.wholeTransaction) + bytes);
  }

  function TransactionSignatureBytes(x: TransactionSignature): seq<Byte> {
    x.parentId + (Word(x.publicKeyIndex) + (Word(x.timelock) + (CoveredFieldsBytes(x.coveredFields) +
    Prefixed(x.signature))))
  }

  lemma TransactionSignatureLayout(x: TransactionSignature)
    ensures TransactionSignatureCodec().enc(x) == TransactionSignatureBytes(x)
  {
    FixedBytes(32, x.parentId);
    WordBytes(x.publicKeyIndex);
    WordBytes(x.timelock);
    CoveredFieldsLayout(x.coveredFields);
    PrefixedBytes(x.signature);
    PairBytes(CoveredFieldsCodec(), Bytes(), x.coveredFields, x.signature,
      CoveredFieldsBytes(x.coveredFields), Prefixed(x.signature));
    var c3, v3 := Pair(CoveredFieldsCodec(), Bytes()), (x.coveredFields, x.signature);
    var b3 := CoveredFieldsBytes(x.coveredFields) + Prefixed(x.signature);
    PairBytes(Uint64(), c3, x.timelock, v3, Word(x.timelock), b3);
    var c2, v2 := Pair(Uint64(), c3), (x.timelock, v3);
    var b2 := Word(x.timelock) + b3;
    PairBytes(Uint64(), c2, x.publicKeyIndex, v2, Word(x.publicKeyIndex), b2);
    var c1, v1 := Pair(Uint64(), c2), (x.publicKeyIndex, v2);
    var b1 := Word(x.publicKeyIndex) + b2;
    PairBytes(Fixed(32), c1, x.parentId, v1, x.parentId, b1);
    ViewBytes(TransactionSignatureParts(), ToTransactionSignature, FromTransactionSignature, x, x.parentId + b1);
  }

  lemma TransactionSignaturesLayout(xs: seq<TransactionSignature>)
    ensures ListOf(TransactionSignatureCodec(), 137).enc(xs) == List(TransactionSignatureBytes, xs)
  {
    forall i | 0 <= i < |xs| ensures TransactionSignatureCodec().enc(xs[i]) == TransactionSignatureBytes(xs[i]) {
      TransactionSignatureLayout(xs[i]);
    }
    ListBytes(TransactionSignatureCodec(), 137, TransactionSignatureBytes, xs);
  }

  function TransactionBytes(x: Transaction): seq<Byte> {
    List(SiacoinInputBytes, x.siacoinInputs) + (List(SiacoinOutputBytes, x.siacoinOutputs) + (
    List(FileContractBytes, x.fileContracts) + (List(FileContractRevisionBytes, x.fileContractRevisions) + (
    List(StorageProofBytes, x.storageProofs) + TransactionRestBytes(x)))))
  }

  function TransactionRestBytes(x: Transaction): seq<Byte> {
    List(SiafundInputBytes, x.siafundInputs) + (List(SiafundOutputBytes, x.siafundOutputs) + (
    List(Amount, x.minerFees) + (List(Prefixed, x.arbitraryData) + List(TransactionSignatureBytes, x.signatures))))
  }

  /** Parts one after the other. */
  lemma FiveParts<A, B, C, D, E>(a: Codec<A>, b: Codec<B>, c: Codec<C>, d: Codec<D>, e: Codec<E>, x0: A, x1: B, x2: C, x3: D, x4: E,
    b0: seq<Byte>, b1: seq<Byte>, b2: seq<Byte>, b3: seq<Byte>, b4: seq<Byte>)
    requires a.enc(x0) == b0 && b.enc(x1) == b1 && c.enc(x2) == b2 && d.enc(x3) == b3 && e.enc(x4) == b4
    ensures Pair(a, Pair(b, Pair(c, Pair(d, e)))).enc((x0, (x1, (x2, (x3, x4))))) == b0 + (b1 + (b2 + (b3 + b4)))
  {
    PairBytes(d, e, x3, x4, b3, b4);
    PairBytes(c, Pair(d, e), x2, (x3, x4), b2, b3 + b4);
    PairBytes(b, Pair(c, Pair(d, e)), x1, (x2, (x3, x4)), b1, b2 + (b3 + b4));
  }

  lemma TransactionRestLayout(x: Transaction)
    ensures TransactionRest().enc(FromTransaction(x).1.1.1.1.1) == TransactionRestBytes(x)
  {
    SiafundInputsLayout(x.siafundInputs);
    SiafundOutputsLayout(x.siafundOutputs);
    AmountsLayout(x.minerFees);
    DataLayout(x.arbitraryData);
    TransactionSignaturesLayout(x.signatures);
    FiveParts(ListOf(SiafundInputCodec(), 88), ListOf(SiafundOutputCodec(), 48), ListOf(Currency(), 8), ListOf(Bytes(), 1),
      ListOf(TransactionSignatureCodec(), 137), x.siafundInputs, x.siafundOutputs, x.minerFees, x.arbitraryData, x.signatures,
      List(SiafundInputBytes, x.siafundInputs), List(SiafundOutputBytes, x.siafundOutputs), List(Amount, x.minerFees),
      List(Prefixed, x.arbitraryData), List(TransactionSignatureBytes, x.signatures));
  }

  /** Where the lists of a transaction are in its codec. */
  lemma TransactionSplits(x: Transaction)
    ensures var rest := FromTransaction(x).1.1.1.1.1;
      TransactionCodec().enc(x) == TransactionParts().enc((x.siacoinInputs, (x.siacoinOutputs, (x.fileContracts,
        (x.fileContractRevisions, (x.storageProofs, rest))))))
  {
  }

  /** The bytes of a transaction: its ten lists. */
  lemma TransactionLayout(x: Transaction)
    ensures TransactionCodec().enc(x) == TransactionBytes(x)
  {
    TransactionSplits(x);
    TransactionRestLayout(x);
    var rest := FromTransaction(x).1.1.1.1.1;
    FirstLists(x, rest, TransactionRestBytes(x));
  }

  lemma FirstLists(x: Transaction, rest: TransactionRestFields, restBytes: seq<Byte>)
    requires TransactionRest().enc(rest) == restBytes
    ensures TransactionParts().enc((x.siacoinInputs, (x.siacoinOutputs, (x.fileContracts, (x.fileContractRevisions,
        (x.storageProofs, rest)))))) ==
      List(SiacoinInputBytes, x.siacoinInputs) + (List(SiacoinOutputBytes, x.siacoinOutputs) + (
      List(FileContractBytes, x.fileContracts) + (List(FileContractRevisionBytes, x.fileContractRevisions) + (
      List(StorageProofBytes, x.storageProofs) + restBytes))))
  {
    SiacoinInputsLayout(x.siacoinInputs);
    SiacoinOutputsLayout(x.siacoinOutputs);
    FileContractsLayout(x.fileContracts);
    FileContractRevisionsLayout(x.fileContractRevisions);
    StorageProofsLayout(x.storageProofs);
    var last, bytes := Pair(ListOf(StorageProofCodec(), 104), TransactionRest()), List(StorageProofBytes, x.storageProofs);
    PairBytes(ListOf(StorageProofCodec(), 104), TransactionRest(), x.storageProofs, rest, bytes, restBytes);
    FiveParts(ListOf(SiacoinInputCodec(), 56), ListOf(SiacoinOutputCodec(), 40), ListOf(FileContractCodec(), 120),
      ListOf(FileContractRevisionCodec(), 168), last, x.siacoinInputs, x.siacoinOutputs, x.fileContracts, x.fileContractRevisions,
      (x.storageProofs, rest), List(SiacoinInputBytes, x.siacoinInputs), List(SiacoinOutputBytes, x.siacoinOutputs),
      List(FileContractBytes, x.fileContracts), List(FileContractRevisionBytes, x.fileContractRevisions), bytes + restBytes);
  }
}
