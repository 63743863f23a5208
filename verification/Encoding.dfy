/** The objects of the wire format (renterhost/encoding.go).  Every codec here lists the fields in
    the order they are written, and every list has the guard its reader uses. */
module Encoding {
  import opened Codecs

  // ---------- a fixed number of elements ----------

  function Repeat<T>(n: nat, c: Codec<T>): Codec<seq<T>> {
    Codec((xs: seq<T>) => |xs| == n && ValidAll(c, xs), (xs: seq<T>) => EncodeAll(c, xs), (xs: seq<T>) => SizeAll(c,
        xs),
          (s: seq<Byte>) => DecodeAll(c, n, s), Product(c.min, n))
  }

  lemma RepeatLawful<T(!new)>(n: nat, c: Codec<T>)
    requires Lawful(c)
    ensures Lawful(Repeat(n, c))
  {
    forall xs: seq<T>, pad ensures Law(Repeat(n, c), xs, pad) {
      if |xs| == n && ValidAll(c, xs) {
        AllLawful(c, c.min, xs, pad);
      }
    }
  }

  // ---------- SiaPublicKey ----------

  /** A public key: its algorithm and its bytes. */
  datatype SiaPublicKey = SiaPublicKey(algorithm: seq<Byte>, key: seq<Byte>)

  type SiaPublicKeyFields = (seq<Byte>, seq<Byte>)

  function ToSiaPublicKey(t: SiaPublicKeyFields): SiaPublicKey {
    SiaPublicKey(t.0, t.1)
  }

  function FromSiaPublicKey(x: SiaPublicKey): SiaPublicKeyFields {
    (x.algorithm, x.key)
  }

  function SiaPublicKeyParts(): Codec<SiaPublicKeyFields> {
    Pair(Fixed(16),
    Bytes())
  }

  function SiaPublicKeyCodec(): Codec<SiaPublicKey> {
    View(SiaPublicKeyParts(), ToSiaPublicKey, FromSiaPublicKey)
  }

  lemma SiaPublicKeyLawful()
    ensures Lawful(SiaPublicKeyCodec()) && SiaPublicKeyCodec().min == 24
  {
    FixedLawful(16);
    BytesLawful();
    PairLawful(Fixed(16), Bytes());
    ViewLawful(SiaPublicKeyParts(), ToSiaPublicKey, FromSiaPublicKey);
  }

  // ---------- UnlockConditions ----------

  datatype UnlockConditions = UnlockConditions(timelock: nat, publicKeys: seq<SiaPublicKey>, signaturesRequired: nat)

  type UnlockConditionsFields = (nat, (seq<SiaPublicKey>, nat))

  function ToUnlockConditions(t: UnlockConditionsFields): UnlockConditions {
    UnlockConditions(t.0, t.1.0, t.1.1)
  }

  function FromUnlockConditions(x: UnlockConditions): UnlockConditionsFields {
    (x.timelock, (x.publicKeys, x.signaturesRequired))
  }

  function UnlockConditionsParts(): Codec<UnlockConditionsFields> {
    Pair(Uint64(),
    Pair(ListOf(SiaPublicKeyCodec(), 24),
    Uint64()))
  }

  function UnlockConditionsCodec(): Codec<UnlockConditions> {
    View(UnlockConditionsParts(), ToUnlockConditions, FromUnlockConditions)
  }

  lemma UnlockConditionsLawful()
    ensures Lawful(UnlockConditionsCodec()) && UnlockConditionsCodec().min == 24
  {
    Uint64Lawful();
    SiaPublicKeyLawful();
    ListLawful(SiaPublicKeyCodec(), 24);
    var c1 := Pair(ListOf(SiaPublicKeyCodec(), 24), Uint64());
    PairLawful(ListOf(SiaPublicKeyCodec(), 24), Uint64());
    PairLawful(Uint64(), c1);
    ViewLawful(UnlockConditionsParts(), ToUnlockConditions, FromUnlockConditions);
  }

  // ---------- SiacoinInput ----------

  datatype SiacoinInput = SiacoinInput(parentId: seq<Byte>, unlockConditions: UnlockConditions)

  type SiacoinInputFields = (seq<Byte>, UnlockConditions)

  function ToSiacoinInput(t: SiacoinInputFields): SiacoinInput {
    SiacoinInput(t.0, t.1)
  }

  function FromSiacoinInput(x: SiacoinInput): SiacoinInputFields {
    (x.parentId, x.unlockConditions)
  }

  function SiacoinInputParts(): Codec<SiacoinInputFields> {
    Pair(Fixed(32),
    UnlockConditionsCodec())
  }

  function SiacoinInputCodec(): Codec<SiacoinInput> {
    View(SiacoinInputParts(), ToSiacoinInput, FromSiacoinInput)
  }

  lemma SiacoinInputLawful()
    ensures Lawful(SiacoinInputCodec()) && SiacoinInputCodec().min == 56
  {
    FixedLawful(32);
    UnlockConditionsLawful();
    PairLawful(Fixed(32), UnlockConditionsCodec());
    ViewLawful(SiacoinInputParts(), ToSiacoinInput, FromSiacoinInput);
  }

  // ---------- SiacoinOutput ----------

  datatype SiacoinOutput = SiacoinOutput(value: nat, unlockHash: seq<Byte>)

  type SiacoinOutputFields = (nat, seq<Byte>)

  function ToSiacoinOutput(t: SiacoinOutputFields): SiacoinOutput {
    SiacoinOutput(t.0, t.1)
  }

  function FromSiacoinOutput(x: SiacoinOutput): SiacoinOutputFields {
    (x.value, x.unlockHash)
  }

  function SiacoinOutputParts(): Codec<SiacoinOutputFields> {
    Pair(Currency(),
    Fixed(32))
  }

  function SiacoinOutputCodec(): Codec<SiacoinOutput> {
    View(SiacoinOutputParts(), ToSiacoinOutput, FromSiacoinOutput)
  }

  lemma SiacoinOutputLawful()
    ensures Lawful(SiacoinOutputCodec()) && SiacoinOutputCodec().min == 40
  {
    CurrencyLawful();
    FixedLawful(32);
    PairLawful(Currency(), Fixed(32));
    ViewLawful(SiacoinOutputParts(), ToSiacoinOutput, FromSiacoinOutput);
  }

  // ---------- SiafundInput ----------

  datatype SiafundInput = SiafundInput(parentId: seq<Byte>, unlockConditions: UnlockConditions,
      claimUnlockHash: seq<Byte>)

  type SiafundInputFields = (seq<Byte>, (UnlockConditions, seq<Byte>))

  function ToSiafundInput(t: SiafundInputFields): SiafundInput {
    SiafundInput(t.0, t.1.0, t.1.1)
  }

  function FromSiafundInput(x: SiafundInput): SiafundInputFields {
    (x.parentId, (x.unlockConditions, x.claimUnlockHash))
  }

  function SiafundInputParts(): Codec<SiafundInputFields> {
    Pair(Fixed(32),
    Pair(UnlockConditionsCodec(),
    Fixed(32)))
  }

  function SiafundInputCodec(): Codec<SiafundInput> {
    View(SiafundInputParts(), ToSiafundInput, FromSiafundInput)
  }

  lemma SiafundInputLawful()
    ensures Lawful(SiafundInputCodec()) && SiafundInputCodec().min == 88
  {
    FixedLawful(32);
    UnlockConditionsLawful();
    var c1 := Pair(UnlockConditionsCodec(), Fixed(32));
    PairLawful(UnlockConditionsCodec(), Fixed(32));
    PairLawful(Fixed(32), c1);
    ViewLawful(SiafundInputParts(), ToSiafundInput, FromSiafundInput);
  }

  // ---------- SiafundOutput ----------

  datatype SiafundOutput = SiafundOutput(value: nat, unlockHash: seq<Byte>, claimStart: nat)

  type SiafundOutputFields = (nat, (seq<Byte>, nat))

  function ToSiafundOutput(t: SiafundOutputFields): SiafundOutput {
    SiafundOutput(t.0, t.1.0, t.1.1)
  }

  function FromSiafundOutput(x: SiafundOutput): SiafundOutputFields {
    (x.value, (x.unlockHash, x.claimStart))
  }

  function SiafundOutputParts(): Codec<SiafundOutputFields> {
    Pair(Currency(),
    Pair(Fixed(32),
    Currency()))
  }

  function SiafundOutputCodec(): Codec<SiafundOutput> {
    View(SiafundOutputParts(), ToSiafundOutput, FromSiafundOutput)
  }

  lemma SiafundOutputLawful()
    ensures Lawful(SiafundOutputCodec()) && SiafundOutputCodec().min == 48
  {
    CurrencyLawful();
    FixedLawful(32);
    var c1 := Pair(Fixed(32), Currency());
    PairLawful(Fixed(32), Currency());
    PairLawful(Currency(), c1);
    ViewLawful(SiafundOutputParts(), ToSiafundOutput, FromSiafundOutput);
  }

  // ---------- FileContract ----------

  datatype FileContract = FileContract(fileSize: nat, fileMerkleRoot: seq<Byte>, windowStart: nat, windowEnd: nat,
      payout: nat, validProofOutputs: seq<SiacoinOutput>, missedProofOutputs: seq<SiacoinOutput>,
      unlockHash: seq<Byte>, revisionNumber: nat)

  type FileContractFields = (nat, (seq<Byte>, (nat, (nat, (nat, (seq<SiacoinOutput>, (seq<SiacoinOutput>, (seq<Byte>,
      nat))))))))

  function ToFileContract(t: FileContractFields): FileContract {
    FileContract(t.0, t.1.0, t.1.1.0, t.1.1.1.0, t.1.1.1.1.0, t.1.1.1.1.1.0, t.1.1.1.1.1.1.0, t.1.1.1.1.1.1.1.0,
        t.1.1.1.1.1.1.1.1)
  }

  function FromFileContract(x: FileContract): FileContractFields {
    (x.fileSize, (x.fileMerkleRoot, (x.windowStart, (x.windowEnd, (x.payout, (x.validProofOutputs,
        (x.missedProofOutputs, (x.unlockHash, x.revisionNumber))))))))
  }

  function FileContractParts(): Codec<FileContractFields> {
    Pair(Uint64(),
    Pair(Fixed(32),
    Pair(Uint64(),
    Pair(Uint64(),
    Pair(Currency(),
    Pair(ListOf(SiacoinOutputCodec(), 40),
    Pair(ListOf(SiacoinOutputCodec(), 40),
    Pair(Fixed(32),
    Uint64()))))))))
  }

  function FileContractCodec(): Codec<FileContract> {
    View(FileContractParts(), ToFileContract, FromFileContract)
  }

  lemma FileContractLawful()
    ensures Lawful(FileContractCodec()) && FileContractCodec().min == 120
  {
    Uint64Lawful();
    FixedLawful(32);
    CurrencyLawful();
    SiacoinOutputLawful();
    ListLawful(SiacoinOutputCodec(), 40);
    var c7 := Pair(Fixed(32), Uint64());
    PairLawful(Fixed(32), Uint64());
    var c6 := Pair(ListOf(SiacoinOutputCodec(), 40), c7);
    PairLawful(ListOf(SiacoinOutputCodec(), 40), c7);
    var c5 := Pair(ListOf(SiacoinOutputCodec(), 40), c6);
    PairLawful(ListOf(SiacoinOutputCodec(), 40), c6);
    var c4 := Pair(Currency(), c5);
    PairLawful(Currency(), c5);
    var c3 := Pair(Uint64(), c4);
    PairLawful(Uint64(), c4);
    var c2 := Pair(Uint64(), c3);
    PairLawful(Uint64(), c3);
    var c1 := Pair(Fixed(32), c2);
    PairLawful(Fixed(32), c2);
    PairLawful(Uint64(), c1);
    ViewLawful(FileContractParts(), ToFileContract, FromFileContract);
  }

  // ---------- FileContractRevision ----------

  datatype FileContractRevision = FileContractRevision(parentId: seq<Byte>, unlockConditions: UnlockConditions,
      revisionNumber: nat, fileSize: nat, fileMerkleRoot: seq<Byte>, windowStart: nat, windowEnd: nat,
      validProofOutputs: seq<SiacoinOutput>, missedProofOutputs: seq<SiacoinOutput>, unlockHash: seq<Byte>)

  type FileContractRevisionFields = (seq<Byte>, (UnlockConditions, (nat, (nat, (seq<Byte>, (nat, (nat,
      (seq<SiacoinOutput>, (seq<SiacoinOutput>, seq<Byte>)))))))))

  function ToFileContractRevision(t: FileContractRevisionFields): FileContractRevision {
    FileContractRevision(t.0, t.1.0, t.1.1.0, t.1.1.1.0, t.1.1.1.1.0, t.1.1.1.1.1.0, t.1.1.1.1.1.1.0,
        t.1.1.1.1.1.1.1.0, t.1.1.1.1.1.1.1.1.0, t.1.1.1.1.1.1.1.1.1)
  }

  function FromFileContractRevision(x: FileContractRevision): FileContractRevisionFields {
    (x.parentId, (x.unlockConditions, (x.revisionNumber, (x.fileSize, (x.fileMerkleRoot, (x.windowStart, (x.windowEnd,
        (x.validProofOutputs, (x.missedProofOutputs, x.unlockHash)))))))))
  }

  function FileContractRevisionParts(): Codec<FileContractRevisionFields> {
    Pair(Fixed(32),
    Pair(UnlockConditionsCodec(),
    Pair(Uint64(),
    Pair(Uint64(),
    Pair(Fixed(32),
    Pair(Uint64(),
    Pair(Uint64(),
    Pair(ListOf(SiacoinOutputCodec(), 40),
    Pair(ListOf(SiacoinOutputCodec(), 40),
    Fixed(32))))))))))
  }

  function FileContractRevisionCodec(): Codec<FileContractRevision> {
    View(FileContractRevisionParts(), ToFileContractRevision, FromFileContractRevision)
  }

  lemma FileContractRevisionLawful()
    ensures Lawful(FileContractRevisionCodec()) && FileContractRevisionCodec().min == 168
  {
    FixedLawful(32);
    UnlockConditionsLawful();
    Uint64Lawful();
    SiacoinOutputLawful();
    ListLawful(SiacoinOutputCodec(), 40);
    var c8 := Pair(ListOf(SiacoinOutputCodec(), 40), Fixed(32));
    PairLawful(ListOf(SiacoinOutputCodec(), 40), Fixed(32));
    var c7 := Pair(ListOf(SiacoinOutputCodec(), 40), c8);
    PairLawful(ListOf(SiacoinOutputCodec(), 40), c8);
    var c6 := Pair(Uint64(), c7);
    PairLawful(Uint64(), c7);
    var c5 := Pair(Uint64(), c6);
    PairLawful(Uint64(), c6);
    var c4 := Pair(Fixed(32), c5);
    PairLawful(Fixed(32), c5);
    var c3 := Pair(Uint64(), c4);
    PairLawful(Uint64(), c4);
    var c2 := Pair(Uint64(), c3);
    PairLawful(Uint64(), c3);
    var c1 := Pair(UnlockConditionsCodec(), c2);
    PairLawful(UnlockConditionsCodec(), c2);
    PairLawful(Fixed(32), c1);
    ViewLawful(FileContractRevisionParts(), ToFileContractRevision, FromFileContractRevision);
  }

  // ---------- StorageProof ----------

  datatype StorageProof = StorageProof(parentId: seq<Byte>, segment: seq<Byte>, hashSet: seq<seq<Byte>>)

  type StorageProofFields = (seq<Byte>, (seq<Byte>, seq<seq<Byte>>))

  function ToStorageProof(t: StorageProofFields): StorageProof {
    StorageProof(t.0, t.1.0, t.1.1)
  }

  function FromStorageProof(x: StorageProof): StorageProofFields {
    (x.parentId, (x.segment, x.hashSet))
  }

  function StorageProofParts(): Codec<StorageProofFields> {
    Pair(Fixed(32),
    Pair(Fixed(64),
    ListOf(Fixed(32), 32)))
  }

  function StorageProofCodec(): Codec<StorageProof> {
    View(StorageProofParts(), ToStorageProof, FromStorageProof)
  }

  lemma StorageProofLawful()
    ensures Lawful(StorageProofCodec()) && StorageProofCodec().min == 104
  {
    FixedLawful(32);
    FixedLawful(64);
    ListLawful(Fixed(32), 32);
    var c1 := Pair(Fixed(64), ListOf(Fixed(32), 32));
    PairLawful(Fixed(64), ListOf(Fixed(32), 32));
    PairLawful(Fixed(32), c1);
    ViewLawful(StorageProofParts(), ToStorageProof, FromStorageProof);
  }

  // ---------- CoveredFields ----------

  /** The indices of the covered fields, kind by kind. */
  datatype CoveredFields = CoveredFields(wholeTransaction: bool, siacoinInputs: seq<nat>, siacoinOutputs: seq<nat>,
      fileContracts: seq<nat>, fileContractRevisions: seq<nat>, storageProofs: seq<nat>, siafundInputs: seq<nat>,
      siafundOutputs: seq<nat>, minerFees: seq<nat>, arbitraryData: seq<nat>, transactionSignatures: seq<nat>)

  type CoveredFieldsFields = (bool, seq<seq<nat>>)

  /** foreach takes the ten lists in this order. */
  function ToCoveredFields(t: CoveredFieldsFields): CoveredFields {
    if |t.1| != 10 then CoveredFields(t.0, [], [], [], [], [], [], [], [], [], [])
    else CoveredFields(t.0, t.1[0], t.1[1], t.1[2], t.1[3], t.1[4], t.1[5], t.1[6], t.1[7], t.1[8], t.1[9])
  }

  function FromCoveredFields(x: CoveredFields): CoveredFieldsFields {
    (x.wholeTransaction, [x.siacoinInputs, x.siacoinOutputs, x.fileContracts, x.fileContractRevisions, x.storageProofs,
        x.siafundInputs, x.siafundOutputs, x.minerFees, x.arbitraryData, x.transactionSignatures])
  }

  function CoveredFieldsParts(): Codec<CoveredFieldsFields> {
    Pair(Boolean(),
    Repeat(10, ListOf(Uint64(), 8)))
  }

  function CoveredFieldsCodec(): Codec<CoveredFields> {
    View(CoveredFieldsParts(), ToCoveredFields, FromCoveredFields)
  }

  lemma CoveredFieldsLawful()
    ensures Lawful(CoveredFieldsCodec()) && CoveredFieldsCodec().min == 81
  {
    BooleanLawful();
    Uint64Lawful();
    ListLawful(Uint64(), 8);
    RepeatLawful(10, ListOf(Uint64(), 8));
    assert Product(8, 10) == 80 by {
      ProductIs(8, 10);
    }
    PairLawful(Boolean(), Repeat(10, ListOf(Uint64(), 8)));
    ViewLawful(CoveredFieldsParts(), ToCoveredFields, FromCoveredFields);
  }

  // ---------- TransactionSignature ----------

  datatype TransactionSignature = TransactionSignature(parentId: seq<Byte>, publicKeyIndex: nat, timelock: nat,
      coveredFields: CoveredFields, signature: seq<Byte>)

  type TransactionSignatureFields = (seq<Byte>, (nat, (nat, (CoveredFields, seq<Byte>))))

  function ToTransactionSignature(t: TransactionSignatureFields): TransactionSignature {
    TransactionSignature(t.0, t.1.0, t.1.1.0, t.1.1.1.0, t.1.1.1.1)
  }

  function FromTransactionSignature(x: TransactionSignature): TransactionSignatureFields {
    (x.parentId, (x.publicKeyIndex, (x.timelock, (x.coveredFields, x.signature))))
  }

  function TransactionSignatureParts(): Codec<TransactionSignatureFields> {
    Pair(Fixed(32),
    Pair(Uint64(),
    Pair(Uint64(),
    Pair(CoveredFieldsCodec(),
    Bytes()))))
  }

  function TransactionSignatureCodec(): Codec<TransactionSignature> {
    View(TransactionSignatureParts(), ToTransactionSignature, FromTransactionSignature)
  }

  lemma TransactionSignatureLawful()
    ensures Lawful(TransactionSignatureCodec()) && TransactionSignatureCodec().min == 137
  {
    FixedLawful(32);
    Uint64Lawful();
    CoveredFieldsLawful();
    BytesLawful();
    var c3 := Pair(CoveredFieldsCodec(), Bytes());
    PairLawful(CoveredFieldsCodec(), Bytes());
    var c2 := Pair(Uint64(), c3);
    PairLawful(Uint64(), c3);
    var c1 := Pair(Uint64(), c2);
    PairLawful(Uint64(), c2);
    PairLawful(Fixed(32), c1);
    ViewLawful(TransactionSignatureParts(), ToTransactionSignature, FromTransactionSignature);
  }

  // ---------- Transaction ----------

  datatype Transaction = Transaction(siacoinInputs: seq<SiacoinInput>, siacoinOutputs: seq<SiacoinOutput>,
      fileContracts: seq<FileContract>, fileContractRevisions: seq<FileContractRevision>,
      storageProofs: seq<StorageProof>, siafundInputs: seq<SiafundInput>, siafundOutputs: seq<SiafundOutput>,
      minerFees: seq<nat>, arbitraryData: seq<seq<Byte>>, signatures: seq<TransactionSignature>)

  type TransactionRestFields = (seq<SiafundInput>, (seq<SiafundOutput>, (seq<nat>, (seq<seq<Byte>>, seq<TransactionSignature>))))

  type TransactionFields = (seq<SiacoinInput>, (seq<SiacoinOutput>, (seq<FileContract>, (seq<FileContractRevision>,
      (seq<StorageProof>, TransactionRestFields)))))

  function ToTransaction(t: TransactionFields): Transaction {
    Transaction(t.0, t.1.0, t.1.1.0, t.1.1.1.0, t.1.1.1.1.0, t.1.1.1.1.1.0, t.1.1.1.1.1.1.0, t.1.1.1.1.1.1.1.0,
        t.1.1.1.1.1.1.1.1.0, t.1.1.1.1.1.1.1.1.1)
  }

  function FromTransaction(x: Transaction): TransactionFields {
    (x.siacoinInputs, (x.siacoinOutputs, (x.fileContracts, (x.fileContractRevisions, (x.storageProofs,
        (x.siafundInputs, (x.siafundOutputs, (x.minerFees, (x.arbitraryData, x.signatures)))))))))
  }

  /** The first five lists of a transaction, and the others. */
  function TransactionParts(): Codec<TransactionFields> {
    Pair(ListOf(SiacoinInputCodec(), 56),
    Pair(ListOf(SiacoinOutputCodec(), 40),
    Pair(ListOf(FileContractCodec(), 120),
    Pair(ListOf(FileContractRevisionCodec(), 168),
    Pair(ListOf(StorageProofCodec(), 104),
    TransactionRest())))))
  }

  function TransactionRest(): Codec<TransactionRestFields> {
    Pair(ListOf(SiafundInputCodec(), 88),
    Pair(ListOf(SiafundOutputCodec(), 48),
    Pair(ListOf(Currency(), 8),
    Pair(ListOf(Bytes(), 1),
    ListOf(TransactionSignatureCodec(), 137)))))
  }

  function TransactionCodec(): Codec<Transaction> {
    View(TransactionParts(), ToTransaction, FromTransaction)
  }

  lemma TransactionRestLawful()
    ensures Lawful(TransactionRest()) && TransactionRest().min == 40
  {
    SiafundInputLawful();
    ListLawful(SiafundInputCodec(), 88);
    SiafundOutputLawful();
    ListLawful(SiafundOutputCodec(), 48);
    CurrencyLawful();
    ListLawful(Currency(), 8);
    BytesLawful();
    ListLawful(Bytes(), 1);
    TransactionSignatureLawful();
    ListLawful(TransactionSignatureCodec(), 137);
    var c3 := Pair(ListOf(Bytes(), 1), ListOf(TransactionSignatureCodec(), 137));
    PairLawful(ListOf(Bytes(), 1), ListOf(TransactionSignatureCodec(), 137));
    var c2 := Pair(ListOf(Currency(), 8), c3);
    PairLawful(ListOf(Currency(), 8), c3);
    var c1 := Pair(ListOf(SiafundOutputCodec(), 48), c2);
    PairLawful(ListOf(SiafundOutputCodec(), 48), c2);
    PairLawful(ListOf(SiafundInputCodec(), 88), c1);
  }

  lemma TransactionLawful()
    ensures Lawful(TransactionCodec()) && TransactionCodec().min == 80
  {
    SiacoinInputLawful();
    ListLawful(SiacoinInputCodec(), 56);
    SiacoinOutputLawful();
    ListLawful(SiacoinOutputCodec(), 40);
    FileContractLawful();
    ListLawful(FileContractCodec(), 120);
    FileContractRevisionLawful();
    ListLawful(FileContractRevisionCodec(), 168);
    StorageProofLawful();
    ListLawful(StorageProofCodec(), 104);
    TransactionRestLawful();
    var c4 := Pair(ListOf(StorageProofCodec(), 104), TransactionRest());
    PairLawful(ListOf(StorageProofCodec(), 104), TransactionRest());
    var c3 := Pair(ListOf(FileContractRevisionCodec(), 168), c4);
    PairLawful(ListOf(FileContractRevisionCodec(), 168), c4);
    var c2 := Pair(ListOf(FileContractCodec(), 120), c3);
    PairLawful(ListOf(FileContractCodec(), 120), c3);
    var c1 := Pair(ListOf(SiacoinOutputCodec(), 40), c2);
    PairLawful(ListOf(SiacoinOutputCodec(), 40), c2);
    PairLawful(ListOf(SiacoinInputCodec(), 56), c1);
    ViewLawful(TransactionParts(), ToTransaction, FromTransaction);
  }

  // ---------- the main results ----------

  /** A transaction takes exactly its marshalled size, and reading it back from a message, whatever
      follows it, gives the transaction and what follows. */
  lemma TransactionRoundTrip(t: Transaction, pad: seq<Byte>)
    requires TransactionCodec().valid(t)
    ensures |TransactionCodec().enc(t)| == TransactionCodec().size(t)
    ensures TransactionCodec().dec(TransactionCodec().enc(t) + pad) == Got(t, pad)
  {
    TransactionLawful();
    RoundTrip(TransactionCodec(), t, pad);
  }

  lemma FileContractRevisionRoundTrip(rev: FileContractRevision, pad: seq<Byte>)
    requires FileContractRevisionCodec().valid(rev)
    ensures |FileContractRevisionCodec().enc(rev)| == FileContractRevisionCodec().size(rev)
    ensures FileContractRevisionCodec().dec(FileContractRevisionCodec().enc(rev) + pad) == Got(rev, pad)
  {
    FileContractRevisionLawful();
    RoundTrip(FileContractRevisionCodec(), rev, pad);
  }

  /** The bytes that HashRevision hashes tell any two revisions apart. */
  lemma HashedBytesInjective(a: FileContractRevision, b: FileContractRevision)
    requires FileContractRevisionCodec().valid(a) && FileContractRevisionCodec().valid(b)
    requires FileContractRevisionCodec().enc(a) == FileContractRevisionCodec().enc(b)
    ensures a == b
  {
    FileContractRevisionLawful();
    Injective(FileContractRevisionCodec(), a, b, [], []);
  }
}
