/** Encoding and reconstruction of shards (internal/reedsolomon/reedsolomon.go).  A shard is a
    slice: a buffer of fixed capacity of which the first len bytes are present. */
module Erasure {
  import opened Fields
  import opened Linear
  import opened Matrices
  import opened Vandermonde

  datatype Shard<T> = Shard(buf: seq<T>, len: nat) {
    ghost predicate Valid() { len <= |buf| }

    function Content(): (c: seq<T>)
      requires Valid()
      ensures |c| == len
    {
      buf[..len]
    }
  }

  datatype Error = NoError | ErrTooFewShards | ErrShardNoData | ErrShardSize | ErrSingular
    | ErrInvShardNum | ErrMaxShardNum | ErrReconstructRequired | ErrShortData | ErrCapacity | Panicked

  /** The coder: the first data rows of the matrix are the identity. */
  datatype Coder<T> = Coder(data: nat, shards: nat, matrix: Mat<T>)

  ghost predicate ValidCoder<T(!new)>(F: Field<T>, c: Coder<T>) {
    IsField(F) && c.data < c.shards && IsEncodingMatrix(F, c.matrix, c.data, c.shards)
  }

  ghost predicate AllValid<T>(sh: seq<Shard<T>>) {
    forall i :: 0 <= i < |sh| ==> sh[i].Valid()
  }

  function Contents<T>(sh: seq<Shard<T>>): (C: Mat<T>)
    requires AllValid(sh)
    ensures |C| == |sh|
  {
    seq(|sh|, i requires 0 <= i < |sh| => sh[i].Content())
  }

  // ---------- coding ----------

  /** Row i of a matrix applied to every byte column of the inputs. */
  function CodedRow<T>(F: Field<T>, row: Vec<T>, inputs: Mat<T>, size: nat): (v: Vec<T>)
    requires |row| == |inputs| && Shape(inputs, |inputs|, size)
    ensures |v| == size
  {
    seq(size, k requires 0 <= k < size => Dot(F, row, Column(inputs, size, k)))
  }

  /** Shards that agree with the encoding of their first m. */
  ghost predicate IsCodeword<T>(F: Field<T>, E: Mat<T>, m: nat, C: Mat<T>, size: nat) {
    && m <= |C| && Shape(E, |C|, m) && Shape(C, |C|, size)
    && forall i :: 0 <= i < |C| ==> C[i] == CodedRow(F, E[i], C[..m], size)
  }

  /** Every column of a codeword of a matrix that interpolates lies on one polynomial. */
  lemma CodewordInterpolates<T(!new)>(F: Field<T>, E: Mat<T>, m: nat, points: seq<T>, C: Mat<T>, size: nat, k: nat, p: Vec<T>, r: nat)
    requires IsCodeword(F, E, m, C, size) && Interpolates(F, E, m, points) && k < size && |p| == m && r < |C|
    requires forall i :: 0 <= i < m ==> C[i][k] == Eval(F, p, points[i])
    ensures C[r][k] == Eval(F, p, points[r])
  {
    assert C[r] == CodedRow(F, E[r], C[..m], size);
    assert Column(C[..m], size, k) == Values(F, p, points[..m]);
  }

  lemma ContentsAt<T>(sh: seq<Shard<T>>, i: nat, k: nat)
    requires AllValid(sh) && i < |sh| && k < sh[i].len
    ensures |Contents(sh)[i]| == sh[i].len && Contents(sh)[i][k] == sh[i].buf[k]
  {
  }

  lemma ShardsInterpolate<T(!new)>(F: Field<T>, E: Mat<T>, m: nat, points: seq<T>, sh: seq<Shard<T>>, size: nat, k: nat, p: Vec<T>, r: nat)
    requires AllValid(sh) && (forall i :: 0 <= i < |sh| ==> sh[i].len == size) && IsCodeword(F, E, m, Contents(sh), size)
    requires |points| == |sh| && Interpolates(F, E, m, points) && k < size && |p| == m && r < |sh|
    requires forall i :: 0 <= i < m ==> sh[i].buf[k] == Eval(F, p, points[i])
    ensures sh[r].buf[k] == Eval(F, p, points[r])
  {
    var C := Contents(sh);
    forall i | 0 <= i < m ensures C[i][k] == Eval(F, p, points[i]) {
      ContentsAt(sh, i, k);
    }
    CodewordInterpolates(F, E, m, points, C, size, k, p, r);
    ContentsAt(sh, r, k);
  }

  /** galMulSlice and galMulSliceXor on [start, stop): the first column overwrites, the
      others accumulate. */
  function MulSlice<T>(F: Field<T>, out: Vec<T>, coef: T, input: Vec<T>, start: nat, stop: nat, first: bool): (v: Vec<T>)
    requires start <= stop <= |input| <= |out|
    ensures |v| == |out|
  {
    seq(|out|, k requires 0 <= k < |out| =>
      if start <= k < stop then
        if first then F.mul(coef, input[k]) else F.add(out[k], F.mul(coef, input[k]))
      else out[k])
  }

  /** The sum over the first c inputs. */
  function Partial<T>(F: Field<T>, row: Vec<T>, inputs: Mat<T>, size: nat, k: nat, c: nat): T
    requires |row| == |inputs| && Shape(inputs, |inputs|, size) && k < size && c <= |row|
  {
    Dot(F, row[..c], Column(inputs, size, k)[..c])
  }

  /** out holds the partial sums up to c on [start, stop) and is as before elsewhere. */
  ghost predicate HasPartial<T>(F: Field<T>, out: Vec<T>, was: Vec<T>, row: Vec<T>, inputs: Mat<T>, size: nat,
    start: nat, stop: nat, c: nat)
    requires |row| == |inputs| && Shape(inputs, |inputs|, size) && start <= stop <= size && c <= |row|
  {
    && |out| == |was| && size <= |out|
    && (forall k :: 0 <= k < |out| && !(start <= k < stop) ==> out[k] == was[k])
    && (c > 0 ==> forall k :: start <= k < stop ==> out[k] == Partial(F, row, inputs, size, k, c))
  }

  lemma MulSlicePartial<T(!new)>(F: Field<T>, out: Vec<T>, was: Vec<T>, row: Vec<T>, inputs: Mat<T>, size: nat,
    start: nat, stop: nat, c: nat)
    requires IsField(F)
    requires |row| == |inputs| && Shape(inputs, |inputs|, size) && start <= stop <= size && c < |row|
    requires HasPartial(F, out, was, row, inputs, size, start, stop, c)
    ensures HasPartial(F, MulSlice(F, out, row[c], inputs[c], start, stop, c == 0), was, row, inputs, size, start, stop, c + 1)
  {
    var v := MulSlice(F, out, row[c], inputs[c], start, stop, c == 0);
    forall k | start <= k < stop ensures v[k] == Partial(F, row, inputs, size, k, c + 1) {
      var x := Column(inputs, size, k);
      assert row[..c + 1][..c] == row[..c] && x[..c + 1][..c] == x[..c];
      assert Partial(F, row, inputs, size, k, c + 1) == F.add(Dot(F, row[..c], x[..c]), F.mul(row[c], x[c]));
      AddZero(F, F.mul(row[c], x[c]));
      assert c > 0 ==> out[k] == Partial(F, row, inputs, size, k, c);
    }
  }

  lemma FullPartial<T>(F: Field<T>, row: Vec<T>, inputs: Mat<T>, size: nat, k: nat)
    requires |row| == |inputs| && Shape(inputs, |inputs|, size) && k < size
    ensures Partial(F, row, inputs, size, k, |row|) == CodedRow(F, row, inputs, size)[k]
  {
    var x := Column(inputs, size, k);
    assert row[..|row|] == row && x[..|row|] == x;
  }

  ghost predicate Targets(targets: seq<nat>, n: nat) {
    Distinct(targets) && forall i :: 0 <= i < |targets| ==> targets[i] < n
  }

  /** The outputs are being written at their targets; every other shard is as before. */
  ghost predicate Frame<T>(now: seq<Shard<T>>, was: seq<Shard<T>>, targets: seq<nat>) {
    && |now| == |was|
    && (forall j :: 0 <= j < |was| ==> now[j].len == was[j].len)
    && (forall j :: 0 <= j < |was| && j !in targets ==> now[j] == was[j])
  }

  /** One worker: the columns [start, stop) of every output, and nothing else. */
  method CodeRange<T(!new)>(F: Field<T>, rows: Mat<T>, inputs: Mat<T>, shards: array<Shard<T>>, targets: seq<nat>,
    size: nat, start: nat, stop: nat)
    requires IsField(F) && |inputs| > 0 && Shape(inputs, |inputs|, size) && Shape(rows, |targets|, |inputs|)
    requires Targets(targets, shards.Length) && start <= stop <= size
    requires forall i :: 0 <= i < |targets| ==> size <= |shards[targets[i]].buf|
    modifies shards
    ensures Frame(shards[..], old(shards[..]), targets)
    ensures forall i :: 0 <= i < |targets| ==>
      HasPartial(F, shards[targets[i]].buf, old(shards[..])[targets[i]].buf, rows[i], inputs, size, start, stop, |inputs|)
  {
    ghost var was := shards[..];
    for c := 0 to |inputs|
      invariant Frame(shards[..], was, targets)
      invariant forall i :: 0 <= i < |targets| ==>
        HasPartial(F, shards[targets[i]].buf, was[targets[i]].buf, rows[i], inputs, size, start, stop, c)
    {
      CodeInput(F, rows, inputs, shards, targets, size, start, stop, c, was);
    }
  }

  /** The inner loop: input c goes into every output. */
  method CodeInput<T(!new)>(F: Field<T>, rows: Mat<T>, inputs: Mat<T>, shards: array<Shard<T>>, targets: seq<nat>,
    size: nat, start: nat, stop: nat, c: nat, ghost was: seq<Shard<T>>)
    requires IsField(F) && c < |inputs| && Shape(inputs, |inputs|, size) && Shape(rows, |targets|, |inputs|)
    requires Targets(targets, shards.Length) && start <= stop <= size && Frame(shards[..], was, targets)
    requires forall i :: 0 <= i < |targets| ==>
      HasPartial(F, shards[targets[i]].buf, was[targets[i]].buf, rows[i], inputs, size, start, stop, c)
    modifies shards
    ensures Frame(shards[..], was, targets)
    ensures forall i :: 0 <= i < |targets| ==>
      HasPartial(F, shards[targets[i]].buf, was[targets[i]].buf, rows[i], inputs, size, start, stop, c + 1)
  {
    for iRow := 0 to |targets|
      invariant Frame(shards[..], was, targets)
      invariant forall i :: 0 <= i < |targets| ==>
        HasPartial(F, shards[targets[i]].buf, was[targets[i]].buf, rows[i], inputs, size, start, stop,
                   if i < iRow then c + 1 else c)
    {
      var t := targets[iRow];
      MulSlicePartial(F, shards[t].buf, was[t].buf, rows[iRow], inputs, size, start, stop, c);
      shards[t] := shards[t].(buf := MulSlice(F, shards[t].buf, rows[iRow][c], inputs[c], start, stop, c == 0));
    }
  }

  /** codeSomeShardsP: every output becomes its matrix row applied to the inputs.  The workers
      own disjoint column ranges that together cover the shard. */
  method CodeSomeShards<T(!new)>(F: Field<T>, rows: Mat<T>, inputs: Mat<T>, shards: array<Shard<T>>, targets: seq<nat>,
    byteCount: nat)
    requires IsField(F) && |inputs| > 0 && Shape(inputs, |inputs|, byteCount) && Shape(rows, |targets|, |inputs|)
    requires Targets(targets, shards.Length)
    requires forall i :: 0 <= i < |targets| ==> byteCount <= |shards[targets[i]].buf|
    modifies shards
    ensures Frame(shards[..], old(shards[..]), targets)
    ensures forall i :: 0 <= i < |targets| ==>
      shards[targets[i]].buf == CodedRow(F, rows[i], inputs, byteCount) + old(shards[..])[targets[i]].buf[byteCount..]
  {
    ghost var was := shards[..];
    var do := byteCount / 384;
    if do < 1024 {
      do := 1024;
    }
    do := (do + 31) / 32 * 32;
    var start := 0;
    while start < byteCount
      invariant 0 <= start <= byteCount && do > 0
      invariant Frame(shards[..], was, targets)
      invariant forall i :: 0 <= i < |targets| ==>
        HasPartial(F, shards[targets[i]].buf, was[targets[i]].buf, rows[i], inputs, byteCount, 0, start, |inputs|)
    {
      if start + do > byteCount {
        do := byteCount - start;
      }
      ghost var mid := shards[..];
      CodeRange(F, rows, inputs, shards, targets, byteCount, start, start + do);
      forall i | 0 <= i < |targets|
        ensures HasPartial(F, shards[targets[i]].buf, was[targets[i]].buf, rows[i], inputs, byteCount, 0, start + do, |inputs|)
      {
        var t := targets[i];
        assert HasPartial(F, mid[t].buf, was[t].buf, rows[i], inputs, byteCount, 0, start, |inputs|);
        assert HasPartial(F, shards[t].buf, mid[t].buf, rows[i], inputs, byteCount, start, start + do, |inputs|);
      }
      start := start + do;
    }
    forall i | 0 <= i < |targets|
      ensures shards[targets[i]].buf == CodedRow(F, rows[i], inputs, byteCount) + was[targets[i]].buf[byteCount..]
    {
      forall k | 0 <= k < byteCount ensures shards[targets[i]].buf[k] == CodedRow(F, rows[i], inputs, byteCount)[k] {
        FullPartial(F, rows[i], inputs, byteCount, k);
      }
    }
  }

  // ---------- shard checks ----------

  /** The length of the first non-empty shard, or 0. */
  function ShardSize<T>(sh: seq<Shard<T>>): nat {
    if |sh| == 0 then 0 else if sh[0].len != 0 then sh[0].len else ShardSize(sh[1..])
  }

  ghost predicate SizesMatch<T>(sh: seq<Shard<T>>, size: nat, nilok: bool) {
    forall i :: 0 <= i < |sh| ==> sh[i].len == size || (nilok && sh[i].len == 0)
  }

  /** The size is that of some shard, or every shard is empty. */
  lemma {:induction false} SizeOf<T>(sh: seq<Shard<T>>)
    ensures ShardSize(sh) == 0 <==> forall i :: 0 <= i < |sh| ==> sh[i].len == 0
    ensures ShardSize(sh) != 0 ==> exists i :: 0 <= i < |sh| && sh[i].len == ShardSize(sh)
  {
    if |sh| > 0 && sh[0].len == 0 {
      var rest := sh[1..];
      SizeOf(rest);
      assert sh == [sh[0]] + rest;
      if ShardSize(sh) != 0 {
        var i :| 0 <= i < |rest| && rest[i].len == ShardSize(rest);
        assert sh[i + 1] == rest[i];
      } else {
        forall i | 0 <= i < |sh| ensures sh[i].len == 0 {
          assert i > 0 ==> sh[i] == rest[i - 1];
        }
      }
    }
  }

  method ComputeShardSize<T>(sh: seq<Shard<T>>) returns (size: nat)
    ensures size == ShardSize(sh)
  {
    for i := 0 to |sh|
      invariant ShardSize(sh) == ShardSize(sh[i..])
    {
      if sh[i].len != 0 {
        return sh[i].len;
      }
    }
    return 0;
  }

  ghost function CheckResult<T>(sh: seq<Shard<T>>, nilok: bool): Error {
    if ShardSize(sh) == 0 then ErrShardNoData
    else if !SizesMatch(sh, ShardSize(sh), nilok) then ErrShardSize
    else NoError
  }

  method CheckShards<T>(sh: seq<Shard<T>>, nilok: bool) returns (err: Error)
    ensures err == CheckResult(sh, nilok)
    ensures err == ErrShardNoData <==> forall i :: 0 <= i < |sh| ==> sh[i].len == 0
    ensures err == NoError ==>
      && (forall i, j :: 0 <= i < |sh| && 0 <= j < |sh| && sh[i].len != 0 && sh[j].len != 0 ==> sh[i].len == sh[j].len)
      && (!nilok ==> forall i :: 0 <= i < |sh| ==> sh[i].len != 0)
    ensures err == ErrShardSize ==>
      exists i, j :: 0 <= i < |sh| && 0 <= j < |sh| && sh[i].len != 0 && sh[i].len != sh[j].len && (nilok ==> sh[j].len != 0)
  {
    SizeOf(sh);
    var size := ComputeShardSize(sh);
    if size == 0 {
      return ErrShardNoData;
    }
    for i := 0 to |sh|
      invariant forall j :: 0 <= j < i ==> sh[j].len == size || (nilok && sh[j].len == 0)
    {
      if sh[i].len != size && (sh[i].len != 0 || !nilok) {
        return ErrShardSize;
      }
    }
    return NoError;
  }

  /** Encode: the parity shards become the encoding of the data shards, which do not change. */
  method Encode<T(!new)>(F: Field<T>, coder: Coder<T>, shards: array<Shard<T>>) returns (err: Error)
    requires ValidCoder(F, coder) && AllValid(shards[..])
    modifies shards
    ensures err == if shards.Length != coder.shards then ErrTooFewShards else old(CheckResult(shards[..], false))
    ensures AllValid(shards[..])
    ensures err != NoError ==> shards[..] == old(shards[..])
    ensures err == NoError ==> Frame(shards[..], old(shards[..]), ParityIndices(coder))
    ensures err == NoError ==>
      IsCodeword(F, coder.matrix, coder.data, Contents(shards[..]), old(ShardSize(shards[..])))
  {
    if shards.Length != coder.shards {
      return ErrTooFewShards;
    }
    err := CheckShards(shards[..], false);
    if err != NoError {
      return;
    }
    EncodeParity(F, coder, shards, shards[0].len);
  }

  /** The parity shards of shards that have passed the checks. */
  method EncodeParity<T(!new)>(F: Field<T>, coder: Coder<T>, shards: array<Shard<T>>, size: nat)
    requires ValidCoder(F, coder) && shards.Length == coder.shards && AllValid(shards[..]) && SizesMatch(shards[..], size, false)
    modifies shards
    ensures AllValid(shards[..]) && Frame(shards[..], old(shards[..]), ParityIndices(coder))
    ensures IsCodeword(F, coder.matrix, coder.data, Contents(shards[..]), size)
  {
    ghost var was := shards[..];
    var m := coder.data;
    var targets := ParityIndices(coder);
    var inputs := Contents(shards[..m]);
    var parity := coder.matrix[m..];
    CodeSomeShards(F, parity, inputs, shards, targets, size);
    EncodedIsCodeword(F, coder, was, shards[..], size);
  }

  function ParityIndices<T>(coder: Coder<T>): (t: seq<nat>)
    requires coder.data <= coder.shards
    ensures |t| == coder.shards - coder.data && Targets(t, coder.shards)
  {
    seq(coder.shards - coder.data, (i: nat) => coder.data + i)
  }

  lemma EncodedIsCodeword<T(!new)>(F: Field<T>, coder: Coder<T>, was: seq<Shard<T>>, now: seq<Shard<T>>, size: nat)
    requires ValidCoder(F, coder) && |was| == coder.shards && AllValid(was) && SizesMatch(was, size, false)
    requires Frame(now, was, ParityIndices(coder)) && AllValid(now)
    requires forall i :: 0 <= i < coder.shards - coder.data ==>
      size <= |now[coder.data + i].buf| &&
      now[coder.data + i].buf[..size] == CodedRow(F, coder.matrix[coder.data..][i], Contents(was[..coder.data]), size)
    ensures IsCodeword(F, coder.matrix, coder.data, Contents(now), size)
  {
    var m, E, C := coder.data, coder.matrix, Contents(now);
    assert C[..m] == Contents(was[..m]) by {
      forall i | 0 <= i < m ensures now[i] == was[i] {
        assert i !in ParityIndices(coder);
      }
    }
    forall i | 0 <= i < |C| ensures C[i] == CodedRow(F, E[i], C[..m], size) {
      if i < m {
        DataRow(F, coder, C, size, i);
      } else {
        assert E[m..][i - m] == E[i] && m + (i - m) == i;
      }
    }
  }

  /** The systematic rows reproduce the data shards. */
  lemma DataRow<T(!new)>(F: Field<T>, coder: Coder<T>, C: Mat<T>, size: nat, i: nat)
    requires ValidCoder(F, coder) && |C| == coder.shards && Shape(C, |C|, size) && i < coder.data
    ensures C[i] == CodedRow(F, coder.matrix[i], C[..coder.data], size)
  {
    var m, E := coder.data, coder.matrix;
    assert E[i] == E[..m][i] == Unit(F, m, i);
    forall k | 0 <= k < size ensures C[i][k] == CodedRow(F, E[i], C[..m], size)[k] {
      DotUnit(F, Column(C[..m], size, k), i);
    }
  }

  // ---------- reconstruction ----------

  /** The present shards are those of the codeword C. */
  ghost predicate Agrees<T>(sh: seq<Shard<T>>, C: Mat<T>) {
    |sh| == |C| && AllValid(sh) && forall i :: 0 <= i < |sh| && sh[i].len != 0 ==> sh[i].Content() == C[i]
  }

  /** How many of the first k shards are present. */
  function Present<T>(sh: seq<Shard<T>>, k: nat): nat
    requires k <= |sh|
  {
    if k == 0 then 0 else Present(sh, k - 1) + if sh[k - 1].len != 0 then 1 else 0
  }

  /** The numbers of the present shards among the first k. */
  function PresentIndices<T>(sh: seq<Shard<T>>, k: nat): (v: seq<nat>)
    requires k <= |sh|
    ensures |v| == Present(sh, k) && Targets(v, k) && forall i, j :: 0 <= i < j < |v| ==> v[i] < v[j]
    ensures forall i :: 0 <= i < |v| ==> sh[v[i]].len != 0
  {
    if k == 0 then []
    else PresentIndices(sh, k - 1) + if sh[k - 1].len != 0 then [k - 1] else []
  }

  /** The numbers of the absent shards in [lo, hi). */
  function AbsentIndices<T>(sh: seq<Shard<T>>, lo: nat, hi: nat): (v: seq<nat>)
    requires lo <= hi <= |sh|
    ensures Targets(v, hi)
    ensures forall i :: 0 <= i < |v| ==> lo <= v[i] && sh[v[i]].len == 0
    ensures forall j :: lo <= j < hi && sh[j].len == 0 ==> j in v
    decreases hi
  {
    if lo == hi then []
    else AbsentIndices(sh, lo, hi - 1) + if sh[hi - 1].len == 0 then [hi - 1] else []
  }

  /** Decoding any m rows of a codeword gives back its data rows. */
  lemma DecodeRow<T(!new)>(F: Field<T>, E: Mat<T>, m: nat, C: Mat<T>, size: nat, valid: seq<nat>, D: Mat<T>, i: nat)
    requires IsField(F) && IsCodeword(F, E, m, C, size) && ValidRows(valid, m, |C|)
    requires Inverses(F, Select(E, valid), D, m) && i < m
    ensures CodedRow(F, D[i], Select(C, valid), size) == C[i]
  {
    var S, sub := Select(E, valid), Select(C, valid);
    forall k | 0 <= k < size ensures CodedRow(F, D[i], sub, size)[k] == C[i][k] {
      var x := Column(C[..m], size, k);
      assert Column(sub, size, k) == Apply(F, S, x) by {
        forall j | 0 <= j < m ensures Column(sub, size, k)[j] == Apply(F, S, x)[j] {
          assert C[valid[j]] == CodedRow(F, E[valid[j]], C[..m], size);
        }
      }
      ApplyMatMul(F, D, S, x);
      ApplyIdentity(F, x);
      assert Dot(F, D[i], Apply(F, S, x)) == Apply(F, D, Apply(F, S, x))[i];
    }
  }

  /** Reslices the target shards to size and computes them from the inputs. */
  method Fill<T(!new)>(F: Field<T>, rows: Mat<T>, inputs: Mat<T>, shards: array<Shard<T>>, targets: seq<nat>, size: nat)
    requires IsField(F) && |inputs| > 0 && Shape(inputs, |inputs|, size) && Shape(rows, |targets|, |inputs|)
    requires Targets(targets, shards.Length) && AllValid(shards[..])
    requires forall i :: 0 <= i < |targets| ==> size <= |shards[targets[i]].buf|
    modifies shards
    ensures AllValid(shards[..])
    ensures forall j :: 0 <= j < shards.Length ==> |shards[j].buf| == |old(shards[..])[j].buf|
    ensures forall j :: 0 <= j < shards.Length && j !in targets ==> shards[j] == old(shards[..])[j]
    ensures forall i :: 0 <= i < |targets| ==> shards[targets[i]].len == size
    ensures forall i :: 0 <= i < |targets| ==> shards[targets[i]].Content() == CodedRow(F, rows[i], inputs, size)
  {
    ghost var was := shards[..];
    for i := 0 to |targets|
      invariant forall j :: 0 <= j < shards.Length ==> shards[j].buf == was[j].buf
      invariant forall j :: 0 <= j < shards.Length && j !in targets ==> shards[j] == was[j]
      invariant forall j :: 0 <= j < shards.Length ==> shards[j].len == was[j].len || shards[j].len == size
      invariant forall j :: 0 <= j < i ==> shards[targets[j]].len == size
    {
      var t := targets[i];
      shards[t] := shards[t].(len := size);
    }
    CodeSomeShards(F, rows, inputs, shards, targets, size);
    forall j | 0 <= j < shards.Length
      ensures |shards[j].buf| == |was[j].buf| && shards[j].Valid()
    {
      if j in targets {
        var i :| 0 <= i < |targets| && targets[i] == j;
        assert shards[j].buf == CodedRow(F, rows[i], inputs, size) + was[j].buf[size..];
      }
    }
  }

  ghost function ReconstructResult<T>(sh: seq<Shard<T>>, coder: Coder<T>, dataOnly: bool): Error {
    if |sh| != coder.shards || coder.data > |sh| then ErrTooFewShards
    else if CheckResult(sh, true) != NoError then CheckResult(sh, true)
    else if Present(sh, |sh|) == |sh| || (dataOnly && Present(sh, coder.data) == coder.data) then NoError
    else if Present(sh, |sh|) < coder.data then ErrTooFewShards
    else NoError
  }

  /** The first count shards have become those of every codeword the present ones agreed with. */
  ghost predicate Restores<T(!new)>(F: Field<T>, coder: Coder<T>, was: seq<Shard<T>>, now: seq<Shard<T>>, size: nat, count: nat) {
    && |now| == |was| && count <= |now| && AllValid(now)
    && forall C: Mat<T> :: RestoredTo(F, coder, was, now, size, count, C)
  }

  ghost predicate RestoredTo<T(!new)>(F: Field<T>, coder: Coder<T>, was: seq<Shard<T>>, now: seq<Shard<T>>, size: nat,
    count: nat, C: Mat<T>)
    requires |now| == |was| && count <= |now| && AllValid(now)
  {
    IsCodeword(F, coder.matrix, coder.data, C, size) && Agrees(was, C) ==> |C| >= count && IsRestored(now, count, C)
  }

  ghost predicate IsRestored<T>(now: seq<Shard<T>>, count: nat, C: Mat<T>)
    requires count <= |now| && count <= |C| && AllValid(now)
  {
    forall i :: 0 <= i < count ==> now[i].Content() == C[i]
  }

  lemma {:induction false} AllPresent<T>(sh: seq<Shard<T>>, k: nat)
    requires k <= |sh|
    ensures Present(sh, k) <= k
    ensures Present(sh, k) == k ==> forall i :: 0 <= i < k ==> sh[i].len != 0
  {
    if k > 0 {
      AllPresent(sh, k - 1);
    }
  }

  /** The first m present shards and their numbers. */
  method PickShards<T>(sh: seq<Shard<T>>, m: nat) returns (subShards: Mat<T>, validIndices: seq<nat>)
    requires AllValid(sh) && m <= Present(sh, |sh|)
    ensures ValidRows(validIndices, m, |sh|) && |subShards| == m
    ensures forall i, j :: 0 <= i < j < m ==> validIndices[i] < validIndices[j]
    ensures forall i :: 0 <= i < m ==> sh[validIndices[i]].len != 0 && subShards[i] == sh[validIndices[i]].Content()
  {
    subShards, validIndices := [], [];
    var matrixRow := 0;
    while matrixRow < |sh| && |validIndices| < m
      invariant matrixRow <= |sh| && |validIndices| <= m
      invariant validIndices == PresentIndices(sh, matrixRow)
      invariant |subShards| == |validIndices|
      invariant forall i :: 0 <= i < |validIndices| ==> subShards[i] == sh[validIndices[i]].Content()
    {
      if sh[matrixRow].len != 0 {
        subShards := subShards + [sh[matrixRow].Content()];
        validIndices := validIndices + [matrixRow];
      }
      matrixRow := matrixRow + 1;
    }
  }

  /** Shards computed from a codeword's rows by the right matrix rows complete the codeword. */
  lemma FilledIsCodeword<T(!new)>(F: Field<T>, was: seq<Shard<T>>, now: seq<Shard<T>>, C: Mat<T>, size: nat,
    rows: Mat<T>, inputs: Mat<T>, targets: seq<nat>, lo: nat, hi: nat)
    requires lo <= hi <= |was| == |now| == |C| && AllValid(was) && AllValid(now)
    requires Shape(inputs, |inputs|, size) && Shape(rows, |targets|, |inputs|)
    requires forall i :: lo <= i < hi && i !in targets ==> was[i].Content() == C[i]
    requires Targets(targets, |now|) && forall j :: 0 <= j < |now| && j !in targets ==> now[j] == was[j]
    requires forall j :: 0 <= j < |targets| ==> now[targets[j]].Content() == CodedRow(F, rows[j], inputs, size)
    requires forall j :: 0 <= j < |targets| ==> CodedRow(F, rows[j], inputs, size) == C[targets[j]]
    ensures forall i :: lo <= i < hi ==> now[i].Content() == C[i]
  {
    forall i | lo <= i < hi ensures now[i].Content() == C[i] {
      if i in targets {
        var j :| 0 <= j < |targets| && targets[j] == i;
      }
    }
  }

  /** Applying the inverse of the chosen rows to the chosen shards restores the data shards. */
  lemma DecodedRestores<T(!new)>(F: Field<T>, coder: Coder<T>, was: seq<Shard<T>>, now: seq<Shard<T>>, size: nat,
    sub: Mat<T>, valid: seq<nat>, D: Mat<T>, targets: seq<nat>, rows: Mat<T>)
    requires ValidCoder(F, coder) && |was| == |now| == coder.shards && AllValid(was) && AllValid(now)
    requires ValidRows(valid, coder.data, |was|) && Inverses(F, Select(coder.matrix, valid), D, coder.data)
    requires Shape(sub, coder.data, size)
    requires forall i :: 0 <= i < coder.data ==> was[valid[i]].len != 0 && sub[i] == was[valid[i]].Content()
    requires targets == AbsentIndices(was, 0, coder.data)
    requires Shape(rows, |targets|, coder.data) && forall j :: 0 <= j < |targets| ==> rows[j] == D[targets[j]]
    requires forall j :: 0 <= j < |now| && j !in targets ==> now[j] == was[j]
    requires forall j :: 0 <= j < |targets| ==> now[targets[j]].Content() == CodedRow(F, rows[j], sub, size)
    ensures Restores(F, coder, was, now, size, coder.data)
  {
    forall C: Mat<T> ensures RestoredTo(F, coder, was, now, size, coder.data, C) {
      if IsCodeword(F, coder.matrix, coder.data, C, size) && Agrees(was, C) {
        DecodedRestoresTo(F, coder, was, now, size, sub, valid, D, targets, rows, C);
      }
    }
  }

  lemma DecodedRestoresTo<T(!new)>(F: Field<T>, coder: Coder<T>, was: seq<Shard<T>>, now: seq<Shard<T>>, size: nat,
    sub: Mat<T>, valid: seq<nat>, D: Mat<T>, targets: seq<nat>, rows: Mat<T>, C: Mat<T>)
    requires ValidCoder(F, coder) && |was| == |now| == coder.shards && AllValid(was) && AllValid(now)
    requires ValidRows(valid, coder.data, |was|) && Inverses(F, Select(coder.matrix, valid), D, coder.data)
    requires Shape(sub, coder.data, size)
    requires forall i :: 0 <= i < coder.data ==> was[valid[i]].len != 0 && sub[i] == was[valid[i]].Content()
    requires targets == AbsentIndices(was, 0, coder.data)
    requires Shape(rows, |targets|, coder.data) && forall j :: 0 <= j < |targets| ==> rows[j] == D[targets[j]]
    requires forall j :: 0 <= j < |now| && j !in targets ==> now[j] == was[j]
    requires forall j :: 0 <= j < |targets| ==> now[targets[j]].Content() == CodedRow(F, rows[j], sub, size)
    requires IsCodeword(F, coder.matrix, coder.data, C, size) && Agrees(was, C)
    ensures |C| >= coder.data && IsRestored(now, coder.data, C)
  {
    assert sub == Select(C, valid);
    forall j | 0 <= j < |targets| ensures CodedRow(F, rows[j], sub, size) == C[targets[j]] {
      DecodeRow(F, coder.matrix, coder.data, C, size, valid, D, targets[j]);
    }
    FilledIsCodeword(F, was, now, C, size, rows, sub, targets, 0, coder.data);
  }

  /** The rows of any m distinct shards can be inverted. */
  method DecodeMatrix<T(!new, ==)>(F: Field<T>, coder: Coder<T>, valid: seq<nat>) returns (r: Result<Mat<T>>)
    requires ValidCoder(F, coder) && ValidRows(valid, coder.data, coder.shards)
    ensures r.Ok? && Inverses(F, Select(coder.matrix, valid), r.value, coder.data)
  {
    r := Invert(F, Select(coder.matrix, valid));
  }

  /** The missing data shards, each the row of the inverse for it applied to the chosen shards. */
  method FillData<T(!new)>(F: Field<T>, coder: Coder<T>, shards: array<Shard<T>>, size: nat, sub: Mat<T>, valid: seq<nat>, D: Mat<T>)
    requires ValidCoder(F, coder) && AllValid(shards[..]) && shards.Length == coder.shards
    requires SizesMatch(shards[..], size, true) && forall i :: 0 <= i < shards.Length ==> size <= |shards[i].buf|
    requires ValidRows(valid, coder.data, shards.Length) && Inverses(F, Select(coder.matrix, valid), D, coder.data)
    requires Shape(sub, coder.data, size)
    requires forall i :: 0 <= i < coder.data ==> shards[valid[i]].len != 0 && sub[i] == shards[valid[i]].Content()
    modifies shards
    ensures forall i :: 0 <= i < shards.Length ==> size <= |shards[i].buf|
    ensures forall i :: 0 <= i < shards.Length && (i >= coder.data || old(shards[..])[i].len != 0) ==> shards[i] == old(shards[..])[i]
    ensures forall i :: 0 <= i < coder.data ==> shards[i].len == size
    ensures Restores(F, coder, old(shards[..]), shards[..], size, coder.data)
  {
    ghost var was := shards[..];
    var targets := AbsentIndices(shards[..], 0, coder.data);
    var rows := seq(|targets|, i requires 0 <= i < |targets| => D[targets[i]]);
    Fill(F, rows, sub, shards, targets, size);
    DecodedRestores(F, coder, was, shards[..], size, sub, valid, D, targets, rows);
  }

  /** Missing data shards, decoded from the first present shards. */
  method DecodeData<T(!new, ==)>(F: Field<T>, coder: Coder<T>, shards: array<Shard<T>>, size: nat) returns (err: Error)
    requires ValidCoder(F, coder) && AllValid(shards[..]) && shards.Length == coder.shards
    requires size > 0 && SizesMatch(shards[..], size, true) && coder.data <= Present(shards[..], shards.Length)
    requires forall i :: 0 <= i < shards.Length ==> size <= |shards[i].buf|
    modifies shards
    ensures err == NoError
    ensures forall i :: 0 <= i < shards.Length ==> size <= |shards[i].buf|
    ensures forall i :: 0 <= i < shards.Length && (i >= coder.data || old(shards[..])[i].len != 0) ==> shards[i] == old(shards[..])[i]
    ensures forall i :: 0 <= i < coder.data ==> shards[i].len == size
    ensures Restores(F, coder, old(shards[..]), shards[..], size, coder.data)
  {
    var subShards, validIndices := PickShards(shards[..], coder.data);
    var decode := DecodeMatrix(F, coder, validIndices);
    if decode.Singular? {
      return ErrSingular;
    }
    FillData(F, coder, shards, size, subShards, validIndices, decode.value);
    return NoError;
  }

  /** Missing parity shards, encoded from the data shards. */
  method EncodeMissing<T(!new)>(F: Field<T>, coder: Coder<T>, shards: array<Shard<T>>, size: nat)
    requires ValidCoder(F, coder) && AllValid(shards[..]) && shards.Length == coder.shards
    requires forall i :: 0 <= i < coder.data ==> shards[i].len == size
    requires forall i :: 0 <= i < shards.Length ==> size <= |shards[i].buf|
    modifies shards
    ensures AllValid(shards[..])
    ensures forall i :: 0 <= i < shards.Length && (i < coder.data || old(shards[..])[i].len != 0) ==> shards[i] == old(shards[..])[i]
    ensures forall C: Mat<T> :: CompletedTo(F, coder, old(shards[..]), shards[..], size, C)
  {
    ghost var mid := shards[..];
    var m, n := coder.data, coder.shards;
    var targets := AbsentIndices(shards[..], m, n);
    var rows := seq(|targets|, i requires 0 <= i < |targets| => coder.matrix[targets[i]]);
    var inputs := Contents(shards[..m]);
    Fill(F, rows, inputs, shards, targets, size);
    ghost var now := shards[..];
    forall C: Mat<T> ensures CompletedTo(F, coder, mid, now, size, C) {
      if IsCodeword(F, coder.matrix, m, C, size) && Agrees(mid, C) && IsRestored(mid, m, C) {
        assert inputs == C[..m];
        forall j | 0 <= j < |targets| ensures CodedRow(F, rows[j], inputs, size) == C[targets[j]] {
          assert C[targets[j]] == CodedRow(F, coder.matrix[targets[j]], C[..m], size);
        }
        FilledIsCodeword(F, mid, now, C, size, rows, inputs, targets, 0, n);
      }
    }
  }

  /** Shards that agree with a codeword and have its data rows are completed to it. */
  ghost predicate CompletedTo<T(!new)>(F: Field<T>, coder: Coder<T>, was: seq<Shard<T>>, now: seq<Shard<T>>, size: nat, C: Mat<T>)
    requires |was| == |now| == coder.shards >= coder.data && AllValid(was) && AllValid(now)
  {
    IsCodeword(F, coder.matrix, coder.data, C, size) && Agrees(was, C) && |C| >= coder.shards && IsRestored(was, coder.data, C) ==>
      IsRestored(now, coder.shards, C)
  }

  method CountPresent<T>(sh: seq<Shard<T>>, m: nat) returns (numberPresent: nat, dataPresent: nat)
    requires m <= |sh|
    ensures numberPresent == Present(sh, |sh|) && dataPresent == Present(sh, m)
  {
    numberPresent, dataPresent := 0, 0;
    for i := 0 to |sh|
      invariant numberPresent == Present(sh, i)
      invariant dataPresent == Present(sh, if i < m then i else m)
    {
      if sh[i].len != 0 {
        numberPresent := numberPresent + 1;
        if i < m {
          dataPresent := dataPresent + 1;
        }
      }
    }
  }

  /** reconstruct: with at least as many shards present as data shards, the missing ones
      are restored; singularity is never reported. */
  method Reconstruct<T(!new, ==)>(F: Field<T>, coder: Coder<T>, shards: array<Shard<T>>, dataOnly: bool) returns (err: Error)
    requires ValidCoder(F, coder) && AllValid(shards[..])
    requires forall i :: 0 <= i < shards.Length ==> ShardSize(shards[..]) <= |shards[i].buf|
    modifies shards
    ensures err == old(ReconstructResult(shards[..], coder, dataOnly))
    ensures err != NoError ==> shards[..] == old(shards[..])
    ensures err == NoError ==> Restores(F, coder, old(shards[..]), shards[..], old(ShardSize(shards[..])),
                                        if dataOnly then coder.data else coder.shards)
    ensures err == NoError ==> forall i :: 0 <= i < coder.data ==> shards[i].len == old(ShardSize(shards[..]))
  {
    if shards.Length != coder.shards {
      return ErrTooFewShards;
    }
    err := CheckShards(shards[..], true);
    if err != NoError {
      return;
    }
    ghost var was := shards[..];
    var m, n := coder.data, coder.shards;
    var size := ComputeShardSize(shards[..]);
    var numberPresent, dataPresent := CountPresent(shards[..], m);
    AllPresent(was, n);
    AllPresent(was, m);
    if numberPresent == n || (dataOnly && dataPresent == m) {
      return NoError;
    }
    if numberPresent < m {
      return ErrTooFewShards;
    }
    err := DecodeData(F, coder, shards, size);
    if !dataOnly {
      ghost var mid := shards[..];
      EncodeMissing(F, coder, shards, size);
      RestoredAll(F, coder, was, mid, shards[..], size);
    }
  }

  /** Restored data shards and completed parity shards restore everything. */
  lemma RestoredAll<T(!new)>(F: Field<T>, coder: Coder<T>, was: seq<Shard<T>>, mid: seq<Shard<T>>, now: seq<Shard<T>>, size: nat)
    requires ValidCoder(F, coder) && |was| == coder.shards && AllValid(was) && Restores(F, coder, was, mid, size, coder.data)
    requires forall i :: 0 <= i < |was| && (i >= coder.data || was[i].len != 0) ==> mid[i] == was[i]
    requires |now| == |was| && AllValid(now) && forall C: Mat<T> :: CompletedTo(F, coder, mid, now, size, C)
    ensures Restores(F, coder, was, now, size, coder.shards)
  {
    forall C: Mat<T> ensures RestoredTo(F, coder, was, now, size, coder.shards, C) {
      if IsCodeword(F, coder.matrix, coder.data, C, size) && Agrees(was, C) {
        assert RestoredTo(F, coder, was, mid, size, coder.data, C);
        AgreesAfter(was, mid, C, coder.data);
        assert CompletedTo(F, coder, mid, now, size, C);
      }
    }
  }

  lemma AgreesAfter<T>(was: seq<Shard<T>>, mid: seq<Shard<T>>, C: Mat<T>, m: nat)
    requires |was| == |mid| && m <= |mid| && m <= |C| && AllValid(was) && AllValid(mid) && Agrees(was, C) && IsRestored(mid, m, C)
    requires forall i :: m <= i < |was| ==> mid[i] == was[i]
    ensures Agrees(mid, C)
  {
  }
}
