/** Splitting data over shards segment by segment, joining it again, and the whole m-of-n
    erasure coder (internal/reedsolomon/reedsolomon.go and renter/reedsolomon.go). */
module ErasureCoder {
  import opened Fields
  import opened Linear
  import opened Vandermonde
  import opened Erasure
  import G = Gf256
  import L = LogArithmetic
  import Gf256Tables

  // ---------- the interleaving ----------

  /** Bytes [off, off+sub) of each row, row after row. */
  function Stripe<T>(rows: Mat<T>, off: nat, sub: nat): (s: seq<T>)
    requires forall i :: 0 <= i < |rows| ==> off + sub <= |rows[i]|
  {
    if |rows| == 0 then []
    else Stripe(rows[..|rows| - 1], off, sub) + rows[|rows| - 1][off..off + sub]
  }

  /** The stripes at 0, sub, 2*sub, ... up to off. */
  function Joined<T>(rows: Mat<T>, off: nat, sub: nat): (s: seq<T>)
    requires sub > 0 && forall i :: 0 <= i < |rows| ==> off <= |rows[i]|
    decreases off
  {
    if off < sub then [] else Joined(rows, off - sub, sub) + Stripe(rows, off - sub, sub)
  }

  lemma {:induction false} StripePrefix<T>(rows: Mat<T>, off: nat, sub: nat, i: nat)
    requires i < |rows| && forall j :: 0 <= j < |rows| ==> off + sub <= |rows[j]|
    ensures Stripe(rows[..i], off, sub) + rows[i][off..off + sub] <= Stripe(rows, off, sub)
  {
    var k := |rows| - 1;
    if i < k {
      StripePrefix(rows[..k], off, sub, i);
      assert rows[..k][..i] == rows[..i];
    }
  }

  /** n is a multiple of d. */
  ghost predicate Multiple(n: nat, d: nat) {
    n == 0 || (0 < d <= n && Multiple(n - d, d))
  }

  lemma {:induction false} JoinedPrefix<T>(rows: Mat<T>, off: nat, sub: nat, size: nat)
    requires sub > 0 && off <= size && Multiple(size - off, sub)
    requires forall j :: 0 <= j < |rows| ==> size <= |rows[j]|
    ensures Joined(rows, off, sub) <= Joined(rows, size, sub)
    decreases size
  {
    if off < size {
      assert size - off - sub == size - sub - off;
      JoinedPrefix(rows, off, sub, size - sub);
    }
  }

  lemma MiddleSlice<T>(a: seq<T>, b: seq<T>, c: seq<T>, y: seq<T>, J: seq<T>)
    requires b + c <= y && a + y <= J
    ensures |a| + |b| + |c| <= |J| && J[|a| + |b|..|a| + |b| + |c|] == c
  {
    forall i | 0 <= i < |c| ensures J[|a| + |b| + i] == c[i] {
      assert c[i] == (b + c)[|b| + i] == y[|b| + i] == (a + y)[|a| + |b| + i];
    }
  }

  /** Where segment i of the stripe at off lies in the joined data. */
  lemma SegmentAt<T>(rows: Mat<T>, off: nat, sub: nat, size: nat, i: nat)
    requires sub > 0 && off < size && Multiple(size - off, sub) && i < |rows|
    requires forall j :: 0 <= j < |rows| ==> size <= |rows[j]|
    ensures off + sub <= size
    ensures var p := |Joined(rows, off, sub)| + |Stripe(rows[..i], off, sub)|;
      && p + sub <= |Joined(rows, size, sub)|
      && Joined(rows, size, sub)[p..p + sub] == rows[i][off..off + sub]
    ensures |Stripe(rows[..i + 1], off, sub)| == |Stripe(rows[..i], off, sub)| + sub
  {
    StripePrefix(rows, off, sub, i);
    StripeNext(rows, off, sub, i);
    StripeWithin(rows, off, sub, size);
    MiddleSlice(Joined(rows, off, sub), Stripe(rows[..i], off, sub), rows[i][off..off + sub], Stripe(rows, off, sub),
        Joined(rows, size, sub));
  }

  lemma StripeNext<T>(rows: Mat<T>, off: nat, sub: nat, i: nat)
    requires i < |rows| && forall j :: 0 <= j < |rows| ==> off + sub <= |rows[j]|
    ensures |Stripe(rows[..i + 1], off, sub)| == |Stripe(rows[..i], off, sub)| + sub
  {
    assert rows[..i + 1][..i] == rows[..i];
  }

  /** What is joined up to off and the stripe at off begin the joined data. */
  lemma StripeWithin<T>(rows: Mat<T>, off: nat, sub: nat, size: nat)
    requires sub > 0 && off < size && Multiple(size - off, sub)
    requires forall j :: 0 <= j < |rows| ==> size <= |rows[j]|
    ensures off + sub <= size && Joined(rows, off, sub) + Stripe(rows, off, sub) <= Joined(rows, size, sub)
  {
    assert size - off - sub == size - (off + sub) && off + sub - sub == off;
    JoinedPrefix(rows, off + sub, sub, size);
  }

  /** The loop body of JoinMulti on one segment: what is written, and what remains to skip and
      to write. */
  method WriteSegment<T>(segment: seq<T>, skip: nat, writeLen: nat) returns (piece: seq<T>, skip': nat, writeLen': nat)
    ensures skip >= |segment| ==> piece == [] && skip' == skip - |segment|
    ensures skip < |segment| ==> skip' == 0 && piece <= segment[skip..]
    ensures skip < |segment| ==> |piece| == if writeLen < |segment| - skip then writeLen else |segment| - skip
    ensures writeLen' == writeLen - |piece|
  {
    if skip >= |segment| {
      return [], skip - |segment|, writeLen;
    }
    var shard := segment;
    if skip > 0 {
      shard := shard[skip..];
    }
    if writeLen < |shard| {
      shard := shard[..writeLen];
    }
    return shard, 0, writeLen - |shard|;
  }

  /** Writing a piece that starts where the output stopped continues the output. */
  lemma PieceContinues<T>(J: seq<T>, out: seq<T>, skip0: nat, at: nat, segment: seq<T>, skip: nat, piece: seq<T>)
    requires skip0 + |out| <= |J| && out == J[skip0..skip0 + |out|]
    requires at + |segment| <= |J| && J[at..at + |segment|] == segment
    requires piece == [] || (skip0 + |out| == at + skip && skip < |segment| && piece <= segment[skip..])
    ensures skip0 + |out + piece| <= |J| && out + piece == J[skip0..skip0 + |out + piece|]
  {
    if piece != [] {
      var p := at + skip;
      forall i | 0 <= i < |piece| ensures piece[i] == J[p + i] {
        assert piece[i] == segment[skip..][i] == segment[skip + i] == J[at..at + |segment|][skip + i];
      }
      assert out + piece == J[skip0..p + |piece|];
    } else {
      assert out + piece == out;
    }
  }

  /** The output so far is what J holds from skip0 on. */
  ghost predicate Continues<T>(J: seq<T>, skip0: nat, out: seq<T>) {
    skip0 + |out| <= |J| && out == J[skip0..skip0 + |out|]
  }

  /** One segment more. */
  lemma SegmentContinues<T>(rows: Mat<T>, off: nat, sub: nat, size: nat, i: nat, at: nat, J: seq<T>, out: seq<T>, skip0: nat,
    segment: seq<T>, skip: nat, piece: seq<T>)
    requires sub > 0 && off + sub <= size && Multiple(size - off, sub) && i < |rows|
    requires forall j :: 0 <= j < |rows| ==> |rows[j]| == size
    requires AtSegment(rows, off, sub, i, at) && J == Joined(rows, size, sub) && Continues(J, skip0, out)
    requires segment == rows[i][off..off + sub]
    requires piece == [] || (skip0 + |out| == at + skip && skip < |segment| && piece <= segment[skip..])
    ensures Continues(J, skip0, out + piece) && AtSegment(rows, off, sub, i + 1, at + sub)
  {
    NextSegment(rows, off, sub, size, i, at, J);
    PieceContinues(J, out, skip0, at, segment, skip, piece);
  }

  /** One round of the copy loop: the stripe at off. */
  method JoinStripe<T>(rows: Mat<T>, size: nat, sub: nat, off: nat, ghost skip0: nat, out0: seq<T>, skip1: nat, writeLen1: nat)
    returns (out: seq<T>, skip: nat, writeLen: nat)
    requires sub > 0 && off < size && Multiple(size - off, sub) && |rows| > 0 && forall j :: 0 <= j < |rows| ==> |rows[j]| == size
    requires Continues(Joined(rows, size, sub), skip0, out0)
    requires writeLen1 > 0 && skip0 + |out0| == |Joined(rows, off, sub)| + skip1
    ensures off + sub <= size
    ensures |out| + writeLen == |out0| + writeLen1 && Continues(Joined(rows, size, sub), skip0, out)
    ensures writeLen > 0 ==> skip0 + |out| == |Joined(rows, off + sub, sub)| + skip
  {
    ghost var J := Joined(rows, size, sub);
    out, skip, writeLen := out0, skip1, writeLen1;
    ghost var at: nat := |Joined(rows, off, sub)|;
    StripeWithin(rows, off, sub, size);
    assert Stripe(rows[..0], off, sub) == [];
    for i := 0 to |rows|
      invariant |out| + writeLen == |out0| + writeLen1 && Continues(J, skip0, out)
      invariant AtSegment(rows, off, sub, i, at) && (writeLen > 0 ==> skip0 + |out| == at + skip)
    {
      var segment := rows[i][off..off + sub];
      var piece, skip', writeLen' := WriteSegment(segment, skip, writeLen);
      SegmentContinues(rows, off, sub, size, i, at, J, out, skip0, segment, skip, piece);
      out, skip, writeLen := out + piece, skip', writeLen';
      at := at + sub;
    }
    LastSegment(rows, off, sub, at);
  }

  /** Segment i of the stripe at off begins at position at of the joined data.  Stated for every v
      so that it is unfolded only where AtIf is named. */
  ghost predicate AtSegment<T>(rows: Mat<T>, off: nat, sub: nat, i: nat, at: nat)
    requires sub > 0 && i <= |rows| && forall j :: 0 <= j < |rows| ==> off + sub <= |rows[j]|
  {
    forall v: bool :: AtIf(v, rows, off, sub, i, at)
  }

  ghost predicate AtIf<T>(v: bool, rows: Mat<T>, off: nat, sub: nat, i: nat, at: nat)
    requires sub > 0 && i <= |rows| && forall j :: 0 <= j < |rows| ==> off + sub <= |rows[j]|
  {
    v ==> at == |Joined(rows, off, sub)| + |Stripe(rows[..i], off, sub)|
  }

  lemma NextSegment<T>(rows: Mat<T>, off: nat, sub: nat, size: nat, i: nat, at: nat, J: seq<T>)
    requires sub > 0 && off + sub <= size && Multiple(size - off, sub) && i < |rows|
    requires forall j :: 0 <= j < |rows| ==> |rows[j]| == size
    requires AtSegment(rows, off, sub, i, at) && J == Joined(rows, size, sub)
    ensures at + sub <= |J| && J[at..at + sub] == rows[i][off..off + sub] && AtSegment(rows, off, sub, i + 1, at + sub)
  {
    assert AtIf(true, rows, off, sub, i, at);
    SegmentAt(rows, off, sub, size, i);
    StripeSnoc(rows, off, sub, i);
    assert AtIf(true, rows, off, sub, i + 1, at + sub);
  }

  lemma StripeSnoc<T>(rows: Mat<T>, off: nat, sub: nat, i: nat)
    requires i < |rows| && forall j :: 0 <= j < |rows| ==> off + sub <= |rows[j]|
    ensures |Stripe(rows[..i + 1], off, sub)| == |Stripe(rows[..i], off, sub)| + sub
  {
    var next := rows[..i + 1];
    assert next[..i] == rows[..i] && next[i] == rows[i];
  }

  lemma LastSegment<T>(rows: Mat<T>, off: nat, sub: nat, at: nat)
    requires sub > 0 && forall j :: 0 <= j < |rows| ==> off + sub <= |rows[j]|
    requires AtSegment(rows, off, sub, |rows|, at)
    ensures at == |Joined(rows, off + sub, sub)|
  {
    assert AtIf(true, rows, off, sub, |rows|, at);
    assert rows[..|rows|] == rows && off + sub - sub == off;
  }

  /** As long as not all the bytes asked for lie before off there is another stripe. */
  lemma MoreStripes<T>(rows: Mat<T>, size: nat, sub: nat, off: nat, at: nat, end: nat)
    requires sub > 0 && off <= size && Multiple(size - off, sub) && forall j :: 0 <= j < |rows| ==> |rows[j]| == size
    requires |Joined(rows, off, sub)| <= at < end <= |Joined(rows, size, sub)|
    ensures off < size && off + sub <= size && Multiple(size - (off + sub), sub)
  {
    assert off < size;
    assert size - off - sub == size - (off + sub);
  }

  /** JoinMulti's copy loops: skip bytes of the joined data are dropped, writeLen are written. */
  method Join<T>(rows: Mat<T>, size: nat, sub: nat, skip0: nat, writeLen0: nat) returns (out: seq<T>)
    requires sub > 0 && Multiple(size, sub) && |rows| > 0 && forall j :: 0 <= j < |rows| ==> |rows[j]| == size
    requires skip0 + writeLen0 <= |Joined(rows, size, sub)|
    ensures out == Joined(rows, size, sub)[skip0..skip0 + writeLen0]
  {
    ghost var J := Joined(rows, size, sub);
    out := [];
    var skip: nat, writeLen: nat, off: nat := skip0, writeLen0, 0;
    while writeLen > 0
      invariant off <= size && Multiple(size - off, sub)
      invariant |out| + writeLen == writeLen0 && Continues(J, skip0, out)
      invariant writeLen > 0 ==> skip0 + |out| == |Joined(rows, off, sub)| + skip
      decreases size - off
    {
      MoreStripes(rows, size, sub, off, skip0 + |out|, skip0 + writeLen0);
      out, skip, writeLen := JoinStripe(rows, size, sub, off, skip0, out, skip, writeLen);
      off := off + sub;
    }
  }

  // ---------- splitting ----------

  lemma {:induction false} StripeFrame<T>(rows: Mat<T>, rows': Mat<T>, off: nat, sub: nat)
    requires |rows| == |rows'|
    requires forall i :: 0 <= i < |rows| ==> off + sub <= |rows[i]| && off + sub <= |rows'[i]|
    requires forall i :: 0 <= i < |rows| ==> rows[i][..off + sub] == rows'[i][..off + sub]
    ensures Stripe(rows, off, sub) == Stripe(rows', off, sub)
  {
    if |rows| > 0 {
      var k := |rows| - 1;
      StripeFrame(rows[..k], rows'[..k], off, sub);
      assert rows[k][off..off + sub] == rows[k][..off + sub][off..];
      assert rows'[k][off..off + sub] == rows'[k][..off + sub][off..];
    }
  }

  lemma {:induction false} JoinedFrame<T>(rows: Mat<T>, rows': Mat<T>, off: nat, sub: nat)
    requires sub > 0 && |rows| == |rows'|
    requires forall i :: 0 <= i < |rows| ==> off <= |rows[i]| && off <= |rows'[i]|
    requires forall i :: 0 <= i < |rows| ==> rows[i][..off] == rows'[i][..off]
    ensures Joined(rows, off, sub) == Joined(rows', off, sub)
    decreases off
  {
    if off >= sub {
      var o := off - sub;
      forall i | 0 <= i < |rows| ensures rows[i][..o] == rows'[i][..o] {
        assert rows[i][..o] == rows[i][..off][..o] && rows'[i][..o] == rows'[i][..off][..o];
      }
      JoinedFrame(rows, rows', o, sub);
      StripeFrame(rows, rows', o, sub);
    }
  }

  /** The first size bytes of the first m buffers. */
  function Rows<T>(sh: seq<Shard<T>>, m: nat, size: nat): (rows: Mat<T>)
    requires m <= |sh| && forall i :: 0 <= i < m ==> size <= |sh[i].buf|
    ensures |rows| == m && forall i :: 0 <= i < m ==> |rows[i]| == size
  {
    seq(m, i requires 0 <= i < m => sh[i].buf[..size])
  }

  /** copy(b[off:], chunk) */
  function CopyAt<T>(b: seq<T>, off: nat, chunk: seq<T>): (r: seq<T>)
    requires off + |chunk| <= |b|
    ensures |r| == |b|
  {
    b[..off] + chunk + b[off + |chunk|..]
  }

  /** What has been laid out covers the data consumed, and is no longer while data remains. */
  ghost predicate Covers<T>(S: seq<T>, data: seq<T>, pos: nat) {
    pos <= |data| && data[..pos] <= S && (pos < |data| ==> |S| == pos)
  }

  lemma CoversNext<T>(S: seq<T>, data: seq<T>, pos: nat, segment: seq<T>, chunk: seq<T>, sub: nat)
    requires Covers(S, data, pos) && |segment| == sub && chunk <= segment
    requires chunk == data[pos..if pos + sub <= |data| then pos + sub else |data|]
    ensures Covers(S + segment, data, pos + |chunk|)
  {
    assert data[..pos + |chunk|] == data[..pos] + chunk;
    if pos < |data| {
      assert S == data[..pos];
    }
  }

  /** Copying the next chunk into shard i lays out one more segment. */
  lemma SplitStep<T>(sh: seq<Shard<T>>, m: nat, size: nat, sub: nat, off: nat, base: seq<T>, i: nat, data: seq<T>, pos: nat, chunk: seq<T>)
    requires i < m <= |sh| && off + sub <= size && forall j :: 0 <= j < m ==> size <= |sh[j].buf|
    requires Covers(base + Stripe(Rows(sh, m, size)[..i], off, sub), data, pos)
    requires chunk == data[pos..if pos + sub <= |data| then pos + sub else |data|]
    ensures var sh' := sh[i := sh[i].(buf := CopyAt(sh[i].buf, off, chunk))];
      Covers(base + Stripe(Rows(sh', m, size)[..i + 1], off, sub), data, pos + |chunk|)
  {
    var sh' := sh[i := sh[i].(buf := CopyAt(sh[i].buf, off, chunk))];
    var rows := Rows(sh', m, size);
    assert rows[..i] == Rows(sh, m, size)[..i] && rows[..i + 1][..i] == rows[..i];
    var segment := rows[i][off..off + sub];
    var S := base + Stripe(rows[..i], off, sub);
    forall k | 0 <= k < |chunk| ensures segment[k] == chunk[k] {
      assert segment[k] == rows[i][off + k] == sh'[i].buf[off + k];
    }
    CoversNext(S, data, pos, segment, chunk, sub);
    assert S + segment == base + Stripe(rows[..i + 1], off, sub);
  }

  /** The shards keep their lengths and capacities, and those from m on their contents. */
  ghost predicate SameSlices<T>(now: seq<Shard<T>>, was: seq<Shard<T>>, m: nat) {
    && |now| == |was|
    && (forall i :: 0 <= i < |was| ==> now[i].len == was[i].len && |now[i].buf| == |was[i].buf|)
    && (forall i :: m <= i < |was| ==> now[i] == was[i])
  }

  /** One round of the copy loop: the stripe at off. */
  method SplitStripe<T>(data: seq<T>, sh0: seq<Shard<T>>, m: nat, size: nat, sub: nat, off: nat, pos0: nat)
    returns (sh: seq<Shard<T>>, pos: nat)
    requires sub > 0 && off + sub <= size && m <= |sh0| && pos0 < |data|
    requires forall i :: 0 <= i < m ==> size <= |sh0[i].buf|
    requires Covers(Joined(Rows(sh0, m, size), off, sub), data, pos0)
    ensures SameSlices(sh, sh0, m)
    ensures Covers(Joined(Rows(sh, m, size), off + sub, sub), data, pos)
    ensures pos < |data| ==> pos == pos0 + m * sub
  {
    ghost var base := Joined(Rows(sh0, m, size), off, sub);
    sh, pos := sh0, pos0;
    assert base + Stripe(Rows(sh, m, size)[..0], off, sub) == base;
    for i := 0 to m
      invariant Splitting(sh, sh0, m, size, sub, off, base, i, data, pos)
      invariant pos < |data| ==> pos == pos0 + i * sub
    {
      var chunk := data[pos..if pos + sub <= |data| then pos + sub else |data|];
      SplittingStep(sh, sh0, m, size, sub, off, base, i, data, pos, chunk);
      TimesNext(i, sub);
      sh := sh[i := sh[i].(buf := CopyAt(sh[i].buf, off, chunk))];
      pos := pos + |chunk|;
    }
    StripeJoined(sh, sh0, m, size, sub, off);
  }

  lemma TimesNext(i: nat, sub: nat)
    ensures (i + 1) * sub == i * sub + sub
  {
  }

  /** The loop over the shards, with i of them written. */
  ghost predicate Splitting<T>(sh: seq<Shard<T>>, sh0: seq<Shard<T>>, m: nat, size: nat, sub: nat, off: nat,
    base: seq<T>, i: nat, data: seq<T>, pos: nat)
    requires i <= m <= |sh0| && off + sub <= size && forall j :: 0 <= j < m ==> size <= |sh0[j].buf|
  {
    && SameSlices(sh, sh0, m)
    && (forall j :: 0 <= j < m ==> sh[j].buf[..off] == sh0[j].buf[..off])
    && Covers(base + Stripe(Rows(sh, m, size)[..i], off, sub), data, pos)
  }

  lemma SplittingStep<T>(sh: seq<Shard<T>>, sh0: seq<Shard<T>>, m: nat, size: nat, sub: nat, off: nat, base: seq<T>, i: nat,
    data: seq<T>, pos: nat, chunk: seq<T>)
    requires i < m <= |sh0| && off + sub <= size && forall j :: 0 <= j < m ==> size <= |sh0[j].buf|
    requires Splitting(sh, sh0, m, size, sub, off, base, i, data, pos)
    requires chunk == data[pos..if pos + sub <= |data| then pos + sub else |data|]
    ensures var sh' := sh[i := sh[i].(buf := CopyAt(sh[i].buf, off, chunk))];
      Splitting(sh', sh0, m, size, sub, off, base, i + 1, data, pos + |chunk|)
  {
    SplitStep(sh, m, size, sub, off, base, i, data, pos, chunk);
  }

  /** Writing the stripe at off adds it to what is joined before it. */
  lemma StripeJoined<T>(sh: seq<Shard<T>>, sh0: seq<Shard<T>>, m: nat, size: nat, sub: nat, off: nat)
    requires sub > 0 && off + sub <= size && m <= |sh| && m <= |sh0|
    requires forall i :: 0 <= i < m ==> size <= |sh0[i].buf| && size <= |sh[i].buf| && sh[i].buf[..off] == sh0[i].buf[..off]
    ensures Joined(Rows(sh, m, size), off + sub, sub)
         == Joined(Rows(sh0, m, size), off, sub) + Stripe(Rows(sh, m, size)[..m], off, sub)
  {
    var rows, rows0 := Rows(sh, m, size), Rows(sh0, m, size);
    assert rows[..m] == rows;
    forall i | 0 <= i < m ensures rows[i][..off] == rows0[i][..off] {
      assert rows[i][..off] == sh[i].buf[..off] && rows0[i][..off] == sh0[i].buf[..off];
    }
    JoinedFrame(rows, rows0, off, sub);
    assert off + sub - sub == off;
  }

  lemma {:induction false} MultipleOf(k: nat, d: nat)
    requires d > 0
    ensures Multiple(k * d, d)
  {
    if k > 0 {
      MultipleOf(k - 1, d);
      assert k * d == (k - 1) * d + d;
    }
  }

  /** The number of stripes of chunk bytes needed for len bytes. */
  function NumChunks(len: nat, chunk: nat): nat
    requires chunk > 0
  {
    if len % chunk != 0 then len / chunk + 1 else len / chunk
  }

  lemma CeilingBound(len: nat, chunk: nat, t: nat)
    requires chunk > 0 && t * chunk < len
    ensures t < NumChunks(len, chunk)
  {
    assert len == len / chunk * chunk + len % chunk;
    assert NumChunks(len, chunk) * chunk >= len;
  }

  lemma ProductStep(t: nat, n: nat, d: nat)
    requires t < n
    ensures t * d + d == (t + 1) * d <= n * d
  {
    assert n * d == (t + 1) * d + (n - t - 1) * d;
  }

  lemma StripesSuffice(len: nat, m: nat, sub: nat, t: nat)
    requires m > 0 && sub > 0 && t * (m * sub) < len
    ensures t < NumChunks(len, m * sub)
    ensures t * sub + sub == (t + 1) * sub <= NumChunks(len, m * sub) * sub
    ensures t * (m * sub) + m * sub == (t + 1) * (m * sub)
  {
    CeilingBound(len, m * sub, t);
    ProductStep(t, NumChunks(len, m * sub), sub);
    ProductStep(t, t + 1, m * sub);
  }

  lemma StripesLeft(n: nat, sub: nat, t: nat)
    requires sub > 0 && t <= n
    ensures t * sub <= n * sub && Multiple(n * sub - t * sub, sub)
  {
    MultipleOf(n - t, sub);
    assert (n - t) * sub == n * sub - t * sub;
  }

  /** Reslices every shard to size, unless one lacks the capacity. */
  method Resize<T>(shards: seq<Shard<T>>, size: nat) returns (ok: bool, sh: seq<Shard<T>>)
    ensures |sh| == |shards| && forall j :: 0 <= j < |sh| ==> sh[j].buf == shards[j].buf
    ensures ok <==> forall i :: 0 <= i < |shards| ==> size <= |shards[i].buf|
    ensures ok ==> AllValid(sh) && SizesMatch(sh, size, false)
  {
    sh := shards;
    for i := 0 to |shards|
      invariant |sh| == |shards| && forall j :: 0 <= j < |sh| ==> sh[j].buf == shards[j].buf
      invariant forall j :: 0 <= j < i ==> sh[j].len == size && size <= |sh[j].buf|
    {
      if |sh[i].buf| < size {
        return false, sh;
      }
      sh := sh[i := sh[i].(len := size)];
    }
    return true, sh;
  }

  /** The copy loop of SplitMulti. */
  method CopyStripes<T>(data: seq<T>, sh0: seq<Shard<T>>, m: nat, sub: nat, numChunks: nat, size: nat) returns (sh: seq<Shard<T>>)
    requires m > 0 && sub > 0 && m <= |sh0| && numChunks == NumChunks(|data|, m * sub) && size == numChunks * sub
    requires forall i :: 0 <= i < m ==> size <= |sh0[i].buf|
    ensures SameSlices(sh, sh0, m)
    ensures data <= Joined(Rows(sh, m, size), size, sub)
  {
    sh := sh0;
    var off: nat, pos: nat := 0, 0;
    ghost var t: nat := 0;
    while pos < |data|
      invariant SameSlices(sh, sh0, m)
      invariant t <= numChunks && off == t * sub
      invariant pos < |data| ==> pos == t * (m * sub)
      invariant off <= size && Covers(Joined(Rows(sh, m, size), off, sub), data, pos)
      decreases numChunks - t
    {
      StripesSuffice(|data|, m, sub, t);
      sh, pos := SplitStripe(data, sh, m, size, sub, off, pos);
      off, t := off + sub, t + 1;
    }
    StripesLeft(numChunks, sub, t);
    JoinedPrefix(Rows(sh, m, size), off, sub, size);
    assert data[..pos] == data;
  }

  /** The size SplitMulti gives every shard. */
  function SplitSize(m: nat, len: nat, sub: nat): nat
    requires m > 0 && sub > 0
  {
    NumChunks(len, m * sub) * sub
  }

  /** SplitMulti.  On success the data are the beginning of the joined data shards. */
  method SplitMulti<T>(m: nat, data: seq<T>, shards: seq<Shard<T>>, sub: nat) returns (err: Error, sh: seq<Shard<T>>)
    requires m > 0 && sub > 0 && m <= |shards|
    ensures |sh| == |shards|
    ensures err == NoError <==> forall i :: 0 <= i < |shards| ==> SplitSize(m, |data|, sub) <= |shards[i].buf|
    ensures err == NoError ==> AllValid(sh) && SizesMatch(sh, SplitSize(m, |data|, sub), false)
    ensures err == NoError ==> forall i :: 0 <= i < |sh| ==> |sh[i].buf| == |shards[i].buf| && (i >= m ==> sh[i].buf == shards[i].buf)
    ensures err == NoError ==> Multiple(SplitSize(m, |data|, sub), sub)
    ensures err == NoError ==> data <= Joined(Rows(sh, m, SplitSize(m, |data|, sub)), SplitSize(m, |data|, sub), sub)
  {
    var chunkSize := m * sub;
    var numChunks := |data| / chunkSize;
    if |data| % chunkSize != 0 {
      numChunks := numChunks + 1;
    }
    var size := numChunks * sub;
    var ok;
    ok, sh := Resize(shards, size);
    if !ok {
      return ErrCapacity, sh;
    }
    MultipleOf(numChunks, sub);
    sh := CopyStripes(data, sh, m, sub, numChunks, size);
    return NoError, sh;
  }

  /** The bytes of the first i shards. */
  function TotalLen<T>(sh: seq<Shard<T>>, i: nat): nat
    requires i <= |sh|
  {
    if i == 0 then 0 else TotalLen(sh, i - 1) + sh[i - 1].len
  }

  lemma {:induction false} EqualLens<T>(sh: seq<Shard<T>>, i: nat, size: nat)
    requires i <= |sh| && forall k :: 0 <= k < i ==> sh[k].len == size
    ensures TotalLen(sh, i) == i * size
  {
    if i > 0 {
      EqualLens(sh, i - 1, size);
      assert i * size == (i - 1) * size + size;
    }
  }

  /** An empty shard comes before there are enough bytes. */
  ghost predicate LacksShard<T>(sh: seq<Shard<T>>, m: nat, writeLen: nat)
    requires m <= |sh|
  {
    exists i :: 0 <= i < m && sh[i].len == 0 && (i == 0 || TotalLen(sh, i) < writeLen)
  }

  /** How far into the shards JoinMulti reads: whole stripes, until skip + writeLen bytes. */
  function Reach(m: nat, sub: nat, skip: nat, writeLen: nat): nat
    requires m > 0 && sub > 0
  {
    if writeLen == 0 then 0 else NumChunks(skip + writeLen, m * sub) * sub
  }

  /** Slicing does not panic: the last stripe begins within each shard and ends within its capacity.
      (So it may lie past the end of the shard.) */
  predicate Readable<T>(sh: seq<Shard<T>>, m: nat, sub: nat, reach: nat)
    requires m <= |sh|
  {
    forall i :: 0 <= i < m ==> reach == 0 || (reach <= sh[i].len + sub && reach <= |sh[i].buf|)
  }

  /** What JoinMulti returns.  The check of the size does not count the bytes to skip, so a request
      past the end is a panic, or reads what the buffers hold there. */
  ghost function JoinResult<T>(m: nat, sh: seq<Shard<T>>, sub: nat, skip: nat, writeLen: nat): Error
    requires m > 0 && sub > 0
  {
    if |sh| < m then ErrTooFewShards
    else if LacksShard(sh, m, writeLen) then ErrReconstructRequired
    else if TotalLen(sh, m) < writeLen then ErrShortData
    else if !Readable(sh, m, sub, Reach(m, sub, skip, writeLen)) then Panicked
    else NoError
  }

  /** The check of the shards' sizes. */
  method CheckData<T>(m: nat, sh: seq<Shard<T>>, writeLen: nat) returns (err: Error)
    requires 0 < m <= |sh|
    ensures err == if LacksShard(sh, m, writeLen) then ErrReconstructRequired
                   else if TotalLen(sh, m) < writeLen then ErrShortData else NoError
  {
    var total := 0;
    for i := 0 to m
      invariant total == TotalLen(sh, i) && (i > 0 ==> total < writeLen)
      invariant forall k :: 0 <= k < i ==> sh[k].len != 0
    {
      if sh[i].len == 0 {
        return ErrReconstructRequired;
      }
      total := total + sh[i].len;
      if total >= writeLen {
        TotalGrows(sh, i + 1, m);
        forall k | i < k < m ensures TotalLen(sh, k) >= writeLen {
          TotalGrows(sh, i + 1, k);
        }
        return NoError;
      }
    }
    return ErrShortData;
  }

  lemma {:induction false} TotalGrows<T>(sh: seq<Shard<T>>, i: nat, k: nat)
    requires i <= k <= |sh|
    ensures TotalLen(sh, i) <= TotalLen(sh, k)
    decreases k
  {
    if i < k {
      TotalGrows(sh, i, k - 1);
    }
  }

  lemma ReachSuffices(m: nat, sub: nat, skip: nat, writeLen: nat)
    requires m > 0 && sub > 0 && writeLen > 0
    ensures var reach := Reach(m, sub, skip, writeLen); skip + writeLen <= m * reach && Multiple(reach, sub)
  {
    var k := NumChunks(skip + writeLen, m * sub);
    if k * (m * sub) < skip + writeLen {
      CeilingBound(skip + writeLen, m * sub, k);
    }
    assert k * (m * sub) == m * (k * sub);
    MultipleOf(k, sub);
  }

  /** The bytes read from the stripes that are reached. */
  ghost function JoinedSlice<T>(m: nat, sh: seq<Shard<T>>, sub: nat, skip: nat, writeLen: nat): seq<T>
    requires 0 < m <= |sh| && sub > 0 && Readable(sh, m, sub, Reach(m, sub, skip, writeLen))
  {
    if writeLen == 0 then []
    else
      var reach := Reach(m, sub, skip, writeLen);
      ReachSuffices(m, sub, skip, writeLen);
      JoinedLength(Rows(sh, m, reach), reach, sub);
      Joined(Rows(sh, m, reach), reach, sub)[skip..skip + writeLen]
  }

  /** JoinMulti, on shards of any sizes.  A panic is that of the last stripe: the earlier ones begin
      and end before it. */
  method JoinMulti<T>(m: nat, shards: seq<Shard<T>>, sub: nat, skip: nat, writeLen: nat)
    returns (err: Error, out: seq<T>)
    requires m > 0 && sub > 0
    ensures err == JoinResult(m, shards, sub, skip, writeLen)
    ensures err == NoError ==> out == JoinedSlice(m, shards, sub, skip, writeLen)
  {
    if |shards| < m {
      return ErrTooFewShards, [];
    }
    err := CheckData(m, shards, writeLen);
    if err != NoError || writeLen == 0 {
      return err, [];
    }
    var reach := Reach(m, sub, skip, writeLen);
    if !Readable(shards, m, sub, reach) {
      return Panicked, [];
    }
    ReachSuffices(m, sub, skip, writeLen);
    JoinedLength(Rows(shards, m, reach), reach, sub);
    out := Join(Rows(shards, m, reach), reach, sub, skip, writeLen);
    return NoError, out;
  }

  lemma CeilingAtMost(len: nat, chunk: nat, q: nat)
    requires chunk > 0 && len <= q * chunk
    ensures NumChunks(len, chunk) <= q
  {
    var d, r := len / chunk, len % chunk;
    assert len == d * chunk + r;
    assert (d - q) * chunk == d * chunk - q * chunk;
    NotPositive(d - q, chunk);
  }

  lemma NotPositive(x: int, c: nat)
    requires c > 0 && x * c <= 0
    ensures x <= 0
  {
  }

  lemma {:induction false} Divide(n: nat, d: nat) returns (q: nat)
    requires d > 0 && Multiple(n, d)
    ensures n == q * d
  {
    if n == 0 {
      q := 0;
    } else {
      q := Divide(n - d, d);
      q := q + 1;
    }
  }

  /** Within shards of whole segments, what is read is what they hold. */
  lemma ReachWithin<T>(sh: seq<Shard<T>>, m: nat, size: nat, sub: nat, skip: nat, writeLen: nat)
    requires 0 < m <= |sh| && sub > 0 && Multiple(size, sub) && 0 < writeLen && skip + writeLen <= m * size
    requires forall i :: 0 <= i < m ==> size <= |sh[i].buf|
    ensures var reach := Reach(m, sub, skip, writeLen);
      reach <= size && Joined(Rows(sh, m, reach), reach, sub) <= Joined(Rows(sh, m, size), size, sub)
  {
    var q := Divide(size, sub);
    var k := NumChunks(skip + writeLen, m * sub);
    assert m * (q * sub) == q * (m * sub);
    CeilingAtMost(skip + writeLen, m * sub, q);
    StripesLeft(q, sub, k);
    JoinedWithin(sh, m, k * sub, size, sub);
  }

  lemma JoinedWithin<T>(sh: seq<Shard<T>>, m: nat, reach: nat, size: nat, sub: nat)
    requires m <= |sh| && sub > 0 && reach <= size && Multiple(size - reach, sub)
    requires forall i :: 0 <= i < m ==> size <= |sh[i].buf|
    ensures Joined(Rows(sh, m, reach), reach, sub) <= Joined(Rows(sh, m, size), size, sub)
  {
    var rows, all := Rows(sh, m, reach), Rows(sh, m, size);
    forall i | 0 <= i < m ensures rows[i][..reach] == all[i][..reach] {
      assert rows[i] == sh[i].buf[..reach] && all[i] == sh[i].buf[..size];
    }
    JoinedFrame(rows, all, reach, sub);
    JoinedPrefix(all, reach, sub, size);
  }

  /** Of whole shards of one size, JoinMulti reads what they hold, and is short of data or past their end
      exactly when they are. */
  lemma WholeShards<T>(sh: seq<Shard<T>>, m: nat, size: nat, sub: nat, skip: nat, n: nat)
    requires 0 < m <= |sh| && sub > 0 && Multiple(size, sub) && size > 0
    requires forall i :: 0 <= i < m ==> sh[i].len == size <= |sh[i].buf|
    ensures JoinResult(m, sh, sub, skip, n) == ErrShortData <==> m * size < n
    ensures skip + n <= m * size ==> Readable(sh, m, sub, Reach(m, sub, skip, n)) && JoinResult(m, sh, sub, skip, n) == NoError
    ensures skip + n <= m * size ==>
      && skip + n <= |Joined(Rows(sh, m, size), size, sub)|
      && JoinedSlice(m, sh, sub, skip, n) == Joined(Rows(sh, m, size), size, sub)[skip..skip + n]
  {
    EqualLens(sh, m, size);
    if skip + n <= m * size {
      WholeReadable(sh, m, size, sub, skip, n);
      WholeSlice(sh, m, size, sub, skip, n);
    }
  }

  lemma WholeReadable<T>(sh: seq<Shard<T>>, m: nat, size: nat, sub: nat, skip: nat, n: nat)
    requires 0 < m <= |sh| && sub > 0 && Multiple(size, sub) && skip + n <= m * size
    requires forall i :: 0 <= i < m ==> sh[i].len == size <= |sh[i].buf|
    ensures Readable(sh, m, sub, Reach(m, sub, skip, n))
  {
    if n > 0 {
      ReachWithin(sh, m, size, sub, skip, n);
    }
  }

  lemma WholeSlice<T>(sh: seq<Shard<T>>, m: nat, size: nat, sub: nat, skip: nat, n: nat)
    requires 0 < m <= |sh| && sub > 0 && Multiple(size, sub) && skip + n <= m * size
    requires Readable(sh, m, sub, Reach(m, sub, skip, n)) && forall i :: 0 <= i < m ==> size <= |sh[i].buf|
    ensures skip + n <= |Joined(Rows(sh, m, size), size, sub)|
    ensures JoinedSlice(m, sh, sub, skip, n) == Joined(Rows(sh, m, size), size, sub)[skip..skip + n]
  {
    var all := Joined(Rows(sh, m, size), size, sub);
    JoinedLength(Rows(sh, m, size), size, sub);
    if n > 0 {
      var reach := Reach(m, sub, skip, n);
      ReachWithin(sh, m, size, sub, skip, n);
      ReachSuffices(m, sub, skip, n);
      JoinedLength(Rows(sh, m, reach), reach, sub);
      PrefixSlice(Joined(Rows(sh, m, reach), reach, sub), all, skip, n);
    }
  }

  lemma PrefixSlice<T>(part: seq<T>, all: seq<T>, skip: nat, n: nat)
    requires part <= all && skip + n <= |part|
    ensures part[skip..skip + n] == all[skip..skip + n]
  {
  }

  // ---------- the coder over bytes ----------

  type Byte = Gf256Tables.Byte

  /** merkle.SegmentSize */
  const SEGMENT := 64

  function RowPoints(n: nat): (points: seq<Byte>)
    ensures |points| == n
  {
    seq(n, (r: nat) => G.ToByte(r))
  }

  /** The bytes with the numbers 0, 1, 2 and so on. */
  ghost predicate Numbers(points: seq<Byte>) {
    forall r :: 0 <= r < |points| ==> G.ByteValue(points[r]) == r
  }

  /** There is one such sequence of every length up to 256. */
  lemma RowPointsAre(points: seq<Byte>)
    requires |points| <= 256
    ensures Numbers(points) <==> points == RowPoints(|points|)
  {
    forall r | 0 <= r < |points| ensures G.ByteValue(points[r]) == r <==> points[r] == RowPoints(|points|)[r] {
      G.ToByteValue(r);
      G.ByteOf(points[r]);
    }
  }

  /** The tables multiply as the field does. */
  ghost predicate SameProduct<T(!new)>(t: L.Tables<T>, F: Field<T>) {
    t.exp(0) == F.one && t.mul == F.mul
  }

  /** The table arithmetic raises to the same powers as the field. */
  lemma {:induction false} PowerIsPow<T(!new)>(t: L.Tables<T>, F: Field<T>, a: T, n: nat)
    requires SameProduct(t, F)
    ensures L.Power(t, a, n) == Pow(F, a, n)
  {
    if n > 0 {
      PowerIsPow(t, F, a, n - 1);
    }
  }

  method TablePower<T(!new, ==)>(t: L.Tables<T>, ghost F: Field<T>, a: T, n: nat) returns (r: T)
    requires L.Cyclic(t) && SameProduct(t, F)
    ensures r == Pow(F, a, n)
  {
    PowerIsPow(t, F, a, n);
    r := L.Exponentiate(t, a, n);
  }

  /** One row of vandermonde. */
  method VandermondeRow<T(!new, ==)>(t: L.Tables<T>, ghost F: Field<T>, a: T, cols: nat) returns (row: Vec<T>)
    requires L.Cyclic(t) && SameProduct(t, F)
    ensures row == Powers(F, a, cols)
  {
    row := [];
    for c := 0 to cols
      invariant row == Powers(F, a, c)
    {
      var entry := TablePower(t, F, a, c);
      row := row + [entry];
    }
  }

  /** vandermonde, entry by entry with galExp. */
  method BuildVandermonde<T(!new, ==)>(t: L.Tables<T>, ghost F: Field<T>, points: seq<T>, cols: nat) returns (vm: Mat<T>)
    requires L.Cyclic(t) && SameProduct(t, F)
    ensures vm == VandermondeMatrix(F, points, cols)
  {
    vm := [];
    for r := 0 to |points|
      invariant |vm| == r && forall i :: 0 <= i < r ==> vm[i] == Powers(F, points[i], cols)
    {
      var row := VandermondeRow(t, F, points[r], cols);
      vm := vm + [row];
    }
  }

  /** New: refuses non-positive counts and more than 256 shards. */
  method New(dataShards: int, parityShards: int) returns (err: Error, coder: Coder<Byte>)
    ensures err == if dataShards <= 0 || parityShards <= 0 then ErrInvShardNum
                   else if dataShards + parityShards > 256 then ErrMaxShardNum else NoError
    ensures err == NoError ==>
      ValidCoder(G.Gf(), coder) && coder.data == dataShards && coder.shards == dataShards + parityShards
    ensures err == NoError ==> forall points: seq<Byte> ::
      |points| == coder.shards && Numbers(points) ==> Interpolates(G.Gf(), coder.matrix, coder.data, points)
  {
    coder := Coder(0, 0, []);
    if dataShards <= 0 || parityShards <= 0 {
      return ErrInvShardNum, coder;
    }
    if dataShards + parityShards > 256 {
      return ErrMaxShardNum, coder;
    }
    var points := RowPoints(dataShards + parityShards);
    G.GfIsField();
    assert Distinct(points) by {
      forall i, j | 0 <= i < j < |points| ensures points[i] != points[j] {
        if points[i] == points[j] {
          G.ToByteInjective(i, j);
        }
      }
    }
    G.GfIsCyclic();
    var vm := BuildVandermonde(G.GfTables(), G.Gf(), points, dataShards);
    var E := BuildMatrix(G.Gf(), dataShards, points, vm);
    forall other: seq<Byte> | |other| == |points| && Numbers(other) ensures other == points {
      RowPointsAre(other);
    }
    return NoError, Coder(dataShards, dataShards + parityShards, E);
  }

  lemma {:induction false} StripeLength<T>(rows: Mat<T>, off: nat, sub: nat)
    requires forall i :: 0 <= i < |rows| ==> off + sub <= |rows[i]|
    ensures |Stripe(rows, off, sub)| == |rows| * sub
  {
    if |rows| > 0 {
      StripeLength(rows[..|rows| - 1], off, sub);
      assert |rows| * sub == (|rows| - 1) * sub + sub;
    }
  }

  lemma {:induction false} JoinedLength<T>(rows: Mat<T>, off: nat, sub: nat)
    requires sub > 0 && Multiple(off, sub) && forall i :: 0 <= i < |rows| ==> off <= |rows[i]|
    ensures |Joined(rows, off, sub)| == |rows| * off
    decreases off
  {
    if off > 0 {
      JoinedLength(rows, off - sub, sub);
      StripeLength(rows, off - sub, sub);
      assert |rows| * off == |rows| * (off - sub) + |rows| * sub;
    }
  }

  lemma FirstNonEmpty<T>(sh: seq<Shard<T>>, size: nat)
    requires |sh| > 0 && SizesMatch(sh, size, false)
    ensures ShardSize(sh) == size
  {
    if size == 0 {
      NoneNonEmpty(sh);
    }
  }

  lemma {:induction false} NoneNonEmpty<T>(sh: seq<Shard<T>>)
    requires SizesMatch(sh, 0, false)
    ensures ShardSize(sh) == 0
  {
    if |sh| > 0 {
      NoneNonEmpty(sh[1..]);
    }
  }

  /** Segment after segment of the data goes to one data shard after the other: segment i of stripe t is
      segment t of shard i. */
  ghost predicate LaidOut(data: seq<Byte>, sh: seq<Shard<Byte>>, m: nat) {
    forall t: nat, i: nat, b: nat | i < m <= |sh| && b < SEGMENT :: LaidOutAt(data, sh, m, t, i, b)
  }

  ghost predicate LaidOutAt(data: seq<Byte>, sh: seq<Shard<Byte>>, m: nat, t: nat, i: nat, b: nat)
    requires i < |sh|
  {
    var off, at := SEGMENT * t, m * (SEGMENT * t) + (i * SEGMENT + b);
    at < |data| ==> off + b < |sh[i].buf| && sh[i].buf[off + b] == data[at]
  }

  lemma LayoutOf(data: seq<Byte>, sh: seq<Shard<Byte>>, m: nat, size: nat)
    requires 0 < m <= |sh| && AllValid(sh) && SizesMatch(sh, size, false) && Multiple(size, SEGMENT)
    requires data <= Joined(Contents(sh)[..m], size, SEGMENT)
    ensures LaidOut(data, sh, m)
  {
    var rows := Contents(sh)[..m];
    assert forall j :: 0 <= j < m ==> rows[j] == sh[j].buf[..size];
    forall t: nat, i: nat, b: nat | i < m <= |sh| && b < SEGMENT ensures LaidOutAt(data, sh, m, t, i, b) {
      ByteLaid(data, sh, rows, Joined(rows, size, SEGMENT), m, size, t, i, b);
    }
  }

  lemma ByteLaid(data: seq<Byte>, sh: seq<Shard<Byte>>, rows: Mat<Byte>, J: seq<Byte>, m: nat, size: nat, t: nat, i: nat, b: nat)
    requires i < |rows| == m <= |sh| && b < SEGMENT && Multiple(size, SEGMENT) && forall j :: 0 <= j < |rows| ==> |rows[j]| == size
    requires J == Joined(rows, size, SEGMENT) && data <= J && size <= |sh[i].buf| && rows[i] == sh[i].buf[..size]
    ensures LaidOutAt(data, sh, m, t, i, b)
  {
    var off := SEGMENT * t;
    var at := m * off + (i * SEGMENT + b);
    JoinedByte(rows, size, J, m, t, i, b, off, at);
    LayoutAt(data, sh[i].buf, rows[i], J, off + b, at);
  }

  lemma LayoutAt(data: seq<Byte>, buf: seq<Byte>, row: seq<Byte>, J: seq<Byte>, k: nat, at: nat)
    requires data <= J && row <= buf && (at < |J| ==> k < |row| && J[at] == row[k])
    ensures at < |data| ==> k < |buf| && buf[k] == data[at]
  {
  }

  lemma JoinedByte(rows: Mat<Byte>, size: nat, J: seq<Byte>, m: nat, t: nat, i: nat, b: nat, off: nat, at: nat)
    requires i < |rows| == m && b < SEGMENT && Multiple(size, SEGMENT) && forall j :: 0 <= j < |rows| ==> |rows[j]| == size
    requires J == Joined(rows, size, SEGMENT) && off == SEGMENT * t && at == m * off + (i * SEGMENT + b)
    ensures at < |J| ==> off + b < size && J[at] == rows[i][off + b]
  {
    JoinedLength(rows, size, SEGMENT);
    if at < |J| {
      OffWithin(m, off, size, i * SEGMENT + b);
      SegmentsOf(size, t);
      JoinedAt(rows, size, SEGMENT, off, i, b);
    }
  }

  lemma OffWithin(m: nat, off: nat, size: nat, rest: nat)
    requires m * off + rest < m * size
    ensures off < size
  {
  }

  /** The layout of the interleaved data, byte by byte: segment i of the stripe at off is the segment at
      off of row i. */
  lemma JoinedAt<T>(rows: Mat<T>, size: nat, sub: nat, off: nat, i: nat, b: nat)
    requires sub > 0 && off < size && Multiple(size - off, sub) && Multiple(off, sub) && i < |rows| && b < sub
    requires forall j :: 0 <= j < |rows| ==> size <= |rows[j]|
    ensures var at := |rows| * off + (i * sub + b);
      off + b < size && at < |Joined(rows, size, sub)| && Joined(rows, size, sub)[at] == rows[i][off + b]
  {
    JoinedLength(rows, off, sub);
    StripeLength(rows[..i], off, sub);
    JoinedSegment(rows, size, sub, off, i, b);
  }

  lemma JoinedSegment<T>(rows: Mat<T>, size: nat, sub: nat, off: nat, i: nat, b: nat)
    requires sub > 0 && off < size && Multiple(size - off, sub) && i < |rows| && b < sub
    requires forall j :: 0 <= j < |rows| ==> size <= |rows[j]|
    ensures off + b < size
    ensures var at := |Joined(rows, off, sub)| + (|Stripe(rows[..i], off, sub)| + b);
      at < |Joined(rows, size, sub)| && Joined(rows, size, sub)[at] == rows[i][off + b]
  {
    StripePrefix(rows, off, sub, i);
    JoinedNext(rows, size, sub, off);
    InMiddle(Joined(rows, off, sub), Stripe(rows[..i], off, sub), rows[i][off..off + sub], Stripe(rows, off, sub),
             Joined(rows, size, sub), b);
  }

  lemma JoinedNext<T>(rows: Mat<T>, size: nat, sub: nat, off: nat)
    requires sub > 0 && off < size && Multiple(size - off, sub) && forall j :: 0 <= j < |rows| ==> size <= |rows[j]|
    ensures off + sub <= size && Joined(rows, off, sub) + Stripe(rows, off, sub) <= Joined(rows, size, sub)
  {
    assert size - (off + sub) == size - off - sub;
    JoinedPrefix(rows, off + sub, sub, size);
  }

  lemma InMiddle<T>(a: seq<T>, b: seq<T>, c: seq<T>, y: seq<T>, J: seq<T>, k: nat)
    requires b + c <= y && a + y <= J && k < |c|
    ensures |a| + (|b| + k) < |J| && J[|a| + (|b| + k)] == c[k]
  {
    assert c[k] == (b + c)[|b| + k] == y[|b| + k] == (a + y)[|a| + (|b| + k)];
  }

  lemma {:induction false} SegmentsOf(size: nat, t: nat)
    requires Multiple(size, SEGMENT) && SEGMENT * t < size
    ensures Multiple(SEGMENT * t, SEGMENT) && Multiple(size - SEGMENT * t, SEGMENT)
  {
    if t > 0 {
      SegmentsOf(size - SEGMENT, t - 1);
      assert size - SEGMENT - SEGMENT * (t - 1) == size - SEGMENT * t;
    }
  }

  /** Byte k of shard r is the value at the byte r of the polynomial of degree below m that has byte k of
      the data shards at the bytes 0 to m - 1. */
  ghost predicate OnPolynomials(sh: seq<Shard<Byte>>, m: nat, size: nat)
    requires m <= |sh| && forall i :: 0 <= i < |sh| ==> size <= |sh[i].buf|
  {
    forall points: seq<Byte>, p: Vec<Byte>, k: nat, r: nat | |points| == |sh| && Numbers(points) && |p| == m && k < size && r < |sh| ::
      (forall i :: 0 <= i < m ==> sh[i].buf[k] == Eval(G.Gf(), p, points[i])) ==> sh[r].buf[k] == Eval(G.Gf(), p, points[r])
  }

  lemma CodewordOnPolynomials(coder: Coder<Byte>, sh: seq<Shard<Byte>>, size: nat)
    requires coder.data <= coder.shards == |sh| && AllValid(sh) && SizesMatch(sh, size, false)
    requires IsCodeword(G.Gf(), coder.matrix, coder.data, Contents(sh), size)
    requires forall points: seq<Byte> :: |points| == |sh| && Numbers(points) ==> Interpolates(G.Gf(), coder.matrix, coder.data, points)
    ensures OnPolynomials(sh, coder.data, size)
  {
    forall points: seq<Byte>, p: Vec<Byte>, k: nat, r: nat |
      |points| == |sh| && Numbers(points) && |p| == coder.data && k < size && r < |sh| &&
      forall i :: 0 <= i < coder.data ==> sh[i].buf[k] == Eval(G.Gf(), p, points[i])
      ensures sh[r].buf[k] == Eval(G.Gf(), p, points[r])
    {
      ShardsInterpolate(G.Gf(), coder.matrix, coder.data, points, sh, size, k, p, r);
    }
  }

  /** How large the shards are: the fewest whole segments that hold the data. */
  lemma SplitSizeIs(m: nat, len: nat)
    requires m > 0 && len > 0
    ensures var size := SplitSize(m, len, SEGMENT); m * (size - SEGMENT) < len <= m * size && size % SEGMENT == 0
  {
    var chunk, k := m * SEGMENT, NumChunks(len, m * SEGMENT);
    assert len == len / chunk * chunk + len % chunk;
    assert k * chunk - chunk < len <= k * chunk;
    assert k * chunk == m * (k * SEGMENT) && k * chunk - chunk == m * (k * SEGMENT - SEGMENT);
  }

  /** rsCode.Encode; the source panics on the inputs excluded here. */
  method EncodeData(coder: Coder<Byte>, data: seq<Byte>, shards: array<Shard<Byte>>)
    requires ValidCoder(G.Gf(), coder) && shards.Length == coder.shards && |data| > 0
    requires forall i :: 0 <= i < shards.Length ==> SplitSize(coder.data, |data|, SEGMENT) <= |shards[i].buf|
    modifies shards
    ensures AllValid(shards[..]) && SizesMatch(shards[..], SplitSize(coder.data, |data|, SEGMENT), false)
    ensures SplitSize(coder.data, |data|, SEGMENT) > 0 && Multiple(SplitSize(coder.data, |data|, SEGMENT), SEGMENT)
    ensures IsCodeword(G.Gf(), coder.matrix, coder.data, Contents(shards[..]), SplitSize(coder.data, |data|, SEGMENT))
    ensures data <= Joined(Contents(shards[..])[..coder.data], SplitSize(coder.data, |data|, SEGMENT), SEGMENT)
    ensures LaidOut(data, shards[..], coder.data)
  {
    var m := coder.data;
    ghost var size := SplitSize(m, |data|, SEGMENT);
    StripesSuffice(|data|, m, SEGMENT, 0);
    var err, sh := SplitMulti(m, data, shards[..], SEGMENT);
    for i := 0 to shards.Length
      invariant forall j :: 0 <= j < i ==> shards[j] == sh[j]
    {
      shards[i] := sh[i];
    }
    assert shards[..] == sh;
    FirstNonEmpty(sh, size);
    err := Encode(G.Gf(), coder, shards);
    assert Contents(shards[..])[..m] == Rows(sh, m, size) by {
      forall i | 0 <= i < m ensures shards[i] == sh[i] {
        assert i !in ParityIndices(coder);
      }
    }
    LayoutOf(data, shards[..], m, size);
  }

  /** NewRSCode and Encode: the data segment by segment on the first m shards, and on every shard the
      values of the polynomials through their bytes. */
  method EncodeShards(m: nat, n: nat, data: seq<Byte>, shards: array<Shard<Byte>>) returns (coder: Coder<Byte>)
    requires 1 <= m < n <= 256 && |data| > 0 && shards.Length == n
    requires forall i :: 0 <= i < n ==> SplitSize(m, |data|, SEGMENT) <= |shards[i].buf|
    modifies shards
    ensures ValidCoder(G.Gf(), coder) && coder.data == m && coder.shards == n
    ensures AllValid(shards[..]) && SizesMatch(shards[..], SplitSize(m, |data|, SEGMENT), false)
    ensures IsCodeword(G.Gf(), coder.matrix, m, Contents(shards[..]), SplitSize(m, |data|, SEGMENT))
    ensures data <= Joined(Contents(shards[..])[..m], SplitSize(m, |data|, SEGMENT), SEGMENT)
    ensures var size := shards[0].len; 0 < size && m * (size - SEGMENT) < |data| <= m * size && size % SEGMENT == 0
    ensures LaidOut(data, shards[..], m) && OnPolynomials(shards[..], m, shards[0].len)
    ensures Multiple(SplitSize(m, |data|, SEGMENT), SEGMENT)
  {
    var err;
    err, coder := New(m, n - m);
    EncodeData(coder, data, shards);
    SplitSizeIs(m, |data|);
    ghost var size := SplitSize(m, |data|, SEGMENT);
    assert shards[0].len == size;
    CodewordOnPolynomials(coder, shards[..], size);
  }

  /** rsCode.Recover: with enough shards of a codeword present, the requested bytes of its
      joined data are written.  Of a request past its end JoinMulti makes what it does, on the
      restored shards. */
  method Recover(coder: Coder<Byte>, shards: array<Shard<Byte>>, off: nat, n: nat, size: nat) returns (err: Error, out: seq<Byte>)
    requires ValidCoder(G.Gf(), coder) && shards.Length == coder.shards && AllValid(shards[..])
    requires size == ShardSize(shards[..]) && SizesMatch(shards[..], size, true) && Multiple(size, SEGMENT)
    requires forall i :: 0 <= i < shards.Length ==> size <= |shards[i].buf|
    modifies shards
    ensures err == if old(ReconstructResult(shards[..], coder, true)) != NoError then old(ReconstructResult(shards[..], coder, true))
                   else JoinResult(coder.data, shards[..], SEGMENT, off, n)
    ensures err == NoError ==> out == JoinedSlice(coder.data, shards[..], SEGMENT, off, n)
    ensures old(ReconstructResult(shards[..], coder, true)) == NoError ==>
      && (err == ErrShortData <==> coder.data * size < n)
      && (off + n <= coder.data * size ==> err == NoError)
    ensures err == NoError && off + n <= coder.data * size ==>
      forall C: Mat<Byte> :: RecoveredFrom(coder, old(shards[..]), size, off, n, out, C)
  {
    ghost var was := shards[..];
    out := [];
    err := Reconstruct(G.Gf(), coder, shards, true);
    if err != NoError {
      return;
    }
    var m := coder.data;
    WholeShards(shards[..], m, size, SEGMENT, off, n);
    err, out := JoinMulti(m, shards[..], SEGMENT, off, n);
    if err == NoError && off + n <= m * size {
      forall C: Mat<Byte> ensures RecoveredFrom(coder, was, size, off, n, out, C) {
        RowsRestored(coder, was, shards[..], size, C);
      }
    }
  }

  /** The bytes are those of the joined data of every codeword the present shards agree with. */
  ghost predicate RecoveredFrom(coder: Coder<Byte>, was: seq<Shard<Byte>>, size: nat, off: nat, n: nat, out: seq<Byte>, C: Mat<Byte>) {
    IsCodeword(G.Gf(), coder.matrix, coder.data, C, size) && Agrees(was, C) ==>
      && coder.data <= |C| && Shape(C[..coder.data], coder.data, size)
      && off + n <= |Joined(C[..coder.data], size, SEGMENT)|
      && out == Joined(C[..coder.data], size, SEGMENT)[off..off + n]
  }

  lemma RowsRestored(coder: Coder<Byte>, was: seq<Shard<Byte>>, now: seq<Shard<Byte>>, size: nat, C: Mat<Byte>)
    requires ValidCoder(G.Gf(), coder) && |was| == coder.shards && Restores(G.Gf(), coder, was, now, size, coder.data)
    requires forall i :: 0 <= i < coder.data ==> now[i].len == size
    ensures IsCodeword(G.Gf(), coder.matrix, coder.data, C, size) && Agrees(was, C) ==>
      coder.data <= |C| && Shape(C[..coder.data], coder.data, size) && C[..coder.data] == Rows(now, coder.data, size)
  {
    if IsCodeword(G.Gf(), coder.matrix, coder.data, C, size) && Agrees(was, C) {
      assert RestoredTo(G.Gf(), coder, was, now, size, coder.data, C);
      forall i | 0 <= i < coder.data ensures C[i] == now[i].buf[..size] {
        assert now[i].Content() == C[i];
      }
    }
  }

  /** A shard either survives or comes back with length zero and arbitrary bytes in its buffer. */
  function Erase(sh: seq<Shard<Byte>>, survives: seq<bool>, garbage: seq<seq<Byte>>): (r: seq<Shard<Byte>>)
    requires |survives| == |garbage| == |sh|
    ensures |r| == |sh|
  {
    seq(|sh|, i requires 0 <= i < |sh| => if survives[i] then sh[i] else Shard(garbage[i], 0))
  }

  function Survivors(survives: seq<bool>): nat {
    if |survives| == 0 then 0 else Survivors(survives[..|survives| - 1]) + if survives[|survives| - 1] then 1 else 0
  }

  lemma {:induction false} PresentSurvivors(sh: seq<Shard<Byte>>, survives: seq<bool>, garbage: seq<seq<Byte>>, k: nat)
    requires |survives| == |garbage| == |sh| && k <= |sh|
    requires forall i :: 0 <= i < |sh| ==> sh[i].len > 0
    ensures Present(Erase(sh, survives, garbage), k) == Survivors(survives[..k])
  {
    if k > 0 {
      PresentSurvivors(sh, survives, garbage, k - 1);
      assert survives[..k][..k - 1] == survives[..k - 1];
    }
  }

  lemma {:induction false} ShardSizeExists<T>(sh: seq<Shard<T>>, size: nat, k: nat)
    requires k <= |sh| && size > 0 && SizesMatch(sh, size, true)
    requires exists i :: k <= i < |sh| && sh[i].len != 0
    ensures ShardSize(sh[k..]) == size
    decreases |sh| - k
  {
    if sh[k].len == 0 {
      assert sh[k..][1..] == sh[k + 1..];
      ShardSizeExists(sh, size, k + 1);
    }
  }

  /** What Recover needs of the erased shards. */
  lemma ErasedIsRecoverable(coder: Coder<Byte>, sh: seq<Shard<Byte>>, size: nat, survives: seq<bool>, garbage: seq<seq<Byte>>)
    requires 0 < coder.data <= coder.shards == |sh| == |survives| == |garbage| && AllValid(sh)
    requires size > 0 && SizesMatch(sh, size, false) && Survivors(survives) >= coder.data
    requires forall i :: 0 <= i < |sh| ==> size <= |garbage[i]|
    ensures var er := Erase(sh, survives, garbage);
      && AllValid(er) && SizesMatch(er, size, true) && ShardSize(er) == size
      && (forall i :: 0 <= i < |er| ==> size <= |er[i].buf|)
      && Agrees(er, Contents(sh))
      && ReconstructResult(er, coder, true) == NoError
  {
    var er := Erase(sh, survives, garbage);
    PresentSurvivors(sh, survives, garbage, |sh|);
    assert survives[..|sh|] == survives;
    var v := PresentIndices(er, |er|);
    assert er[v[0]].len != 0;
    ShardSizeExists(er, size, 0);
    assert er[0..] == er;
  }

  /** A range of the data is that range of what the shards hold. */
  lemma EncodedRange(rows: Mat<Byte>, size: nat, data: seq<Byte>, off: nat, len: nat)
    requires Multiple(size, SEGMENT) && forall i :: 0 <= i < |rows| ==> |rows[i]| == size
    requires data <= Joined(rows, size, SEGMENT) && off + len <= |data|
    ensures off + len <= |rows| * size && Joined(rows, size, SEGMENT)[off..off + len] == data[off..off + len]
  {
    JoinedLength(rows, size, SEGMENT);
  }

  /** The end-to-end law: encode, lose any shards but at least m, and recover any range of
      the original data. */
  method RoundTrip(m: nat, n: nat, data: seq<Byte>, shards: array<Shard<Byte>>, survives: seq<bool>, garbage: seq<seq<Byte>>,
    off: nat, len: nat) returns (out: seq<Byte>)
    requires 1 <= m < n <= 256 && |data| > 0 && shards.Length == n && |survives| == |garbage| == n
    requires forall i :: 0 <= i < n ==> SplitSize(m, |data|, SEGMENT) <= |shards[i].buf|
    requires forall i :: 0 <= i < n ==> SplitSize(m, |data|, SEGMENT) <= |garbage[i]|
    requires Survivors(survives) >= m && off + len <= |data|
    modifies shards
    ensures out == data[off..off + len]
  {
    var coder := EncodeShards(m, n, data, shards);
    var size := SplitSize(m, |data|, SEGMENT);
    EncodedRange(Contents(shards[..])[..m], size, data, off, len);
    out := RecoverErased(coder, shards[..], size, survives, garbage, off, len);
  }

  /** Recovering from an encoded set of shards of which enough survive. */
  method RecoverErased(coder: Coder<Byte>, sh: seq<Shard<Byte>>, size: nat, survives: seq<bool>,
    garbage: seq<seq<Byte>>, off: nat, len: nat)
    returns (out: seq<Byte>)
    requires ValidCoder(G.Gf(), coder) && 0 < coder.data <= coder.shards == |sh| == |survives| == |garbage| && AllValid(sh)
    requires size > 0 && SizesMatch(sh, size, false) && Multiple(size, SEGMENT) && Survivors(survives) >= coder.data
    requires forall i :: 0 <= i < |sh| ==> size <= |garbage[i]|
    requires IsCodeword(G.Gf(), coder.matrix, coder.data, Contents(sh), size)
    requires off + len <= coder.data * size
    ensures off + len <= |Joined(Contents(sh)[..coder.data], size, SEGMENT)|
    ensures out == Joined(Contents(sh)[..coder.data], size, SEGMENT)[off..off + len]
  {
    ErasedIsRecoverable(coder, sh, size, survives, garbage);
    var erased := Erase(sh, survives, garbage);
    var received := new Shard<Byte>[|sh|](i requires 0 <= i < |sh| => erased[i]);
    assert received[..] == erased;
    var err;
    err, out := Recover(coder, received, off, len, size);
    assert RecoveredFrom(coder, erased, size, off, len, out, Contents(sh));
  }

  // ---------- no parity ----------

  /** simpleRedundancy.Recover: every shard must be present.  A request past the end is a panic, or
      reads what the buffers hold there, as in JoinMulti. */
  method SimpleRecover<T>(shards: seq<Shard<T>>, size: nat, skip: nat, n: nat) returns (err: Error, out: seq<T>)
    requires |shards| > 0 && AllValid(shards) && SizesMatch(shards, size, true) && Multiple(size, SEGMENT)
    ensures err == if exists i :: 0 <= i < |shards| && shards[i].len == 0 then ErrTooFewShards
                   else if !Readable(shards, |shards|, SEGMENT, Reach(|shards|, SEGMENT, skip, n)) then Panicked else NoError
    ensures err == NoError ==> out == JoinedSlice(|shards|, shards, SEGMENT, skip, n)
    ensures err != ErrTooFewShards && skip + n <= |shards| * size ==> err == NoError
    ensures err == NoError && skip + n <= |shards| * size ==>
      && skip + n <= |Joined(Rows(shards, |shards|, size), size, SEGMENT)|
      && out == Joined(Rows(shards, |shards|, size), size, SEGMENT)[skip..skip + n]
  {
    for i := 0 to |shards|
      invariant forall j :: 0 <= j < i ==> shards[j].len != 0
    {
      if shards[i].len == 0 {
        return ErrTooFewShards, [];
      }
    }
    var m := |shards|;
    var reach := Reach(m, SEGMENT, skip, n);
    assert shards[0].len == size;
    WholeShards(shards, m, size, SEGMENT, skip, n);
    if !Readable(shards, m, SEGMENT, reach) {
      return Panicked, [];
    }
    if n == 0 {
      return NoError, [];
    }
    ReachSuffices(m, SEGMENT, skip, n);
    JoinedLength(Rows(shards, m, reach), reach, SEGMENT);
    out := Join(Rows(shards, m, reach), reach, SEGMENT, skip, n);
    return NoError, out;
  }

  /** Without parity, encoding and recovering with every shard present returns the data. */
  method SimpleRoundTrip<T>(m: nat, data: seq<T>, shards: seq<Shard<T>>, off: nat, len: nat) returns (out: seq<T>)
    requires m > 0 && |shards| == m && |data| > 0 && off + len <= |data|
    requires forall i :: 0 <= i < m ==> SplitSize(m, |data|, SEGMENT) <= |shards[i].buf|
    ensures out == data[off..off + len]
  {
    StripesSuffice(|data|, m, SEGMENT, 0);
    var size := SplitSize(m, |data|, SEGMENT);
    var err, sh := SplitMulti(m, data, shards, SEGMENT);
    JoinedLength(Rows(sh, m, size), size, SEGMENT);
    err, out := SimpleRecover(sh, size, off, len);
  }
}
