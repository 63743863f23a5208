/** Reading from a file (renter/renterutil/fileops.go, fileReadAt): which part of the shards is
    downloaded, and that what is recovered from any shards that were is what the file holds. */
module FileReads {
  import opened Fields
  import opened Linear
  import opened Erasure
  import opened ErasureCoder
  import S = Scheduler

  // ---------- sections of shards ----------

  /** Bytes a to b of every row. */
  function Section<T>(C: Mat<T>, a: nat, b: nat): (r: Mat<T>)
    requires a <= b && forall i :: 0 <= i < |C| ==> b <= |C[i]|
    ensures |r| == |C| && forall i :: 0 <= i < |C| ==> r[i] == C[i][a..b]
  {
    seq(|C|, i requires 0 <= i < |C| => C[i][a..b])
  }

  /** A section of a codeword is a codeword. */
  lemma SectionIsCodeword<T>(F: Field<T>, E: Mat<T>, m: nat, C: Mat<T>, size: nat, a: nat, b: nat)
    requires IsCodeword(F, E, m, C, size) && a <= b <= size
    ensures IsCodeword(F, E, m, Section(C, a, b), b - a)
  {
    var R := Section(C, a, b);
    forall i | 0 <= i < |R| ensures R[i] == CodedRow(F, E[i], R[..m], b - a) {
      assert C[i] == CodedRow(F, E[i], C[..m], size);
      forall k | 0 <= k < b - a ensures R[i][k] == CodedRow(F, E[i], R[..m], b - a)[k] {
        SameColumn(C[..m], R[..m], size, a, b, k);
      }
    }
  }

  lemma SameColumn<T>(C: Mat<T>, R: Mat<T>, size: nat, a: nat, b: nat, k: nat)
    requires Shape(C, |C|, size) && a <= b <= size && k < b - a && |R| == |C| && forall i :: 0 <= i < |C| ==> R[i] == C[i][a..b]
    ensures Shape(R, |R|, b - a) && Column(R, b - a, k) == Column(C, size, a + k)
  {
    var x, y := Column(R, b - a, k), Column(C, size, a + k);
    forall j | 0 <= j < |C| ensures x[j] == y[j] {
      assert R[j] == C[j][a..b];
    }
  }

  lemma {:induction false} StripeOfSection<T>(rows: Mat<T>, a: nat, b: nat, off: nat, sub: nat)
    requires a <= off && off + sub <= b && forall i :: 0 <= i < |rows| ==> b <= |rows[i]|
    ensures Stripe(Section(rows, a, b), off - a, sub) == Stripe(rows, off, sub)
  {
    if |rows| > 0 {
      var k := |rows| - 1;
      assert Section(rows, a, b)[..k] == Section(rows[..k], a, b);
      StripeOfSection(rows[..k], a, b, off, sub);
      assert rows[k][a..b][off - a..off - a + sub] == rows[k][off..off + sub];
    }
  }

  /** What a section holds, interleaved, is that part of what the shards hold. */
  lemma {:induction false} JoinedOfSection<T>(rows: Mat<T>, a: nat, b: nat, sub: nat)
    requires sub > 0 && a <= b && Multiple(b - a, sub) && forall i :: 0 <= i < |rows| ==> b <= |rows[i]|
    ensures Joined(rows, b, sub) == Joined(rows, a, sub) + Joined(Section(rows, a, b), b - a, sub)
    decreases b
  {
    if a == b {
      assert Joined(Section(rows, a, b), 0, sub) == [];
    } else {
      var c := b - sub;
      assert c - a == b - a - sub;
      JoinedOfSection(rows, a, c, sub);
      SectionNext(rows, a, b, sub);
      LastStripe(rows, b, sub);
      SplitJoined(Joined(rows, b, sub), Joined(rows, c, sub), Joined(rows, a, sub), Joined(Section(rows, a, c), c - a, sub),
                  Stripe(rows, c, sub), Joined(Section(rows, a, b), b - a, sub));
    }
  }

  lemma LastStripe<T>(rows: Mat<T>, b: nat, sub: nat)
    requires 0 < sub <= b && forall i :: 0 <= i < |rows| ==> b <= |rows[i]|
    ensures Joined(rows, b, sub) == Joined(rows, b - sub, sub) + Stripe(rows, b - sub, sub)
  {
  }

  lemma SectionNext<T>(rows: Mat<T>, a: nat, b: nat, sub: nat)
    requires 0 < sub && a + sub <= b && forall i :: 0 <= i < |rows| ==> b <= |rows[i]|
    ensures var c := b - sub;
      Joined(Section(rows, a, b), b - a, sub) == Joined(Section(rows, a, c), c - a, sub) + Stripe(rows, c, sub)
  {
    var c := b - sub;
    var R, Q := Section(rows, a, b), Section(rows, a, c);
    forall i | 0 <= i < |rows| ensures R[i][..c - a] == Q[i][..c - a] {
    }
    JoinedFrame(R, Q, c - a, sub);
    StripeOfSection(rows, a, b, c, sub);
    assert b - a - sub == c - a;
  }

  lemma SplitJoined<T>(all: seq<T>, front: seq<T>, a: seq<T>, b: seq<T>, c: seq<T>, d: seq<T>)
    requires all == front + c && front == a + b && d == b + c
    ensures all == a + d
  {
  }

  // ---------- which part is downloaded ----------

  /** The section that fileReadAt downloads: whole segments, from the chunk of the first byte to that of
      the last. */
  method Range(off: nat, len: nat, m: nat, ghost size: nat) returns (start: nat, end: nat, skip: nat)
    requires m > 0 && size % SEGMENT == 0 && off + len <= m * size
    ensures start % SEGMENT == 0 && end % SEGMENT == 0 && start <= end <= size
    ensures m * start + skip == off && skip < m * SEGMENT && off + len <= m * end
  {
    var chunk := m * SEGMENT;
    var q, p;
    q, skip := DivMod(off, chunk);
    var s;
    p, s := DivMod(off + len, chunk);
    start, end := q * SEGMENT, p * SEGMENT;
    if s != 0 {
      end := end + SEGMENT;
    }
    RangeIs(off, off + len, m, size, chunk, q, skip, p, s, start, end);
  }

  method DivMod(n: nat, d: nat) returns (q: nat, r: nat)
    requires d > 0
    ensures n == q * d + r && r < d
  {
    q, r := n / d, n % d;
  }

  lemma RangeIs(off: nat, last: nat, m: nat, size: nat, chunk: nat, q: nat, r: nat, p: nat, s: nat, start: nat, end: nat)
    requires chunk == m * SEGMENT && off == q * chunk + r && r < chunk && last == p * chunk + s && s < chunk
    requires off <= last <= m * size && size % SEGMENT == 0
    requires start == q * SEGMENT && end == if s != 0 then p * SEGMENT + SEGMENT else p * SEGMENT
    ensures m * start + r == off && start <= end <= size && last <= m * end
  {
    var k := size / SEGMENT;
    ChunkIs(m, q);
    ChunkIs(m, p);
    ChunkIs(m, p + 1);
    ChunkIs(m, k);
    assert size == k * SEGMENT && (p + 1) * SEGMENT == p * SEGMENT + SEGMENT;
    assert (p + 1) * chunk == p * chunk + chunk;
    if p < q {
      NextMultiple(p, q, chunk);
    }
    if k < p {
      NextMultiple(k, p, chunk);
    }
  }

  lemma ChunkIs(m: nat, q: nat)
    ensures q * (m * SEGMENT) == m * (q * SEGMENT)
  {
    assert q * (m * SEGMENT) == (q * m) * SEGMENT && m * (q * SEGMENT) == (q * m) * SEGMENT;
  }

  lemma {:induction false} NextMultiple(p: nat, q: nat, d: nat)
    requires p < q
    ensures p * d + d <= q * d
    decreases q
  {
    assert q * d == (q - 1) * d + d;
    if p < q - 1 {
      NextMultiple(p, q - 1, d);
    }
  }

  // ---------- reading ----------

  /** How many of the first n numbers are in the set. */
  lemma {:induction false} SurvivorsAre(xs: set<nat>, n: nat)
    requires forall x :: x in xs ==> x < n
    ensures Survivors(seq(n, (i: nat) => i in xs)) == |xs|
  {
    var survives := seq(n, (i: nat) => i in xs);
    if n > 0 {
      var rest := xs - {n - 1};
      SurvivorsAre(rest, n - 1);
      assert survives[..n - 1] == seq(n - 1, (i: nat) => i in rest);
    } else {
      assert xs == {};
    }
  }

  /** Filled shards are among those of the download. */
  lemma FilledBelow(s: S.State, x: nat)
    requires S.Inv(s) && x in s.filled && S.Outstanding(s) == 0
    ensures x < |s.locks|
  {
    assert S.Got(s, x);
    assert S.Placed(s, x);
    S.NotThere(s.good, x);
  }

  /** The shards that a run of a download has downloaded. */
  ghost function Supplied(order: seq<nat>, need: nat, known: set<nat>, acts: seq<S.Act>): set<nat>
    requires need <= |order| && S.Runs(S.Start(order, need, known), acts)
  {
    set x | 0 <= x < |order| && S.Downloaded(S.Start(order, need, known), acts, x)
  }

  datatype Outcome = Complete | EndOfFile | TooManyFailed

  /** fileReadAt, on a file whose data is encoded in the shards C, when no written data is pending: the
      section of the shards that holds the bytes is downloaded, in any run of the download that has come
      to its end, and recovered from the shards that were.  Within the file it fails exactly when fewer
      shards than are needed were downloaded. */
  method ReadAt(coder: Coder<Byte>, C: Mat<Byte>, size: nat, data: seq<Byte>, off: nat, len: nat,
    order: seq<nat>, known: set<nat>, acts: seq<S.Act>)
    returns (r: seq<Byte>, outcome: Outcome)
    requires ValidCoder(G.Gf(), coder) && IsCodeword(G.Gf(), coder.matrix, coder.data, C, size) && |C| == coder.shards == |order|
    requires Multiple(size, SEGMENT) && size % SEGMENT == 0 && data <= Joined(C[..coder.data], size, SEGMENT)
    requires 0 < len
    requires S.IsOrder(order) && S.Runs(S.Start(order, coder.data, known), acts) && S.Own(acts) == |acts|
    requires !exists a :: S.Enabled(S.Run(S.Start(order, coder.data, known), acts), a) && S.IsOwn(a)
    ensures off >= |data| ==> outcome == EndOfFile && r == []
    ensures off < |data| ==> (outcome == TooManyFailed <==> |Supplied(order, coder.data, known, acts)| < coder.data)
    ensures outcome == TooManyFailed ==> r == []
    ensures off < |data| && outcome != TooManyFailed ==> if off + len <= |data| then outcome == Complete && r == data[off..off + len]
      else outcome == EndOfFile && r == data[off..]
  {
    if off >= |data| {
      return [], EndOfFile;
    }
    var t, m := S.Run(S.Start(order, coder.data, known), acts), coder.data;
    S.DownloadEnds(order, m, known, acts);
    S.StartInv(order, m, known);
    S.RunKeeps(S.Start(order, m, known), acts);
    S.RunFixed(S.Start(order, m, known), acts);
    forall x | x in t.filled ensures x < |order| {
      FilledBelow(t, x);
    }
    assert t.filled == Supplied(order, m, known, acts);
    if |t.good| < m {
      return [], TooManyFailed;
    }
    if off + len > |data| {
      r := FromShards(coder, C, size, data, off, |data| - off, t.filled);
      outcome := EndOfFile;
    } else {
      r := FromShards(coder, C, size, data, off, len, t.filled);
      outcome := Complete;
    }
  }

  /** The rows as full shards. */
  function Whole(rows: Mat<Byte>, length: nat): (sh: seq<Shard<Byte>>)
    requires forall i :: 0 <= i < |rows| ==> |rows[i]| == length
    ensures |sh| == |rows| && AllValid(sh) && SizesMatch(sh, length, false) && Contents(sh) == rows
  {
    var sh := seq(|rows|, i requires 0 <= i < |rows| => Shard(rows[i], length));
    assert AllValid(sh) && forall i :: 0 <= i < |rows| ==> sh[i].Content() == rows[i];
    assert Contents(sh) == rows;
    sh
  }

  /** What is recovered from the section of any shards, as many as are needed. */
  method FromShards(coder: Coder<Byte>, C: Mat<Byte>, size: nat, data: seq<Byte>, off: nat, len: nat, filled: set<nat>)
    returns (r: seq<Byte>)
    requires ValidCoder(G.Gf(), coder) && IsCodeword(G.Gf(), coder.matrix, coder.data, C, size) && |C| == coder.shards
    requires Multiple(size, SEGMENT) && size % SEGMENT == 0 && data <= Joined(C[..coder.data], size, SEGMENT)
    requires 0 < len && off + len <= |data| && |filled| >= coder.data && forall x :: x in filled ==> x < |C|
    ensures r == data[off..off + len]
  {
    var m, n := coder.data, |C|;
    JoinedLength(C[..m], size, SEGMENT);
    var start, end, skip := Range(off, len, m, size);
    var length := end - start;
    Recoverable(coder, C, size, data, off, len, start, end, skip);
    var sh := Whole(Section(C, start, end), length);
    SurvivorsAre(filled, n);
    var survives := seq(n, (i: nat) => i in filled);
    var empty := seq(n, (i: nat) => seq(length, (k: nat) => G.ToByte(0)));
    r := RecoverErased(coder, sh, length, survives, empty, skip, len);
  }

  /** What Recover needs of the section, and what it gives. */
  lemma Recoverable(coder: Coder<Byte>, C: Mat<Byte>, size: nat, data: seq<Byte>, off: nat, len: nat, start: nat, end: nat, skip: nat)
    requires ValidCoder(G.Gf(), coder) && IsCodeword(G.Gf(), coder.matrix, coder.data, C, size) && |C| == coder.shards
    requires size % SEGMENT == 0 && data <= Joined(C[..coder.data], size, SEGMENT)
    requires 0 < len && off + len <= |data| && start <= end <= size && start % SEGMENT == 0 && end % SEGMENT == 0
    requires coder.data * start + skip == off && off + len <= coder.data * end
    ensures 0 < end - start && Multiple(end - start, SEGMENT) && skip + len <= coder.data * (end - start)
    ensures var sh := Whole(Section(C, start, end), end - start);
      && IsCodeword(G.Gf(), coder.matrix, coder.data, Contents(sh), end - start)
      && var part := Joined(Contents(sh)[..coder.data], end - start, SEGMENT);
        skip + len <= |part| && part[skip..skip + len] == data[off..off + len]
  {
    var m := coder.data;
    SectionHolds(C[..m], size, data, off, len, start, end, skip);
    SectionIsCodeword(G.Gf(), coder.matrix, m, C, size, start, end);
    assert Section(C, start, end)[..m] == Section(C[..m], start, end);
  }

  /** The section holds the bytes that are wanted. */
  lemma SectionHolds(rows: Mat<Byte>, size: nat, data: seq<Byte>, off: nat, len: nat, start: nat, end: nat, skip: nat)
    requires (forall i :: 0 <= i < |rows| ==> |rows[i]| == size) && data <= Joined(rows, size, SEGMENT) && size % SEGMENT == 0
    requires 0 < len && off + len <= |data| && start <= end <= size && start % SEGMENT == 0 && end % SEGMENT == 0
    requires |rows| * start + skip == off && off + len <= |rows| * end
    ensures start < end && Multiple(end - start, SEGMENT) && skip + len <= |rows| * (end - start)
    ensures var part := Joined(Section(rows, start, end), end - start, SEGMENT);
      |part| == |rows| * (end - start) && part[skip..skip + len] == data[off..off + len]
  {
    Multiples(start, end, size);
    JoinedOfSection(rows, start, end, SEGMENT);
    JoinedPrefix(rows, end, SEGMENT, size);
    JoinedLength(rows, start, SEGMENT);
    JoinedLength(Section(rows, start, end), end - start, SEGMENT);
    LengthOf(|rows|, start, end, skip, off, len);
    PartHolds(data, Joined(rows, size, SEGMENT), Joined(rows, start, SEGMENT),
              Joined(Section(rows, start, end), end - start, SEGMENT), off, len, skip);
  }

  lemma LengthOf(m: nat, start: nat, end: nat, skip: nat, off: nat, len: nat)
    requires start <= end && m * start + skip == off && off + len <= m * end && len > 0
    ensures start < end && skip + len <= m * (end - start)
  {
    assert m * (end - start) == m * end - m * start;
  }

  lemma Multiples(start: nat, end: nat, size: nat)
    requires start <= end <= size && start % SEGMENT == 0 && end % SEGMENT == 0 && size % SEGMENT == 0
    ensures Multiple(start, SEGMENT) && Multiple(end - start, SEGMENT) && Multiple(size - end, SEGMENT)
  {
    WholeSegments(start);
    WholeSegments(end - start);
    WholeSegments(size - end);
  }

  lemma WholeSegments(n: nat)
    requires n % SEGMENT == 0
    ensures Multiple(n, SEGMENT)
  {
    MultipleOf(n / SEGMENT, SEGMENT);
    assert n / SEGMENT * SEGMENT == n;
  }

  lemma PartHolds(data: seq<Byte>, all: seq<Byte>, before: seq<Byte>, part: seq<Byte>, off: nat, len: nat, skip: nat)
    requires data <= all && before + part <= all && off == |before| + skip && skip + len <= |part| && off + len <= |data|
    ensures part[skip..skip + len] == data[off..off + len]
  {
    assert part[skip..skip + len] == (before + part)[off..off + len] == all[off..off + len];
  }
}
