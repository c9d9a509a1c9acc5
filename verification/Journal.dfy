/**
  The raw journal: a byte log behind a length block, written through a buffer.  What `size` and
  `read` expose after a crash is the log before or after a whole flush.
 */
module Journal {
  import opened Options
  import opened Merkle
  import opened FlatFile
  import opened BlockSets

  const DEFAULT_BUF_SIZE := 4 * 1024 * 1024
  const INNER_OFFSET := BLOCK_SIZE
  const WORD := 8

  // ---------------------------------------------------------------- little-endian words

  function Pow256(k: nat): nat {
    if k == 0 then 1 else 256 * Pow256(k - 1)
  }

  function ToLe(n: nat, k: nat): (s: seq<Byte>)
    ensures |s| == k
  {
    if k == 0 then [] else [n % 256] + ToLe(n / 256, k - 1)
  }

  function FromLe(s: seq<Byte>): nat {
    if s == [] then 0 else s[0] + 256 * FromLe(s[1..])
  }

  lemma MulGap(d: nat, a: nat, b: nat)
    requires a < b
    ensures d * a + d <= d * b
  {
    var x := b - a - 1;
    assert d * b == d * (a + 1 + x) == d * a + d + d * x;
  }

  lemma DivUnique(n: nat, d: nat, q: nat, r: nat)
    requires d > 0 && n == d * q + r && r < d
    ensures n / d == q
  {
    var e, m := n / d, n % d;
    DivMod(n, d);
    if e < q {
      MulGap(d, e, q);
    } else if q < e {
      MulGap(d, q, e);
    }
  }

  lemma DivMod(n: nat, d: nat)
    requires d > 0
    ensures n == d * (n / d) + n % d && n % d < d
  {
  }

  lemma DivTwice(n: nat, p: nat)
    requires p > 0
    ensures n / (256 * p) == n / 256 / p
  {
    var a, b := n / 256 / p, n / 256 % p;
    assert n / 256 == p * a + b;
    assert n == 256 * p * a + (256 * b + n % 256);
    DivUnique(n, 256 * p, a, 256 * b + n % 256);
  }

  lemma {:induction false} PowPositive(k: nat)
    ensures Pow256(k) > 0
  {
    if k > 0 {
      PowPositive(k - 1);
    }
  }

  /** Byte `i` of an encoded number is its digit of weight `256^i`. */
  lemma {:induction false} LeDigit(n: nat, k: nat, i: nat)
    requires i < k
    ensures Pow256(i) > 0 && ToLe(n, k)[i] == n / Pow256(i) % 256
    decreases k
  {
    PowPositive(i);
    if i > 0 {
      PowPositive(i - 1);
      LeDigit(n / 256, k - 1, i - 1);
      DivTwice(n, Pow256(i - 1));
    }
  }

  /** A number that fits is read back as it was written. */
  lemma {:induction false} LeRoundTrip(n: nat, k: nat)
    requires n < Pow256(k)
    ensures FromLe(ToLe(n, k)) == n
  {
    if k > 0 {
      LeRoundTrip(n / 256, k - 1);
      assert ToLe(n, k)[1..] == ToLe(n / 256, k - 1);
    }
  }

  /** Every word is the encoding of the number it is read as. */
  lemma {:induction false} LeInverse(s: seq<Byte>)
    ensures ToLe(FromLe(s), |s|) == s
  {
    if s != [] {
      LeInverse(s[1..]);
      assert FromLe(s) % 256 == s[0] && FromLe(s) / 256 == FromLe(s[1..]);
    }
  }

  lemma {:induction false} FromLeBound(s: seq<Byte>)
    ensures FromLe(s) < Pow256(|s|)
  {
    if s != [] {
      FromLeBound(s[1..]);
    }
  }

  // ---------------------------------------------------------------- what a reader sees

  /** The length block's word. */
  function LengthOf(c: seq<Byte>): nat
    requires |c| >= WORD
  {
    FromLe(c[..WORD])
  }

  /** The log that `size` and `read` give; `None` when the length is below the header or past the disk. */
  function Exposed(c: seq<Byte>): Option<seq<Byte>>
    requires |c| >= WORD
  {
    if INNER_OFFSET <= LengthOf(c) <= |c| then Some(c[INNER_OFFSET..LengthOf(c)]) else None
  }

  /** An image that agrees up to where the log ends exposes the same log. */
  lemma SamePrefixExposed(c: seq<Byte>, d: seq<Byte>, n: nat)
    requires |c| == |d| && INNER_OFFSET <= n <= |c| && c[..n] == d[..n]
    requires Exposed(c).Some? ==> LengthOf(c) <= n
    ensures Exposed(d) == Exposed(c)
  {
    assert c[..WORD] == c[..n][..WORD] == d[..n][..WORD] == d[..WORD];
    if Exposed(c).Some? {
      assert c[INNER_OFFSET..LengthOf(c)] == c[..n][INNER_OFFSET..LengthOf(c)];
      assert d[INNER_OFFSET..LengthOf(c)] == d[..n][INNER_OFFSET..LengthOf(c)];
    }
  }

  /** A new length block over a log. */
  lemma LengthWritten(c: seq<Byte>, len: nat, tail: seq<Byte>)
    requires INNER_OFFSET <= len <= |c| < Pow256(WORD) && WORD + |tail| == BLOCK_SIZE
    ensures var d := SliceWritten(c, 0, ToLe(len, WORD), tail);
            && |d| == |c| && LengthOf(d) == len && d[INNER_OFFSET..] == c[INNER_OFFSET..]
            && Exposed(d) == Some(c[INNER_OFFSET..len])
  {
    var d := SliceWritten(c, 0, ToLe(len, WORD), tail);
    assert d[0..0 + WORD] == d[..WORD];
    LeRoundTrip(len, WORD);
    assert d[INNER_OFFSET..len] == d[INNER_OFFSET..][..len - INNER_OFFSET];
    assert c[INNER_OFFSET..len] == c[INNER_OFFSET..][..len - INNER_OFFSET];
  }

  /** What `write_slice` can be given at `pos`: some bytes, and a tail up to the end of their last block. */
  ghost predicate Writable(c: seq<Byte>, pos: nat, buf: seq<Byte>, tail: seq<Byte>) {
    buf != [] && pos + |buf| + |tail| == EndBlock(pos, |buf|) * BLOCK_SIZE <= |c|
  }

  /**
    The data blocks of a flush leave the exposed log alone, whatever the buffer holds, exactly when
    the length on disk does not reach past the write position.  A journal that was created over an
    older, longer log and not reset fails this.
   */
  lemma FlushAtomicExactly(c: seq<Byte>, pos: nat)
    requires INNER_OFFSET <= pos <= |c| && |c| % BLOCK_SIZE == 0
    ensures (forall buf: seq<Byte>, tail: seq<Byte> :: Writable(c, pos, buf, tail) ==>
               Exposed(SliceWritten(c, pos, buf, tail)) == Exposed(c))
            <==> (Exposed(c).Some? ==> LengthOf(c) <= pos)
  {
    if Exposed(c).Some? && LengthOf(c) > pos {
      StaleLogMixes(c, pos);
    } else {
      forall buf: seq<Byte>, tail: seq<Byte> | Writable(c, pos, buf, tail)
        ensures Exposed(SliceWritten(c, pos, buf, tail)) == Exposed(c)
      {
        SamePrefixExposed(c, SliceWritten(c, pos, buf, tail), pos);
      }
    }
  }

  /** The failing buffer: it fills the block at `pos` and differs in its first byte. */
  lemma StaleLogMixes(c: seq<Byte>, pos: nat)
    requires INNER_OFFSET <= pos <= |c| && |c| % BLOCK_SIZE == 0 && Exposed(c).Some? && LengthOf(c) > pos
    ensures exists buf: seq<Byte> :: Writable(c, pos, buf, []) && Exposed(SliceWritten(c, pos, buf, [])) != Exposed(c)
  {
    hide SliceWritten;
    hide Exposed;
    hide LengthOf;
    ExposedWithin(c);
    SliceBlocks(pos, 1);
    var n := EndBlock(pos, 1) * BLOCK_SIZE - pos;
    var other: Byte := if c[pos] == 0 then 1 else 0;
    var buf: seq<Byte> := seq(n, _ => other);
    assert Writable(c, pos, buf, []);
    var d := SliceWritten(c, pos, buf, []);
    assert d[..WORD] == d[..pos][..WORD] == c[..pos][..WORD] == c[..WORD];
    assert d[pos] == d[pos..pos + n][0] == other;
    ExposedDiffers(c, d, pos);
  }

  lemma ExposedWithin(c: seq<Byte>)
    requires |c| >= WORD
    ensures Exposed(c).Some? ==> LengthOf(c) <= |c|
  {
  }

  /** Two images with the same length and another byte inside the log expose different logs. */
  lemma ExposedDiffers(c: seq<Byte>, d: seq<Byte>, pos: nat)
    requires |c| == |d| && |c| >= WORD && Exposed(c).Some? && INNER_OFFSET <= pos < LengthOf(c)
    requires c[..WORD] == d[..WORD] && c[pos] != d[pos]
    ensures Exposed(d) != Exposed(c)
  {
    assert Exposed(d).value[pos - INNER_OFFSET] != Exposed(c).value[pos - INNER_OFFSET];
  }

  /** Every new image exposes the log from before, except that the last may expose the log after. */
  ghost predicate AtomicTrail(prior: seq<seq<Byte>>, trail: seq<seq<Byte>>, before: Option<seq<Byte>>, after: seq<Byte>) {
    && prior <= trail
    && (forall j :: |prior| <= j < |trail| ==>
          |trail[j]| >= WORD && (Exposed(trail[j]) == before || (j == |trail| - 1 && Exposed(trail[j]) == Some(after))))
  }

  /** The data blocks of a flush, seen through the length block that is still the old one. */
  lemma DataTrailAtomic(prior: seq<seq<Byte>>, trail: seq<seq<Byte>>, c: seq<Byte>, pos: nat, after: seq<Byte>)
    requires INNER_OFFSET <= pos <= |c| && (Exposed(c).Some? ==> LengthOf(c) <= pos) && prior <= trail
    requires forall j :: |prior| <= j < |trail| ==> |trail[j]| == |c| && trail[j][..pos] == c[..pos]
    ensures AtomicTrail(prior, trail, Exposed(c), after)
  {
    DataTrailOld(prior, trail, c, pos);
  }

  lemma DataTrailOld(prior: seq<seq<Byte>>, trail: seq<seq<Byte>>, c: seq<Byte>, pos: nat)
    requires INNER_OFFSET <= pos <= |c| && (Exposed(c).Some? ==> LengthOf(c) <= pos) && prior <= trail
    requires forall j :: |prior| <= j < |trail| ==> |trail[j]| == |c| && trail[j][..pos] == c[..pos]
    ensures forall j :: |prior| <= j < |trail| ==> Exposed(trail[j]) == Exposed(c)
  {
    forall j | |prior| <= j < |trail| ensures Exposed(trail[j]) == Exposed(c) {
      SamePrefixExposed(c, trail[j], pos);
    }
  }

  lemma AtomicTrailEnds(prior: seq<seq<Byte>>, mid: seq<seq<Byte>>, img: seq<Byte>, before: Option<seq<Byte>>, after: seq<Byte>)
    requires AtomicTrail(prior, mid, before, after) && |img| >= WORD && Exposed(img) == Some(after)
    requires forall j :: |prior| <= j < |mid| ==> Exposed(mid[j]) == before
    ensures AtomicTrail(prior, mid + [img], before, after)
  {
  }

  lemma LogJoined(c: seq<Byte>, pos: nat, buf: seq<Byte>, tail: seq<Byte>)
    requires INNER_OFFSET <= pos && pos + |buf| + |tail| <= |c|
    ensures SliceWritten(c, pos, buf, tail)[INNER_OFFSET..pos + |buf|] == c[INNER_OFFSET..pos] + buf
  {
    var d := SliceWritten(c, pos, buf, tail);
    assert d[INNER_OFFSET..pos + |buf|] == d[..pos][INNER_OFFSET..] + d[pos..pos + |buf|];
  }

  class RawJournal {
    var buf: seq<Byte>
    var flushPos: nat
    const disk: MemDisk

    ghost predicate Sane()
      reads this, disk, disk.disk
    {
      && disk.Valid() && INNER_OFFSET <= flushPos <= |disk.Contents()| < Pow256(WORD)
    }

    /** The length on disk does not reach past the write position. */
    ghost predicate Settled()
      requires Sane()
      reads this, disk, disk.disk
    {
      Exposed(disk.Contents()).Some? ==> LengthOf(disk.Contents()) <= flushPos
    }

    /** The disk exposes exactly what was flushed. */
    ghost predicate Valid()
      reads this, disk, disk.disk
    {
      Sane() && LengthOf(disk.Contents()) == flushPos
    }

    ghost function Persisted(): seq<Byte>
      requires Sane()
      reads this, disk, disk.disk
    {
      disk.Contents()[INNER_OFFSET..flushPos]
    }

    /** The logical log: persisted and buffered. */
    ghost function Log(): seq<Byte>
      requires Sane()
      reads this, disk, disk.disk
    {
      Persisted() + buf
    }

    /** `create` writes nothing: the length on disk is whatever was there. */
    constructor (disk: MemDisk)
      requires disk.Valid() && INNER_OFFSET <= |disk.Contents()| < Pow256(WORD)
      ensures this.disk == disk && Sane() && buf == [] && flushPos == INNER_OFFSET && Log() == []
    {
      this.disk, buf, flushPos := disk, [], INNER_OFFSET;
    }

    /** Writes the write position to the length block, in one block write. */
    method WriteLength() returns (ok: bool)
      requires Sane()
      modifies disk`trail, disk.disk
      ensures disk.Valid() && |disk.Contents()| == |old(disk.Contents())|
      ensures ok == disk.SliceAccess(0, WORD).Success?
      ensures !ok ==> disk.trail == old(disk.trail) && disk.Contents() == old(disk.Contents())
      ensures ok ==> Valid() && disk.trail == old(disk.trail) + [disk.Contents()]
      ensures ok ==> disk.Contents()[INNER_OFFSET..] == old(disk.Contents())[INNER_OFFSET..]
      ensures ok ==> Exposed(disk.Contents()) == Some(old(Persisted())) && Persisted() == old(Persisted())
    {
      hide Exposed;
      hide LengthOf;
      hide SliceWritten;
      ghost var c := disk.Contents();
      if disk.SliceAccess(0, WORD).Success? {
        LengthWritten(c, flushPos, disk.Tail(0, WORD));
      }
      var r := disk.WriteSlice(0, ToLe(flushPos, WORD));
      ok := r.Success?;
    }

    /** The buffer goes out behind the persisted log; the length block still says the old length. */
    method WriteData(pos: nat) returns (ok: bool)
      requires Sane() && pos == flushPos
      modifies disk`trail, disk.disk
      ensures disk.Valid() && ok == (buf == [] || disk.SliceAccess(pos, |buf|).Success?)
      ensures |disk.Contents()| == |old(disk.Contents())| && old(disk.trail) <= disk.trail
      ensures forall j :: |old(disk.trail)| <= j < |disk.trail| ==>
                |disk.trail[j]| == |disk.Contents()| && disk.trail[j][..pos] == old(disk.Contents())[..pos]
      ensures ok ==> pos + |buf| <= |disk.Contents()| && disk.Contents()[INNER_OFFSET..pos + |buf|] == old(Log())
    {
      hide Exposed;
      hide LengthOf;
      hide SliceWritten;
      ok := true;
      if buf == [] {
        return;
      }
      ghost var c := disk.Contents();
      if disk.SliceAccess(pos, |buf|).Success? {
        LogJoined(c, pos, buf, disk.Tail(pos, |buf|));
      }
      var r := disk.WriteSlice(pos, buf);
      ok := r.Success?;
    }

    /**
      `flush` is crash-atomic: unless a longer log was left on disk, every image on the way exposes
      the old log, or the old log and the whole buffer.
     */
    method Flush() returns (ok: bool)
      requires Sane()
      modifies `buf, `flushPos, disk`trail, disk.disk
      ensures old(disk.trail) <= disk.trail
      ensures old(Settled()) ==> AtomicTrail(old(disk.trail), disk.trail, old(Exposed(disk.Contents())), old(Log()))
      ensures ok ==> Valid() && Persisted() == old(Log()) && buf == []
      ensures ok <==> (old(buf) == [] || disk.SliceAccess(old(flushPos), |old(buf)|).Success?) && disk.SliceAccess(0, WORD).Success?
    {
      hide Exposed;
      hide LengthOf;
      hide AtomicTrail;
      hide MemDisk.SliceAccess;
      ghost var c, log := disk.Contents(), Log();
      var pos := flushPos;
      ok := WriteData(pos);
      flushPos := pos + |buf|;
      ghost var mid := disk.trail;
      if old(Settled()) {
        DataTrailAtomic(old(disk.trail), mid, c, pos, log);
      }
      if !ok {
        return;
      }
      assert Persisted() == log;
      ok := WriteLength();
      if !ok {
        return;
      }
      if old(Settled()) {
        DataTrailOld(old(disk.trail), mid, c, pos);
        AtomicTrailEnds(old(disk.trail), mid, disk.Contents(), Exposed(c), log);
      }
      buf := [];
    }

    /** `append`: the buffer is flushed once it is full. */
    method Append(data: seq<Byte>) returns (ok: bool)
      requires Sane()
      modifies `buf, `flushPos, disk`trail, disk.disk
      ensures old(disk.trail) <= disk.trail
      ensures old(Settled()) ==> AtomicTrail(old(disk.trail), disk.trail, old(Exposed(disk.Contents())), old(Log()) + data)
      ensures ok ==> Sane() && (old(Settled()) ==> Settled()) && Log() == old(Log()) + data
      ensures !ok ==> |old(buf) + data| >= DEFAULT_BUF_SIZE
      ensures ok ==> if |old(buf) + data| >= DEFAULT_BUF_SIZE then Valid() && Persisted() == old(Log()) + data && buf == [] else
                       && disk.Contents() == old(disk.Contents()) && flushPos == old(flushPos) && disk.trail == old(disk.trail)
                       && buf == old(buf) + data
    {
      hide Exposed;
      hide LengthOf;
      ghost var log := Log();
      buf := buf + data;
      assert Log() == log + data;
      ok := true;
      if |buf| >= DEFAULT_BUF_SIZE {
        ok := Flush();
        assert ok ==> Log() == Persisted();
      }
    }

    /** `reset`: one block write; the log is the old one before it and empty after it. */
    method Reset() returns (ok: bool)
      requires Sane()
      modifies `buf, `flushPos, disk`trail, disk.disk
      ensures AtomicTrail(old(disk.trail), disk.trail, old(Exposed(disk.Contents())), [])
      ensures buf == [] && flushPos == INNER_OFFSET
      ensures ok ==> Valid() && Persisted() == [] && Log() == []
    {
      hide Exposed;
      hide LengthOf;
      buf := [];
      flushPos := INNER_OFFSET;
      assert Persisted() == [];
      ok := WriteLength();
    }

    /** `size`: refused when the length is below the header. */
    method Size() returns (r: Option<nat>)
      requires Sane()
      ensures r == if LengthOf(disk.Contents()) >= INNER_OFFSET then Some(LengthOf(disk.Contents()) - INNER_OFFSET) else None
    {
      SliceStart(disk.Contents());
      var _, block := disk.Read(0, 1);
      var size := FromLe(block[..WORD]);
      r := if size >= INNER_OFFSET then Some(size - INNER_OFFSET) else None;
    }

    /** `read`: a slice of the exposed log, when it lies inside it. */
    method Read(offset: nat, len: nat) returns (r: Option<seq<Byte>>)
      requires Sane()
      ensures r.Some? ==> |r.value| == len
      ensures var log := Exposed(disk.Contents());
              log.Some? && len > 0 && offset + len <= |log.value| ==> r == Some(log.value[offset..offset + len])
    {
      ghost var c := disk.Contents();
      if Exposed(c).Some? && offset + len <= |Exposed(c).value| {
        SubSlice(c, INNER_OFFSET, LengthOf(c), offset, offset + len);
      }
      var outcome, bytes := disk.ReadSlice(offset + INNER_OFFSET, len);
      r := if outcome.Success? then Some(bytes) else None;
    }
  }

  lemma SliceStart(c: seq<Byte>)
    requires |c| >= BLOCK_SIZE
    ensures c[0 * BLOCK_SIZE..(0 + 1) * BLOCK_SIZE][..WORD] == c[..WORD]
  {
  }

  // ---------------------------------------------------------------- runs

  datatype JournalOp = AppendOp(data: seq<Byte>) | FlushOp | ResetOp

  /** A journal as two byte strings: what is persisted and what is buffered. */
  datatype JournalState = JournalState(persisted: seq<Byte>, buffered: seq<Byte>)

  function JournalStep(s: JournalState, op: JournalOp): JournalState {
    match op
    case AppendOp(data) =>
      if |s.buffered + data| >= DEFAULT_BUF_SIZE then JournalState(s.persisted + s.buffered + data, [])
      else s.(buffered := s.buffered + data)
    case FlushOp => JournalState(s.persisted + s.buffered, [])
    case ResetOp => JournalState([], [])
  }

  function JournalRun(s: JournalState, ops: seq<JournalOp>): JournalState {
    if ops == [] then s else JournalStep(JournalRun(s, ops[..|ops| - 1]), ops[|ops| - 1])
  }

  /** The image exposes what the disk exposed at first, or the log some prefix of the operations persisted. */
  ghost predicate ExposesPrefix(img: seq<Byte>, first: Option<seq<Byte>>, start: JournalState, ops: seq<JournalOp>) {
    && |img| >= WORD
    && (Exposed(img) == first || exists k :: 0 <= k <= |ops| && Exposed(img) == Some(JournalRun(start, ops[..k]).persisted))
  }

  method StepJournal(j: RawJournal, op: JournalOp) returns (ok: bool)
    requires j.Sane()
    modifies j`buf, j`flushPos, j.disk`trail, j.disk.disk
    ensures old(j.disk.trail) <= j.disk.trail
    ensures old(j.Settled()) || op.ResetOp? ==>
              AtomicTrail(old(j.disk.trail), j.disk.trail, old(Exposed(j.disk.Contents())),
                          JournalStep(JournalState(old(j.Persisted()), old(j.buf)), op).persisted)
    ensures ok ==> j.Sane() && (old(j.Settled()) || op.ResetOp? ==> j.Settled())
    ensures ok ==> JournalState(j.Persisted(), j.buf) == JournalStep(JournalState(old(j.Persisted()), old(j.buf)), op)
    ensures ok ==> Exposed(j.disk.Contents()) == old(Exposed(j.disk.Contents())) || Exposed(j.disk.Contents()) == Some(j.Persisted())
  {
    match op
    case AppendOp(data) =>
      ok := j.Append(data);
    case FlushOp =>
      ok := j.Flush();
    case ResetOp =>
      ok := j.Reset();
  }

  lemma JournalRunExtends(s: JournalState, ops: seq<JournalOp>, k: nat)
    requires k < |ops|
    ensures JournalRun(s, ops[..k + 1]) == JournalStep(JournalRun(s, ops[..k]), ops[k])
  {
    assert ops[..k + 1][..k] == ops[..k];
  }

  lemma TrailExposes(prior: seq<seq<Byte>>, trail: seq<seq<Byte>>, c: seq<Byte>, first: Option<seq<Byte>>,
                     start: JournalState, ops: seq<JournalOp>, k: nat, from: nat)
    requires k < |ops| && from <= |prior| && ExposesPrefix(c, first, start, ops)
    requires AtomicTrail(prior, trail, Exposed(c), JournalRun(start, ops[..k + 1]).persisted)
    requires forall i :: from <= i < |prior| ==> ExposesPrefix(prior[i], first, start, ops)
    ensures forall i :: from <= i < |trail| ==> ExposesPrefix(trail[i], first, start, ops)
  {
    hide Exposed;
    hide JournalRun;
    forall i | from <= i < |trail| ensures ExposesPrefix(trail[i], first, start, ops) {
      if i < |prior| {
        assert trail[i] == prior[i];
      }
    }
  }

  /**
    A run of appends, flushes and resets, from `create` or later, up to the first that does not fit.
    Unless a longer log was left on disk and is not reset first, the disk exposes at every block
    write what it exposed at first or the log as some prefix of the operations left it, and nothing
    in between.
   */
  method RunJournal(j: RawJournal, ops: seq<JournalOp>, ghost start: JournalState, ghost first: Option<seq<Byte>>)
    returns (done: nat)
    requires j.Sane() && start == JournalState(j.Persisted(), j.buf) && first == Exposed(j.disk.Contents())
    modifies j`buf, j`flushPos, j.disk`trail, j.disk.disk
    ensures done <= |ops| && old(j.disk.trail) <= j.disk.trail
    ensures old(j.Settled()) || (ops != [] && ops[0].ResetOp?) ==>
              forall i :: |old(j.disk.trail)| <= i < |j.disk.trail| ==> ExposesPrefix(j.disk.trail[i], first, start, ops)
    ensures done == |ops| ==> j.Sane() && JournalState(j.Persisted(), j.buf) == JournalRun(start, ops)
  {
    hide Exposed;
    hide JournalStep;
    hide RawJournal.Settled;
    done := 0;
    ghost var safe := j.Settled() || (ops != [] && ops[0].ResetOp?);
    while done < |ops|
      invariant done <= |ops| && old(j.disk.trail) <= j.disk.trail
      invariant j.Sane() && JournalState(j.Persisted(), j.buf) == JournalRun(start, ops[..done])
      invariant safe ==> j.Settled() || (done == 0 && ops != [] && ops[0].ResetOp?)
      invariant ExposesPrefix(j.disk.Contents(), first, start, ops)
      invariant safe ==>
                  forall i :: |old(j.disk.trail)| <= i < |j.disk.trail| ==> ExposesPrefix(j.disk.trail[i], first, start, ops)
    {
      ghost var mid, c := j.disk.trail, j.disk.Contents();
      JournalRunExtends(start, ops, done);
      var ok := StepJournal(j, ops[done]);
      if safe {
        TrailExposes(mid, j.disk.trail, c, first, start, ops, done, |old(j.disk.trail)|);
      }
      if !ok {
        return;
      }
      done := done + 1;
    }
    assert ops[..done] == ops;
  }

  /** The same from `create`, which writes nothing: over a disk with no older log left on it. */
  method CreateAndRunJournal(disk: MemDisk, ops: seq<JournalOp>) returns (j: RawJournal, done: nat)
    requires disk.Valid() && INNER_OFFSET <= |disk.Contents()| < Pow256(WORD)
    modifies disk`trail, disk.disk
    ensures j.disk == disk && done <= |ops| && old(disk.trail) <= disk.trail
    ensures (Exposed(old(disk.Contents())).Some? ==> Exposed(old(disk.Contents())).value == []) || (ops != [] && ops[0].ResetOp?) ==>
              forall i :: |old(disk.trail)| <= i < |disk.trail| ==>
                ExposesPrefix(disk.trail[i], Exposed(old(disk.Contents())), JournalState([], []), ops)
    ensures done == |ops| ==> j.Sane() && JournalState(j.Persisted(), j.buf) == JournalRun(JournalState([], []), ops)
  {
    j := new RawJournal(disk);
    assert j.Persisted() == [];
    done := RunJournal(j, ops, JournalState([], []), Exposed(disk.Contents()));
  }
}
