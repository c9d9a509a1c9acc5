/**
  The simple thing a protected file must agree with: a flat byte sequence with a cursor and an
  end-of-file flag, and the history of single-byte edits that produced it.
 */
module FlatFile {
  import opened Options
  import opened Merkle

  datatype Flat = Flat(bytes: seq<Byte>, cursor: nat, eof: bool)

  datatype SeekFrom = Start(offset: nat) | End(delta: int) | Current(delta: int)

  datatype Op =
    | Seek(pos: SeekFrom)
    | Read(len: nat)
    | Write(buf: seq<Byte>)
    | ReadAt(len: nat, offset: nat)
    | WriteAt(buf: seq<Byte>, offset: nat)
    | Flush
    | ClearCache

  datatype Output = Position(offset: nat) | Bytes(bytes: seq<Byte>) | Written(count: nat) | Done

  /** Overwrites `c` from `offset` on, growing it at the end. */
  function Overwrite(c: seq<Byte>, offset: nat, b: seq<Byte>): (r: seq<Byte>)
    requires offset <= |c|
    ensures |r| == if offset + |b| > |c| then offset + |b| else |c|
    ensures forall i :: 0 <= i < |r| ==> r[i] == if offset <= i < offset + |b| then b[i - offset] else c[i]
  {
    c[..offset] + b + if offset + |b| < |c| then c[offset + |b|..] else []
  }

  function Zeros(n: nat): (z: seq<Byte>)
    ensures |z| == n && forall i :: 0 <= i < n ==> z[i] == 0
  {
    seq(n, _ => 0)
  }

  /** Where a seek lands; `None` is the source's panic on a position outside the file. */
  function SeekTo(size: nat, cursor: nat, pos: SeekFrom): (r: Option<nat>)
    ensures r.Some? && cursor <= size ==> r.value <= size
  {
    match pos
    case Start(off) => if off <= size then Some(off) else None
    case End(off) => if off <= 0 && -off <= size then Some(size + off) else None
    case Current(off) =>
      if off >= 0 then if cursor + off <= size then Some(cursor + off) else None
      else if -off <= cursor then Some(cursor + off) else None
  }

  /** The cursor a write starts from: append mode moves it to the end first. */
  function WriteFrom(f: Flat, append: bool): nat {
    if append then |f.bytes| else f.cursor
  }

  function FlatWrite(f: Flat, append: bool, buf: seq<Byte>): Flat
    requires f.cursor <= |f.bytes|
  {
    if buf == [] then f
    else
      var off := WriteFrom(f, append);
      Flat(Overwrite(f.bytes, off, buf), off + |buf|, f.eof)
  }

  /** Bytes read, and the file afterwards. A read at a set end-of-file flag returns nothing. */
  function FlatRead(f: Flat, len: nat): (seq<Byte>, Flat)
    requires f.cursor <= |f.bytes|
  {
    if len == 0 || f.eof then ([], f)
    else if f.cursor == |f.bytes| then ([], f.(eof := true))
    else
      var n := if len > |f.bytes| - f.cursor then |f.bytes| - f.cursor else len;
      (f.bytes[f.cursor..f.cursor + n], f.(cursor := f.cursor + n, eof := n != len))
  }

  function FlatReadAt(f: Flat, len: nat, offset: nat): (seq<Byte>, Flat)
    requires f.cursor <= |f.bytes|
  {
    if offset > |f.bytes| then ([], f)
    else
      var (out, g) := FlatRead(f.(cursor := offset, eof := false), len);
      (out, g.(cursor := f.cursor))
  }

  /** Fills the gap up to `offset` with zeros. */
  function PadTo(bytes: seq<Byte>, offset: nat): (r: seq<Byte>)
    ensures |r| >= offset && |r| >= |bytes| && bytes <= r
  {
    bytes + Zeros(if offset > |bytes| then offset - |bytes| else 0)
  }

  function FlatWriteAt(f: Flat, append: bool, buf: seq<Byte>, offset: nat): Flat
    requires f.cursor <= |f.bytes|
  {
    var padded := Flat(PadTo(f.bytes, offset), offset, false);
    FlatWrite(padded, append, buf).(cursor := f.cursor)
  }

  /** One operation on the flat file; `None` when the source panics. */
  function FlatStep(f: Flat, append: bool, op: Op): (r: Option<(Output, Flat)>)
    requires f.cursor <= |f.bytes|
    ensures r.Some? ==> r.value.1.cursor <= |r.value.1.bytes| && |f.bytes| <= |r.value.1.bytes|
  {
    match op
    case Seek(pos) =>
      (match SeekTo(|f.bytes|, f.cursor, pos)
       case None => None
       case Some(off) => Some((Position(off), f.(cursor := off, eof := false))))
    case Read(len) => var (out, g) := FlatRead(f, len); Some((Bytes(out), g))
    case Write(buf) => Some((Written(|buf|), FlatWrite(f, append, buf)))
    case ReadAt(len, offset) => var (out, g) := FlatReadAt(f, len, offset); Some((Bytes(out), g))
    case WriteAt(buf, offset) => Some((Written(|buf|), FlatWriteAt(f, append, buf, offset)))
    case Flush => Some((Done, f))
    case ClearCache => Some((Done, f))
  }

  // ---------------------------------------------------------------- what the operations mean

  /** A read gives the bytes at the cursor, up to the end, and sets the flag exactly when it falls short. */
  lemma ReadGives(f: Flat, len: nat)
    requires f.cursor <= |f.bytes| && !f.eof
    ensures var (out, g) := FlatRead(f, len);
            && f.cursor + |out| <= |f.bytes| && out == f.bytes[f.cursor..f.cursor + |out|]
            && |out| <= len && (|out| < len ==> f.cursor + |out| == |f.bytes|)
            && g == Flat(f.bytes, f.cursor + |out|, |out| < len)
  {
  }

  /** At a set end-of-file flag a read gives nothing until a seek clears it. */
  lemma ReadAtEnd(f: Flat, len: nat)
    requires f.cursor <= |f.bytes| && f.eof
    ensures FlatRead(f, len) == ([], f)
  {
  }

  /** Two reads in a row give what one read of both lengths gives. */
  lemma ReadsCompose(f: Flat, a: nat, b: nat)
    requires f.cursor <= |f.bytes| && !f.eof
    ensures var (first, g) := FlatRead(f, a);
            var (second, h) := FlatRead(g, b);
            var (both, k) := FlatRead(f, a + b);
            first + second == both && h.bytes == k.bytes && h.cursor == k.cursor && (a + b > 0 ==> k.eof == (|both| < a + b))
    ensures f.cursor + a + b <= |f.bytes| ==>
              FlatRead(FlatRead(f, a).1, b).0 == f.bytes[f.cursor + a..f.cursor + a + b]
  {
    var (first, g) := FlatRead(f, a);
    ReadGives(f, a);
    ReadGives(f, a + b);
    if !g.eof {
      ReadGives(g, b);
    }
  }

  /** A positioned read gives the bytes there and leaves the cursor; past the end it gives nothing. */
  lemma ReadAtGives(f: Flat, len: nat, offset: nat)
    requires f.cursor <= |f.bytes|
    ensures var (out, g) := FlatReadAt(f, len, offset);
            && g.bytes == f.bytes && g.cursor == f.cursor
            && if offset > |f.bytes| then out == [] && g == f
               else out == f.bytes[offset..if offset + len <= |f.bytes| then offset + len else |f.bytes|] && g.eof == (|out| < len)
  {
  }

  /** A write in append mode goes to the end from any cursor; otherwise it overwrites from the cursor on. */
  lemma WriteGives(f: Flat, append: bool, buf: seq<Byte>)
    requires f.cursor <= |f.bytes|
    ensures var g := FlatWrite(f, append, buf);
            && (append ==> g.bytes == f.bytes + buf && (buf != [] ==> g.cursor == |g.bytes|))
            && (!append ==>
                  && g.bytes == f.bytes[..f.cursor] + buf + (if f.cursor + |buf| < |f.bytes| then f.bytes[f.cursor + |buf|..] else [])
                  && g.cursor == f.cursor + |buf|)
            && g.eof == f.eof
  {
  }

  /** What was written is read back. */
  lemma WriteReadBack(f: Flat, append: bool, buf: seq<Byte>)
    requires f.cursor <= |f.bytes|
    ensures var g := FlatWrite(f, append, buf);
            buf != [] ==>
              |buf| <= g.cursor <= |g.bytes| && FlatRead(Flat(g.bytes, g.cursor - |buf|, false), |buf|).0 == buf
  {
  }

  /**
    A positioned write, byte by byte: zeros in the gap behind the end, the buffer at its place (at the
    end in append mode), every other byte as it was, and the cursor where it was.
   */
  lemma WriteAtGives(f: Flat, append: bool, buf: seq<Byte>, offset: nat)
    requires f.cursor <= |f.bytes|
    ensures var g := FlatWriteAt(f, append, buf, offset);
            var size := if offset > |f.bytes| then offset else |f.bytes|;
            var at := if append then size else offset;
            && |g.bytes| == (if at + |buf| > size then at + |buf| else size) && g.cursor == f.cursor && !g.eof
            && forall i :: 0 <= i < |g.bytes| ==>
                 g.bytes[i] == if at <= i < at + |buf| then buf[i - at] else if i < |f.bytes| then f.bytes[i] else 0
  {
  }

  /** A seek from the end or from the cursor is a seek to the summed position, and panics exactly outside the file. */
  lemma SeekGives(f: Flat, append: bool, pos: SeekFrom)
    requires f.cursor <= |f.bytes|
    ensures var at := match pos case Start(off) => off case End(d) => |f.bytes| + d case Current(d) => f.cursor + d;
            && (FlatStep(f, append, Seek(pos)).Some? <==> 0 <= at <= |f.bytes|)
            && (0 <= at <= |f.bytes| ==> FlatStep(f, append, Seek(pos)) == Some((Position(at), Flat(f.bytes, at, false))))
  {
  }

  /** The last `k` bytes: a seek from the end and a read. */
  lemma SeekEndReads(f: Flat, append: bool, k: int)
    requires f.cursor <= |f.bytes| && 0 <= k <= |f.bytes|
    ensures var run := FlatRun(f, append, [Seek(End(-k)), Read(k)]);
            run.Some? && run.value.0 == [Position(|f.bytes| - k), Bytes(f.bytes[|f.bytes| - k..])]
  {
    var ops := [Seek(End(-k)), Read(k)];
    RunTwo(f, append, ops[0], ops[1]);
    SeekGives(f, append, End(-k));
    ReadGives(Flat(f.bytes, |f.bytes| - k, false), k);
    assert f.bytes[|f.bytes| - k..|f.bytes|] == f.bytes[|f.bytes| - k..];
  }

  /** Reading, seeking back as far, and reading again gives the same bytes. */
  lemma SeekBackReads(f: Flat, append: bool, k: int)
    requires 0 <= k && f.cursor + k <= |f.bytes| && !f.eof
    ensures var back := FlatStep(FlatRead(f, k).1, append, Seek(Current(-k)));
            back.Some? && back.value.1 == f && FlatRead(back.value.1, k).0 == FlatRead(f, k).0 == f.bytes[f.cursor..f.cursor + k]
  {
    ReadGives(f, k);
    SeekGives(FlatRead(f, k).1, append, Current(-k));
  }

  lemma RunTwo(f: Flat, append: bool, first: Op, second: Op)
    requires f.cursor <= |f.bytes|
    ensures var a := FlatStep(f, append, first);
            var b := if a.Some? then FlatStep(a.value.1, append, second) else None;
            FlatRun(f, append, [first, second]) == if b.Some? then Some(([a.value.0, b.value.0], b.value.1)) else None
  {
    hide FlatStep;
    var ops := [first, second];
    assert ops[..2] == ops && FlatRun(f, append, ops[..0]) == Some(([], f));
    RunExtends(f, append, ops, 0);
    if FlatRun(f, append, ops[..1]).Some? {
      RunExtends(f, append, ops, 1);
      var before := FlatRun(f, append, ops[..1]).value;
      var step := FlatStep(before.1, append, second);
      if step.Some? {
        assert before.0 + [step.value.0] == [before.0[0], step.value.0];
      }
    }
  }

  /** A whole run: its outputs and the file it ends with; `None` if an operation panics. */
  function FlatRun(start: Flat, append: bool, ops: seq<Op>): (r: Option<(seq<Output>, Flat)>)
    requires start.cursor <= |start.bytes|
    ensures r.Some? ==> r.value.1.cursor <= |r.value.1.bytes| && |r.value.0| == |ops|
  {
    if ops == [] then Some(([], start))
    else
      var before := FlatRun(start, append, ops[..|ops| - 1]);
      if before.None? then None
      else
        var step := FlatStep(before.value.1, append, ops[|ops| - 1]);
        if step.None? then None
        else Some((before.value.0 + [step.value.0], step.value.1))
  }

  // ---------------------------------------------------------------- edit history

  datatype Edit = Edit(pos: nat, byte: Byte)

  function Apply(c: seq<Byte>, e: Edit): seq<Byte> {
    if e.pos < |c| then c[e.pos := e.byte] else c + [e.byte]
  }

  /** The file after a history of edits to the empty file. */
  function Replay(h: seq<Edit>): seq<Byte> {
    if h == [] then [] else Apply(Replay(h[..|h| - 1]), h[|h| - 1])
  }

  function Edits(offset: nat, b: seq<Byte>): seq<Edit> {
    seq(|b|, i requires 0 <= i < |b| => Edit(offset + i, b[i]))
  }

  /** A chunk written at once has the effect of its bytes written one after the other. */
  lemma {:induction false} ReplayChunk(h: seq<Edit>, offset: nat, b: seq<Byte>)
    requires offset <= |Replay(h)|
    ensures Replay(h + Edits(offset, b)) == Overwrite(Replay(h), offset, b)
  {
    if b == [] {
      assert h + Edits(offset, b) == h;
      assert Overwrite(Replay(h), offset, b) == Replay(h);
    } else {
      var n := |b| - 1;
      ReplayChunk(h, offset, b[..n]);
      var all := h + Edits(offset, b);
      assert all[..|all| - 1] == h + Edits(offset, b[..n]);
      assert all[|all| - 1] == Edit(offset + n, b[n]);
      assert Apply(Overwrite(Replay(h), offset, b[..n]), Edit(offset + n, b[n])) == Overwrite(Replay(h), offset, b);
    }
  }

  /** A file written from its start in one piece. */
  lemma ReplayWhole(b: seq<Byte>)
    ensures Replay(Edits(0, b)) == b && |Edits(0, b)| == |b|
  {
    ReplayChunk([], 0, b);
    assert [] + Edits(0, b) == Edits(0, b);
    assert Overwrite([], 0, b) == b;
  }

  /** One more chunk of a buffer that is being written from `at` on. */
  lemma ChunkStep(c: seq<Byte>, h: seq<Edit>, at: nat, buf: seq<Byte>, done: nat, len: nat)
    requires at <= |c| && done + len <= |buf|
    ensures at + done <= |Overwrite(c, at, buf[..done])|
    ensures Overwrite(Overwrite(c, at, buf[..done]), at + done, buf[done..done + len]) == Overwrite(c, at, buf[..done + len])
    ensures h + Edits(at, buf[..done]) + Edits(at + done, buf[done..done + len]) == h + Edits(at, buf[..done + len])
  {
    assert Edits(at, buf[..done]) + Edits(at + done, buf[done..done + len]) == Edits(at, buf[..done + len]);
  }

  lemma ChunkNone(c: seq<Byte>, h: seq<Edit>, at: nat, buf: seq<Byte>)
    requires at <= |c|
    ensures Overwrite(c, at, buf[..0]) == c && h + Edits(at, buf[..0]) == h
  {
  }

  lemma ChunkPrefix(h: seq<Edit>, at: nat, buf: seq<Byte>, done: nat)
    requires done <= |buf|
    ensures h <= h + Edits(at, buf[..done]) <= h + Edits(at, buf)
  {
  }

  /** The zeros a write behind the end puts into the gap. */
  function PadEdits(f: Flat, offset: nat): seq<Edit> {
    Edits(|f.bytes|, Zeros(if offset > |f.bytes| then offset - |f.bytes| else 0))
  }

  lemma PadNone(c: seq<Byte>, h: seq<Edit>, offset: nat)
    ensures c + Zeros(0) == c && h + Edits(|c|, Zeros(0)) == h
    ensures offset <= |c| ==> PadTo(c, offset) == c
  {
  }

  /** One more run of zeros past the end. */
  lemma ZerosStep(c: seq<Byte>, h: seq<Edit>, k: nat, len: nat)
    ensures Overwrite(c + Zeros(k), |c| + k, Zeros(len)) == c + Zeros(k + len)
    ensures h + Edits(|c|, Zeros(k)) + Edits(|c| + k, Zeros(len)) == h + Edits(|c|, Zeros(k + len))
  {
    assert Edits(|c|, Zeros(k)) + Edits(|c| + k, Zeros(len)) == Edits(|c|, Zeros(k + len));
  }

  lemma ZerosPrefix(c: seq<Byte>, h: seq<Edit>, k: nat, total: nat)
    requires k <= total
    ensures h <= h + Edits(|c|, Zeros(k)) <= h + Edits(|c|, Zeros(total))
  {
  }

  /** The edits an operation makes, in the order it makes them. */
  function StepEdits(f: Flat, append: bool, op: Op): seq<Edit>
    requires f.cursor <= |f.bytes|
  {
    match op
    case Write(buf) => Edits(WriteFrom(f, append), buf)
    case WriteAt(buf, offset) =>
      var padded := Flat(PadTo(f.bytes, offset), offset, false);
      PadEdits(f, offset) + Edits(WriteFrom(padded, append), buf)
    case _ => []
  }

  /** The edits of a whole run. */
  function History(start: Flat, append: bool, ops: seq<Op>): seq<Edit>
    requires start.cursor <= |start.bytes| && FlatRun(start, append, ops).Some?
  {
    if ops == [] then []
    else
      var rest := ops[..|ops| - 1];
      History(start, append, rest) + StepEdits(FlatRun(start, append, rest).value.1, append, ops[|ops| - 1])
  }

  lemma WriteReplays(h: seq<Edit>, f: Flat, append: bool, buf: seq<Byte>)
    requires f.cursor <= |f.bytes| && Replay(h) == f.bytes
    ensures Replay(h + Edits(WriteFrom(f, append), buf)) == FlatWrite(f, append, buf).bytes
  {
    ReplayChunk(h, WriteFrom(f, append), buf);
    assert buf == [] ==> Overwrite(f.bytes, WriteFrom(f, append), buf) == f.bytes;
  }

  lemma PadReplays(h: seq<Edit>, bytes: seq<Byte>, offset: nat)
    requires Replay(h) == bytes
    ensures Replay(h + Edits(|bytes|, Zeros(if offset > |bytes| then offset - |bytes| else 0))) == PadTo(bytes, offset)
  {
    var zeros := Zeros(if offset > |bytes| then offset - |bytes| else 0);
    ReplayChunk(h, |bytes|, zeros);
    assert Overwrite(bytes, |bytes|, zeros) == PadTo(bytes, offset);
  }

  lemma StepReplays(h: seq<Edit>, f: Flat, append: bool, op: Op)
    requires f.cursor <= |f.bytes| && Replay(h) == f.bytes
    requires FlatStep(f, append, op).Some?
    ensures Replay(h + StepEdits(f, append, op)) == FlatStep(f, append, op).value.1.bytes
  {
    hide Edits;
    hide Replay;
    match op
    case Write(buf) =>
      WriteReplays(h, f, append, buf);
    case WriteAt(buf, offset) =>
      var zeros := Zeros(if offset > |f.bytes| then offset - |f.bytes| else 0);
      var padded := Flat(PadTo(f.bytes, offset), offset, false);
      var h' := h + Edits(|f.bytes|, zeros);
      PadReplays(h, f.bytes, offset);
      WriteReplays(h', padded, append, buf);
      assert h' + Edits(WriteFrom(padded, append), buf) == h + StepEdits(f, append, op);
    case _ =>
      assert h + StepEdits(f, append, op) == h;
  }

  /** The history of a run replays to the file the run ends with. */
  lemma {:induction false} HistoryReplays(h: seq<Edit>, start: Flat, append: bool, ops: seq<Op>)
    requires start.cursor <= |start.bytes| && Replay(h) == start.bytes && FlatRun(start, append, ops).Some?
    ensures Replay(h + History(start, append, ops)) == FlatRun(start, append, ops).value.1.bytes
  {
    hide StepEdits;
    hide FlatStep;
    hide Replay;
    if ops == [] {
      assert h + History(start, append, ops) == h;
    } else {
      var rest := ops[..|ops| - 1];
      HistoryReplays(h, start, append, rest);
      var h' := h + History(start, append, rest);
      StepReplays(h', FlatRun(start, append, rest).value.1, append, ops[|ops| - 1]);
      assert h' + StepEdits(FlatRun(start, append, rest).value.1, append, ops[|ops| - 1]) == h + History(start, append, ops);
    }
  }

  /** A run of one more operation. */
  lemma RunExtends(start: Flat, append: bool, ops: seq<Op>, k: nat)
    requires start.cursor <= |start.bytes| && k < |ops| && FlatRun(start, append, ops[..k]).Some?
    ensures var before := FlatRun(start, append, ops[..k]).value;
            var step := FlatStep(before.1, append, ops[k]);
            FlatRun(start, append, ops[..k + 1]) ==
            if step.None? then None else Some((before.0 + [step.value.0], step.value.1))
    ensures FlatRun(start, append, ops[..k + 1]).Some? ==>
              History(start, append, ops[..k + 1]) ==
              History(start, append, ops[..k]) + StepEdits(FlatRun(start, append, ops[..k]).value.1, append, ops[k])
  {
    hide StepEdits;
    hide FlatStep;
    assert ops[..k + 1][..k] == ops[..k];
  }

  /** If a whole run goes through, so does every part of it, and the file only grows. */
  lemma {:induction false} RunGrows(start: Flat, append: bool, ops: seq<Op>, k: nat)
    requires start.cursor <= |start.bytes| && k <= |ops| && FlatRun(start, append, ops).Some?
    ensures FlatRun(start, append, ops[..k]).Some?
    ensures |FlatRun(start, append, ops[..k]).value.1.bytes| <= |FlatRun(start, append, ops).value.1.bytes|
    decreases |ops|
  {
    hide FlatStep;
    if k == |ops| {
      assert ops[..k] == ops;
    } else {
      RunGrows(start, append, ops[..|ops| - 1], k);
      assert ops[..|ops| - 1][..k] == ops[..k];
    }
  }
}
