/** The checksummed stream of redis/rio.h over an in-memory buffer.

    `rioWrite` runs the checksum hook before it hands the block to the backend, `rioRead` after the
    backend has delivered. The backend here follows the comment at redis/rio.h:40-42: all or nothing,
    with a return code that is zero on error and not zero on success. */
module Rio {
  import opened CChar
  import opened Wrappers

  /** `update_cksum`: none, or one that takes the bytes of a block in order. */
  datatype Hook<!C> = NoHook | Fold(step: (C, byte) -> C)

  datatype Stream<C> = Stream(data: seq<byte>, pos: nat, cksum: C)

  function Sum<C>(step: (C, byte) -> C, c: C, buf: seq<byte>): C {
    if buf == [] then c else Sum(step, step(c, buf[0]), buf[1..])
  }

  function Update<C>(h: Hook<C>, c: C, buf: seq<byte>): C {
    if h.NoHook? then c else Sum(h.step, c, buf)
  }

  /** `cs` are the checksums on the way when a hook that started from `c` has been handed exactly the
      bytes `buf`, in order. */
  ghost predicate Trace<C>(step: (C, byte) -> C, c: C, buf: seq<byte>, cs: seq<C>) {
    && |cs| == |buf| + 1
    && cs[0] == c
    && forall i :: 0 <= i < |buf| ==> cs[i + 1] == step(cs[i], buf[i])
  }

  lemma {:induction false} SumTraces<C>(step: (C, byte) -> C, c: C, buf: seq<byte>, cs: seq<C>)
    requires Trace(step, c, buf, cs)
    ensures Sum(step, c, buf) == cs[|buf|]
    decreases |buf|
  {
    if buf != [] {
      var rest := cs[1..];
      assert forall i :: 0 <= i < |buf| - 1 ==> rest[i + 1] == step(rest[i], buf[1..][i]);
      SumTraces(step, cs[1], buf[1..], rest);
    }
  }

  lemma UpdateTraces<C(!new)>(h: Hook<C>, c: C, buf: seq<byte>)
    ensures h.NoHook? ==> Update(h, c, buf) == c
    ensures h.Fold? && |buf| == 1 ==> Update(h, c, buf) == h.step(c, buf[0])
    ensures forall cs :: h.Fold? && Trace(h.step, c, buf, cs) ==> Update(h, c, buf) == cs[|buf|]
  {
    if h.Fold? && |buf| == 1 {
      SumTraces(h.step, c, buf, [c, h.step(c, buf[0])]);
    }
    forall cs | h.Fold? && Trace(h.step, c, buf, cs)
      ensures Update(h, c, buf) == cs[|buf|]
    {
      SumTraces(h.step, c, buf, cs);
    }
  }

  /** One `rioWrite`, and what the backend returns for it. */
  datatype WriteCall = WriteCall(buf: seq<byte>, code: nat)

  function AfterWrite<C>(h: Hook<C>, s: Stream<C>, w: WriteCall): Stream<C> {
    if w.code != 0 then Stream(s.data + w.buf, s.pos + |w.buf|, Update(h, s.cksum, w.buf))
    else s.(cksum := Update(h, s.cksum, w.buf))
  }

  /** One `rioRead`, and what the backend returns for it unless too few bytes are left. */
  datatype ReadCall = ReadCall(len: nat, code: nat)

  /** What the backend delivers at `pos`. */
  function Delivered(data: seq<byte>, pos: nat, r: ReadCall): Option<seq<byte>> {
    if r.code != 0 && pos + r.len <= |data| then Some(data[pos..pos + r.len]) else None
  }

  /** `rioRead` returns 1. */
  predicate Reported(data: seq<byte>, pos: nat, r: ReadCall) {
    r.code == 1 && pos + r.len <= |data|
  }

  function PosAfter(data: seq<byte>, pos: nat, r: ReadCall): nat {
    if Delivered(data, pos, r).Some? then pos + r.len else pos
  }

  function AfterRead<C>(h: Hook<C>, s: Stream<C>, r: ReadCall): Stream<C> {
    var moved := s.(pos := PosAfter(s.data, s.pos, r));
    if Reported(s.data, s.pos, r)
    then moved.(cksum := Update(h, s.cksum, Delivered(s.data, s.pos, r).value))
    else moved
  }

  class Rio<C(!new)> {
    const hook: Hook<C>
    var ptr: seq<byte>
    var pos: nat
    var cksum: C

    constructor (hook: Hook<C>, data: seq<byte>, cksum: C)
      ensures this.hook == hook && State() == Stream(data, 0, cksum)
    {
      this.hook := hook;
      this.ptr, this.pos, this.cksum := data, 0, cksum;
    }

    function State(): Stream<C>
      reads this
    {
      Stream(ptr, pos, cksum)
    }

    /** The backend's write. */
    method BufferWrite(buf: seq<byte>, code: nat) returns (r: nat)
      modifies this`ptr, this`pos
      ensures r == code
      ensures ptr == if code != 0 then old(ptr) + buf else old(ptr)
      ensures pos == if code != 0 then old(pos) + |buf| else old(pos)
    {
      if code != 0 {
        ptr := ptr + buf;
        pos := pos + |buf|;
      }
      r := code;
    }

    /** The backend's read. */
    method BufferRead(len: nat, code: nat) returns (r: nat, buf: seq<byte>)
      modifies this`pos
      ensures var got := Delivered(ptr, old(pos), ReadCall(len, code));
              && r == (if got.Some? then code else 0)
              && (got.Some? ==> got == Some(buf))
      ensures pos == PosAfter(ptr, old(pos), ReadCall(len, code))
    {
      if code == 0 || pos + len > |ptr| {
        return 0, [];
      }
      buf := ptr[pos..pos + len];
      pos := pos + len;
      r := code;
    }

    /** The call through `update_cksum`, if there is one. */
    method UpdateCksum(buf: seq<byte>)
      modifies this`cksum
      ensures cksum == Update(hook, old(cksum), buf)
    {
      cksum := Update(hook, cksum, buf);
    }

    /** `rioWrite`. */
    method Write(buf: seq<byte>, code: nat) returns (r: nat)
      modifies this
      ensures State() == AfterWrite(hook, old(State()), WriteCall(buf, code))
      ensures ptr == if code != 0 then old(ptr) + buf else old(ptr)
      ensures pos == if code != 0 then old(pos) + |buf| else old(pos)
      ensures hook.NoHook? ==> cksum == old(cksum)
      ensures hook.Fold? && |buf| == 1 ==> cksum == hook.step(old(cksum), buf[0])
      ensures forall cs :: hook.Fold? && Trace(hook.step, old(cksum), buf, cs) ==> cksum == cs[|buf|]
      ensures r == code
    {
      UpdateCksum(buf);
      UpdateTraces(hook, old(cksum), buf);
      r := BufferWrite(buf, code);
    }

    /** `rioRead`. `buf` is the caller's buffer: it holds what was delivered, reported or not. */
    method Read(len: nat, code: nat) returns (r: nat, buf: seq<byte>)
      modifies this
      ensures State() == AfterRead(hook, old(State()), ReadCall(len, code))
      ensures r == if Reported(old(ptr), old(pos), ReadCall(len, code)) then 1 else 0
      ensures var got := Delivered(old(ptr), old(pos), ReadCall(len, code));
              got.Some? ==> got == Some(buf)
      ensures pos == if code != 0 && old(pos) + len <= |ptr| then old(pos) + len else old(pos)
      ensures r == 1 ==> old(pos) + len <= |ptr| && buf == ptr[old(pos)..old(pos) + len]
      ensures r != 1 || hook.NoHook? ==> cksum == old(cksum)
      ensures r == 1 && hook.Fold? && |buf| == 1 ==> cksum == hook.step(old(cksum), buf[0])
      ensures forall cs :: r == 1 && hook.Fold? && Trace(hook.step, old(cksum), buf, cs)
                ==> cksum == cs[|buf|]
    {
      r, buf := BufferRead(len, code);
      if r == 1 {
        UpdateCksum(buf);
        UpdateTraces(hook, old(cksum), buf);
        return 1, buf;
      }
      r := 0;
    }
  }

  // ---------------------------------------------------------------- whole sessions

  function WriteAll<C>(h: Hook<C>, s: Stream<C>, ws: seq<WriteCall>): Stream<C>
    decreases |ws|
  {
    if ws == [] then s else WriteAll(h, AfterWrite(h, s, ws[0]), ws[1..])
  }

  function ReadAll<C>(h: Hook<C>, s: Stream<C>, rs: seq<ReadCall>): Stream<C>
    decreases |rs|
  {
    if rs == [] then s else ReadAll(h, AfterRead(h, s, rs[0]), rs[1..])
  }

  /** The bytes of the reads that returned 1, in order. */
  function Received(data: seq<byte>, pos: nat, rs: seq<ReadCall>): seq<byte>
    decreases |rs|
  {
    if rs == [] then []
    else (if Reported(data, pos, rs[0]) then Delivered(data, pos, rs[0]).value else [])
         + Received(data, PosAfter(data, pos, rs[0]), rs[1..])
  }

  /** The bytes the backend delivered, in order. */
  function Consumed(data: seq<byte>, pos: nat, rs: seq<ReadCall>): seq<byte>
    decreases |rs|
  {
    if rs == [] then []
    else (match Delivered(data, pos, rs[0]) case None => [] case Some(buf) => buf)
         + Consumed(data, PosAfter(data, pos, rs[0]), rs[1..])
  }

  function Attempted(ws: seq<WriteCall>): seq<byte> {
    if ws == [] then [] else ws[0].buf + Attempted(ws[1..])
  }

  function Stored(ws: seq<WriteCall>): seq<byte> {
    if ws == [] then [] else (if ws[0].code != 0 then ws[0].buf else []) + Stored(ws[1..])
  }

  lemma {:induction false} SumOfConcat<C>(step: (C, byte) -> C, c: C, a: seq<byte>, b: seq<byte>)
    ensures Sum(step, c, a + b) == Sum(step, Sum(step, c, a), b)
    decreases |a|
  {
    if a == [] {
      assert a + b == b;
    } else {
      SumOfConcat(step, step(c, a[0]), a[1..], b);
      assert (a + b)[1..] == a[1..] + b;
    }
  }

  lemma UpdateOfConcat<C>(h: Hook<C>, c: C, a: seq<byte>, b: seq<byte>)
    ensures Update(h, c, a + b) == Update(h, Update(h, c, a), b)
  {
    if h.Fold? {
      SumOfConcat(h.step, c, a, b);
    }
  }

  /** The writer's checksum covers everything attempted; the buffer holds what was accepted. */
  lemma {:induction false} WriterState<C>(h: Hook<C>, s: Stream<C>, ws: seq<WriteCall>)
    ensures WriteAll(h, s, ws).cksum == Update(h, s.cksum, Attempted(ws))
    ensures WriteAll(h, s, ws).data == s.data + Stored(ws)
    ensures WriteAll(h, s, ws).pos == s.pos + |Stored(ws)|
    decreases |ws|
  {
    if ws != [] {
      var s' := AfterWrite(h, s, ws[0]);
      WriterState(h, s', ws[1..]);
      UpdateOfConcat(h, s.cksum, ws[0].buf, Attempted(ws[1..]));
      assert s'.data + Stored(ws[1..]) == s.data + Stored(ws);
    }
  }

  /** Whatever reads are tried, and whatever the backend returns: the bytes delivered are the next
      bytes of the buffer, and the reader's checksum covers exactly those that were reported. */
  lemma {:induction false} ReaderState<C>(h: Hook<C>, s: Stream<C>, rs: seq<ReadCall>)
    requires s.pos <= |s.data|
    ensures var s' := ReadAll(h, s, rs);
            && s'.data == s.data && s.pos <= s'.pos <= |s.data|
            && Consumed(s.data, s.pos, rs) == s.data[s.pos..s'.pos]
            && s'.cksum == Update(h, s.cksum, Received(s.data, s.pos, rs))
    decreases |rs|
  {
    if rs != [] {
      var s1 := AfterRead(h, s, rs[0]);
      ReaderState(h, s1, rs[1..]);
      Adjacent(s.data, s.pos, s1.pos, ReadAll(h, s1, rs[1..]).pos);
      var got := if Reported(s.data, s.pos, rs[0]) then s.data[s.pos..s1.pos] else [];
      UpdateOfConcat(h, s.cksum, got, Received(s.data, s1.pos, rs[1..]));
    }
  }

  lemma Adjacent(data: seq<byte>, a: nat, b: nat, c: nat)
    requires a <= b <= c <= |data|
    ensures data[a..b] + data[b..c] == data[a..c]
  {
  }

  /** The backend returned 1 for every delivery that was not empty. */
  predicate AllReported(data: seq<byte>, pos: nat, rs: seq<ReadCall>)
    decreases |rs|
  {
    rs == []
    || (&& (pos + rs[0].len <= |data| && rs[0].len > 0 ==> rs[0].code <= 1)
        && AllReported(data, PosAfter(data, pos, rs[0]), rs[1..]))
  }

  lemma {:induction false} AllReceived(data: seq<byte>, pos: nat, rs: seq<ReadCall>)
    ensures |Received(data, pos, rs)| <= |Consumed(data, pos, rs)|
    ensures |Received(data, pos, rs)| == |Consumed(data, pos, rs)| <==> AllReported(data, pos, rs)
    ensures AllReported(data, pos, rs) ==> Received(data, pos, rs) == Consumed(data, pos, rs)
    decreases |rs|
  {
    if rs != [] {
      AllReceived(data, PosAfter(data, pos, rs[0]), rs[1..]);
    }
  }

  /** The checksum does not depend on how the bytes are cut: after any successful writes, a reader
      that has received as many bytes as were written, in any blocks and with any failed reads in
      between, has received those bytes and ends with the writer's checksum. */
  lemma ChunkingIndependent<C>(h: Hook<C>, c: C, ws: seq<WriteCall>, rs: seq<ReadCall>)
    requires forall i :: 0 <= i < |ws| ==> ws[i].code != 0
    requires |Received(Stored(ws), 0, rs)| == |Stored(ws)|
    ensures var written := WriteAll(h, Stream([], 0, c), ws);
            && Received(written.data, 0, rs) == Attempted(ws)
            && ReadAll(h, Stream(written.data, 0, c), rs).cksum == written.cksum
  {
    AllStored(ws);
    WriterState(h, Stream([], 0, c), ws);
    assert [] + Stored(ws) == Stored(ws);
    ReaderState(h, Stream(Stored(ws), 0, c), rs);
    AllReceived(Stored(ws), 0, rs);
  }

  function Total(rs: seq<ReadCall>): nat {
    if rs == [] then 0 else rs[0].len + Total(rs[1..])
  }

  lemma {:induction false} EnoughForAll(data: seq<byte>, pos: nat, rs: seq<ReadCall>)
    requires forall i :: 0 <= i < |rs| ==> rs[i].code == 1
    requires pos + Total(rs) <= |data|
    ensures |Received(data, pos, rs)| == Total(rs)
    decreases |rs|
  {
    if rs != [] {
      EnoughForAll(data, PosAfter(data, pos, rs[0]), rs[1..]);
    }
  }

  /** In particular for reads of any lengths with the same total as the writes. */
  lemma RechunkedReads<C>(h: Hook<C>, c: C, ws: seq<WriteCall>, rs: seq<ReadCall>)
    requires forall i :: 0 <= i < |ws| ==> ws[i].code != 0
    requires forall i :: 0 <= i < |rs| ==> rs[i].code == 1
    requires Total(rs) == |Stored(ws)|
    ensures var written := WriteAll(h, Stream([], 0, c), ws);
            && Received(written.data, 0, rs) == Attempted(ws)
            && ReadAll(h, Stream(written.data, 0, c), rs).cksum == written.cksum
  {
    EnoughForAll(Stored(ws), 0, rs);
    ChunkingIndependent(h, c, ws, rs);
  }

  /** What the hook is handed over whole sessions: exactly the bytes of the attempted writes and of
      the reads that returned 1, in order; without a hook the checksum stays as it was. */
  lemma HookSees<C>(h: Hook<C>, s: Stream<C>, ws: seq<WriteCall>, rs: seq<ReadCall>, cs: seq<C>)
    requires s.pos <= |s.data|
    ensures h.NoHook? ==> WriteAll(h, s, ws).cksum == s.cksum == ReadAll(h, s, rs).cksum
    ensures h.Fold? && Trace(h.step, s.cksum, Attempted(ws), cs)
            ==> WriteAll(h, s, ws).cksum == cs[|Attempted(ws)|]
    ensures h.Fold? && Trace(h.step, s.cksum, Received(s.data, s.pos, rs), cs)
            ==> ReadAll(h, s, rs).cksum == cs[|Received(s.data, s.pos, rs)|]
  {
    WriterState(h, s, ws);
    ReaderState(h, s, rs);
    if h.Fold? && Trace(h.step, s.cksum, Attempted(ws), cs) {
      SumTraces(h.step, s.cksum, Attempted(ws), cs);
    }
    if h.Fold? && Trace(h.step, s.cksum, Received(s.data, s.pos, rs), cs) {
      SumTraces(h.step, s.cksum, Received(s.data, s.pos, rs), cs);
    }
  }

  // ---------------------------------------------------------------- where the checksum does not fit

  lemma {:induction false} StoredIsShorter(ws: seq<WriteCall>)
    ensures |Stored(ws)| <= |Attempted(ws)|
    decreases |ws|
  {
    if ws != [] {
      StoredIsShorter(ws[1..]);
    }
  }

  /** No bytes were lost: every failed write was empty. */
  ghost predicate NothingLost(ws: seq<WriteCall>) {
    forall i :: 0 <= i < |ws| && ws[i].code == 0 ==> ws[i].buf == []
  }

  lemma NothingLostTail(ws: seq<WriteCall>)
    requires ws != []
    ensures NothingLost(ws) <==> (ws[0].code != 0 || ws[0].buf == []) && NothingLost(ws[1..])
  {
    assert forall i :: 1 <= i < |ws| ==> ws[i] == ws[1..][i - 1];
  }

  lemma {:induction false} AllStored(ws: seq<WriteCall>)
    ensures Attempted(ws) == Stored(ws) <==> NothingLost(ws)
    decreases |ws|
  {
    if ws != [] {
      var b, x, y := ws[0].buf, Attempted(ws[1..]), Stored(ws[1..]);
      AllStored(ws[1..]);
      NothingLostTail(ws);
      if ws[0].code != 0 {
        assert (b + x)[|b|..] == x && (b + y)[|b|..] == y;
      } else {
        StoredIsShorter(ws[1..]);
        assert [] + y == y && |b + x| == |b| + |x|;
        assert b == [] ==> b + x == x;
      }
    }
  }

  /** The hook that keeps every byte: two blocks have the same checksum only if they are equal. */
  function Keep(c: seq<byte>, b: byte): seq<byte> {
    c + [b]
  }

  lemma {:induction false} KeepKeeps(c: seq<byte>, buf: seq<byte>)
    ensures Sum(Keep, c, buf) == c + buf
    decreases |buf|
  {
    if buf != [] {
      KeepKeeps(Keep(c, buf[0]), buf[1..]);
    }
  }

  lemma KeepTellsApart(a: seq<byte>, b: seq<byte>)
    ensures Update(Fold(Keep), [], a) == Update(Fold(Keep), [], b) <==> a == b
  {
    KeepKeeps([], a);
    KeepKeeps([], b);
    assert [] + a == a && [] + b == b;
  }

  /** The writer's checksum is the one of the bytes in the buffer. */
  ghost predicate WriterFits<C>(h: Hook<C>, c: C, ws: seq<WriteCall>) {
    var written := WriteAll(h, Stream([], 0, c), ws);
    written.cksum == Update(h, c, written.data)
  }

  /** A failed write is the exception: its bytes are in the checksum although they are not in the
      buffer. The checksum fits under every hook if and only if every failed write was empty. */
  lemma FailedWritesShow(ws: seq<WriteCall>)
    ensures (forall h: Hook<seq<byte>>, c: seq<byte> :: WriterFits(h, c, ws)) <==> NothingLost(ws)
  {
    if NothingLost(ws) {
      forall h: Hook<seq<byte>>, c: seq<byte>
        ensures WriterFits(h, c, ws)
      {
        NoLossFits(h, c, ws);
      }
    } else {
      WriterState(Fold(Keep), Stream([], 0, []), ws);
      AllStored(ws);
      assert [] + Stored(ws) == Stored(ws);
      KeepTellsApart(Attempted(ws), Stored(ws));
      assert !WriterFits(Fold(Keep), [], ws);
    }
  }

  /** With no bytes lost it fits for checksums of any type. */
  lemma NoLossFits<C>(h: Hook<C>, c: C, ws: seq<WriteCall>)
    requires NothingLost(ws)
    ensures WriterFits(h, c, ws)
  {
    WriterState(h, Stream([], 0, c), ws);
    AllStored(ws);
    assert [] + Stored(ws) == Stored(ws);
  }

  /** The reader's checksum is the one of the bytes the backend has delivered. */
  ghost predicate ReaderFits<C>(h: Hook<C>, c: C, data: seq<byte>, pos: nat, rs: seq<ReadCall>) {
    ReadAll(h, Stream(data, pos, c), rs).cksum == Update(h, c, Consumed(data, pos, rs))
  }

  /** So is a delivery for which the backend returns another code than 1: its bytes are gone from the
      stream and missing from the checksum. The checksum fits under every hook if and only if the
      backend returned 1 for every delivery that was not empty. */
  lemma UnreportedReadsShow(data: seq<byte>, pos: nat, rs: seq<ReadCall>)
    requires pos <= |data|
    ensures (forall h: Hook<seq<byte>>, c: seq<byte> :: ReaderFits(h, c, data, pos, rs))
       <==> AllReported(data, pos, rs)
  {
    if AllReported(data, pos, rs) {
      forall h: Hook<seq<byte>>, c: seq<byte>
        ensures ReaderFits(h, c, data, pos, rs)
      {
        AllReportedFits(h, c, data, pos, rs);
      }
    } else {
      ReaderState(Fold(Keep), Stream(data, pos, []), rs);
      AllReceived(data, pos, rs);
      KeepTellsApart(Received(data, pos, rs), Consumed(data, pos, rs));
      assert !ReaderFits(Fold(Keep), [], data, pos, rs);
    }
  }

  lemma AllReportedFits<C>(h: Hook<C>, c: C, data: seq<byte>, pos: nat, rs: seq<ReadCall>)
    requires pos <= |data| && AllReported(data, pos, rs)
    ensures ReaderFits(h, c, data, pos, rs)
  {
    ReaderState(h, Stream(data, pos, c), rs);
    AllReceived(data, pos, rs);
  }

  /** For a single delivery: it is reported exactly when the backend returns 1, and it enters the
      checksum of every hook exactly then, or when it is empty. */
  lemma OneReadExact(data: seq<byte>, pos: nat, r: ReadCall)
    requires pos + r.len <= |data| && r.code != 0
    ensures Reported(data, pos, r) <==> r.code == 1
    ensures (forall h: Hook<seq<byte>>, c: seq<byte> ::
               AfterRead(h, Stream(data, pos, c), r).cksum == Update(h, c, data[pos..pos + r.len]))
       <==> r.code == 1 || r.len == 0
  {
    var h: Hook<seq<byte>>, buf := Fold(Keep), data[pos..pos + r.len];
    KeepTellsApart([], buf);
    assert Update(h, [], []) == [];
    if r.code != 1 && r.len != 0 {
      assert AfterRead(h, Stream(data, pos, []), r).cksum != Update(h, [], buf);
    }
  }

  /** The non-zero code 2 on a complete delivery, which the comment at redis/rio.h:41-42 allows:
      `rioRead` returns 0, the position has moved and the checksum has not. */
  lemma CodeTwoIsLost<C>(h: Hook<C>, s: Stream<C>, len: nat)
    requires s.pos + len <= |s.data|
    ensures var r := ReadCall(len, 2);
            && Delivered(s.data, s.pos, r) == Some(s.data[s.pos..s.pos + len])
            && !Reported(s.data, s.pos, r)
            && AfterRead(h, s, r) == s.(pos := s.pos + len)
            && (AllReported(s.data, s.pos, [r]) <==> len == 0)
  {
    assert AllReported(s.data, PosAfter(s.data, s.pos, ReadCall(len, 2)), []);
  }
}
