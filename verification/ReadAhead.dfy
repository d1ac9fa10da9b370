/** Reads of one remote file: split into requests, reassembled, and read ahead speculatively.

    The server answers requests as if it ran them one at a time in the order they were sent
    (section 6.1 of draft-ietf-secsh-filexfer-02), without errors, and short only at the end of
    the file.  So a reply is fixed when its request is sent, however late it is waited for.
 */
module ReadAhead {
  import opened Common

  /** The bytes a plain read of `size` bytes at `offset` returns. */
  function Slice(file: seq<Byte>, offset: nat, size: nat): (r: seq<Byte>)
    ensures |r| <= size
  {
    file[Min(offset, |file|)..Min(offset + size, |file|)]
  }

  lemma SliceSplit(file: seq<Byte>, offset: nat, a: nat, b: nat)
    ensures Slice(file, offset, a + b) ==
      if |Slice(file, offset, a)| < a then Slice(file, offset, a)
      else Slice(file, offset, a) + Slice(file, offset + a, b)
  {
  }

  /** One read request with its reply: `res` bytes of `data`, 0 at end of file, or an error. */
  datatype ReadReq = ReadReq(data: seq<Byte>, size: nat, res: int)

  datatype Error = NoError | Eof | Failed(code: int)

  /** Replies to consecutive requests that cover `size` bytes from `offset`. */
  ghost predicate Replies(reqs: seq<ReadReq>, file: seq<Byte>, offset: nat, size: nat)
    decreases reqs
  {
    if reqs == [] then size == 0
    else
      var r := reqs[0];
      && 0 < r.size <= size && r.data == Slice(file, offset, r.size) && r.res == |r.data|
      && Replies(reqs[1..], file, offset + r.size, size - r.size)
  }

  /** A run of requests sent together and consumed in order. */
  class ReadChunk {
    var offset: nat
    var size: nat
    var modifver: nat
    var reqs: seq<ReadReq>
    var error: Error

    constructor (size: nat, offset: nat)
      ensures this.offset == offset && this.size == size && reqs == [] && error == NoError && modifver == 0
    {
      this.offset, this.size, modifver, reqs, error := offset, size, 0, [], NoError;
    }

    /** What is left in the chunk is what `file` holds there; after end of file, nothing is. */
    ghost predicate Mirrors(file: seq<Byte>)
      reads this
    {
      Mirror(reqs, error, file, offset, size)
    }

    /** Waits for the chunk and takes up to `want` bytes from it. */
    method Wait(want: nat, ghost file: seq<Byte>) returns (res: int, buf: seq<Byte>)
      requires Mirrors(file) && want <= size
      modifies this
      ensures Mirrors(file) && buf == Slice(file, old(offset), want) && res == |buf|
      ensures offset == old(offset) + res && size == old(size) - res && modifver == old(modifver)
    {
      if error != NoError {
        res, buf := if error.Failed? then error.code else 0, [];
        return;
      }
      reqs, error, res, buf := Collect(reqs, want, file, offset, size);
      if res > 0 {
        offset := offset + res;
        size := size - res;
      }
    }
  }

  /** Whether requests and error flag describe what `file` holds from `offset` on. */
  ghost predicate Mirror(reqs: seq<ReadReq>, error: Error, file: seq<Byte>, offset: nat, size: nat) {
    match error
    case NoError => Replies(reqs, file, offset, size)
    case Eof => offset >= |file|
    case Failed(_) => false
  }

  /** Consumes replies in order until `want` bytes are taken, the file ends, or one failed. */
  method Collect(reqs: seq<ReadReq>, want: nat, ghost file: seq<Byte>, ghost start: nat, ghost all: nat)
    returns (reqs': seq<ReadReq>, error: Error, res: int, buf: seq<Byte>)
    requires Replies(reqs, file, start, all) && want <= all
    ensures buf == Slice(file, start, want) && res == |buf| <= all
    ensures Mirror(reqs', error, file, start + |buf|, all - |buf|)
  {
    hide Slice;
    SliceNone(file, start);
    reqs', error, res, buf := reqs, NoError, 0, [];
    var left: nat := want;
    while reqs' != [] && left > 0
      invariant res == |buf| && |buf| + left == want <= all && error == NoError
      invariant Replies(reqs', file, start + |buf|, all - |buf|)
      invariant buf == Slice(file, start, |buf|)
      decreases reqs'
    {
      var rreq := reqs'[0];
      Take(file, start, |buf|, rreq.size, left);
      if rreq.res < 0 {
        error := Failed(rreq.res);
        break;
      } else if rreq.res == 0 {
        error := Eof;
        break;
      } else if left < rreq.res {
        buf := buf + rreq.data[..left];
        reqs' := [ReadReq(rreq.data[left..], rreq.size - left, rreq.res - left)] + reqs'[1..];
        res := res + left;
        break;
      } else {
        buf := buf + rreq.data;
        res := res + rreq.res;
        if rreq.res < rreq.size {
          error := Eof;
          break;
        }
        left := left - rreq.res;
        reqs' := reqs'[1..];
      }
    }
  }

  lemma SliceNone(file: seq<Byte>, offset: nat)
    ensures Slice(file, offset, 0) == []
  {
  }

  /** What one more reply adds to the `got` bytes already taken from `start` on. */
  lemma Take(file: seq<Byte>, start: nat, got: nat, size: nat, left: nat)
    requires |Slice(file, start, got)| == got && size > 0
    ensures var data := Slice(file, start + got, size);
      && (|data| < size ==>
            && start + got + |data| >= |file|
            && (|data| <= left ==> Slice(file, start, got + left) == Slice(file, start, got) + data))
      && (left < |data| ==>
            && Slice(file, start, got + left) == Slice(file, start, got) + data[..left]
            && data[left..] == Slice(file, start + got + left, size - left))
      && (|data| == size ==> Slice(file, start, got + size) == Slice(file, start, got) + data)
  {
  }

  lemma {:induction false} RepliesAppend(reqs: seq<ReadReq>, r: ReadReq, file: seq<Byte>, offset: nat, size: nat)
    requires Replies(reqs, file, offset, size)
    requires r.size > 0 && r.data == Slice(file, offset + size, r.size) && r.res == |r.data|
    ensures Replies(reqs + [r], file, offset, size + r.size)
    decreases reqs
  {
    hide Slice;
    if reqs == [] {
      assert (reqs + [r])[1..] == [];
    } else {
      assert (reqs + [r])[1..] == reqs[1..] + [r];
      RepliesAppend(reqs[1..], r, file, offset + reqs[0].size, size - reqs[0].size);
    }
  }

  /** `data` written at `offset`, over zeros if that is past the end. */
  function Overwrite(file: seq<Byte>, offset: nat, data: seq<Byte>): seq<Byte> {
    if data == [] then file
    else
      var padded := file + seq(if offset < |file| then 0 else offset - |file|, _ => 0);
      padded[..offset] + data + (if offset + |data| < |padded| then padded[offset + |data|..] else [])
  }

  function Resize(file: seq<Byte>, size: nat): seq<Byte> {
    if size <= |file| then file[..size] else file + seq(size - |file|, _ => 0)
  }

  /** An open file: what the server holds, and the client's read-ahead state for it. */
  class OpenFile {
    const maxRead: nat
    var file: seq<Byte>
    /** Counts modifications, so that chunks fetched before one are recognised. */
    var modifver: nat
    var readahead: ReadChunk?
    var nextPos: nat
    var isSeq: bool
    var seenModifver: nat

    constructor (maxRead: nat, file: seq<Byte>)
      requires maxRead > 0
      ensures Valid() && this.file == file && readahead == null
    {
      this.maxRead, this.file, modifver, readahead := maxRead, file, 0, null;
      nextPos, isSeq, seenModifver := 0, false, 0;
    }

    ghost predicate Valid()
      reads this, readahead
    {
      && maxRead > 0
      && (readahead != null ==>
            && readahead.modifver <= modifver
            && (readahead.modifver == modifver ==> readahead.Mirrors(file)))
    }

    /** Sends the requests for `want` bytes, each of at most `maxRead`; the replies are those of
        the server now. */
    method SendRead(want: nat, offset: nat) returns (chunk: ReadChunk)
      requires maxRead > 0
      ensures fresh(chunk) && chunk.Mirrors(file) && chunk.offset == offset && chunk.size == want
      ensures chunk.modifver == 0
    {
      chunk := new ReadChunk(want, offset);
      var left: nat, at: nat := want, offset;
      ghost var sent := 0;
      hide Slice;
      while left > 0
        invariant sent + left == want && at == offset + sent
        invariant chunk.offset == offset && chunk.size == want && chunk.error == NoError && chunk.modifver == 0
        invariant Replies(chunk.reqs, file, offset, sent)
      {
        var bsize := if left < maxRead then left else maxRead;
        var data := Slice(file, at, bsize);
        RepliesAppend(chunk.reqs, ReadReq(data, bsize, |data|), file, offset, sent);
        chunk.reqs := chunk.reqs + [ReadReq(data, bsize, |data|)];
        left, at, sent := left - bsize, at + bsize, sent + bsize;
      }
    }

    method SyncRead(want: nat, offset: nat) returns (res: int, buf: seq<Byte>)
      requires Valid()
      ensures Valid() && buf == Slice(file, offset, want) && res == |buf|
    {
      var chunk := SendRead(want, offset);
      res, buf := chunk.Wait(want, file);
    }

    method SubmitRead(want: nat, offset: nat) returns (chunk: ReadChunk)
      requires maxRead > 0
      ensures fresh(chunk) && chunk.Mirrors(file) && chunk.offset == offset && chunk.size == want
      ensures chunk.modifver == modifver
    {
      chunk := SendRead(want, offset);
      chunk.modifver := modifver;
    }

    /** A read that first uses what was read ahead, joins it with a fresh read if it is too short,
        and reads ahead again when reads are sequential. */
    method AsyncRead(want: nat, at: nat) returns (res: int, buf: seq<Byte>)
      requires Valid()
      modifies this, readahead
      ensures Valid() && file == old(file) && modifver == old(modifver)
      ensures buf == Slice(file, at, want) && res == |buf|
      ensures readahead != null ==> readahead == old(readahead) || fresh(readahead)
    {
      hide Slice, Mirror;
      var size, offset := want, at;
      var currIsSeq := isSeq;
      isSeq := nextPos == offset && seenModifver == modifver;
      nextPos := offset + size;
      seenModifver := modifver;
      var chunk: ReadChunk? := null;
      if readahead != null && readahead.offset == offset && readahead.modifver == modifver {
        chunk := readahead;
      }
      var chunkPrev: ReadChunk? := null;
      if chunk != null && chunk.size < size {
        chunkPrev := chunk;
        size := size - chunk.size;
        offset := offset + chunk.size;
        chunk := null;
      }
      if chunk == null {
        chunk := SubmitRead(size, offset);
      }
      if currIsSeq && chunk.size <= size {
        readahead := SubmitRead(want, offset + size);
      }
      var total := 0;
      buf := [];
      if chunkPrev != null {
        var prevSize := chunkPrev.size;
        SliceSplit(file, at, prevSize, size);
        res, buf := chunkPrev.Wait(prevSize, file);
        if res < prevSize {
          return;
        }
        total := total + res;
      }
      var more;
      res, more := chunk.Wait(size, file);
      if res < 0 {
        return;
      }
      buf := buf + more;
      res := total + res;
    }

    /** A write counts as a modification before it is sent. */
    method Write(data: seq<Byte>, offset: nat)
      requires Valid()
      modifies this`modifver, this`file
      ensures Valid() && file == Overwrite(old(file), offset, data) && modifver == old(modifver) + 1
    {
      modifver := modifver + 1;
      file := Overwrite(file, offset, data);
    }

    /** Sets the length of the file, by asking the server to or, for servers that cannot, by hand. */
    method Truncate(size: nat, workaround: bool)
      requires Valid()
      modifies this`modifver, this`file
      ensures Valid() && file == Resize(old(file), size) && modifver > old(modifver)
    {
      modifver := modifver + 1;
      if !workaround {
        file := Resize(file, size);
      } else if size == 0 {
        file := [];
      } else if |file| > size {
        Shrink(size);
      } else if |file| < size {
        ExtendByOne(file, size);
        Write([0], size - 1);
      }
    }

    /** Nothing read ahead is current. */
    ghost predicate Outdated()
      reads this, readahead
    {
      maxRead > 0 && (readahead != null ==> readahead.modifver < modifver)
    }

    /** Reads the part to be kept, empties the file and writes the part back. */
    method Shrink(size: nat)
      requires Outdated() && 0 < size < |file|
      modifies this`modifver, this`file
      ensures Outdated() && file == old(file)[..size] && modifver >= old(modifver)
    {
      var data := ReadBack(size);
      file := [];
      var offset := 0;
      while offset < size
        invariant 0 <= offset <= size && Outdated() && modifver >= old(modifver) && file == data[..offset]
      {
        var bufsize := BufSize(size, offset);
        OverwriteAtEnd(file, data[offset..offset + bufsize]);
        Write(data[offset..offset + bufsize], offset);
        assert data[..offset] + data[offset..offset + bufsize] == data[..offset + bufsize];
        offset := offset + bufsize;
      }
    }

    method ReadBack(size: nat) returns (data: seq<Byte>)
      requires Outdated() && size <= |file|
      ensures data == file[..size]
    {
      data := [];
      var offset := 0;
      while offset < size
        invariant 0 <= offset <= size && data == file[..offset]
      {
        var bufsize := BufSize(size, offset);
        var res, buf := SyncRead(bufsize, offset);
        if res <= 0 {
          break;
        }
        assert file[..offset] + file[offset..offset + bufsize] == file[..offset + bufsize];
        data, offset := data + buf, offset + bufsize;
      }
    }

    function BufSize(size: nat, offset: nat): (r: nat)
      requires offset < size && maxRead > 0
      ensures 0 < r <= size - offset && r <= maxRead && (r == maxRead || offset + r == size)
    {
      if offset + maxRead < size then maxRead else size - offset
    }
  }

  lemma ExtendByOne(file: seq<Byte>, size: nat)
    requires |file| < size
    ensures Overwrite(file, size - 1, [0]) == Resize(file, size)
  {
  }

  lemma OverwriteAtEnd(file: seq<Byte>, data: seq<Byte>)
    ensures Overwrite(file, |file|, data) == file + data
  {
    assert file + [] == file;
  }

  // ---------------------------------------------------------------- whole runs

  datatype Op = Read(size: nat, offset: nat) | Write(data: seq<Byte>, offset: nat) | Truncate(length: nat, workaround: bool)

  function FileAfter(file: seq<Byte>, op: Op): seq<Byte> {
    match op
    case Read(_, _) => file
    case Write(data, offset) => Overwrite(file, offset, data)
    case Truncate(length, _) => Resize(file, length)
  }

  function PlainRead(file: seq<Byte>, op: Op): seq<seq<Byte>> {
    if op.Read? then [Slice(file, op.offset, op.size)] else []
  }

  /** What plain reads would return, operation by operation. */
  function PlainReads(file: seq<Byte>, ops: seq<Op>): seq<seq<Byte>>
    decreases ops
  {
    if ops == [] then []
    else PlainRead(file, ops[0]) + PlainReads(FileAfter(file, ops[0]), ops[1..])
  }

  method Step(f: OpenFile, op: Op) returns (result: seq<seq<Byte>>)
    requires f.Valid()
    modifies f, f.readahead
    ensures f.Valid() && f.file == FileAfter(old(f.file), op) && result == PlainRead(old(f.file), op)
    ensures f.readahead != null ==> f.readahead == old(f.readahead) || fresh(f.readahead)
  {
    hide Slice, Overwrite, Resize, Mirror;
    match op {
      case Read(size, offset) =>
        var res, buf := f.AsyncRead(size, offset);
        result := [buf];
      case Write(data, offset) =>
        f.Write(data, offset);
        result := [];
      case Truncate(length, workaround) =>
        f.Truncate(length, workaround);
        result := [];
    }
  }

  /** Over any run of operations, reading ahead is invisible. */
  method Run(f: OpenFile, ops: seq<Op>) returns (results: seq<seq<Byte>>)
    requires f.Valid()
    modifies f, f.readahead
    ensures f.Valid() && results == PlainReads(old(f.file), ops)
    ensures f.readahead != null ==> f.readahead == old(f.readahead) || fresh(f.readahead)
    decreases ops
  {
    hide PlainRead, FileAfter, Mirror;
    if ops == [] {
      return [];
    }
    var result := Step(f, ops[0]);
    var rest := Run(f, ops[1..]);
    results := result + rest;
  }

  // ---------------------------------------------------------------- byte by byte

  /** A read returns the bytes of the file at its place, as many as there are. */
  lemma SliceBytes(file: seq<Byte>, offset: nat, size: nat)
    ensures |Slice(file, offset, size)| == if offset >= |file| then 0 else Min(size, |file| - offset)
    ensures forall i :: 0 <= i < |Slice(file, offset, size)| ==> Slice(file, offset, size)[i] == file[offset + i]
  {
  }

  /** A write puts its bytes in place, keeps all others, and leaves zeros in a gap. */
  lemma OverwriteBytes(file: seq<Byte>, offset: nat, data: seq<Byte>)
    ensures var after := Overwrite(file, offset, data);
      && |after| == (if data == [] || offset + |data| <= |file| then |file| else offset + |data|)
      && (forall i :: 0 <= i < |data| ==> after[offset + i] == data[i])
      && (forall i :: 0 <= i < |file| && !(offset <= i < offset + |data|) ==> after[i] == file[i])
      && (forall i :: |file| <= i < |after| && !(offset <= i < offset + |data|) ==> after[i] == 0)
  {
  }

  /** A file set to a size keeps its beginning; what is added is zero. */
  lemma ResizeBytes(file: seq<Byte>, size: nat)
    ensures |Resize(file, size)| == size
    ensures forall i :: 0 <= i < size ==> Resize(file, size)[i] == if i < |file| then file[i] else 0
  {
  }

  /** How long the file is after a run, from its length before. */
  function LengthAfter(length: nat, ops: seq<Op>): nat {
    if ops == [] then length else
      var before := LengthAfter(length, ops[..|ops| - 1]);
      match ops[|ops| - 1]
      case Read(_, _) => before
      case Write(data, offset) => if data == [] || offset + |data| <= before then before else offset + |data|
      case Truncate(size, _) => size
  }

  /** Byte `i` of the file after a run: that of the last write to it, unless it was cut off since. */
  function ByteAfter(file: seq<Byte>, ops: seq<Op>, i: nat): Byte {
    if ops == [] then (if i < |file| then file[i] else 0) else
      var before, last := ops[..|ops| - 1], ops[|ops| - 1];
      if last.Write? && last.offset <= i < last.offset + |last.data| then last.data[i - last.offset]
      else if i < LengthAfter(|file|, before) then ByteAfter(file, before, i)
      else 0
  }

  function FileThrough(file: seq<Byte>, ops: seq<Op>): seq<Byte>
    decreases ops
  {
    if ops == [] then file else FileThrough(FileAfter(file, ops[0]), ops[1..])
  }

  lemma {:induction false} FileThroughNext(file: seq<Byte>, ops: seq<Op>, op: Op)
    ensures FileThrough(file, ops + [op]) == FileAfter(FileThrough(file, ops), op)
    decreases ops
  {
    hide FileAfter;
    if ops == [] {
      assert [op][1..] == [] && [] + [op] == [op];
      assert FileThrough(file, [op]) == FileThrough(FileAfter(file, op), []);
    } else {
      assert (ops + [op])[1..] == ops[1..] + [op];
      FileThroughNext(FileAfter(file, ops[0]), ops[1..], op);
    }
  }

  lemma {:induction false} FileThroughBytes(file: seq<Byte>, ops: seq<Op>)
    ensures |FileThrough(file, ops)| == LengthAfter(|file|, ops)
    ensures forall i :: 0 <= i < |FileThrough(file, ops)| ==> FileThrough(file, ops)[i] == ByteAfter(file, ops, i)
    decreases |ops|
  {
    if ops == [] {
    } else {
      var front, op := ops[..|ops| - 1], ops[|ops| - 1];
      assert ops == front + [op];
      FileThroughBytes(file, front);
      FileThroughNext(file, front, op);
      var before := FileThrough(file, front);
      hide FileThrough, Overwrite, Resize;
      match op
      case Read(_, _) =>
      case Write(data, offset) => OverwriteBytes(before, offset, data);
      case Truncate(size, _) => ResizeBytes(before, size);
    }
  }

  /** How many reads there are in a run. */
  function Reads(ops: seq<Op>): nat {
    if ops == [] then 0 else Reads(ops[..|ops| - 1]) + if ops[|ops| - 1].Read? then 1 else 0
  }

  lemma {:induction false} PlainReadsAppend(file: seq<Byte>, a: seq<Op>, b: seq<Op>)
    ensures PlainReads(file, a + b) == PlainReads(file, a) + PlainReads(FileThrough(file, a), b)
    decreases a
  {
    hide PlainRead, FileAfter;
    if a == [] {
      assert a + b == b;
    } else {
      assert (a + b)[1..] == a[1..] + b;
      PlainReadsAppend(FileAfter(file, a[0]), a[1..], b);
    }
  }

  lemma {:induction false} ReadsCount(file: seq<Byte>, ops: seq<Op>)
    ensures |PlainReads(file, ops)| == Reads(ops)
    decreases |ops|
  {
    if ops == [] {
    } else {
      var front, op := ops[..|ops| - 1], ops[|ops| - 1];
      assert ops == front + [op];
      ReadsCount(file, front);
      PlainReadsAppend(file, front, [op]);
      OneRead(FileThrough(file, front), op);
    }
  }

  lemma OneRead(file: seq<Byte>, op: Op)
    ensures PlainReads(file, [op]) == PlainRead(file, op)
  {
    assert [op][1..] == [];
    assert PlainRead(file, op) + [] == PlainRead(file, op);
  }

  /** What a read in the middle of a run returns: at each place the last byte written there, or the old one,
      or zero, up to where the file then ends. */
  lemma ReadInRun(file: seq<Byte>, before: seq<Op>, size: nat, offset: nat, later: seq<Op>)
    ensures var results := PlainReads(file, before + [Read(size, offset)] + later);
      && Reads(before) < |results|
      && var got, length := results[Reads(before)], LengthAfter(|file|, before);
      && |got| == (if offset >= length then 0 else Min(size, length - offset))
      && forall i :: 0 <= i < |got| ==> got[i] == ByteAfter(file, before, offset + i)
  {
    hide Slice, FileThrough, PlainReads, LengthAfter, ByteAfter, Reads;
    var op := Read(size, offset);
    var now := FileThrough(file, before);
    assert before + [op] + later == before + ([op] + later);
    PlainReadsAppend(file, before, [op] + later);
    PlainReadsAppend(now, [op], later);
    OneRead(now, op);
    ReadsCount(file, before);
    FileThroughBytes(file, before);
    SliceBytes(now, offset, size);
  }

  /** In particular, what was just written is read back. */
  lemma WrittenIsRead(file: seq<Byte>, before: seq<Op>, data: seq<Byte>, offset: nat, later: seq<Op>)
    ensures var results := PlainReads(file, before + [Write(data, offset)] + [Read(|data|, offset)] + later);
      Reads(before) < |results| && results[Reads(before)] == data
  {
    var op := Write(data, offset);
    var ops := before + [op];
    assert ops[..|ops| - 1] == before;
    ReadInRun(file, ops, |data|, offset, later);
  }
}
