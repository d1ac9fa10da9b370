/** Receiving block data from a stream of packets.

    On the wire a packet is its lengths, its header, its checksums and its data.  The receiver takes
    from the header how many data bytes there are and reads that many at once: it reads past no
    checksum.  It also takes a short read, where a connection closes or fails, for a full one.  So what it
    delivers is stated for every stream, however it stops; when that is the data, and when a stop is
    noticed, are theorems.

    Bytes are of any type `T`.  The receiver never looks at them (`SameForAll`), so with its bytes
    numbered a stream shows where each byte delivered came from.
 */
module Receiving {
  import opened Common
  import opened Crc32cSpec
  import opened Graph
  import opened Packets
  import opened Words

  // ---------------------------------------------------------------- windows

  /** The `len` elements after the first `skip`, or as many of them as there are. */
  function Window<T>(s: seq<T>, skip: nat, len: nat): seq<T> {
    s[Min(skip, |s|)..Min(skip + len, |s|)]
  }

  lemma WindowAt<T>(s: seq<T>, skip: nat, len: nat)
    ensures |Window(s, skip, len)| == if skip >= |s| then 0 else Min(len, |s| - skip)
    ensures forall i :: 0 <= i < |Window(s, skip, len)| ==> Window(s, skip, len)[i] == s[skip + i]
  {
  }

  lemma WindowPast<T>(first: seq<T>, rest: seq<T>, skip: nat, len: nat)
    requires skip >= |first|
    ensures Window(first + rest, skip, len) == Window(rest, skip - |first|, len)
  {
    var n := |first + rest|;
    SliceTail(first, rest, Min(skip, n), Min(skip + len, n));
  }

  lemma SliceTail<T>(first: seq<T>, rest: seq<T>, from: nat, to: nat)
    requires |first| <= from <= to <= |first| + |rest|
    ensures (first + rest)[from..to] == rest[from - |first|..to - |first|]
  {
    var a, b := (first + rest)[from..to], rest[from - |first|..to - |first|];
    forall i | 0 <= i < to - from ensures a[i] == b[i] {
      assert a[i] == (first + rest)[from + i];
    }
  }

  lemma WindowInto<T>(first: seq<T>, rest: seq<T>, skip: nat, len: nat)
    requires skip < |first|
    ensures var read := Min(|first| - skip, len);
      Window(first + rest, skip, len) == first[skip..skip + read] + Window(rest, 0, len - read)
  {
    var read := Min(|first| - skip, len);
    var more := Min(len - read, |rest|);
    assert Window(first + rest, skip, len) == (first + rest)[skip..skip + read + more];
    assert Window(rest, 0, len - read) == rest[..more];
    hide Window;
    if read == |first| - skip {
      SliceAcross(first, rest, skip, more);
    } else {
      SliceWithin(first, rest, skip, skip + read);
      assert more == 0 && rest[..more] == [];
    }
  }

  lemma SliceWithin<T>(first: seq<T>, rest: seq<T>, from: nat, to: nat)
    requires from <= to <= |first|
    ensures (first + rest)[from..to] == first[from..to]
  {
  }

  lemma SliceAcross<T>(first: seq<T>, rest: seq<T>, from: nat, more: nat)
    requires from <= |first| && more <= |rest|
    ensures (first + rest)[from..|first| + more] == first[from..|first|] + rest[..more]
  {
  }

  lemma WindowTakes<T>(s: seq<T>, skip: nat, len: nat)
    requires |s| < skip + len && len > 0
    ensures Min(skip, |s|) <= skip
    ensures var got := Window(s, skip, len); |got| < len && skip - Min(skip, |s|) + len - |got| == skip + len - |s|
  {
  }

  // ---------------------------------------------------------------- streams

  /** A packet whose header came through; the header gives `last` and the length of `data`.  `arrived`
      bytes of checksums and data came through. */
  datatype Frame<T> = Frame(last: bool, sums: seq<T>, data: seq<T>, arrived: nat) {
    predicate Complete() {
      arrived == |sums| + |data|
    }

    /** The bytes read as this packet's data; where none came there is nothing new. */
    function Taken(): (r: seq<Option<T>>)
      ensures |r| == |data|
    {
      seq(|data|, i requires 0 <= i < |data| => if i < arrived then Some((sums + data)[i]) else None)
    }
  }

  /** How a stream stops: with an error, or by being closed.  A read that has got something by then
      returns that; one that gets nothing returns the error, or nothing and no error. */
  datatype Stop = Broken | Closed

  /** Only the packet a stream stops in is incomplete. */
  ghost predicate WellFormed<T>(frames: seq<Frame<T>>) {
    && (forall i :: 0 <= i < |frames| ==> frames[i].arrived <= |frames[i].sums| + |frames[i].data|)
    && (forall i :: 0 <= i < |frames| - 1 ==> frames[i].Complete())
  }

  /** How a call ends: with a result, by taking bytes inside a packet for lengths, or by using lengths it
      did not receive, which are unset before the first packet and later the previous ones, bytes swapped. */
  datatype Verdict = Ended(res: int) | OutOfStep | NoLengths

  /** The packets the receiver can get through: up to the last one, or one whose data does not end where
      the next packet's lengths begin. */
  function Readable<T>(frames: seq<Frame<T>>): seq<Frame<T>> {
    if frames == [] then []
    else if frames[0].last || frames[0].arrived != |frames[0].data| then [frames[0]]
    else [frames[0]] + Readable(frames[1..])
  }

  function Taken<T>(frames: seq<Frame<T>>): seq<Option<T>> {
    if frames == [] then [] else frames[0].Taken() + Taken(frames[1..])
  }

  /** What is delivered, for any stream. */
  function Delivered<T>(frames: seq<Frame<T>>, skip: nat, len: nat): seq<Option<T>> {
    Window(Taken(Readable(frames)), skip, len)
  }

  /** Where the last read in a packet of `n` bytes starts: `skip` are passed over in parts of at most
      `left`, then up to `left` are taken. */
  function LastRead(n: nat, skip: nat, left: nat): nat
    requires n > 0 && left > 0
  {
    if skip < n then skip else n - 1 - (n - 1) % left
  }

  /** Some read in this packet gets nothing. */
  predicate Fails<T>(f: Frame<T>, skip: nat, left: nat)
    requires left > 0
  {
    f.data != [] && f.arrived <= LastRead(|f.data|, skip, left)
  }

  /** That happens in the packet a stream stops in, if it is read at all. */
  predicate Noticed<T>(frames: seq<Frame<T>>, skip: nat, len: nat)
    requires len > 0
  {
    && frames != []
    && var before := |Taken(frames[..|frames| - 1])|;
    && before < skip + len
    && var skip' := skip - Min(skip, before);
    Fails(frames[|frames| - 1], skip', skip + len - before - skip')
  }

  /** How the call ends when all that was wanted, or the last packet, is in. */
  function Acknowledged(ack: int): Verdict {
    Ended(if ack < 0 then ack else 0)
  }

  /** How the call ends when there is no further packet to be read in step. */
  function Stuck<T>(frames: seq<Frame<T>>, stop: Stop): Verdict {
    if frames != [] && frames[|frames| - 1].arrived > |frames[|frames| - 1].data| then OutOfStep
    else if stop.Broken? then Ended(-1)
    else NoLengths
  }

  predicate EndsLast<T>(frames: seq<Frame<T>>) {
    frames != [] && frames[|frames| - 1].last
  }


  /** How the call ends, for any stream; `ack` is the result of sending the acknowledgement. */
  function Result<T>(frames: seq<Frame<T>>, stop: Stop, skip: nat, len: nat, ack: int): Verdict {
    var read := Readable(frames);
    if len == 0 then Acknowledged(ack)
    else if stop.Broken? && Noticed(read, skip, len) then Ended(-1)
    else if skip + len <= |Taken(read)| || EndsLast(read) then Acknowledged(ack)
    else Stuck(read, stop)
  }

  // ---------------------------------------------------------------- the loop

  /** A read in a packet of `n` bytes can start at `at`. */
  ghost predicate ReadAt(n: nat, skip: nat, left: nat, at: nat)
    requires left > 0
  {
    at < n && if skip < n then at <= skip else at % left == 0
  }

  /** No read starts after the last. */
  lemma ReadsInOrder(n: nat, skip: nat, left: nat, at: nat)
    requires left > 0 && ReadAt(n, skip, left, at)
    ensures at <= LastRead(n, skip, left)
  {
    if skip >= n {
      var q, r := (n - 1) / left, (n - 1) % left;
      assert n - 1 == left * q + r && at == left * (at / left);
      if at / left > q { MulStep(left, q, at / left); }
      if at / left <= q && at > left * q { MulStep(left, at / left, q + 1); }
    }
  }

  /** Where the next read starts; a packet skipped whole has had its last. */
  lemma NextRead(n: nat, skip: nat, left: nat, at: nat)
    requires left > 0 && at < skip && ReadAt(n, skip, left, at)
    ensures var next := at + Min(Min(n - at, skip - at), left);
      if next < n then ReadAt(n, skip, left, next) else at == LastRead(n, skip, left)
  {
    var next := at + Min(Min(n - at, skip - at), left);
    if skip >= n {
      if next < n {
        ModUnique(next, left, at / left + 1, 0);
      } else {
        ModUnique(n - 1, left, at / left, n - 1 - at);
      }
    }
  }

  lemma FirstRead(n: nat, skip: nat, left: nat)
    requires left > 0 && n > 0
    ensures ReadAt(n, skip, left, 0) && (skip < n ==> LastRead(n, skip, left) == skip)
  {
  }

  lemma FailsMeaning<T>(f: Frame<T>, skip: nat, left: nat)
    requires left > 0
    ensures Fails(f, skip, left) <==> |f.data| > 0 && f.arrived <= LastRead(|f.data|, skip, left)
  {
  }

  /** Passes over `skip` bytes and takes up to `left` more, as the header's length allows. */
  method ReceiveOne<T>(f: Frame<T>, stop: Stop, skip: nat, left: nat)
    returns (ok: bool, got: seq<Option<T>>, skip': nat, left': nat)
    requires left > 0
    ensures ok <==> stop.Closed? || !Fails(f, skip, left)
    ensures ok ==> skip' == skip - Min(skip, |f.data|) && |got| + left' == left
    ensures ok ==> got == Window(f.Taken(), skip, left)
  {
    hide Frame.Taken, Fails, LastRead, ReadAt;
    FailsMeaning(f, skip, left);
    var available: nat, at: nat := |f.data|, 0;
    ok, got, skip', left' := true, [], skip, left;
    if available > 0 { FirstRead(|f.data|, skip, left); }
    while skip' > 0 && available > 0
      invariant skip' <= skip && available <= |f.data| && at == |f.data| - available == skip - skip'
      invariant available > 0 ==> ReadAt(|f.data|, skip, left, at)
      invariant available == 0 < |f.data| ==> stop.Closed? || LastRead(|f.data|, skip, left) < f.arrived
    {
      ReadsInOrder(|f.data|, skip, left, at);
      NextRead(|f.data|, skip, left, at);
      if stop.Broken? && at >= f.arrived {
        return false, got, skip', left';
      }
      var skipped := Min(Min(available, skip'), left);
      at, available, skip' := at + skipped, available - skipped, skip' - skipped;
    }
    if available > 0 {
      if stop.Broken? && at >= f.arrived {
        return false, got, skip', left';
      }
      var read := Min(available, left);
      got, left' := f.Taken()[at..at + read], left - read;
    }
  }

  lemma TakenCons<T>(f: Frame<T>, rest: seq<Frame<T>>)
    ensures Taken([f] + rest) == f.Taken() + Taken(rest)
  {
    assert ([f] + rest)[1..] == rest;
  }

  lemma WindowSplit<T>(first: seq<T>, rest: seq<T>, skip: nat, len: nat)
    ensures var got := Window(first, skip, len);
      && |got| <= len
      && Window(first + rest, skip, len) == got + Window(rest, skip - Min(skip, |first|), len - |got|)
  {
    if skip >= |first| {
      WindowPast(first, rest, skip, len);
      assert Window(first, skip, len) == [];
    } else {
      WindowInto(first, rest, skip, len);
    }
  }

  predicate InStep<T>(f: Frame<T>) {
    !f.last && f.arrived == |f.data|
  }

  lemma StuckCons<T>(f: Frame<T>, rest: seq<Frame<T>>, stop: Stop)
    requires InStep(f)
    ensures Stuck([f] + rest, stop) == Stuck(rest, stop) && EndsLast([f] + rest) == EndsLast(rest)
  {
  }

  lemma NoticedCons<T>(f: Frame<T>, rest: seq<Frame<T>>, skip: nat, len: nat)
    requires InStep(f) && |f.data| < skip + len && len > 0
    ensures var got, skip' := Window(f.Taken(), skip, len), skip - Min(skip, |f.data|);
      && |got| < len && skip' + (len - |got|) == skip + len - |f.data|
      && (Noticed([f] + rest, skip, len) <==> Noticed(rest, skip', len - |got|))
  {
    WindowTakes(f.Taken(), skip, len);
    hide Frame.Taken, Window;
    if rest == [] {
      assert [f] + rest == [f] && [f][..0] == [];
      InStepRead(f, skip, len);
    } else {
      var all := [f] + rest;
      assert all[..|all| - 1] == [f] + rest[..|rest| - 1];
      TakenCons(f, rest[..|rest| - 1]);
      hide Fails, Taken;
    }
  }

  lemma InStepRead<T>(f: Frame<T>, skip: nat, left: nat)
    requires f.arrived >= |f.data| && left > 0
    ensures !Fails(f, skip, left)
  {
  }

  lemma ResultMeaning<T>(frames: seq<Frame<T>>, stop: Stop, skip: nat, len: nat, ack: int)
    requires len > 0
    ensures Delivered(frames, skip, len) == Window(Taken(Readable(frames)), skip, len)
    ensures var read := Readable(frames);
      Result(frames, stop, skip, len, ack) ==
        if stop.Broken? && Noticed(read, skip, len) then Ended(-1)
        else if skip + len <= |Taken(read)| || EndsLast(read) then Acknowledged(ack)
        else Stuck(read, stop)
  {
  }

  lemma DeliveredNext<T>(frames: seq<Frame<T>>, skip: nat, len: nat)
    requires frames != [] && InStep(frames[0])
    ensures var f, rest := frames[0], frames[1..];
      var got, skip' := Window(f.Taken(), skip, len), skip - Min(skip, |f.data|);
      |got| <= len && Delivered(frames, skip, len) == got + Delivered(rest, skip', len - |got|)
  {
    var f, read := frames[0], Readable(frames[1..]);
    assert Readable(frames) == [f] + read;
    hide Window, Taken, Readable, Frame.Taken;
    TakenCons(f, read);
    WindowSplit(f.Taken(), Taken(read), skip, len);
  }

  lemma VerdictNext<T>(frames: seq<Frame<T>>, stop: Stop, skip: nat, len: nat, ack: int, skip': nat, len': nat)
    requires frames != [] && InStep(frames[0]) && |frames[0].data| < skip + len && len > 0 && len' > 0
    requires skip' + len' == skip + len - |frames[0].data|
    requires Noticed(Readable(frames), skip, len) <==> Noticed(Readable(frames[1..]), skip', len')
    ensures Result(frames, stop, skip, len, ack) == Result(frames[1..], stop, skip', len', ack)
  {
    var f, read := frames[0], Readable(frames[1..]);
    assert Readable(frames) == [f] + read && |f.Taken()| == |f.data|;
    hide *;
    TakenCons(f, read);
    StuckCons(f, read, stop);
    ResultMeaning(frames, stop, skip, len, ack);
    ResultMeaning(frames[1..], stop, skip', len', ack);
  }

  /** After a packet read in step that does not fill the window, all depends on the rest. */
  lemma ResultNext<T>(frames: seq<Frame<T>>, stop: Stop, skip: nat, len: nat, ack: int)
    requires frames != [] && InStep(frames[0]) && |frames[0].data| < skip + len && len > 0
    ensures var f, rest := frames[0], frames[1..];
      var got, skip' := Window(f.Taken(), skip, len), skip - Min(skip, |f.data|);
      && |got| < len
      && Delivered(frames, skip, len) == got + Delivered(rest, skip', len - |got|)
      && Result(frames, stop, skip, len, ack) == Result(rest, stop, skip', len - |got|, ack)
  {
    var f, read := frames[0], Readable(frames[1..]);
    assert Readable(frames) == [f] + read;
    var got, skip' := Window(f.Taken(), skip, len), skip - Min(skip, |f.data|);
    hide *;
    NoticedCons(f, read, skip, len);
    DeliveredNext(frames, skip, len);
    VerdictNext(frames, stop, skip, len, ack, skip', len - |got|);
  }

  /** Otherwise the call ends in this packet. */
  lemma ResultHere<T>(frames: seq<Frame<T>>, stop: Stop, skip: nat, len: nat, ack: int)
    requires frames != [] && len > 0 && (!InStep(frames[0]) || skip + len <= |frames[0].data|)
    ensures var f := frames[0];
      && Delivered(frames, skip, len) == Window(f.Taken(), skip, len)
      && Result(frames, stop, skip, len, ack) ==
           if stop.Broken? && Fails(f, skip, len) then Ended(-1)
           else if f.last || skip + len <= |f.data| then Acknowledged(ack)
           else Stuck([f], stop)
  {
    var f, read := frames[0], if InStep(frames[0]) then Readable(frames[1..]) else [];
    assert Readable(frames) == [f] + read && ([f] + [] == [f]) && Taken<T>([]) == [];
    hide Stuck, Taken, Readable, Frame.Taken, Window, Noticed;
    TakenCons(f, read);
    NoticedHere(f, read, skip, len);
    FirstOnly(f.Taken(), Taken(read), skip, len);
  }

  lemma NoticedHere<T>(f: Frame<T>, rest: seq<Frame<T>>, skip: nat, len: nat)
    requires len > 0 && (rest != [] ==> f.arrived >= |f.data| >= skip + len)
    ensures Noticed([f] + rest, skip, len) <==> Fails(f, skip, len)
  {
    var all := [f] + rest;
    if rest == [] {
      assert all[..|all| - 1] == [];
    } else {
      InStepRead(f, skip, len);
      assert all[..|all| - 1] == [f] + rest[..|rest| - 1];
      TakenCons(f, rest[..|rest| - 1]);
    }
  }

  lemma FirstOnly<T>(first: seq<T>, rest: seq<T>, skip: nat, len: nat)
    requires rest == [] || skip + len <= |first|
    ensures (first + rest)[..Min(skip + len, |first + rest|)] == first[..Min(|first|, skip + len)]
    ensures Window(first + rest, skip, len) == Window(first, skip, len)
  {
    if rest == [] {
      assert first + rest == first;
    } else {
      SliceWithin(first, rest, Min(skip, |first|), skip + len);
    }
  }

  /** What the first packet decides. */
  lemma ResultStep<T>(frames: seq<Frame<T>>, stop: Stop, skip: nat, len: nat, ack: int)
    requires frames != [] && len > 0
    ensures var f := frames[0];
      var got, skip' := Window(f.Taken(), skip, len), skip - Min(skip, |f.data|);
      if stop.Broken? && Fails(f, skip, len) then
        Result(frames, stop, skip, len, ack) == Ended(-1)
      else if f.last || |got| == len then
        Result(frames, stop, skip, len, ack) == Acknowledged(ack) && Delivered(frames, skip, len) == got
      else if !InStep(f) then
        Result(frames, stop, skip, len, ack) == Stuck([f], stop)
      else
        && |got| < len && Delivered(frames, skip, len) == got + Delivered(frames[1..], skip', len - |got|)
        && Result(frames, stop, skip, len, ack) == Result(frames[1..], stop, skip', len - |got|, ack)
  {
    hide Result, Delivered, Stuck, Acknowledged, Frame.Taken, Fails;
    var f := frames[0];
    if InStep(f) { InStepRead(f, skip, len); }
    if InStep(f) && |f.data| < skip + len {
      ResultNext(frames, stop, skip, len, ack);
    } else {
      ResultHere(frames, stop, skip, len, ack);
    }
  }

  lemma ResultNone<T>(stop: Stop, skip: nat, len: nat, ack: int)
    requires len > 0
    ensures Result<T>([], stop, skip, len, ack) == if stop.Broken? then Ended(-1) else NoLengths
  {
  }

  lemma ResultNothingWanted<T>(frames: seq<Frame<T>>, stop: Stop, skip: nat, ack: int)
    ensures Result(frames, stop, skip, 0, ack) == Acknowledged(ack) && Delivered(frames, skip, 0) == []
  {
  }

  lemma StuckMeaning<T>(f: Frame<T>, stop: Stop)
    ensures Stuck([f], stop) ==
      if f.arrived > |f.data| then OutOfStep else if stop.Broken? then Ended(-1) else NoLengths
  {
  }

  /** Reads packets until `len` bytes are in or a packet says it is the last, then acknowledges. */
  method ReceivePackets<T>(frames: seq<Frame<T>>, stop: Stop, skipbytes: nat, len: nat, ack: int)
    returns (verdict: Verdict, to: seq<Option<T>>)
    ensures verdict == Result(frames, stop, skipbytes, len, ack)
    ensures verdict == Ended(0) ==> to == Delivered(frames, skipbytes, len)
  {
    hide Result, Delivered, Stuck, Window, Frame.Taken;
    var more, skip: nat, left: nat, i: nat := true, skipbytes, len, 0;
    to := [];
    assert frames[0..] == frames;
    ResultNothingWanted(frames, stop, skipbytes, ack);
    ghost var result, delivered := Result(frames, stop, skipbytes, len, ack), Delivered(frames, skipbytes, len);
    while more && left > 0
      invariant i <= |frames|
      invariant !more || left == 0 ==> result == Acknowledged(ack) && to == delivered
      invariant more && left > 0 && (i == 0 || InStep(frames[i - 1])) ==>
        Result(frames[i..], stop, skip, left, ack) == result && to + Delivered(frames[i..], skip, left) == delivered
      invariant more && left > 0 && i > 0 && !InStep(frames[i - 1]) ==> result == Stuck([frames[i - 1]], stop)
      invariant more && i > 0 ==> !frames[i - 1].last
      decreases |frames| - i
    {
      // the lengths and the header of the next packet
      ResultNone<T>(stop, skip, left, ack);
      if i > 0 && frames[i - 1].arrived != |frames[i - 1].data| {
        StuckMeaning(frames[i - 1], stop);
        verdict := if frames[i - 1].arrived > |frames[i - 1].data| then OutOfStep
                   else if stop.Broken? then Ended(-1) else NoLengths;
        return;
      }
      if i == |frames| {
        verdict := if stop.Broken? then Ended(-1) else NoLengths;
        return;
      }
      var f := frames[i];
      assert frames[i..][0] == f && frames[i..][1..] == frames[i + 1..];
      ResultStep(frames[i..], stop, skip, left, ack);
      more := !f.last;
      var ok, got;
      ok, got, skip, left := ReceiveOne(f, stop, skip, left);
      if !ok {
        return Ended(-1), to;
      }
      to, i := to + got, i + 1;
    }
    verdict := if ack < 0 then Ended(ack) else Ended(0);
  }

  // ---------------------------------------------------------------- when the data is delivered

  /** The packets up to the first that says it is the last, or all of them. */
  function Stream<T>(frames: seq<Frame<T>>): seq<Frame<T>> {
    if frames == [] then []
    else if frames[0].last then [frames[0]]
    else [frames[0]] + Stream(frames[1..])
  }

  function Content<T>(frames: seq<Frame<T>>): seq<T> {
    if frames == [] then [] else frames[0].data + Content(frames[1..])
  }

  function Wrap<T>(s: seq<T>): (r: seq<Option<T>>)
    ensures |r| == |s|
  {
    seq(|s|, i requires 0 <= i < |s| => Some(s[i]))
  }

  /** The call succeeds with the wanted part of the data. */
  ghost predicate Correct<T>(frames: seq<Frame<T>>, stop: Stop, skip: nat, len: nat, ack: int) {
    && Result(frames, stop, skip, len, ack) == Ended(0)
    && Delivered(frames, skip, len) == Wrap(Window(Content(Stream(frames)), skip, len))
  }

  /** If packet `i` of `s` is read, it carries checksums only if it is the last and nothing of it is
      wanted. */
  ghost predicate HarmlessAt<T>(s: seq<Frame<T>>, i: nat, skip: nat, len: nat)
    requires i < |s|
  {
    |Content(s[..i])| < skip + len && s[i].sums != [] ==>
      s[i].last && (s[i].data == [] || |Content(s[..i])| + |s[i].data| <= skip)
  }

  ghost predicate Harmless<T>(s: seq<Frame<T>>, skip: nat, len: nat) {
    len == 0 || forall i :: 0 <= i < |s| ==> HarmlessAt(s, i, skip, len)
  }

  lemma ContentCons<T>(f: Frame<T>, rest: seq<Frame<T>>)
    ensures Content([f] + rest) == f.data + Content(rest)
  {
    assert ([f] + rest)[1..] == rest;
  }

  lemma ContentPrefix<T>(f: Frame<T>, rest: seq<Frame<T>>, i: nat)
    requires i <= |rest|
    ensures |Content(([f] + rest)[..i + 1])| == |f.data| + |Content(rest[..i])|
  {
    assert ([f] + rest)[..i + 1] == [f] + rest[..i];
    ContentCons(f, rest[..i]);
  }

  lemma HarmlessFirst<T>(s: seq<Frame<T>>, skip: nat, len: nat)
    requires s != [] && len > 0
    ensures HarmlessAt(s, 0, skip, len) <==>
      (s[0].sums != [] ==> s[0].last && (s[0].data == [] || |s[0].data| <= skip))
  {
    assert Content(s[..0]) == [];
  }

  /** The condition on later packets, past the first. */
  lemma HarmlessNext<T>(f: Frame<T>, rest: seq<Frame<T>>, skip: nat, len: nat, skip': nat, len': nat)
    requires |f.data| < skip + len && len > 0 && len' > 0
    requires skip' == skip - Min(skip, |f.data|) && skip' + len' == skip + len - |f.data|
    ensures Harmless([f] + rest, skip, len) <==> HarmlessAt([f] + rest, 0, skip, len) && Harmless(rest, skip', len')
  {
    hide HarmlessAt;
    var s := [f] + rest;
    forall i: nat | i < |rest| ensures HarmlessAt(s, i + 1, skip, len) <==> HarmlessAt(rest, i, skip', len') {
      HarmlessLater(f, rest, i, skip, len, skip', len');
    }
    if HarmlessAt(s, 0, skip, len) && Harmless(rest, skip', len') {
      forall i: nat | i < |s| ensures HarmlessAt(s, i, skip, len) {
        if i > 0 { assert HarmlessAt(rest, i - 1, skip', len'); }
      }
    }
  }

  lemma HarmlessLater<T>(f: Frame<T>, rest: seq<Frame<T>>, i: nat, skip: nat, len: nat, skip': nat, len': nat)
    requires |f.data| < skip + len && len > 0 && len' > 0 && i < |rest|
    requires skip' == skip - Min(skip, |f.data|) && skip' + len' == skip + len - |f.data|
    ensures HarmlessAt([f] + rest, i + 1, skip, len) <==> HarmlessAt(rest, i, skip', len')
  {
    ContentPrefix(f, rest, i);
    hide Content;
  }

  /** Nothing after a packet that fills the window matters. */
  lemma HarmlessFilled<T>(f: Frame<T>, rest: seq<Frame<T>>, skip: nat, len: nat)
    requires |f.data| >= skip + len && len > 0
    ensures Harmless([f] + rest, skip, len) <==> HarmlessAt([f] + rest, 0, skip, len)
  {
    var s := [f] + rest;
    forall i: nat | 0 < i < |s| ensures HarmlessAt(s, i, skip, len) {
      ContentPrefix(f, rest, i - 1);
    }
  }

  lemma WindowWrap<T>(s: seq<T>, skip: nat, len: nat)
    ensures Window(Wrap(s), skip, len) == Wrap(Window(s, skip, len))
  {
  }

  lemma TakenClean<T>(f: Frame<T>)
    requires f.sums == [] && f.Complete()
    ensures f.Taken() == Wrap(f.data)
  {
    assert f.sums + f.data == f.data;
  }

  /** What is read first of a packet with checksums is not its data. */
  lemma TakenSums<T>(f: Frame<T>, i: nat)
    requires f.sums != [] && f.Complete() && Distinct(f.sums + f.data) && i < |f.data|
    ensures f.Taken()[i] != Some(f.data[i])
  {
    var all := f.sums + f.data;
    assert all[|f.sums| + i] == f.data[i] && all[i] != all[|f.sums| + i];
  }

  lemma SumsSpoil<T>(frames: seq<Frame<T>>, stop: Stop, skip: nat, len: nat, ack: int)
    requires frames != [] && len > 0 && ack >= 0
    requires var f := frames[0]; f.sums != [] && f.Complete() && Distinct(f.sums + f.data)
    ensures Correct(frames, stop, skip, len, ack) <==>
      frames[0].last && (frames[0].data == [] || |frames[0].data| <= skip)
  {
    var f, s := frames[0], Stream(frames);
    var rest := s[1..];
    assert s == [f] + rest && (f.last ==> rest == []) && Content<T>([]) == [] && f.arrived > |f.data|;
    hide Result, Delivered, Frame.Taken, Stuck, Distinct, Stream, Content, Window, Wrap, Fails;
    ContentCons(f, rest);
    InStepRead(f, skip, len);
    ResultHere(frames, stop, skip, len, ack);
    StuckMeaning(f, stop);
    if skip < |f.data| {
      TakenSums(f, skip);
      WindowFirst(f.data, Content(rest), skip, len);
      WindowFirst(f.Taken(), [], skip, len);
      assert f.Taken() + [] == f.Taken();
      WrapFirst(Window(Content(s), skip, len));
    } else {
      WindowBeyond(f.Taken(), skip, len);
      if f.last {
        assert f.data + [] == f.data;
        WindowBeyond(f.data, skip, len);
        WrapNone<T>();
      }
    }
  }

  lemma WindowFirst<T>(first: seq<T>, rest: seq<T>, skip: nat, len: nat)
    requires skip < |first| && len > 0
    ensures var w := Window(first + rest, skip, len); w != [] && w[0] == first[skip]
  {
  }

  lemma WindowBeyond<T>(s: seq<T>, skip: nat, len: nat)
    requires skip >= |s|
    ensures Window(s, skip, len) == []
  {
  }

  lemma WrapFirst<T>(s: seq<T>)
    requires s != []
    ensures Wrap(s)[0] == Some(s[0])
  {
  }

  lemma WrapNone<T>()
    ensures Wrap<T>([]) == []
  {
  }

  lemma CleanFilled<T>(frames: seq<Frame<T>>, stop: Stop, skip: nat, len: nat, ack: int)
    requires frames != [] && len > 0 && ack >= 0
    requires var f := frames[0]; f.sums == [] && f.Complete() && (f.last || skip + len <= |f.data|)
    ensures Correct(frames, stop, skip, len, ack)
  {
    hide Result, Delivered, Frame.Taken, Stuck, Window;
    var f := frames[0];
    var s := Stream(frames);
    var rest := s[1..];
    assert s == [f] + rest && (f.last ==> rest == []) && Content<T>([]) == [];
    ContentCons(f, rest);
    TakenClean(f);
    ResultHere(frames, stop, skip, len, ack);
    FirstOnly(f.data, Content(rest), skip, len);
    WindowWrap(f.data, skip, len);
  }

  lemma CleanNext<T>(frames: seq<Frame<T>>, stop: Stop, skip: nat, len: nat, ack: int)
    requires frames != [] && len > 0 && frames[0].sums == [] && frames[0].Complete()
    requires !frames[0].last && |frames[0].data| < skip + len
    ensures var f := frames[0];
      var skip', len' := skip - Min(skip, |f.data|), len - |Window(f.data, skip, len)|;
      && len' > 0 && skip' + len' == skip + len - |f.data|
      && (Correct(frames, stop, skip, len, ack) <==> Correct(frames[1..], stop, skip', len', ack))
  {
    hide *;
    var f, rest := frames[0], frames[1..];
    var got := Window(f.data, skip, len);
    var skip', len' := skip - Min(skip, |f.data|), len - |got|;
    WindowTakes(f.data, skip, len);
    CleanFacts(frames);
    WindowWrap(f.data, skip, len);
    ResultNext(frames, stop, skip, len, ack);
    WindowSplit(f.data, Content(Stream(rest)), skip, len);
    WrapAppend(got, Window(Content(Stream(rest)), skip', len'));
    SameAfter(Wrap(got), Delivered(rest, skip', len'), Wrap(Window(Content(Stream(rest)), skip', len')));
    CorrectMeaning(frames, stop, skip, len, ack);
    CorrectMeaning(rest, stop, skip', len', ack);
  }

  lemma CleanFacts<T>(frames: seq<Frame<T>>)
    requires frames != [] && frames[0].sums == [] && frames[0].Complete() && !frames[0].last
    ensures InStep(frames[0]) && frames[0].Taken() == Wrap(frames[0].data)
    ensures Content(Stream(frames)) == frames[0].data + Content(Stream(frames[1..]))
  {
    TakenClean(frames[0]);
    ContentCons(frames[0], Stream(frames[1..]));
  }

  lemma CorrectMeaning<T>(frames: seq<Frame<T>>, stop: Stop, skip: nat, len: nat, ack: int)
    ensures Correct(frames, stop, skip, len, ack) <==>
      && Result(frames, stop, skip, len, ack) == Ended(0)
      && Delivered(frames, skip, len) == Wrap(Window(Content(Stream(frames)), skip, len))
  {
  }

  lemma SameAfter<T>(a: seq<T>, x: seq<T>, y: seq<T>)
    ensures a + x == a + y <==> x == y
  {
    assert (a + x)[|a|..] == x && (a + y)[|a|..] == y;
  }

  lemma WrapAppend<T>(a: seq<T>, b: seq<T>)
    ensures Wrap(a + b) == Wrap(a) + Wrap(b)
  {
  }

  /** With all bytes of a packet different, the wanted data is delivered if and only if no packet that is
      read carries checksums (or it is the last, and nothing of it wanted). */
  lemma {:induction false} DistinctDeliver<T>(frames: seq<Frame<T>>, stop: Stop, skip: nat, len: nat, ack: int)
    requires EndsLast(Stream(frames)) && ack >= 0
    requires forall i :: 0 <= i < |frames| ==>
      frames[i].Complete() && Distinct(frames[i].sums + frames[i].data)
    ensures Correct(frames, stop, skip, len, ack) <==> Harmless(Stream(frames), skip, len)
    decreases frames
  {
    hide Correct, Result, Delivered, HarmlessAt, Window, Distinct;
    if len == 0 {
      NothingWanted(frames, stop, skip, ack);
    } else {
      var f, rest := frames[0], Stream(frames)[1..];
      assert Stream(frames) == [f] + rest;
      HarmlessFirst(Stream(frames), skip, len);
      if f.sums != [] {
        SumsSpoil(frames, stop, skip, len, ack);
        LastAlone(frames, skip, len);
      } else if |f.data| >= skip + len {
        CleanFilled(frames, stop, skip, len, ack);
        HarmlessFilled(f, rest, skip, len);
      } else if f.last {
        CleanFilled(frames, stop, skip, len, ack);
        LastAlone(frames, skip, len);
      } else {
        CleanNext(frames, stop, skip, len, ack);
        var skip', len' := skip - Min(skip, |f.data|), len - |Window(f.data, skip, len)|;
        assert rest == Stream(frames[1..]);
        DistinctDeliver(frames[1..], stop, skip', len', ack);
        HarmlessNext(f, rest, skip, len, skip', len');
      }
    }
  }

  lemma NothingWanted<T>(frames: seq<Frame<T>>, stop: Stop, skip: nat, ack: int)
    requires ack >= 0
    ensures Correct(frames, stop, skip, 0, ack)
  {
    ResultNothingWanted(frames, stop, skip, ack);
  }

  lemma LastAlone<T>(frames: seq<Frame<T>>, skip: nat, len: nat)
    requires frames != [] && len > 0
    ensures frames[0].last ==> (Harmless(Stream(frames), skip, len) <==> HarmlessAt(Stream(frames), 0, skip, len))
    ensures !HarmlessAt(Stream(frames), 0, skip, len) ==> !Harmless(Stream(frames), skip, len)
  {
  }

  // ---------------------------------------------------------------- where bytes come from

  function Each<A, B>(f: A -> B, s: seq<A>): (r: seq<B>)
    ensures |r| == |s|
  {
    seq(|s|, i requires 0 <= i < |s| => f(s[i]))
  }

  function EachOption<A, B>(f: A -> B, x: Option<A>): Option<B> {
    match x
    case None => None
    case Some(a) => Some(f(a))
  }

  function EachTaken<A, B>(f: A -> B, s: seq<Option<A>>): (r: seq<Option<B>>)
    ensures |r| == |s|
  {
    seq(|s|, i requires 0 <= i < |s| => EachOption(f, s[i]))
  }

  /** The packet with other bytes. */
  function EachFrame<A, B>(f: A -> B, x: Frame<A>): Frame<B> {
    Frame(x.last, Each(f, x.sums), Each(f, x.data), x.arrived)
  }

  function EachFrames<A, B>(f: A -> B, frames: seq<Frame<A>>): (r: seq<Frame<B>>)
    ensures |r| == |frames|
  {
    seq(|frames|, i requires 0 <= i < |frames| => EachFrame(f, frames[i]))
  }

  lemma EachFramesCons<A, B>(f: A -> B, frames: seq<Frame<A>>)
    requires frames != []
    ensures EachFrames(f, frames) == [EachFrame(f, frames[0])] + EachFrames(f, frames[1..])
    ensures EachFrames(f, frames)[1..] == EachFrames(f, frames[1..])
  {
  }

  lemma EachFrameTaken<A, B>(f: A -> B, x: Frame<A>)
    ensures EachFrame(f, x).Taken() == EachTaken(f, x.Taken())
  {
    var y := EachFrame(f, x);
    forall i | 0 <= i < |x.data| ensures y.Taken()[i] == EachTaken(f, x.Taken())[i] {
      if i < x.arrived { assert (y.sums + y.data)[i] == f((x.sums + x.data)[i]); }
    }
  }

  lemma EachFramesFirst<A, B>(f: A -> B, x: Frame<A>, rest: seq<Frame<A>>)
    ensures EachFrames(f, [x] + rest) == [EachFrame(f, x)] + EachFrames(f, rest)
    ensures EachFrames(f, [x]) == [EachFrame(f, x)]
  {
  }

  lemma {:induction false} EachReadable<A, B>(f: A -> B, frames: seq<Frame<A>>)
    ensures Readable(EachFrames(f, frames)) == EachFrames(f, Readable(frames))
    decreases frames
  {
    if frames == [] {
    } else {
      EachFramesCons(f, frames);
      EachFramesFirst(f, frames[0], Readable(frames[1..]));
      hide EachFrames;
      EachReadable(f, frames[1..]);
    }
  }

  lemma {:induction false} EachStream<A, B>(f: A -> B, frames: seq<Frame<A>>)
    ensures Stream(EachFrames(f, frames)) == EachFrames(f, Stream(frames))
    decreases frames
  {
    if frames == [] {
    } else {
      EachFramesCons(f, frames);
      EachFramesFirst(f, frames[0], Stream(frames[1..]));
      hide EachFrames;
      EachStream(f, frames[1..]);
    }
  }

  lemma {:induction false} EachTakenAll<A, B>(f: A -> B, frames: seq<Frame<A>>)
    ensures Taken(EachFrames(f, frames)) == EachTaken(f, Taken(frames))
    ensures |Content(EachFrames(f, frames))| == |Content(frames)|
    decreases frames
  {
    if frames == [] {
    } else {
      EachFramesCons(f, frames);
      EachFrameTaken(f, frames[0]);
      EachTakenAll(f, frames[1..]);
    }
  }

  lemma EachNoticed<A, B>(f: A -> B, frames: seq<Frame<A>>, skip: nat, len: nat)
    requires len > 0
    ensures Noticed(EachFrames(f, frames), skip, len) <==> Noticed(frames, skip, len)
  {
    if frames != [] {
      var n := |frames| - 1;
      assert EachFrames(f, frames)[..n] == EachFrames(f, frames[..n]);
      EachTakenAll(f, frames[..n]);
    }
  }

  lemma EachWindow<A, B>(f: A -> B, s: seq<Option<A>>, skip: nat, len: nat)
    ensures Window(EachTaken(f, s), skip, len) == EachTaken(f, Window(s, skip, len))
  {
  }

  /** How the call ends does not depend on the bytes, and what it delivers changes as they do. */
  lemma SameForAll<A, B>(f: A -> B, frames: seq<Frame<A>>, stop: Stop, skip: nat, len: nat, ack: int)
    ensures Result(EachFrames(f, frames), stop, skip, len, ack) == Result(frames, stop, skip, len, ack)
    ensures Delivered(EachFrames(f, frames), skip, len) == EachTaken(f, Delivered(frames, skip, len))
  {
    hide *;
    EachReadable(f, frames);
    var read := Readable(frames);
    EachTakenAll(f, read);
    EachWindow(f, Taken(read), skip, len);
    if len == 0 {
      ResultNothingWanted(frames, stop, skip, ack);
      ResultNothingWanted(EachFrames(f, frames), stop, skip, ack);
    } else {
      EachNoticed(f, read, skip, len);
      EachEnds(f, read, stop);
      ResultMeaning(frames, stop, skip, len, ack);
      ResultMeaning(EachFrames(f, frames), stop, skip, len, ack);
    }
  }

  lemma EachEnds<A, B>(f: A -> B, frames: seq<Frame<A>>, stop: Stop)
    ensures EndsLast(EachFrames(f, frames)) <==> EndsLast(frames)
    ensures Stuck(EachFrames(f, frames), stop) == Stuck(frames, stop)
  {
  }

  lemma EachHarmless<A, B>(f: A -> B, s: seq<Frame<A>>, skip: nat, len: nat)
    ensures Harmless(EachFrames(f, s), skip, len) <==> Harmless(s, skip, len)
  {
    forall i: nat | i < |s| ensures HarmlessAt(EachFrames(f, s), i, skip, len) <==> HarmlessAt(s, i, skip, len) {
      assert EachFrames(f, s)[..i] == EachFrames(f, s[..i]);
      EachTakenAll(f, s[..i]);
    }
  }

  /** Every byte with its number in the stream, the first of which is `at`. */
  function Number<T>(s: seq<T>, at: nat): (r: seq<(nat, T)>)
    ensures |r| == |s|
  {
    seq(|s|, i requires 0 <= i < |s| => (at + i, s[i]))
  }

  function Numbered<T>(frames: seq<Frame<T>>, at: nat): (r: seq<Frame<(nat, T)>>)
    ensures |r| == |frames|
    decreases frames
  {
    if frames == [] then [] else
      var f, from := frames[0], at + |frames[0].sums|;
      [Frame(f.last, Number(f.sums, at), Number(f.data, from), f.arrived)] + Numbered(frames[1..], from + |f.data|)
  }

  function Value<T>(x: (nat, T)): T {
    x.1
  }

  lemma {:induction false} NumberedValues<T>(frames: seq<Frame<T>>, at: nat)
    ensures EachFrames(Value, Numbered(frames, at)) == frames
    decreases frames
  {
    if frames == [] {
    } else {
      var f, from := frames[0], at + |frames[0].sums|;
      var ns := Numbered(frames, at);
      NumberedValues(frames[1..], from + |f.data|);
      assert Each(Value, Number(f.sums, at)) == f.sums && Each(Value, Number(f.data, from)) == f.data;
      EachFramesCons(Value, ns);
      assert ns[1..] == Numbered(frames[1..], from + |f.data|);
    }
  }

  lemma {:induction false} NumberedDistinct<T>(frames: seq<Frame<T>>, at: nat, i: nat)
    requires i < |frames|
    ensures var n := Numbered(frames, at)[i];
      Distinct(n.sums + n.data) && (n.Complete() <==> frames[i].Complete())
    decreases frames
  {
    var f, from := frames[0], at + |frames[0].sums|;
    if i == 0 {
      var all := Number(f.sums, at) + Number(f.data, from);
      assert forall k :: 0 <= k < |all| ==> all[k].0 == at + k;
    } else {
      NumberedDistinct(frames[1..], from + |f.data|, i - 1);
    }
  }

  /** The call succeeds, and every wanted byte was read from its own place in the stream. */
  ghost predicate InPlace<T>(frames: seq<Frame<T>>, stop: Stop, skip: nat, len: nat, ack: int) {
    Correct(Numbered(frames, 0), stop, skip, len, ack)
  }

  /** From a complete stream, whatever its bytes, that is so if and only if no packet that is read carries
      checksums (or it is the last, and nothing of it wanted). */
  lemma ChecksumsDeliver<T>(frames: seq<Frame<T>>, stop: Stop, skip: nat, len: nat, ack: int)
    requires EndsLast(Stream(frames)) && ack >= 0 && forall i :: 0 <= i < |frames| ==> frames[i].Complete()
    ensures InPlace(frames, stop, skip, len, ack) <==> Harmless(Stream(frames), skip, len)
  {
    hide Correct, Harmless, Distinct, Numbered, Frame.Complete, EachFrames;
    var ns := Numbered(frames, 0);
    NumberedValues(frames, 0);
    EachStream(Value, ns);
    EachHarmless(Value, Stream(ns), skip, len);
    EachEnds(Value, Stream(ns), stop);
    forall i | 0 <= i < |ns| ensures ns[i].Complete() && Distinct(ns[i].sums + ns[i].data) {
      NumberedDistinct(frames, 0, i);
    }
    DistinctDeliver(ns, stop, skip, len, ack);
  }

  /** Then the bytes delivered are the data. */
  lemma InPlaceIsCorrect<T>(frames: seq<Frame<T>>, stop: Stop, skip: nat, len: nat, ack: int)
    requires InPlace(frames, stop, skip, len, ack)
    ensures Correct(frames, stop, skip, len, ack)
  {
    var ns := Numbered(frames, 0);
    NumberedValues(frames, 0);
    SameForAll(Value, ns, stop, skip, len, ack);
    EachStream(Value, ns);
    EachContent(Value, Stream(ns));
    EachWrapped(Value, Content(Stream(ns)), skip, len);
    hide Result, Delivered, Content, Stream, Numbered, Window;
  }

  lemma {:induction false} EachContent<A, B>(f: A -> B, frames: seq<Frame<A>>)
    ensures Content(EachFrames(f, frames)) == Each(f, Content(frames))
    decreases frames
  {
    if frames == [] {
    } else {
      EachFramesCons(f, frames);
      EachContent(f, frames[1..]);
    }
  }

  lemma EachWrapped<A, B>(f: A -> B, s: seq<A>, skip: nat, len: nat)
    ensures EachTaken(f, Wrap(Window(s, skip, len))) == Wrap(Window(Each(f, s), skip, len))
  {
  }

  // ---------------------------------------------------------------- when a stop is noticed

  ghost predicate NoSums<T>(frames: seq<Frame<T>>) {
    forall i :: 0 <= i < |frames| ==> frames[i].sums == []
  }

  /** How many bytes of the data came through before the stream stopped. */
  function Arrived<T>(frames: seq<Frame<T>>): nat {
    if frames == [] then 0 else frames[0].arrived + Arrived(frames[1..])
  }

  /** The first `n` elements, and nothing in the place of the others. */
  function UpTo<T>(s: seq<T>, n: nat): (r: seq<Option<T>>)
    ensures |r| == |s|
  {
    seq(|s|, i requires 0 <= i < |s| => if i < n then Some(s[i]) else None)
  }

  lemma UpToAppend<T>(a: seq<T>, b: seq<T>, m: nat, n: nat)
    requires m == |a| || (m <= |a| && n == 0 && b == [])
    ensures UpTo(a + b, m + n) == UpTo(a, m) + UpTo(b, n)
  {
  }

  lemma TakenUpTo<T>(f: Frame<T>)
    requires f.sums == []
    ensures f.Taken() == UpTo(f.data, f.arrived)
  {
    assert f.sums + f.data == f.data;
  }

  lemma UpToNone<T>()
    ensures UpTo<T>([], 0) == []
  {
  }

  lemma {:induction false} CleanStream<T>(frames: seq<Frame<T>>)
    requires WellFormed(frames) && NoSums(frames)
    ensures var s := Stream(frames);
      && Readable(frames) == s && Arrived(s) <= |Content(s)|
      && Taken(s) == UpTo(Content(s), Arrived(s))
      && (s != [] ==> s[|s| - 1].arrived <= |s[|s| - 1].data|)
    decreases frames
  {
    if frames == [] {
      UpToNone<T>();
    } else {
      var f, rest := frames[0], frames[1..];
      TakenUpTo(f);
      hide UpTo, Frame.Taken;
      if f.last || rest == [] {
        assert Stream(frames) == [f] && [f][1..] == [];
        UpToNone<T>();
        UpToAppend(f.data, [], f.arrived, 0);
        assert f.data + [] == f.data;
      } else {
        assert frames[0].Complete();
        assert forall i :: 0 <= i < |rest| ==> rest[i] == frames[i + 1];
        CleanStream(rest);
        var s := Stream(rest);
        TakenCons(f, s);
        ContentCons(f, s);
        assert ([f] + s)[1..] == s;
        UpToAppend(f.data, Content(s), f.arrived, Arrived(s));
      }
    }
  }

  /** Without checksums: an error is reported exactly when a read gets nothing, or something wanted is yet
      to be read; a close is never reported.  Either goes unnoticed if the length of the data sent, come
      or not, is enough and the stop is inside the last read. */
  lemma StopNoticed<T>(frames: seq<Frame<T>>, stop: Stop, skip: nat, len: nat, ack: int)
    requires WellFormed(frames) && NoSums(frames) && len > 0
    ensures var s := Stream(frames);
      var enough := skip + len <= |Content(s)| || EndsLast(s);
      Result(frames, stop, skip, len, ack) ==
        match stop
        case Broken => if enough && !Noticed(s, skip, len) then Acknowledged(ack) else Ended(-1)
        case Closed => if enough then Acknowledged(ack) else NoLengths
    ensures var s := Stream(frames);
      Delivered(frames, skip, len) == Window(UpTo(Content(s), Arrived(s)), skip, len)
  {
    CleanStream(frames);
    hide Readable, Stream, Taken, Content, Arrived, WellFormed, NoSums, Noticed;
  }

  /** So a call that returns 0 has delivered all that was wanted if and only if that came through. */
  lemma StopDelivers<T>(frames: seq<Frame<T>>, stop: Stop, skip: nat, len: nat, ack: int)
    requires WellFormed(frames) && NoSums(frames) && len > 0 && Result(frames, stop, skip, len, ack) == Ended(0)
    ensures var s := Stream(frames);
      Correct(frames, stop, skip, len, ack) <==>
        |Content(s)| <= skip || Min(|Content(s)|, skip + len) <= Arrived(s)
  {
    hide *;
    CleanStream(frames);
    StopNoticed(frames, stop, skip, len, ack);
    CorrectMeaning(frames, stop, skip, len, ack);
    UpToWindow(Content(Stream(frames)), Arrived(Stream(frames)), skip, len);
  }

  lemma UpToWindow<T>(data: seq<T>, n: nat, skip: nat, len: nat)
    requires n <= |data|
    ensures Window(UpTo(data, n), skip, len) == Wrap(Window(data, skip, len)) <==>
      len == 0 || |data| <= skip || Min(|data|, skip + len) <= n
  {
    var got, wanted := Window(UpTo(data, n), skip, len), Wrap(Window(data, skip, len));
    assert |got| == |wanted|;
    forall i | 0 <= i < |got| ensures got[i] == wanted[i] <==> skip + i < n {
      assert got[i] == UpTo(data, n)[skip + i] && wanted[i] == Some(data[skip + i]);
    }
    if len > 0 && |data| > skip && n < Min(|data|, skip + len) {
      assert got[Min(|data|, skip + len) - 1 - skip] != wanted[Min(|data|, skip + len) - 1 - skip];
    }
  }

  /** Two of four bytes come and the connection closes or fails: the call returns 0 with half of what it
      says. */
  lemma StopUnnoticed<T>(stop: Stop, a: T, b: T, c: T, d: T)
    ensures var frames := [Frame(false, [], [a, b, c, d], 2)];
      && Result(frames, stop, 0, 4, 0) == Ended(0)
      && Delivered(frames, 0, 4) == [Some(a), Some(b), None, None]
  {
    var f := Frame(false, [], [a, b, c, d], 2);
    assert f.sums + f.data == f.data;
    ResultHere([f], stop, 0, 4, 0);
  }

  // ---------------------------------------------------------------- packets as they are sent

  /** Four bytes, the highest first. */
  function Be32(x: nat): seq<Byte> {
    [x / 0x100_0000 % 256, x / 0x1_0000 % 256, x / 0x100 % 256, x % 256]
  }

  lemma Be32Value(x: nat)
    requires x < WORD
    ensures var b := Be32(x);
      x == 0x100_0000 * (b[0] as nat) + 0x1_0000 * (b[1] as nat) + 0x100 * (b[2] as nat) + b[3] as nat
  {
    var k := x / 0x100;
    assert x / 0x1_0000 == k / 0x100 && x / 0x100_0000 == k / 0x1_0000 && k / 0x1_0000 < 0x100;
    assert k == 0x1_0000 * (k / 0x1_0000) + 0x100 * (k / 0x100 % 256) + k % 256;
  }

  function SumBytes(sums: seq<nat>): (r: seq<Byte>)
    ensures |r| == 4 * |sums|
  {
    if sums == [] then [] else Be32(sums[0]) + SumBytes(sums[1..])
  }

  function FrameOf(p: Packet): Frame<Byte> {
    var sums := SumBytes(p.checksums);
    Frame(p.last, sums, p.data, |sums| + |p.data|)
  }

  function Frames(packets: seq<Packet>): (r: seq<Frame<Byte>>)
    ensures |r| == |packets|
  {
    seq(|packets|, i requires 0 <= i < |packets| => FrameOf(packets[i]))
  }

  lemma {:induction false} FramesContent(packets: seq<Packet>)
    ensures Content(Frames(packets)) == Data(packets)
  {
    if packets == [] {
    } else {
      assert Frames(packets)[1..] == Frames(packets[1..]);
      FramesContent(packets[1..]);
    }
  }

  lemma {:induction false} FramesStream(packets: seq<Packet>)
    requires packets != [] && forall i :: 0 <= i < |packets| ==> (packets[i].last <==> i == |packets| - 1)
    ensures Stream(Frames(packets)) == Frames(packets) && EndsLast(Frames(packets))
    decreases packets
  {
    var frames := Frames(packets);
    if |packets| == 1 {
      assert frames == [frames[0]];
    } else {
      assert frames[1..] == Frames(packets[1..]);
      FramesStream(packets[1..]);
    }
  }

  /** A block, as its packets are sent, holds its data and ends with its last packet. */
  lemma SentStream(data: seq<Byte>, offset: nat, packetsize: nat, kind: ChecksumType, unit: nat)
    requires unit > 0 && packetsize > 0 && Fits(|data|, offset, packetsize, unit)
    ensures var frames := Frames(Block(data, offset, 0, packetsize, kind, unit));
      Stream(frames) == frames && EndsLast(frames) && Content(frames) == data
  {
    var block := Block(data, offset, 0, packetsize, kind, unit);
    hide Block, Fits, Content, Stream, Frames, EndsLast;
    BlockMeaning(data, offset, 0, packetsize, kind, unit);
    FramesContent(block);
    FramesStream(block) by {
      hide Data;
      assert forall i :: 0 <= i < |block| ==> (block[i].last <==> i == |block| - 1);
    }
  }

  lemma {:induction false} BlockSums(data: seq<Byte>, offset: nat, seqno: nat, packetsize: nat, kind: ChecksumType,
                                     unit: nat)
    requires unit > 0 && packetsize > 0 && Fits(|data|, offset, packetsize, unit) && !kind.Crc32c?
    ensures forall p :: p in Block(data, offset, seqno, packetsize, kind, unit) ==> p.checksums == []
    decreases |data|
  {
    hide Fits, NextLength, Checksums;
    if data == [] {
    } else {
      var n := BlockUnfold(data, offset, seqno, packetsize, kind, unit);
      hide Block;
      BlockSums(data[n..], offset + n, seqno + 1, packetsize, kind, unit);
    }
  }

  /** What is received of a block sent without checksums is its data. */
  lemma RoundTrip(data: seq<Byte>, offset: nat, packetsize: nat, unit: nat, stop: Stop, skip: nat, len: nat)
    requires unit > 0 && packetsize > 0 && Fits(|data|, offset, packetsize, unit)
    ensures var frames := Frames(Block(data, offset, 0, packetsize, NoChecksum, unit));
      && Result(frames, stop, skip, len, 0) == Ended(0)
      && Delivered(frames, skip, len) == Wrap(Window(data, skip, len))
  {
    hide *;
    var block := Block(data, offset, 0, packetsize, NoChecksum, unit);
    SentStream(data, offset, packetsize, NoChecksum, unit);
    BlockSums(data, offset, 0, packetsize, NoChecksum, unit);
    FramesClean(block);
    if len == 0 {
      NothingWanted(Frames(block), stop, skip, 0);
    } else {
      CleanDelivers(Frames(block), stop, skip, len);
    }
    CorrectMeaning(Frames(block), stop, skip, len, 0);
  }

  lemma FramesClean(packets: seq<Packet>)
    requires forall p :: p in packets ==> p.checksums == []
    ensures NoSums(Frames(packets)) && WellFormed(Frames(packets))
    ensures forall i :: 0 <= i < |packets| ==> Frames(packets)[i].Complete()
  {
    forall i | 0 <= i < |packets| ensures SumBytes(packets[i].checksums) == [] {
      assert packets[i] in packets;
    }
  }

  /** A complete stream without checksums is delivered. */
  lemma CleanDelivers<T>(frames: seq<Frame<T>>, stop: Stop, skip: nat, len: nat)
    requires WellFormed(frames) && NoSums(frames) && EndsLast(Stream(frames)) && len > 0
    requires forall i :: 0 <= i < |frames| ==> frames[i].Complete()
    ensures Correct(frames, stop, skip, len, 0)
  {
    StopNoticed(frames, stop, skip, len, 0);
    AllArrived(frames);
    var s := Stream(frames);
    NothingMissing(s, skip, len);
    hide Result, Delivered, Content, Stream, Arrived, Noticed;
    assert UpTo(Content(s), Arrived(s)) == Wrap(Content(s));
    WindowWrap(Content(s), skip, len);
  }

  lemma NothingMissing<T>(frames: seq<Frame<T>>, skip: nat, len: nat)
    requires len > 0 && forall i :: 0 <= i < |frames| ==> frames[i].arrived == |frames[i].data|
    ensures !Noticed(frames, skip, len)
  {
  }

  lemma {:induction false} AllArrived<T>(frames: seq<Frame<T>>)
    requires NoSums(frames) && forall i :: 0 <= i < |frames| ==> frames[i].Complete()
    ensures Arrived(Stream(frames)) == |Content(Stream(frames))|
    ensures forall i :: 0 <= i < |Stream(frames)| ==> Stream(frames)[i].arrived == |Stream(frames)[i].data|
    decreases frames
  {
    if frames == [] {
    } else if frames[0].last {
      assert [frames[0]][1..] == [];
    } else {
      AllArrived(frames[1..]);
      assert ([frames[0]] + Stream(frames[1..]))[1..] == Stream(frames[1..]);
    }
  }

  /** With checksums the condition fails for every block and window with anything in them. */
  lemma ChecksumsHarm(data: seq<Byte>, offset: nat, packetsize: nat, unit: nat, skip: nat, len: nat)
    requires unit > 0 && packetsize > 0 && Fits(|data|, offset, packetsize, unit)
    ensures var frames := Frames(Block(data, offset, 0, packetsize, Crc32c, unit));
      Harmless(Stream(frames), skip, len) <==> len == 0 || data == []
  {
    var block := Block(data, offset, 0, packetsize, Crc32c, unit);
    var frames := Frames(block);
    SentStream(data, offset, packetsize, Crc32c, unit);
    hide Fits, NextLength;
    if len > 0 {
      HarmlessFirst(frames, skip, len);
      if data == [] {
        assert block == [PacketOf(0, offset, [], Crc32c, unit)];
        assert Checksums([], unit) == [];
        LastAlone(frames, skip, len);
      } else {
        var n := BlockUnfold(data, offset, 0, packetsize, Crc32c, unit);
        assert Checksums(data[..n], unit) != [];
        LastAlone(frames, skip, len);
      }
    }
  }

  /** So what is sent with checksums does not arrive in place. */
  lemma ChecksumsDisplace(data: seq<Byte>, offset: nat, packetsize: nat, unit: nat, stop: Stop, skip: nat, len: nat)
    requires unit > 0 && packetsize > 0 && Fits(|data|, offset, packetsize, unit)
    ensures InPlace(Frames(Block(data, offset, 0, packetsize, Crc32c, unit)), stop, skip, len, 0) <==>
      len == 0 || data == []
  {
    hide InPlace, Harmless, Block, Stream, EndsLast, Fits;
    var frames := Frames(Block(data, offset, 0, packetsize, Crc32c, unit));
    SentStream(data, offset, packetsize, Crc32c, unit);
    ChecksumsHarm(data, offset, packetsize, unit, skip, len);
    assert forall i :: 0 <= i < |frames| ==> frames[i].Complete();
    ChecksumsDeliver(frames, stop, skip, len, 0);
  }

  // ---------------------------------------------------------------- one checksum, worked out

  lemma CrcOfAllOnes()
    ensures Crc(0, [255]) == 0xff00_0000
  {
    hide *;
    AllOnes();
    XorZero(MASK);
    FoldByte(MASK, 255);
    ZeroBitsUnshift(8, 0xff_ffff);
    CrcMeaning(0, [255]);
  }

  /** The register with its low byte cleared, and with its high byte set. */
  lemma AllOnes()
    ensures Xor(MASK, 255) == Shl(8, 0xff_ffff) && Xor(0xff_ffff, MASK) == 0xff00_0000
  {
    assert MASK == 0xffff_ffff;
    hide *;
    Pow2Constants();
    Pow2Byte(8);
    Pow2Byte(16);
    ShlByte(0xff_ffff);
    XorLow(8, 255, 0xff_ffff);
    ShlAdd(8, 8, 255);
    ShlAdd(16, 8, 255);
    ShlThree();
    XorLow(24, 0xff_ffff, 255);
  }

  lemma ShlThree()
    ensures Shl(24, 255) == 0xff00_0000
  {
    hide *;
    ShlByte(255);
    ShlByte(0xff00);
    ShlByte(0xff_0000);
    ShlAdd(8, 8, 255);
    ShlAdd(8, 16, 255);
  }

  /** A packet whose first unit is the byte 255. */
  lemma FirstSum(data: seq<Byte>)
    requires data != [] && data[0] == 255
    ensures |SumBytes(Checksums(data, 1))| >= 4 && SumBytes(Checksums(data, 1))[..2] == [255, 0]
  {
    hide *;
    CrcOfAllOnes();
    ChecksumsUnfold(data, 1);
    assert data[..1] == [255] && (|data| == 1 ==> data == [255]);
    SumsStart(Checksums(data, 1));
  }

  lemma SumsStart(sums: seq<nat>)
    requires sums != [] && sums[0] == 0xff00_0000
    ensures |SumBytes(sums)| >= 4 && SumBytes(sums)[..2] == [255, 0]
  {
    assert Be32(sums[0]) == [255, 0, 0, 0];
    hide Be32;
    assert SumBytes(sums) == Be32(sums[0]) + SumBytes(sums[1..]);
  }

  /** The first packet of a short block. */
  lemma FirstFrame(data: seq<Byte>)
    requires data != [] && data[0] == 255
    ensures Fits(|data|, 0, |data|, 1)
    ensures var frames := Frames(Block(data, 0, 0, |data|, Crc32c, 1));
      && |frames| > 0 && !frames[0].last && frames[0].data == data && frames[0].Complete()
      && |frames[0].sums| >= 4 && frames[0].sums[..2] == [255, 0]
  {
    hide Crc, Checksums, SumBytes;
    FirstSum(data);
    var n := BlockUnfold(data, 0, 0, |data|, Crc32c, 1);
    assert data[..n] == data;
  }

  /** Two bytes with a checksum each: what comes back is the start of the first checksum. */
  lemma ChecksumsReadAsData(stop: Stop)
    ensures Fits(2, 0, 2, 1)
    ensures var frames := Frames(Block([255, 1], 0, 0, 2, Crc32c, 1));
      Result(frames, stop, 0, 2, 0) == Ended(0) && Delivered(frames, 0, 2) == [Some(255), Some(0)]
  {
    var data: seq<Byte> := [255, 1];
    hide Block, Fits, Frames, Result, Delivered, Stuck, Frame.Taken, Window;
    FirstFrame(data);
    var frames := Frames(Block(data, 0, 0, 2, Crc32c, 1));
    ResultHere(frames, stop, 0, 2, 0);
    TakenStart(frames[0], 2);
  }

  lemma TakenStart<T>(f: Frame<T>, n: nat)
    requires n <= |f.sums| && n == |f.data| && f.Complete()
    ensures f.Taken() == Wrap(f.sums[..n]) && Window(f.Taken(), 0, n) == Wrap(f.sums[..n])
  {
  }

  /** Values can still agree by chance, so the condition is about where bytes come from: this byte's
      checksum begins with it. */
  lemma ChecksumLooksRight(stop: Stop)
    ensures Fits(1, 0, 1, 1)
    ensures Correct(Frames(Block([255], 0, 0, 1, Crc32c, 1)), stop, 0, 1, 0)
  {
    var data: seq<Byte> := [255];
    hide Block, Fits, Frames, Result, Delivered, Stuck, Stream, Content;
    FirstFrame(data);
    SentStream(data, 0, 1, Crc32c, 1);
    var frames := Frames(Block(data, 0, 0, 1, Crc32c, 1));
    ResultHere(frames, stop, 0, 1, 0);
    TakenStart(frames[0], 1);
    assert frames[0].sums[..1] == frames[0].sums[..2][..1] == data;
    assert Window(data, 0, 1) == data;
  }
}
