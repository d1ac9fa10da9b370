/** Pending writes on intrusive circular lists, and the splice by which a flush takes them over. */
module WriteFlush {
  import opened Graph

  class Node {
    var prev: Node?
    var next: Node?
  }

  /** The nodes of `c` are linked into one ring, in that order. */
  ghost predicate Cycle(c: seq<Node>)
    reads c
  {
    && c != [] && Distinct(c)
    && (forall i :: 0 <= i < |c| - 1 ==> c[i].next == c[i + 1] && c[i + 1].prev == c[i])
    && c[|c| - 1].next == c[0] && c[0].prev == c[|c| - 1]
  }

  twostate lemma Untouched(c: seq<Node>)
    requires old(Cycle(c)) && forall x :: x in c ==> x.next == old(x.next) && x.prev == old(x.prev)
    ensures Cycle(c)
  {
  }

  /** A ring can be read from any of its nodes. */
  lemma Rotate(a: seq<Node>, b: seq<Node>)
    requires Cycle(a + b)
    ensures Cycle(b + a)
  {
    var c, d := a + b, b + a;
    if a != [] && b != [] {
      assert forall i :: 0 <= i < |d| ==> d[i] == c[if i < |b| then |a| + i else i - |b|];
      assert Distinct(d);
      assert c[|a| - 1].next == c[|a|] && c[|a|].prev == c[|a| - 1];
      forall i | 0 <= i < |d| - 1 ensures d[i].next == d[i + 1] && d[i + 1].prev == d[i] {
        if i < |b| - 1 {
          assert c[|a| + i].next == c[|a| + i + 1];
        } else if i >= |b| {
          assert c[i - |b|].next == c[i - |b| + 1];
        }
      }
    } else {
      assert c == d;
    }
  }

  method ListInit(head: Node)
    modifies head
    ensures Cycle([head])
  {
    head.next := head;
    head.prev := head;
  }

  /** Links `node` in after `at`. */
  method ListAdd(node: Node, at: Node, ghost rest: seq<Node>)
    requires Cycle([at] + rest) && node != at && node !in rest
    modifies node, at, rest
    ensures Cycle([at, node] + rest)
  {
    ghost var c := [at] + rest;
    var prev, next := at, at.next;
    assert next == if rest == [] then at else c[1];
    next.prev := node;
    node.next := next;
    node.prev := prev;
    prev.next := node;
    ghost var d := [at, node] + rest;
    assert forall i :: 2 <= i < |d| ==> d[i] == c[i - 1];
  }

  /** The nodes of `c` are linked in that order; where its ends lead is open. */
  ghost predicate Strand(c: seq<Node>)
    reads c
  {
    Distinct(c) && forall i :: 0 <= i < |c| - 1 ==> c[i].next == c[i + 1] && c[i + 1].prev == c[i]
  }

  lemma Opened(entry: Node, rest: seq<Node>)
    requires Cycle([entry] + rest) && rest != []
    ensures Strand(rest) && entry !in rest && entry.next == rest[0] && entry.prev == rest[|rest| - 1]
  {
    var c := [entry] + rest;
    assert forall i :: 0 <= i < |rest| ==> rest[i] == c[i + 1];
    forall i | 0 <= i < |rest| - 1 ensures rest[i].next == rest[i + 1] && rest[i + 1].prev == rest[i] {
      assert c[i + 1].next == c[i + 2] && c[i + 2].prev == c[i + 1];
    }
  }

  lemma Closed(c: seq<Node>)
    requires c != [] && Strand(c) && c[|c| - 1].next == c[0] && c[0].prev == c[|c| - 1]
    ensures Cycle(c)
  {
  }

  /** Unlinks `entry`; the rest of the ring closes up around it. */
  method ListDel(entry: Node, ghost rest: seq<Node>)
    requires Cycle([entry] + rest)
    modifies entry, rest
    ensures rest != [] ==> Cycle(rest)
  {
    if rest == [] {
      assert [entry][0] == entry && [entry] + rest == [entry];
    } else {
      Opened(entry, rest);
    }
    assert entry.next in [entry] + rest && entry.prev in [entry] + rest;
    hide Cycle;
    var prev, next := entry.prev, entry.next;
    next.prev := prev;
    prev.next := next;
    if rest != [] { Closed(rest); }
  }

  /** Unlinks `x` from anywhere in the ring of `head`, which need not be known. */
  method Unlink(x: Node, ghost head: Node, ghost a: seq<Node>, ghost b: seq<Node>)
    requires Cycle([head] + a + [x] + b)
    modifies head, a, x, b
    ensures Cycle([head] + a + b)
  {
    ghost var front := [head] + a;
    assert front + [x] + b == front + ([x] + b);
    Rotate(front, [x] + b);
    assert [x] + b + front == [x] + (b + front);
    assert forall o :: o in b + front ==> o == head || o in a || o in b;
    ListDel(x, b + front);
    Rotate(b, front);
  }

  /** Moves the whole ring of `head` over to `local`, in order, and leaves `head` alone. */
  method Splice(head: Node, local: Node, ghost pending: seq<Node>)
    requires Cycle([head] + pending) && pending != []
    requires local != head && local !in pending
    modifies head, pending, local
    ensures Cycle([head]) && Cycle([local] + pending)
  {
    hide Cycle;
    RingEnds(head, pending);
    var last := head.prev;
    ListDel(head, pending);
    ListInit(head);
    Rehead(local, last, pending);
  }

  /** Gives a ring without a head the head `local`, before its first node. */
  method Rehead(local: Node, last: Node, ghost pending: seq<Node>)
    requires Cycle(pending) && pending != [] && last == pending[|pending| - 1] && local !in pending
    modifies pending, local
    ensures Cycle([local] + pending)
  {
    hide Cycle;
    ghost var front := pending[..|pending| - 1];
    assert pending == front + [last];
    Rotate(front, [last]);
    RingEnds(last, front);
    ListAdd(local, last, front);
    assert [last, local] + front == [last] + ([local] + front);
    Rotate([last], [local] + front);
    assert [local] + front + [last] == [local] + pending;
  }

  lemma RingEnds(head: Node, rest: seq<Node>)
    requires Cycle([head] + rest)
    ensures head !in rest && head.prev == if rest == [] then head else rest[|rest| - 1]
  {
    var c := [head] + rest;
    assert forall i :: 0 <= i < |rest| ==> c[i + 1] == rest[i];
  }

  // ---------------------------------------------------------------- writes and flushes of a file

  /** A list of pending writes: the file's own, or one a flush took over.  `taken` is what the flush
      found, `left` what is still pending. */
  datatype List = List(head: Node, taken: seq<Node>, left: seq<Node>) {
    ghost function Ring(): seq<Node> {
      [head] + left
    }

    ghost function With(left': seq<Node>): List {
      List(head, taken, left')
    }
  }

  ghost predicate Disjoint(c: seq<Node>, d: seq<Node>) {
    forall x :: x in c ==> x !in d
  }

  class OpenFile {
    const head: Node
    /** The file's own list first, then those of the flushes in progress. */
    ghost var lists: seq<List>
    ghost var ended: set<Node>
    ghost var repr: set<Node>
    var writeError: int

    ghost predicate Valid()
      reads this, repr
    {
      && lists != [] && lists[0].head == head && lists[0].taken == []
      && Accounted(lists, repr, ended)
      && (forall k :: 0 <= k < |lists| ==> Cycle(lists[k].Ring()))
    }

    constructor ()
      ensures Valid() && lists == [List(head, [], [])] && ended == {} && fresh(head)
    {
      var h := new Node;
      h.next, h.prev := h, h;
      head, lists, ended, repr, writeError := h, [List(h, [], [])], {}, {h}, 0;
    }

    /** A write is sent: it joins the file's own list, never that of a flush. */
    method WriteBegin(req: Node)
      requires Valid() && req !in repr
      modifies this`lists, this`repr, repr, req
      ensures Valid() && repr == old(repr) + {req}
      ensures lists == old(lists)[0 := old(lists)[0].With([req] + old(lists)[0].left)]
    {
      hide Cycle, Accounted;
      ghost var was, own := lists, lists[0];
      InRepr(lists, repr, ended, 0);
      AccountedAfter(lists, repr, ended, 0, [req] + own.left, repr + {req}, ended);
      ListAdd(req, head, own.left);
      lists := lists[0 := own.With([req] + own.left)];
      repr := repr + {req};
      assert lists[0].Ring() == [head, req] + own.left;
      forall j | 0 < j < |lists| ensures Cycle(lists[j].Ring()) {
        OthersApart(was, old(repr), ended, 0, j);
        Untouched(was[j].Ring());
      }
    }

    /** The reply to a write arrived: its node leaves whichever list holds it by now. */
    method WriteEnd(req: Node, error: int)
      requires Valid() && exists k :: 0 <= k < |lists| && req in lists[k].left
      modifies this`lists, this`ended, this`writeError, repr
      ensures Valid() && ended == old(ended) + {req} && |lists| == |old(lists)|
      ensures forall k :: 0 <= k < |lists| ==>
        lists[k] == old(lists)[k].With(Without(old(lists)[k].left, req))
      ensures writeError == if error != 0 then error else old(writeError)
    {
      hide Cycle, Accounted, Without;
      if error != 0 {
        writeError := error;
      }
      ghost var was := lists;
      ghost var k, a, b := Locate(req);
      Unlink(req, was[k].head, a, b);
      lists := was[k := was[k].With(a + b)];
      ended := ended + {req};
      assert lists[k].Ring() == [was[k].head] + a + b;
      forall j | 0 <= j < |lists| && j != k ensures Cycle(lists[j].Ring()) {
        OthersApart(was, repr, old(ended), k, j);
        Untouched(was[j].Ring());
      }
    }

    /** The list that holds a pending write, and its neighbours there. */
    lemma Locate(req: Node) returns (k: nat, a: seq<Node>, b: seq<Node>)
      requires Valid() && exists k :: 0 <= k < |lists| && req in lists[k].left
      ensures k < |lists| && lists[k].left == a + [req] + b && Without(lists[k].left, req) == a + b
      ensures Cycle([lists[k].head] + a + [req] + b)
      ensures lists[k].head in repr && req in repr && forall x :: x in a || x in b ==> x in repr && x in lists[k].left
      ensures Accounted(lists[k := lists[k].With(a + b)], repr, ended + {req})
      ensures forall j :: 0 <= j < |lists| && j != k ==> lists[j].With(Without(lists[j].left, req)) == lists[j]
    {
      hide Cycle, Accounted, Without;
      k :| 0 <= k < |lists| && req in lists[k].left;
      var left := lists[k].left;
      var i :| 0 <= i < |left| && left[i] == req;
      a, b := left[..i], left[i + 1..];
      SplitAt(lists[k].head, left, i);
      InRepr(lists, repr, ended, k);
      AccountedAfter(lists, repr, ended, k, a + b, repr, ended + {req});
      forall j | 0 <= j < |lists| && j != k ensures lists[j].With(Without(lists[j].left, req)) == lists[j] {
        OthersApart(lists, repr, ended, k, j);
        AbsentFrom(lists[j], req);
      }
    }

    /** A flush takes over whatever is pending, or has nothing to wait for. */
    method FlushBegin(local: Node) returns (waits: bool)
      requires Valid() && local !in repr
      modifies this`lists, this`repr, repr, local
      ensures Valid() && (waits <==> old(lists)[0].left != [])
      ensures !waits ==> lists == old(lists)
      ensures waits ==>
        lists == old(lists)[0 := List(head, [], [])] + [List(local, old(lists)[0].left, old(lists)[0].left)]
    {
      hide Cycle, Accounted;
      ghost var was, pending := lists, lists[0].left;
      EmptyRing(head, pending);
      waits := head.next != head;
      if waits {
        InRepr(lists, repr, ended, 0);
        RingEnds(head, pending);
        AccountedSplice(lists, repr, ended, local);
        Splice(head, local, pending);
        lists := lists[0 := List(head, [], [])] + [List(local, pending, pending)];
        repr := repr + {local};
        ghost var n := |lists| - 1;
        assert lists[0].Ring() == [head] && lists[n].Ring() == [local] + pending;
        forall j | 0 < j < n ensures Cycle(lists[j].Ring()) {
          OthersApart(was, old(repr), ended, 0, j);
          Untouched(was[j].Ring());
        }
      }
    }

    /** The condition a flush waits for: its own list is empty, so all it took over has ended. */
    method FlushDone(local: Node, ghost k: nat) returns (done: bool)
      requires Valid() && 0 < k < |lists| && lists[k].head == local
      ensures done <==> lists[k].left == []
      ensures done ==> forall w :: w in lists[k].taken ==> w in ended
    {
      hide Cycle;
      EmptyRing(local, lists[k].left);
      done := local.next == local;
    }

    /** A finished flush, or one that found nothing (`k` is 0), reports the error of the writes so far,
        once, and drops its empty list. */
    method FlushEnd(ghost k: nat) returns (err: int)
      requires Valid() && k < |lists| && (k > 0 ==> lists[k].left == [])
      modifies this`lists, this`writeError
      ensures Valid() && err == old(writeError) && writeError == 0
      ensures lists == if k == 0 then old(lists) else old(lists)[..k] + old(lists)[k + 1..]
    {
      hide Cycle;
      err := writeError;
      writeError := 0;
      if k > 0 {
        lists := lists[..k] + lists[k + 1..];
      }
    }

    ghost function Now(): State
      reads this
    {
      State(lists, ended, writeError)
    }

    /** One event, by the method it stands for. */
    method Perform(e: Event) returns (err: int)
      requires Valid() && Enabled(Now(), e)
      requires e.Begin? ==> e.req !in repr
      requires e.FlushStart? ==> e.local !in repr
      modifies this, repr, e.Touched()
      ensures Valid() && Now() == After(old(Now()), e)
      ensures err == if e.FlushStop? then old(writeError) else 0
    {
      hide Cycle, Accounted, Without;
      err := 0;
      match e
      case Begin(req) =>
        WriteBegin(req);
      case End(req, error) =>
        ghost var was := lists;
        WriteEnd(req, error);
        assert lists == seq(|was|, k requires 0 <= k < |was| => was[k].With(Without(was[k].left, req)));
      case FlushStart(local) =>
        var waits := FlushBegin(local);
      case FlushStop(local) =>
        err := FlushEnd(ListOf(lists, local));
    }
  }

  // ---------------------------------------------------------------- whole runs

  /** A file's lists, the writes that have ended, and the error not yet reported. */
  datatype State = State(lists: seq<List>, ended: set<Node>, error: int)

  /** What happens to a file: writes begin and end, and flushes, known by their own list heads, start
      and return. */
  datatype Event = Begin(req: Node) | End(req: Node, error: int) | FlushStart(local: Node) | FlushStop(local: Node) {
    ghost function Touched(): set<Node> {
      if Begin? then {req} else if FlushStart? then {local} else {}
    }
  }

  /** The list of the flush `local`, or 0 if it has none. */
  ghost function ListOf(lists: seq<List>, local: Node): (k: nat)
    ensures k == 0 || (k < |lists| && lists[k].head == local)
    ensures k == 0 ==> forall j :: 0 < j < |lists| ==> lists[j].head != local
  {
    if |lists| <= 1 then 0
    else if lists[|lists| - 1].head == local then |lists| - 1
    else ListOf(lists[..|lists| - 1], local)
  }

  ghost predicate Enabled(s: State, e: Event) {
    s.lists != [] &&
    match e
    case Begin(req) => true
    case End(req, error) => exists k :: 0 <= k < |s.lists| && req in s.lists[k].left
    case FlushStart(local) => forall k :: 0 <= k < |s.lists| ==> s.lists[k].head != local
    case FlushStop(local) => ListOf(s.lists, local) > 0 ==> s.lists[ListOf(s.lists, local)].left == []
  }

  ghost function After(s: State, e: Event): State
    requires Enabled(s, e)
  {
    var own := s.lists[0];
    match e
    case Begin(req) => s.(lists := s.lists[0 := own.With([req] + own.left)])
    case End(req, error) =>
      State(seq(|s.lists|, k requires 0 <= k < |s.lists| => s.lists[k].With(Without(s.lists[k].left, req))),
            s.ended + {req}, if error != 0 then error else s.error)
    case FlushStart(local) =>
      if own.left == [] then s
      else s.(lists := s.lists[0 := List(own.head, [], [])] + [List(local, own.left, own.left)])
    case FlushStop(local) =>
      var k := ListOf(s.lists, local);
      State(if k == 0 then s.lists else s.lists[..k] + s.lists[k + 1..], s.ended, 0)
  }

  ghost predicate CanRun(s: State, es: seq<Event>)
    decreases es
  {
    es == [] || (Enabled(s, es[0]) && CanRun(After(s, es[0]), es[1..]))
  }

  ghost function Run(s: State, es: seq<Event>): State
    requires CanRun(s, es)
    decreases es
  {
    if es == [] then s else Run(After(s, es[0]), es[1..])
  }

  /** The write `w` ends in this run. */
  ghost predicate EndsIn(w: Node, es: seq<Event>) {
    exists i :: 0 <= i < |es| && es[i].End? && es[i].req == w
  }

  lemma EndsInMore(w: Node, es: seq<Event>, e: Event)
    ensures EndsIn(w, es + [e]) <==> EndsIn(w, es) || (e.End? && e.req == w)
  {
    var all := es + [e];
    assert all[|es|] == e && forall i :: 0 <= i < |es| ==> all[i] == es[i];
  }

  /** The flush `local` waits for `pending`: each of them is on its list or ended in `es`. */
  ghost predicate Waiting(s: State, local: Node, pending: seq<Node>, es: seq<Event>) {
    exists k :: 0 < k < |s.lists| && s.lists[k].head == local && WaitsOn(s.lists[k].left, pending, es)
  }

  ghost predicate WaitsOn(left: seq<Node>, pending: seq<Node>, es: seq<Event>) {
    forall w :: w in pending ==> w in left || EndsIn(w, es)
  }

  lemma WaitsOnMore(left: seq<Node>, pending: seq<Node>, es: seq<Event>, e: Event)
    requires WaitsOn(left, pending, es)
    ensures WaitsOn(if e.End? then Without(left, e.req) else left, pending, es + [e])
  {
    hide EndsIn, Without;
    forall w | w in pending ensures w in (if e.End? then Without(left, e.req) else left) || EndsIn(w, es + [e]) {
      EndsInMore(w, es, e);
      if e.End? && w in left && w != e.req { WithoutMembers(left, e.req, w); }
    }
  }

  lemma {:induction false} WithoutMembers(s: seq<Node>, x: Node, w: Node)
    requires w in s && w != x
    ensures w in Without(s, x)
  {
    if s[0] == w {
    } else {
      WithoutMembers(s[1..], x, w);
    }
  }

  lemma WaitingNext(s: State, e: Event, local: Node, pending: seq<Node>, es: seq<Event>)
    requires Waiting(s, local, pending, es) && Enabled(s, e) && e != FlushStop(local)
    ensures Waiting(After(s, e), local, pending, es + [e])
  {
    hide Without, WaitsOn;
    var k :| 0 < k < |s.lists| && s.lists[k].head == local && WaitsOn(s.lists[k].left, pending, es);
    var s' := After(s, e);
    WaitsOnMore(s.lists[k].left, pending, es, e);
    match e
    case Begin(req) =>
      assert s'.lists[k] == s.lists[k];
    case End(req, error) =>
      assert s'.lists[k].head == local && s'.lists[k].left == Without(s.lists[k].left, req);
    case FlushStart(other) =>
      assert s'.lists[k] == s.lists[k];
    case FlushStop(other) =>
      var j := ListOf(s.lists, other);
      var k' := if j == 0 || k < j then k else k - 1;
      assert s'.lists[k'] == s.lists[k];
  }

  lemma {:induction false} WaitingThroughout(s: State, es: seq<Event>, local: Node, pending: seq<Node>, before: seq<Event>)
    requires Waiting(s, local, pending, before) && CanRun(s, es) && FlushStop(local) !in es
    ensures Waiting(Run(s, es), local, pending, before + es)
    decreases es
  {
    if es == [] {
      assert before + es == before;
    } else {
      WaitingNext(s, es[0], local, pending, before);
      WaitingThroughout(After(s, es[0]), es[1..], local, pending, before + [es[0]]);
      assert before + [es[0]] + es[1..] == before + es;
    }
  }

  /** Flushes in progress have different list heads. */
  ghost predicate DistinctHeads(lists: seq<List>) {
    forall j, k :: 0 <= j < k < |lists| ==> lists[j].head != lists[k].head
  }

  lemma HeadsNext(s: State, e: Event)
    requires DistinctHeads(s.lists) && Enabled(s, e)
    ensures DistinctHeads(After(s, e).lists)
  {
    hide Without, ListOf;
    var s' := After(s, e);
    match e
    case Begin(req) =>
      assert forall k :: 0 <= k < |s.lists| ==> s'.lists[k].head == s.lists[k].head;
    case End(req, error) =>
      assert forall k :: 0 <= k < |s.lists| ==> s'.lists[k].head == s.lists[k].head;
    case FlushStart(local) =>
      assert forall k :: 0 <= k < |s.lists| ==> s'.lists[k].head == s.lists[k].head;
    case FlushStop(local) =>
      assert |s'.lists| <= |s.lists|;
  }

  lemma {:induction false} HeadsThroughout(s: State, es: seq<Event>)
    requires DistinctHeads(s.lists) && CanRun(s, es)
    ensures DistinctHeads(Run(s, es).lists)
    decreases es
  {
    if es == [] {
    } else {
      HeadsNext(s, es[0]);
      HeadsThroughout(After(s, es[0]), es[1..]);
    }
  }

  /** Whatever else happens meanwhile, a flush returns only when every write that was pending when it
      started has ended since. */
  lemma FlushCompletes(s: State, local: Node, es: seq<Event>)
    requires DistinctHeads(s.lists) && Enabled(s, FlushStart(local))
    requires var s1 := After(s, FlushStart(local));
      CanRun(s1, es) && FlushStop(local) !in es && Enabled(Run(s1, es), FlushStop(local))
    ensures forall w :: w in s.lists[0].left ==> EndsIn(w, es)
  {
    var pending := s.lists[0].left;
    if pending != [] {
      var s1 := After(s, FlushStart(local));
      assert s1.lists[|s.lists|].head == local && WaitsOn(s1.lists[|s.lists|].left, pending, []);
      HeadsNext(s, FlushStart(local));
      HeadsThroughout(s1, es);
      WaitingThroughout(s1, es, local, pending, []);
      assert [] + es == es;
      var s2 := Run(s1, es);
      var k :| 0 < k < |s2.lists| && s2.lists[k].head == local && WaitsOn(s2.lists[k].left, pending, es);
      assert ListOf(s2.lists, local) == k;
    }
  }

  /** The lists share no node, and what a flush took over has ended or is still on its list. */
  ghost predicate Accounted(lists: seq<List>, repr: set<Node>, ended: set<Node>) {
    && (forall k, x :: 0 <= k < |lists| && x in lists[k].Ring() ==> x in repr)
    && (forall j, k :: 0 <= j < k < |lists| ==> Disjoint(lists[j].Ring(), lists[k].Ring()))
    && (forall k, w :: 0 <= k < |lists| && w in lists[k].taken ==> w in lists[k].left || w in ended)
  }

  /** Changing the contents of one list keeps the lists apart. */
  lemma AccountedAfter(lists: seq<List>, repr: set<Node>, ended: set<Node>,
                    k: nat, left: seq<Node>, repr': set<Node>, ended': set<Node>)
    requires Accounted(lists, repr, ended) && k < |lists| && repr <= repr' && ended <= ended'
    requires forall x :: x in left ==> x in repr' && (x in lists[k].left || x !in repr)
    requires forall w :: w in lists[k].left ==> w in left || w in ended'
    ensures Accounted(lists[k := lists[k].With(left)], repr', ended')
  {
    var lists' := lists[k := lists[k].With(left)];
    assert forall x :: x in lists'[k].Ring() ==> x == lists[k].head || x in left;
    assert lists[k].head in lists[k].Ring();
    assert forall x :: x in lists[k].left ==> x in lists[k].Ring();
  }

  lemma InRepr(lists: seq<List>, repr: set<Node>, ended: set<Node>, k: nat)
    requires Accounted(lists, repr, ended) && k < |lists|
    ensures lists[k].head in repr && forall x :: x in lists[k].left ==> x in repr
  {
    assert lists[k].head in lists[k].Ring();
    assert forall x :: x in lists[k].left ==> x in lists[k].Ring();
  }

  lemma OthersApart(lists: seq<List>, repr: set<Node>, ended: set<Node>, k: nat, j: nat)
    requires Accounted(lists, repr, ended) && k < |lists| && j < |lists| && j != k
    ensures forall x :: x in lists[j].Ring() ==> x in repr && x != lists[k].head && x !in lists[k].left
  {
    assert lists[k].head in lists[k].Ring();
    assert forall x :: x in lists[k].left ==> x in lists[k].Ring();
    assert Disjoint(lists[k].Ring(), lists[j].Ring()) || Disjoint(lists[j].Ring(), lists[k].Ring());
  }

  /** The list with `x` taken out. */
  ghost function Without(s: seq<Node>, x: Node): seq<Node> {
    if s == [] then []
    else (if s[0] == x then [] else [s[0]]) + Without(s[1..], x)
  }

  lemma {:induction false} WithoutAbsent(s: seq<Node>, x: Node)
    requires x !in s
    ensures Without(s, x) == s
  {
    if s == [] {
    } else {
      WithoutAbsent(s[1..], x);
    }
  }

  lemma {:induction false} WithoutAt(s: seq<Node>, i: nat)
    requires i < |s| && s[i] !in s[..i] && s[i] !in s[i + 1..]
    ensures Without(s, s[i]) == s[..i] + s[i + 1..]
  {
    if i == 0 {
      WithoutAbsent(s[1..], s[0]);
    } else {
      assert s[1..][..i - 1] == s[..i][1..] && s[1..][i..] == s[i + 1..];
      assert s[0] in s[..i];
      WithoutAt(s[1..], i - 1);
    }
  }

  /** A node of a ring, seen between the nodes before and after it. */
  lemma SplitAt(head: Node, s: seq<Node>, i: nat)
    requires Cycle([head] + s) && i < |s|
    ensures Cycle([head] + s[..i] + [s[i]] + s[i + 1..])
    ensures s[i] !in s[..i] && s[i] !in s[i + 1..]
    ensures Without(s, s[i]) == s[..i] + s[i + 1..]
    ensures forall x :: x in s[..i] + s[i + 1..] ==> x in s
    ensures forall x :: x in s ==> x == s[i] || x in s[..i] + s[i + 1..]
  {
    TailDistinct(head, s);
    WithoutAt(s, i);
    SplitMembers(s, i);
    SplitRing(head, s, i);
    hide Cycle, Without, Distinct;
  }

  lemma SplitRing(head: Node, s: seq<Node>, i: nat)
    requires i < |s|
    ensures [head] + s == [head] + s[..i] + [s[i]] + s[i + 1..]
  {
    assert s == s[..i] + [s[i]] + s[i + 1..];
  }

  lemma TailDistinct(head: Node, s: seq<Node>)
    requires Cycle([head] + s)
    ensures Distinct(s)
    ensures forall i :: 0 <= i < |s| ==> s[i] !in s[..i] && s[i] !in s[i + 1..]
  {
    assert forall k :: 0 <= k < |s| ==> s[k] == ([head] + s)[k + 1];
  }

  lemma SplitMembers(s: seq<Node>, i: nat)
    requires i < |s|
    ensures forall x :: x in s[..i] + s[i + 1..] ==> x in s
    ensures forall x :: x in s ==> x == s[i] || x in s[..i] + s[i + 1..]
  {
    assert s == s[..i] + [s[i]] + s[i + 1..];
  }

  lemma AbsentFrom(l: List, x: Node)
    requires x !in l.Ring()
    ensures l.With(Without(l.left, x)) == l
  {
    assert forall y :: y in l.left ==> y in l.Ring();
    WithoutAbsent(l.left, x);
  }

  lemma EmptyRing(head: Node, rest: seq<Node>)
    requires Cycle([head] + rest)
    ensures head.next == head <==> rest == []
  {
    var c := [head] + rest;
    if rest != [] {
      assert c[0].next == c[1] && c[0] != c[1];
    }
  }

  lemma AccountedSplice(lists: seq<List>, repr: set<Node>, ended: set<Node>, local: Node)
    requires Accounted(lists, repr, ended) && lists != [] && lists[0].taken == [] && local !in repr
    requires lists[0].head !in lists[0].left
    ensures local != lists[0].head && local !in lists[0].left
    ensures Accounted(lists[0 := List(lists[0].head, [], [])] + [List(local, lists[0].left, lists[0].left)],
                   repr + {local}, ended)
  {
    var l := lists[0];
    assert l.head in l.Ring();
    assert forall x :: x in l.left ==> x in l.Ring();
    var lists' := lists[0 := List(l.head, [], [])] + [List(local, l.left, l.left)];
    var n := |lists|;
    assert lists'[0].Ring() == [l.head] && lists'[n].Ring() == [local] + l.left;
    forall j, k | 0 <= j < k < |lists'| ensures Disjoint(lists'[j].Ring(), lists'[k].Ring()) {
      if k == n && 0 < j {
        assert Disjoint(lists[0].Ring(), lists[j].Ring());
      } else if k < n {
        assert Disjoint(lists[j].Ring(), lists[k].Ring());
      }
    }
  }
}
