/** Path canonicalisation by in-place rewriting of a character buffer. */
module ResolvePath {
  import opened Common

  // ---------------------------------------------------------------- what a path means

  /** The directory a component leads to: names go down, ".." goes up (but not above the root),
      "." and the empty component stay. */
  function Enter(stack: seq<string>, name: string): seq<string> {
    if name == "" || name == "." then stack
    else if name == ".." then (if stack == [] then [] else stack[..|stack| - 1])
    else stack + [name]
  }

  /** The position of the first slash, or the length. */
  function Slash(s: string): (i: nat)
    ensures i <= |s| && (i < |s| ==> s[i] == '/') && forall k :: 0 <= k < i ==> s[k] != '/'
  {
    if s == "" || s[0] == '/' then 0 else 1 + Slash(s[1..])
  }

  /** Where following `s` from `stack` leads. */
  function Walk(stack: seq<string>, s: string): seq<string>
    decreases |s|
  {
    if Slash(s) == |s| then Enter(stack, s)
    else Walk(Enter(stack, s[..Slash(s)]), s[Slash(s) + 1..])
  }

  lemma SlashAt(a: string, b: string)
    requires '/' !in a
    ensures Slash(a) == |a| && Slash(a + "/" + b) == |a|
  {
    var s := a + "/" + b;
    assert s[|a|] == '/';
    assert forall k :: 0 <= k < |a| ==> s[k] == a[k] && a[k] in a;
  }

  /** A path is followed component by component. */
  lemma {:induction false} WalkAppend(stack: seq<string>, a: string, b: string)
    ensures Walk(stack, a + "/" + b) == Walk(Walk(stack, a), b)
    decreases |a|
  {
    var s, i := a + "/" + b, Slash(a);
    if i == |a| {
      SlashAt(a, b);
      assert s[..i] == a && s[i + 1..] == b;
    } else {
      assert Slash(s) == i by { assert s[i] == '/' && forall k :: 0 <= k < i ==> s[k] == a[k]; }
      hide Slash, Enter;
      assert s[..i] == a[..i];
      assert s[i + 1..] == a[i + 1..] + "/" + b;
      WalkAppend(Enter(stack, a[..i]), a[i + 1..], b);
    }
  }

  lemma WalkOneName(stack: seq<string>, name: string)
    requires '/' !in name
    ensures Walk(stack, name) == Enter(stack, name)
  {
    SlashAt(name, "");
  }

  /** What one more component does to where a path leads. */
  lemma WalkComponent(stack: seq<string>, a: string, name: string)
    requires '/' !in name
    ensures var here, there := Walk(stack, a), Walk(stack, a + "/" + name);
      && (name in ["", "."] ==> there == here)
      && (name == ".." && here == [] ==> there == [])
      && (name == ".." && here != [] ==> here == there + [here[|here| - 1]])
      && (name !in ["", ".", ".."] ==> there == here + [name])
  {
    hide Walk;
    WalkAppend(stack, a, name);
    WalkOneName(Walk(stack, a), name);
  }

  /** A component that leads nowhere can be left out. */
  lemma WalkSkip(stack: seq<string>, a: string, name: string, b: string)
    requires name == "" || name == "."
    ensures Walk(stack, a + "/" + name + "/" + b) == Walk(stack, a + "/" + b)
  {
    WalkAppend(stack, a + "/" + name, b);
    WalkAppend(stack, a, name);
    WalkAppend(stack, a, b);
  }

  predicate Ordinary(name: string) {
    name != "" && name != "." && name != ".." && '/' !in name
  }

  lemma DownAndUp(at: seq<string>, name: string)
    requires Ordinary(name)
    ensures Walk(Walk(at, name), "..") == at
  {
    SlashAt(name, "");
    assert Walk(at, name) == at + [name];
    assert (at + [name])[..|at|] == at;
  }

  /** A name and the ".." that follows it cancel. */
  lemma WalkCancel(stack: seq<string>, a: string, name: string, b: string)
    requires Ordinary(name)
    ensures Walk(stack, a + "/" + name + "/../" + b) == Walk(stack, a + "/" + b)
  {
    hide Walk;
    var up := a + "/" + name + "/..";
    assert a + "/" + name + "/../" + b == up + "/" + b;
    WalkAppend(stack, up, b);
    assert up == (a + "/" + name) + "/" + "..";
    WalkAppend(stack, a + "/" + name, "..");
    WalkAppend(stack, a, name);
    WalkAppend(stack, a, b);
    DownAndUp(Walk(stack, a), name);
  }

  // ---------------------------------------------------------------- searching

  predicate At(s: string, pat: string, i: nat) {
    i + |pat| <= |s| && s[i..i + |pat|] == pat
  }

  predicate Contains(s: string, pat: string) {
    exists i :: 0 <= i <= |s| && At(s, pat, i)
  }

  /** `strstr`: the first occurrence. */
  function Find(s: string, pat: string): (r: Option<nat>)
    ensures r.None? <==> !Contains(s, pat)
    ensures r.Some? ==> At(s, pat, r.value) && forall j :: 0 <= j < r.value ==> !At(s, pat, j)
  {
    FindFrom(s, pat, 0)
  }

  function FindFrom(s: string, pat: string, i: nat): (r: Option<nat>)
    requires i <= |s| + 1
    ensures r.None? <==> forall j :: i <= j <= |s| ==> !At(s, pat, j)
    ensures r.Some? ==> i <= r.value && At(s, pat, r.value) && forall j :: i <= j < r.value ==> !At(s, pat, j)
    decreases |s| + 1 - i
  {
    if i > |s| then None else if At(s, pat, i) then Some(i) else FindFrom(s, pat, i + 1)
  }

  /** A pattern of two slashes with none between: "//" or "/./". */
  predicate Separated(pat: string) {
    |pat| >= 2 && pat[0] == '/' && pat[|pat| - 1] == '/' && forall k :: 0 < k < |pat| - 1 ==> pat[k] != '/'
  }

  /** Closing a gap between two slashes brings no such pattern about. */
  lemma JoinClean(a: string, middle: string, b: string, pat: string)
    requires Separated(pat) && !Contains(a + "/" + middle + "/" + b, pat)
    ensures !Contains(a + "/" + b, pat)
  {
    var s, t := a + "/" + middle + "/" + b, a + "/" + b;
    forall j | 0 <= j <= |t| ensures !At(t, pat, j) {
      if At(t, pat, j) {
        var shift := |middle| + 1;
        assert t[|a|] == '/';
        assert forall k :: j <= k < j + |pat| ==> t[k] == t[j..j + |pat|][k - j] == pat[k - j];
        if j + |pat| <= |a| + 1 {
          assert t[j..j + |pat|] == s[j..j + |pat|];
          assert At(s, pat, j);
        } else if j >= |a| {
          assert t[j..j + |pat|] == s[j + shift..j + shift + |pat|];
          assert At(s, pat, j + shift);
        } else {
          assert false;
        }
      }
    }
  }

  // ---------------------------------------------------------------- the buffer

  const PATH_MAX: nat := 4096

  /** The buffer holds `s` with a terminator; what follows is left over. */
  ghost predicate Holds(buf: array<char>, s: string)
    reads buf
  {
    |s| < buf.Length && buf[..|s|] == s && buf[|s|] == '\0' && '\0' !in s
  }

  /** `memmove`; reading past the end of the buffer is reported. */
  method MemMove(buf: array<char>, dst: nat, src: nat, n: nat) returns (ok: bool)
    requires dst <= src
    modifies buf
    ensures ok <==> src + n <= buf.Length
    ensures ok ==> buf[..] == old(buf[..])[..dst] + old(buf[src..src + n]) + old(buf[..])[dst + n..]
  {
    ok := src + n <= buf.Length;
    if ok {
      forall k | 0 <= k < n { buf[dst + k] := buf[src + k]; }
      Moved(old(buf[..]), buf[..], dst, src, n);
    }
  }

  lemma Moved(s: string, t: string, dst: nat, src: nat, n: nat)
    requires dst <= src && src + n <= |s| == |t|
    requires forall k :: 0 <= k < |t| && !(dst <= k < dst + n) ==> t[k] == s[k]
    requires t[dst..dst + n] == s[src..src + n]
    ensures t == s[..dst] + s[src..src + n] + s[dst + n..]
  {
    assert t[..dst] == s[..dst];
    assert t[dst + n..] == s[dst + n..];
  }

  /** Takes the characters `from` to `to` out of the text by moving at least the rest of it down. */
  method CloseUp(buf: array<char>, from: nat, to: nat, n: nat, pLen: nat, ghost s: string) returns (ok: bool)
    requires Holds(buf, s) && pLen == |s| && from <= to <= pLen && pLen - to <= n
    modifies buf
    ensures ok <==> to + n <= buf.Length
    ensures ok ==> Holds(buf, s[..from] + s[to..])
  {
    ghost var t := s[..from] + s[to..];
    ok := MemMove(buf, from, to, n);
    if ok {
      assert forall k :: 0 <= k < |t| ==> buf[..][k] == t[k];
      buf[pLen - (to - from)] := '\0';
    }
  }

  ghost predicate Absolute(s: string) {
    s != "" && s[0] == '/'
  }

  /** What leaving out one occurrence of "/name/" down to "/" does to a path. */
  lemma StripStep(s: string, name: string, i: nat)
    requires name == "" || name == "."
    requires At(s, "/" + name + "/", i)
    ensures var t := s[..i] + s[i + |name| + 1..];
      && Walk([], t) == Walk([], s) && (Absolute(s) ==> Absolute(t))
      && (forall pat :: Separated(pat) && !Contains(s, pat) ==> !Contains(t, pat))
  {
    var a, b := s[..i], s[i + |name| + 2..];
    var mid := "/" + name + "/";
    assert s[i..i + |mid|] == mid;
    assert s == a + "/" + name + "/" + b;
    assert s[i + |name| + 1] == mid[|name| + 1] == '/';
    assert s[..i] + s[i + |name| + 1..] == a + "/" + b;
    WalkSkip([], a, name, b);
    forall pat | Separated(pat) && !Contains(s, pat) ensures !Contains(a + "/" + b, pat) {
      JoinClean(a, name, b, pat);
    }
  }

  /** The text with every "/name/" shortened to "/", the first one first. */
  function StripAll(s: string, name: string): string
    decreases |s|
  {
    var f := Find(s, "/" + name + "/");
    if f.None? then s else StripAll(s[..f.value] + s[f.value + |name| + 1..], name)
  }

  method StrStr(buf: array<char>, pLen: nat, pat: string, ghost s: string) returns (r: Option<nat>)
    requires Holds(buf, s) && pLen == |s|
    ensures r == Find(s, pat)
  {
    r := Find(buf[..pLen], pat);
  }

  lemma StripUnfold(s: string, name: string)
    ensures var f := Find(s, "/" + name + "/");
      if f.None? then StripAll(s, name) == s && !Contains(s, "/" + name + "/")
      else
        && f.value + |name| + 2 <= |s| && Contains(s, "/" + name + "/")
        && StripAll(s, name) == StripAll(s[..f.value] + s[f.value + |name| + 1..], name)
  {
  }

  /** Shortens every "/name/" to "/" in place. */
  method RemovePathString(buf: array<char>, name: string, ghost s0: string) returns (ok: bool)
    requires Holds(buf, s0)
    modifies buf
    ensures ok <==> (Contains(s0, "/" + name + "/") ==> |s0| + |name| + 1 <= buf.Length)
    ensures ok ==> Holds(buf, StripAll(s0, name))
  {
    hide Contains, StripAll, Find, Holds;
    ghost var s := s0;
    var str := "/" + name + "/";
    var strLen := |str| - 1;
    var pLen := StrLen(buf, s);
    while true
      invariant Holds(buf, s) && pLen == |s| <= |s0| && StripAll(s, name) == StripAll(s0, name)
      invariant if |s| == |s0| then s == s0 else |s0| + strLen <= buf.Length
      decreases |s|
    {
      StripUnfold(s, name);
      var found := StrStr(buf, pLen, str, s);
      if found.None? {
        return true;
      }
      var p := found.value;
      ok := CloseUp(buf, p, p + strLen, pLen - p, pLen, s);
      if !ok {
        return false;
      }
      s := s[..p] + s[p + strLen..];
      pLen := pLen - strLen;
    }
  }

  lemma HeldText(buf: array<char>, s: string)
    requires Holds(buf, s)
    ensures |s| < buf.Length && buf[..|s|] == s
  {
  }

  method StrLen(buf: array<char>, ghost s: string) returns (n: nat)
    requires Holds(buf, s)
    ensures n == |s|
  {
    n := 0;
    while buf[n] != '\0'
      invariant n <= |s|
      decreases |s| - n
    {
      n := n + 1;
    }
  }

  lemma {:induction false} StripAllKeeps(s: string, name: string)
    requires name == "" || name == "."
    ensures var t := StripAll(s, name);
      && !Contains(t, "/" + name + "/") && Walk([], t) == Walk([], s)
      && |t| <= |s| && (Absolute(s) ==> Absolute(t))
      && (forall pat :: Separated(pat) && !Contains(s, pat) ==> !Contains(t, pat))
    decreases |s|
  {
    hide Walk, Contains, Separated;
    var f := Find(s, "/" + name + "/");
    if f.None? {
    } else {
      StripStep(s, name, f.value);
      StripAllKeeps(s[..f.value] + s[f.value + |name| + 1..], name);
    }
  }

  // ---------------------------------------------------------------- parent directories

  predicate Clean(s: string) {
    !Contains(s, "/./") && !Contains(s, "//")
  }

  /** The last slash before `i`. */
  function SlashBefore(s: string, i: nat): (k: nat)
    requires 0 < i <= |s| && s[0] == '/'
    ensures k < i && s[k] == '/' && forall j :: k < j < i ==> s[j] != '/'
  {
    if s[i - 1] == '/' then i - 1 else SlashBefore(s, i - 1)
  }

  /** Leaving out "/name/.." at the first "/../". */
  function Up(s: string, i: nat): string
    requires Absolute(s) && i > 0 && At(s, "/../", i)
  {
    s[..SlashBefore(s, i)] + s[i + 3..]
  }

  lemma UpWalks(a: string, name: string, b: string)
    requires Ordinary(name) && Clean(a + "/" + name + "/../" + b)
    ensures Walk([], a + "/" + b) == Walk([], a + "/" + name + "/../" + b)
    ensures Clean(a + "/" + b)
  {
    hide Walk, Contains;
    WalkCancel([], a, name, b);
    assert a + "/" + name + "/../" + b == a + "/" + (name + "/..") + "/" + b;
    JoinClean(a, name + "/..", b, "/./");
    JoinClean(a, name + "/..", b, "//");
  }

  lemma UpStep(s: string, i: nat)
    requires Absolute(s) && Clean(s) && Find(s, "/../") == Some(i) && i > 0
    ensures var t := Up(s, i); Walk([], t) == Walk([], s) && Absolute(t) && Clean(t) && |t| < |s|
  {
    hide Walk, Ordinary, Clean;
    var start := SlashBefore(s, i);
    UpSplits(s, start, i);
    assert s[i] == s[i..i + 4][0] == '/';
    NameIsOrdinary(s, start, i, i);
    hide Find, At;
    UpWalks(s[..start], s[start + 1..i], s[i + 4..]);
  }

  lemma UpSplits(s: string, start: nat, i: nat)
    requires At(s, "/../", i) && start < i && s[start] == '/'
    ensures s == s[..start] + "/" + s[start + 1..i] + "/../" + s[i + 4..]
    ensures s[..start] + s[i + 3..] == s[..start] + "/" + s[i + 4..]
  {
    assert s[i..i + 4] == "/../";
    assert s[i + 3] == s[i..i + 4][3] == '/';
  }

  /** Up to the first "/../" of a clean path there are only proper names. */
  lemma NameIsOrdinary(s: string, start: nat, k: nat, i: nat)
    requires Clean(s) && Find(s, "/../") == Some(i) && start < k <= i && s[k] == '/'
    requires s[start] == '/' && forall j :: start < j < k ==> s[j] != '/'
    ensures Ordinary(s[start + 1..k])
  {
    var name := s[start + 1..k];
    assert |name| >= 1 ==> s[start + 1] == name[0];
    assert |name| >= 2 ==> s[start + 2] == name[1];
    assert name == "" ==> At(s, "//", start);
    assert name == "." ==> At(s, "/./", start);
    assert name == ".." ==> At(s, "/../", start);
  }

  /** Move by move: each copies as many characters as the shortened text has, from beyond the part left
      out. */
  ghost predicate MovesFit(s: string, max: nat)
    requires Absolute(s) && Clean(s)
    decreases |s|
  {
    match Find(s, "/../")
    case None => true
    case Some(i) =>
      i == 0 || (SlashBefore(s, i) + |s| <= max && (UpStep(s, i); MovesFit(Up(s, i), max)))
  }

  lemma {:induction false} ShortEnough(s: string, max: nat)
    requires Absolute(s) && Clean(s) && 2 * |s| <= max
    ensures MovesFit(s, max)
    decreases |s|
  {
    hide Walk, Contains;
    var f := Find(s, "/../");
    if f.None? || f.value == 0 {
    } else {
      UpStep(s, f.value);
      ShortEnough(Up(s, f.value), max);
    }
  }

  /** The length of the path of a directory. */
  function Length(stack: seq<string>): nat {
    if stack == [] then 0 else Length(stack[..|stack| - 1]) + 1 + |stack[|stack| - 1]|
  }

  /** Following `s`, no ".." up to position `j` is met at the root. */
  ghost predicate Reached(s: string, j: nat) {
    forall k :: 0 <= k <= j && At(s, "/../", k) ==> Walk([], s[..k]) != []
  }

  /** Going up at position `j`: the path of the parent directory, that of the directory left, and the
      rest of the text from there fit one after the other. */
  ghost predicate UpFits(s: string, j: nat, max: nat)
    requires j <= |s|
  {
    var here := Walk([], s[..j]);
    here != [] ==> Length(here[..|here| - 1]) + Length(here) + (|s| - j) <= max
  }

  /** What a path must be for all moves to stay inside a buffer of `max` characters. */
  ghost predicate UpInBounds(s: string, max: nat) {
    forall j :: 0 <= j <= |s| && At(s, "/../", j) && Reached(s, j) ==> UpFits(s, j, max)
  }

  lemma WalkName(a: string, name: string)
    requires Ordinary(name)
    ensures Walk([], a + "/" + name) == Walk([], a) + [name]
  {
    WalkAppend([], a, name);
    SlashAt(name, "");
  }

  /** Before the first "/../", the text is the path of where it leads. */
  lemma {:induction false} LengthOfPrefix(s: string, i: nat, k: nat)
    requires Absolute(s) && Clean(s) && Find(s, "/../") == Some(i) && k <= i && s[k] == '/'
    ensures Length(Walk([], s[..k])) == k
    ensures k > 0 ==> var here := Walk([], s[..k]); here != [] && Length(here[..|here| - 1]) == SlashBefore(s, k)
  {
    if k == 0 {
      assert Walk([], "") == [];
    } else {
      hide Walk, Find, Clean;
      var start := SlashBefore(s, k);
      var name := s[start + 1..k];
      NameIsOrdinary(s, start, k, i);
      assert s[..k] == s[..start] + "/" + name;
      WalkName(s[..start], name);
      LengthOfPrefix(s, i, start);
      var here := Walk([], s[..k]);
      assert here[..|here| - 1] == Walk([], s[..start]);
    }
  }

  /** `At(s, "/../", p)`, character by character. */
  predicate DotDot(s: string, p: nat) {
    p + 4 <= |s| && s[p] == '/' && s[p + 1] == '.' && s[p + 2] == '.' && s[p + 3] == '/'
  }

  lemma AtDotDot(s: string, p: nat)
    ensures At(s, "/../", p) <==> DotDot(s, p)
  {
    if p + 4 <= |s| {
      var t := s[p..p + 4];
      assert t[0] == s[p] && t[1] == s[p + 1] && t[2] == s[p + 2] && t[3] == s[p + 3];
    }
  }

  lemma UpChar(s: string, i: nat, k: nat)
    requires Absolute(s) && i > 0 && At(s, "/../", i)
    ensures var start, t := SlashBefore(s, i), Up(s, i);
      && |t| == |s| - (i + 3 - start)
      && (k < start ==> t[k] == s[k]) && (start <= k < |t| ==> t[k] == s[k + (i + 3 - start)])
  {
  }

  /** Where "/../" stands after the first one is left out with the name before it. */
  lemma ShiftAt(s: string, i: nat, p: nat)
    requires Absolute(s) && Find(s, "/../") == Some(i) && i > 0
    ensures var start := SlashBefore(s, i);
      && (p >= start ==> (At(Up(s, i), "/../", p) <==> At(s, "/../", p + (i + 3 - start))))
      && (p < start ==> !At(Up(s, i), "/../", p))
      && (p < i ==> !At(s, "/../", p)) && (i < p < i + 3 ==> !At(s, "/../", p))
  {
    hide At, Find, Up;
    FirstDotDot(s, i, p);
    AtDotDot(s, i);
    AtDotDot(s, p);
    if p >= SlashBefore(s, i) {
      ShiftAfter(s, i, p);
    } else {
      ShiftBefore(s, i, p);
    }
  }

  lemma FirstDotDot(s: string, i: nat, p: nat)
    requires Find(s, "/../") == Some(i)
    ensures At(s, "/../", i) && (p < i ==> !At(s, "/../", p))
  {
  }

  lemma ShiftAfter(s: string, i: nat, p: nat)
    requires Absolute(s) && i > 0 && At(s, "/../", i) && p >= SlashBefore(s, i)
    ensures At(Up(s, i), "/../", p) <==> At(s, "/../", p + (i + 3 - SlashBefore(s, i)))
  {
    AtDotDot(s, i);
    hide At, Up;
    AtDotDot(Up(s, i), p);
    AtDotDot(s, p + (i + 3 - SlashBefore(s, i)));
    UpChar(s, i, p);
    UpChar(s, i, p + 1);
    UpChar(s, i, p + 2);
    UpChar(s, i, p + 3);
  }

  lemma ShiftBefore(s: string, i: nat, p: nat)
    requires Absolute(s) && Find(s, "/../") == Some(i) && i > 0 && p < SlashBefore(s, i)
    ensures !At(Up(s, i), "/../", p)
  {
    hide At, Up, Find;
    var start := SlashBefore(s, i);
    FirstDotDot(s, i, p);
    AtDotDot(s, i);
    AtDotDot(s, p);
    AtDotDot(Up(s, i), p);
    UpChar(s, i, p);
    UpChar(s, i, p + 1);
    UpChar(s, i, p + 2);
    UpChar(s, i, p + 3);
    UpChar(s, i, start);
  }

  lemma CutWalk(a: string, name: string, c: string, n: nat)
    requires Ordinary(name) && n <= |c|
    ensures Walk([], (a + "/" + c)[..|a| + 1 + n]) == Walk([], (a + "/" + name + "/../" + c)[..|a| + |name| + 5 + n])
  {
    hide Walk;
    var s, t := a + "/" + name + "/../" + c, a + "/" + c;
    assert t[..|a| + 1 + n] == a + "/" + c[..n];
    assert s == (a + "/" + name + "/../") + c;
    assert s[..|a| + |name| + 5 + n] == (a + "/" + name + "/../") + c[..n];
    WalkCancel([], a, name, c[..n]);
  }

  lemma NameAndUp(a: string, name: string, c: string)
    requires Ordinary(name)
    ensures Walk([], (a + "/" + c)[..|a|]) == Walk([], (a + "/" + name + "/../" + c)[..|a| + |name| + 4])
  {
    hide Walk, Ordinary;
    assert (a + "/" + c)[..|a|] == a;
    assert (a + "/" + name + "/../" + c)[..|a| + |name| + 4] == (a + "/" + name) + "/" + "..";
    WalkAppend([], a + "/" + name, "..");
    WalkAppend([], a, name);
    DownAndUp(Walk([], a), name);
  }

  /** Beyond it the text leads to the same places. */
  lemma ShiftWalk(s: string, i: nat, p: nat)
    requires Absolute(s) && Clean(s) && Find(s, "/../") == Some(i) && i > 0
    requires SlashBefore(s, i) <= p <= |Up(s, i)|
    ensures var q := p + (i + 3 - SlashBefore(s, i)); q <= |s| && Walk([], Up(s, i)[..p]) == Walk([], s[..q])
  {
    hide Walk, Clean;
    var start := SlashBefore(s, i);
    var a, name := s[..start], s[start + 1..i];
    var q := p + (i + 3 - start);
    AtDotDot(s, i);
    NameIsOrdinary(s, start, i, i);
    UpSplits(s, start, i);
    hide Find, At;
    if p == start {
      NameAndUp(a, name, s[i + 4..]);
    } else {
      CutWalk(a, name, s[i + 4..], p - start - 1);
    }
  }

  /** One occurrence, before and after the move. */
  lemma UpFitsShift(s: string, i: nat, p: nat, max: nat)
    requires Absolute(s) && Clean(s) && Find(s, "/../") == Some(i) && i > 0
    requires SlashBefore(s, i) <= p <= |Up(s, i)|
    ensures var q := p + (i + 3 - SlashBefore(s, i)); q <= |s| && (UpFits(Up(s, i), p, max) <==> UpFits(s, q, max))
  {
    hide Walk, Length, Clean, Find;
    ShiftWalk(s, i, p);
    UpChar(s, i, p);
  }

  lemma FirstUp(s: string, i: nat, max: nat)
    requires Absolute(s) && Clean(s) && Find(s, "/../") == Some(i) && i > 0
    ensures At(s, "/../", i) && Reached(s, i) && (UpFits(s, i, max) <==> SlashBefore(s, i) + |s| <= max)
  {
    hide Walk, Length, Clean;
    AtDotDot(s, i);
    LengthOfPrefix(s, i, i);
  }

  lemma ReachedShift(s: string, i: nat, p: nat)
    requires Absolute(s) && Clean(s) && Find(s, "/../") == Some(i) && i > 0
    requires SlashBefore(s, i) <= p <= |Up(s, i)|
    ensures Reached(Up(s, i), p) <==> Reached(s, p + (i + 3 - SlashBefore(s, i)))
  {
    hide Walk, Clean, Up, At;
    var start, t := SlashBefore(s, i), Up(s, i);
    var shift := i + 3 - start;
    FirstUp(s, i, 0);
    UpChar(s, i, 0);
    if Reached(t, p) {
      forall k | 0 <= k <= p + shift && At(s, "/../", k) ensures Walk([], s[..k]) != [] {
        ShiftAt(s, i, k);
        if k > i {
          ShiftAt(s, i, k - shift);
          ShiftWalk(s, i, k - shift);
        }
      }
    }
    if Reached(s, p + shift) {
      forall k | 0 <= k <= p && At(t, "/../", k) ensures Walk([], t[..k]) != [] {
        ShiftAt(s, i, k);
        ShiftWalk(s, i, k);
      }
    }
  }

  /** The condition says the same of the text before and after a move that fits. */
  lemma UpInBoundsStep(s: string, i: nat, max: nat)
    requires Absolute(s) && Clean(s) && Find(s, "/../") == Some(i) && i > 0
    ensures UpInBounds(s, max) <==> SlashBefore(s, i) + |s| <= max && UpInBounds(Up(s, i), max)
  {
    hide Walk, Clean, Up, At, UpFits, Reached;
    var start, t := SlashBefore(s, i), Up(s, i);
    var shift := i + 3 - start;
    FirstUp(s, i, max);
    UpChar(s, i, 0);
    if UpInBounds(s, max) {
      forall p | 0 <= p <= |t| && At(t, "/../", p) && Reached(t, p) ensures UpFits(t, p, max) {
        ShiftAt(s, i, p);
        ReachedShift(s, i, p);
        UpFitsShift(s, i, p, max);
      }
    }
    if UpFits(s, i, max) && UpInBounds(t, max) {
      forall q | 0 <= q <= |s| && At(s, "/../", q) && Reached(s, q) ensures UpFits(s, q, max) {
        ShiftAt(s, i, q);
        if q > i {
          ShiftAt(s, i, q - shift);
          ReachedShift(s, i, q - shift);
          UpFitsShift(s, i, q - shift, max);
        }
      }
    }
  }

  lemma {:induction false} MovesFitMeaning(s: string, max: nat)
    requires Absolute(s) && Clean(s)
    ensures MovesFit(s, max) <==> UpInBounds(s, max)
    decreases |s|
  {
    match Find(s, "/../") {
      case None =>
      case Some(i) =>
        if i == 0 {
          assert Walk([], s[..0]) == [];
        } else {
          hide Walk, Contains, Clean, Find, At, UpInBounds;
          MovesFitStep(s, i, max);
          MovesFitMeaning(Up(s, i), max);
          UpInBoundsStep(s, i, max);
        }
    }
  }

  /** Steps back from the slash at `p` to the one before it. */
  method ScanBack(buf: array<char>, p: nat, ghost s: string) returns (pStart: nat)
    requires Holds(buf, s) && Absolute(s) && 0 < p <= |s|
    ensures pStart == SlashBefore(s, p)
  {
    pStart := p - 1;
    while buf[pStart] != '/'
      invariant SlashBefore(s, p) <= pStart < p
      decreases pStart
    {
      pStart := pStart - 1;
    }
  }

  lemma UpDone(s: string, max: nat)
    requires Absolute(s) && Clean(s) && (Find(s, "/../").None? || Find(s, "/../").value == 0)
    ensures MovesFit(s, max) && (!Contains(s, "/../") || At(s, "/../", 0))
    ensures At(s, "/../", 0) <==> !Reached(s, |s|)
  {
    assert Walk([], s[..0]) == [];
  }

  lemma ReachedAfter(s: string, i: nat)
    requires Absolute(s) && Clean(s) && Find(s, "/../") == Some(i) && i > 0
    ensures Reached(Up(s, i), |Up(s, i)|) <==> Reached(s, |s|)
  {
    hide Walk, Clean, Find, Reached;
    UpChar(s, i, 0);
    ReachedShift(s, i, |Up(s, i)|);
  }

  lemma MovesFitStep(s: string, i: nat, max: nat)
    requires Absolute(s) && Clean(s) && Find(s, "/../") == Some(i) && i > 0
    ensures i + 4 <= |s|
    ensures Absolute(Up(s, i)) && Clean(Up(s, i)) && |Up(s, i)| < |s| && Walk([], Up(s, i)) == Walk([], s)
    ensures MovesFit(s, max) <==> SlashBefore(s, i) + |s| <= max && MovesFit(Up(s, i), max)
  {
    hide Walk, Contains, Clean, Find;
    UpStep(s, i);
  }

  /** Cancels each ".." with the name before it, up to a ".." at the root. */
  method RemoveDotDot(buf: array<char>, ghost s0: string) returns (ok: bool, ghost s: string)
    requires Holds(buf, s0) && Absolute(s0) && Clean(s0)
    modifies buf
    ensures ok <==> UpInBounds(s0, buf.Length)
    ensures ok ==> Holds(buf, s) && Absolute(s) && Clean(s) && Walk([], s) == Walk([], s0)
    ensures ok ==> !Contains(s, "/../") || At(s, "/../", 0)
    // which is left exactly if some ".." is met at the root
    ensures ok ==> (At(s, "/../", 0) <==> !Reached(s0, |s0|))
  {
    hide Walk, Contains, Clean, MovesFit, UpInBounds, Find, Holds, At, Reached;
    MovesFitMeaning(s0, buf.Length);
    s := s0;
    var pLen := StrLen(buf, s);
    while true
      invariant Holds(buf, s) && pLen == |s| && Absolute(s) && Clean(s)
      invariant MovesFit(s, buf.Length) <==> MovesFit(s0, buf.Length)
      invariant Walk([], s) == Walk([], s0) && (Reached(s, |s|) <==> Reached(s0, |s0|))
      decreases |s|
    {
      var found := StrStr(buf, pLen, "/../", s);
      if found.None? || found.value == 0 {
        UpDone(s, buf.Length);
        return true, s;
      }
      var p := found.value;
      MovesFitStep(s, p, buf.Length);
      ReachedAfter(s, p);
      var pEnd := p + 3;
      var pStart := ScanBack(buf, p, s);
      ok := CloseUp(buf, pStart, pEnd, pLen - (pEnd - pStart), pLen, s);
      if !ok {
        return false, s;
      }
      s := s[..pStart] + s[pEnd..];
      pLen := pLen - (pEnd - pStart);
    }
  }

  // ---------------------------------------------------------------- the whole

  /** The absolute form of `p`, from the current directory if need be. */
  function Given(p: string, cwd: string): string {
    if p != "" && p[0] == '/' then p else cwd + "/" + p
  }

  lemma StripsClean(given: string)
    requires Absolute(given)
    ensures |StripAll(given, ".")| <= |given|
    ensures var s := StripAll(StripAll(given, "."), "");
      Absolute(s) && Clean(s) && |s| <= |given| && Walk([], s) == Walk([], given)
  {
    assert Separated("/./") && "/" + "." + "/" == "/./" && "/" + "" + "/" == "//";
    hide Contains, Separated, StripAll, Walk;
    StripAllKeeps(given, ".");
    StripAllKeeps(StripAll(given, "."), "");
  }

  /** A path of at most half the buffer is safe, whatever it holds. */
  lemma HalfIsEnough(given: string)
    requires Absolute(given) && 2 * |given| <= PATH_MAX
    ensures InBounds(given)
  {
    hide MovesFit, UpInBounds, StripAll, Contains;
    StripsClean(given);
    MovesFitMeaning(StripAll(StripAll(given, "."), ""), PATH_MAX);
    ShortEnough(StripAll(StripAll(given, "."), ""), PATH_MAX);
  }

  /** The moves made for the absolute path stay inside the buffer. */
  ghost predicate InBounds(given: string)
    requires Absolute(given)
  {
    && |given| < PATH_MAX && (Contains(given, "/./") ==> |given| + 2 <= PATH_MAX)
    && UpInBounds(StripAll(StripAll(given, "."), ""), PATH_MAX)
  }

  /** The path, copied or put together in the buffer. */
  method Copied(given: string) returns (path: array<char>)
    requires |given| < PATH_MAX && '\0' !in given
    ensures fresh(path) && path.Length == PATH_MAX && Holds(path, given)
  {
    path := new char[PATH_MAX](i => if 0 <= i < |given| then given[i] else '\0');
    assert path[..|given|] == given;
  }

  method ResolvePath(p: Option<string>, cwd: string) returns (ok: bool, r: Option<string>)
    requires Absolute(cwd) && '\0' !in cwd && (p.Some? ==> '\0' !in p.value)
    ensures p.None? || p.value == "" ==> ok && r == None
    ensures p.Some? && p.value != "" && ok ==>
      && r.Some? && Walk([], r.value) == Walk([], Given(p.value, cwd))
      && Clean(r.value) && (!Contains(r.value, "/../") || At(r.value, "/../", 0))
      && var s := StripAll(StripAll(Given(p.value, cwd), "."), ""); At(r.value, "/../", 0) <==> !Reached(s, |s|)
    ensures p.Some? && p.value != "" ==> (ok <==> InBounds(Given(p.value, cwd)))
  {
    if p.None? || p.value == "" {
      return true, None;
    }
    var given := Given(p.value, cwd);
    if |given| >= PATH_MAX {
      return false, None;
    }
    hide Walk, Contains, StripAll, UpInBounds, Clean, Reached, At, Holds, Separated;
    var path := Copied(given);
    StripsClean(given);
    assert "/" + "." + "/" == "/./" && "/" + "" + "/" == "//";
    ok := RemovePathString(path, ".", given);
    if !ok { return false, None; }
    ok := RemovePathString(path, "", StripAll(given, "."));
    if !ok { return false, None; }
    ghost var s;
    ok, s := RemoveDotDot(path, StripAll(StripAll(given, "."), ""));
    if !ok { return false, None; }
    var n := StrLen(path, s);
    HeldText(path, s);
    r := Some(path[..n]);
  }

  // ---------------------------------------------------------------- a path that is too deep

  /** A long directory, a name in it, and back. */
  function DeepPath(n: nat): string {
    "/" + seq(n, _ => 'a') + "/b/../"
  }

  lemma DeepChars(n: nat, k: nat)
    requires k < n + 7
    ensures |DeepPath(n)| == n + 7
    ensures DeepPath(n)[k] == (if 0 < k <= n then 'a' else if k == n + 2 then 'b'
                               else if k == n + 4 || k == n + 5 then '.' else '/')
  {
  }

  lemma DeepClean(n: nat)
    requires n > 0
    ensures !Contains(DeepPath(n), "/./") && !Contains(DeepPath(n), "//")
  {
    hide DeepPath, At;
    DeepChars(n, 0);
    var s := DeepPath(n);
    forall k | 0 <= k <= |s| ensures !At(s, "/./", k) && !At(s, "//", k) {
      AtChar(s, "/./", k, 0);
      AtChar(s, "/./", k, 1);
      AtChar(s, "/./", k, 2);
      AtChar(s, "//", k, 0);
      AtChar(s, "//", k, 1);
      if k < |s| { DeepChars(n, k); }
      if k + 1 < |s| { DeepChars(n, k + 1); }
      if k + 2 < |s| { DeepChars(n, k + 2); }
    }
  }

  lemma AtChar(s: string, pat: string, i: nat, k: nat)
    requires k < |pat|
    ensures At(s, pat, i) ==> i + k < |s| && s[i + k] == pat[k]
  {
    if At(s, pat, i) { assert s[i..i + |pat|][k] == s[i + k]; }
  }

  lemma DeepUp(n: nat)
    requires n > 0
    ensures Absolute(DeepPath(n)) && |DeepPath(n)| == n + 7
    ensures Find(DeepPath(n), "/../") == Some(n + 3) && SlashBefore(DeepPath(n), n + 3) == n + 1
  {
    hide DeepPath, Find;
    var s := DeepPath(n);
    DeepChars(n, 0);
    DeepChars(n, n + 1);
    DeepChars(n, n + 2);
    DeepChars(n, n + 3);
    DeepChars(n, n + 4);
    DeepChars(n, n + 5);
    DeepChars(n, n + 6);
    AtDotDot(s, n + 3);
    forall k | 0 <= k < n + 3 ensures !At(s, "/../", k) {
      AtDotDot(s, k);
      DeepChars(n, k);
      DeepChars(n, k + 1);
    }
    FindsFirst(s, "/../", n + 3);
    assert SlashBefore(s, n + 2) == n + 1;
  }

  lemma FindsFirst(s: string, pat: string, i: nat)
    requires At(s, pat, i) && i <= |s| && forall j :: 0 <= j < i ==> !At(s, pat, j)
    ensures Find(s, pat) == Some(i)
  {
  }

  /** It is shorter than the buffer and has nothing to strip, yet its one move leaves the buffer. */
  lemma DeepOutOfBounds()
    ensures |DeepPath(3000)| < PATH_MAX && Absolute(DeepPath(3000)) && !InBounds(DeepPath(3000))
  {
    hide DeepPath, Find, StripAll, UpInBounds, Contains;
    var s := DeepPath(3000);
    DeepUp(3000);
    DeepClean(3000);
    assert "/" + "." + "/" == "/./" && "/" + "" + "/" == "//";
    FindsNothing(s, "/./");
    FindsNothing(s, "//");
    StripUnfold(s, ".");
    StripUnfold(s, "");
    MovesFitMeaning(s, PATH_MAX);
    MovesFitStep(s, 3003, PATH_MAX);
  }

  lemma FindsNothing(s: string, pat: string)
    requires !Contains(s, pat)
    ensures Find(s, pat) == None
  {
  }
}
