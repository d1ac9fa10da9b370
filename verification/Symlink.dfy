/** Rewriting absolute symbolic links below the mounted directory into relative ones. */
module Symlink {
  import opened Common
  import opened ResolvePath

  // ---------------------------------------------------------------- components

  /** The components of a path, however many slashes stand between them. */
  function Comps(s: string): seq<string>
    decreases |s|
  {
    var i := Slash(s);
    (if i == 0 then [] else [s[..i]]) + (if i == |s| then [] else Comps(s[i + 1..]))
  }

  /** Where following the components from `stack` leads. */
  function Follow(stack: seq<string>, comps: seq<string>): seq<string>
    decreases comps
  {
    if comps == [] then stack else Follow(Enter(stack, comps[0]), comps[1..])
  }

  lemma {:induction false} WalkIsFollow(stack: seq<string>, s: string)
    ensures Walk(stack, s) == Follow(stack, Comps(s))
    decreases |s|
  {
    var i := Slash(s);
    if i < |s| {
      WalkIsFollow(Enter(stack, s[..i]), s[i + 1..]);
      var rest := Comps(s[i + 1..]);
      if i == 0 { CompsSlash(s); assert s[..i] == ""; }
      else { FollowAppend(stack, [s[..i]], rest); FollowOne(stack, s[..i]); }
    } else if s != "" {
      assert Comps(s) == [s] by { assert s[..i] == s; }
      FollowOne(stack, s);
    }
  }

  lemma FollowOne(stack: seq<string>, name: string)
    ensures Follow(stack, [name]) == Enter(stack, name)
  {
    assert [name][1..] == [];
  }

  lemma {:induction false} FollowAppend(stack: seq<string>, a: seq<string>, b: seq<string>)
    ensures Follow(stack, a + b) == Follow(Follow(stack, a), b)
    decreases a
  {
    if a == [] {
      assert a + b == b;
    } else {
      assert (a + b)[1..] == a[1..] + b;
      FollowAppend(Enter(stack, a[0]), a[1..], b);
    }
  }

  lemma CompsSlash(s: string)
    requires s != "" && s[0] == '/'
    ensures Comps(s) == Comps(s[1..])
  {
  }

  /** A component followed by a slash or the end. */
  lemma CompsName(s: string, n: nat)
    requires 0 < n <= |s| && (forall k :: 0 <= k < n ==> s[k] != '/') && (n < |s| ==> s[n] == '/')
    ensures Comps(s) == [s[..n]] + Comps(s[n..])
  {
    assert Slash(s) == n;
    if n < |s| {
      CompsSlash(s[n..]);
      assert s[n..][1..] == s[n + 1..];
    } else {
      assert s[n..] == "" && Comps("") == [];
    }
  }

  lemma CompsEmpty(s: string)
    requires s == "" || s[0] != '/'
    ensures Comps(s) == [] <==> s == ""
  {
  }

  /** The character at `i`, with the terminator at the end. */
  function CharAt(s: string, i: nat): char
    requires i <= |s|
  {
    if i < |s| then s[i] else '\0'
  }

  method SkipSlashes(s: string, i0: nat) returns (i: nat)
    requires i0 <= |s|
    ensures i0 <= i <= |s| && CharAt(s, i) != '/' && Comps(s[i..]) == Comps(s[i0..])
    ensures CharAt(s, i0) == '/' ==> i > i0 && s[i - 1] == '/'
  {
    hide Comps;
    i := i0;
    while CharAt(s, i) == '/'
      invariant i0 <= i <= |s| && Comps(s[i..]) == Comps(s[i0..]) && (i > i0 ==> s[i - 1] == '/')
      decreases |s| - i
    {
      CompsSlash(s[i..]);
      assert s[i..][1..] == s[i + 1..];
      i := i + 1;
    }
  }

  method CountComponents(p: string) returns (ctr: nat)
    requires '\0' !in p
    ensures ctr == |Comps(p)|
  {
    hide Comps;
    var i := SkipSlashes(p, 0);
    assert p[0..] == p;
    ctr := 0;
    while CharAt(p, i) != '\0'
      invariant i <= |p| && CharAt(p, i) != '/' && (CharAt(p, i) == '\0' ==> i == |p|) && ctr + |Comps(p[i..])| == |Comps(p)|
      decreases |p| - i
    {
      var start := i;
      while CharAt(p, i) != '\0' && CharAt(p, i) != '/'
        invariant start <= i <= |p| && forall k :: start <= k < i ==> p[k] != '/'
        invariant i == start ==> CharAt(p, i) != '/' && CharAt(p, i) != '\0'
        decreases |p| - i
      {
        i := i + 1;
      }
      assert i < |p| ==> p[i] in p;
      CompsName(p[start..], i - start);
      assert p[start..][i - start..] == p[i..];
      i := SkipSlashes(p, i);
      ctr := ctr + 1;
    }
    CompsEmpty(p[i..]);
  }

  // ---------------------------------------------------------------- common components

  /** The two suffixes come after the same components of their paths. */
  ghost predicate SameBefore(s: string, i0: nat, i: nat, t: string, j0: nat, j: nat, common: seq<string>)
    requires i0 <= |s| && i <= |s| && j0 <= |t| && j <= |t|
  {
    Comps(s[i0..]) == common + Comps(s[i..]) && Comps(t[j0..]) == common + Comps(t[j..])
  }

  /** Why stripping stops: a path ran out, the next components differ, or both paths end with the
      same component and nothing after it. */
  ghost predicate Stopped(s: string, t: string) {
    || Comps(s) == [] || Comps(t) == [] || Comps(s)[0] != Comps(t)[0]
    || (s == t && '/' !in s)
  }

  /** Both at the end of a component, and not both at the end of the path: the loop condition. */
  predicate Continues(c: char, d: char) {
    (c == d && c != '\0') || (c == '\0' && d == '/') || (c == '/' && d == '\0')
  }

  /** Compares the components at `a` and `b` character by character. */
  method MatchName(s: string, t: string, a: nat, b: nat) returns (k: nat)
    requires a <= |s| && b <= |t| && '\0' !in s && '\0' !in t
    requires CharAt(s, a) != '/' && CharAt(t, b) != '/'
    ensures a + k <= |s| && b + k <= |t|
    ensures Continues(CharAt(s, a + k), CharAt(t, b + k)) ==>
      && k > 0 && s[a..a + k] == t[b..b + k]
      && Comps(s[a..]) == [s[a..a + k]] + Comps(s[a + k..])
      && Comps(t[b..]) == [t[b..b + k]] + Comps(t[b + k..])
    ensures Continues(CharAt(s, a + k), CharAt(t, b + k)) ==> CharAt(s, a + k) == '/' || CharAt(t, b + k) == '/'
    ensures !Continues(CharAt(s, a + k), CharAt(t, b + k)) ==> Stopped(s[a..], t[b..])
  {
    hide Comps;
    ghost var u, v := s[a..], t[b..];
    k := 0;
    while CharAt(s, a + k) == CharAt(t, b + k) && CharAt(s, a + k) != '\0' && CharAt(s, a + k) != '/'
      invariant a + k <= |s| && b + k <= |t|
      invariant forall n :: 0 <= n < k ==> u[n] == v[n] && u[n] != '/'
      decreases |s| - (a + k)
    {
      assert a + k < |s| ==> s[a + k] in s;
      assert b + k < |t| ==> t[b + k] in t;
      k := k + 1;
    }
    Matched(u, v, k);
    assert u[..k] == s[a..a + k] && v[..k] == t[b..b + k];
    assert u[k..] == s[a + k..] && v[k..] == t[b + k..];
  }

  lemma Matched(s: string, t: string, k: nat)
    requires k <= |s| && k <= |t| && '\0' !in s && '\0' !in t
    requires forall n :: 0 <= n < k ==> s[n] == t[n] && s[n] != '/'
    requires CharAt(s, 0) != '/' && CharAt(t, 0) != '/'
    requires !(CharAt(s, k) == CharAt(t, k) && CharAt(s, k) != '\0' && CharAt(s, k) != '/')
    ensures Continues(CharAt(s, k), CharAt(t, k)) ==>
      && k > 0 && s[..k] == t[..k] && Comps(s) == [s[..k]] + Comps(s[k..]) && Comps(t) == [t[..k]] + Comps(t[k..])
    ensures !Continues(CharAt(s, k), CharAt(t, k)) ==> Stopped(s, t)
  {
    hide Comps;
    assert k < |s| ==> s[k] in s;
    assert k < |t| ==> t[k] in t;
    if Continues(CharAt(s, k), CharAt(t, k)) {
      CompsName(s, k);
      CompsName(t, k);
    } else {
      StopsHere(s, t, k);
    }
  }

  lemma StopsHere(s: string, t: string, k: nat)
    requires k <= |s| && k <= |t| && '\0' !in s && '\0' !in t
    requires forall n :: 0 <= n < k ==> s[n] == t[n] && s[n] != '/'
    requires CharAt(s, 0) != '/' && CharAt(t, 0) != '/'
    requires !Continues(CharAt(s, k), CharAt(t, k)) && CharAt(s, k) == CharAt(t, k) ==> k == |s| == |t|
    requires !Continues(CharAt(s, k), CharAt(t, k))
    ensures Stopped(s, t)
  {
    hide Comps;
    CompsEmpty(s);
    CompsEmpty(t);
    if s != "" && t != "" {
      var m, n := Slash(s), Slash(t);
      CompsName(s, m);
      CompsName(t, n);
      assert k < m && k < n ==> s[k] == s[..m][k] && t[k] == t[..n][k];
      if s[..m] == t[..n] {
        assert k == m == n;
      }
    }
  }

  /** Steps both paths over the components they have in common. */
  method StripCommon(s: string, t: string, i0: nat, j0: nat) returns (i: nat, j: nat, ghost common: seq<string>)
    requires i0 <= |s| && j0 <= |t| && '\0' !in s && '\0' !in t
    ensures i0 <= i <= |s| && j0 <= j <= |t| && CharAt(s, i) != '/' && CharAt(t, j) != '/'
    ensures SameBefore(s, i0, i, t, j0, j, common) && Stopped(s[i..], t[j..])
    ensures common != [] ==> (i > 0 && s[i - 1] == '/') || (j > 0 && t[j - 1] == '/')
  {
    hide Comps, Stopped;
    var a, b := i0, j0;
    common := [];
    while true
      invariant i0 <= a <= |s| && j0 <= b <= |t| && SameBefore(s, i0, a, t, j0, b, common)
      invariant common != [] ==> CharAt(s, a) == '/' || CharAt(t, b) == '/'
      decreases |s| - a
    {
      i := SkipSlashes(s, a);
      j := SkipSlashes(t, b);
      var k := MatchName(s, t, i, j);
      a, b := i + k, j + k;
      if !Continues(CharAt(s, a), CharAt(t, b)) {
        break;
      }
      SameFurther(s, i0, i, t, j0, j, common, k);
      common := common + [s[i..a]];
    }
  }

  lemma SameFurther(s: string, i0: nat, i: nat, t: string, j0: nat, j: nat, common: seq<string>, k: nat)
    requires i0 <= |s| && i + k <= |s| && j0 <= |t| && j + k <= |t|
    requires SameBefore(s, i0, i, t, j0, j, common) && s[i..i + k] == t[j..j + k]
    requires Comps(s[i..]) == [s[i..i + k]] + Comps(s[i + k..]) && Comps(t[j..]) == [t[j..j + k]] + Comps(t[j + k..])
    ensures SameBefore(s, i0, i + k, t, j0, j + k, common + [s[i..i + k]])
  {
    hide Comps;
    var name := s[i..i + k];
    assert common + ([name] + Comps(s[i + k..])) == common + [name] + Comps(s[i + k..]);
    assert common + ([name] + Comps(t[j + k..])) == common + [name] + Comps(t[j + k..]);
  }

  predicate EndsInSlash(s: string) {
    s != "" && s[|s| - 1] == '/'
  }

  /** The same components to the end, and no slash after them: the last one is then not stripped. */
  predicate EndTogether(s: string, i0: nat, t: string, j0: nat)
    requires i0 <= |s| && j0 <= |t|
  {
    Comps(s[i0..]) == Comps(t[j0..]) && Comps(t[j0..]) != [] && !EndsInSlash(s) && !EndsInSlash(t)
  }

  /** When stripping uses the second path up. */
  lemma StripsAll(s: string, t: string, i0: nat, i: nat, j0: nat, j: nat, common: seq<string>)
    requires i0 <= i <= |s| && j0 <= j <= |t| && CharAt(s, i) != '/' && CharAt(t, j) != '/'
    requires SameBefore(s, i0, i, t, j0, j, common) && Stopped(s[i..], t[j..])
    requires common != [] ==> (i > 0 && s[i - 1] == '/') || (j > 0 && t[j - 1] == '/')
    ensures Comps(t[j..]) == [] <==> Comps(t[j0..]) <= Comps(s[i0..]) && !EndTogether(s, i0, t, j0)
  {
    hide Comps;
    var cs, ct := Comps(s[i0..]), Comps(t[j0..]);
    var s', t' := s[i..], t[j..];
    CompsEmpty(s');
    CompsEmpty(t');
    if Comps(t') == [] {
      assert ct == common && cs == common + Comps(s');
      if cs == ct { assert Comps(s') == [] by { assert |cs| == |common| + |Comps(s')|; } }
    } else if ct <= cs {
      assert ct[|common|] == Comps(t')[0];
      assert Comps(s') != [] by { assert |ct| == |common| + |Comps(t')|; }
      assert cs[|common|] == Comps(s')[0];
      assert s' == t' && '/' !in s';
      assert s'[|s'| - 1] == s[|s| - 1] && t'[|t'| - 1] == t[|t| - 1];
    }
  }

  // ---------------------------------------------------------------- the new link

  function Ups(n: nat): seq<string> {
    if n == 0 then [] else [".."] + Ups(n - 1)
  }

  function UpText(n: nat): (r: string)
    ensures |r| == 3 * n
  {
    if n == 0 then "" else "../" + UpText(n - 1)
  }

  /** The text of the new link: up from the directory of the link, then down to the target. */
  function LinkText(n: nat, l: string): string {
    UpText(n) + (if l == "" && n == 0 then "." else l)
  }

  lemma {:induction false} CompsUpText(n: nat, l: string)
    ensures Comps(UpText(n) + l) == Ups(n) + Comps(l)
  {
    hide Comps;
    if n == 0 {
      assert UpText(0) + l == l && Ups(0) + Comps(l) == Comps(l);
    } else {
      var s, rest := UpText(n) + l, UpText(n - 1) + l;
      assert s == ".." + ("/" + rest);
      assert s[..2] == ".." && s[2..] == "/" + rest && ("/" + rest)[1..] == rest;
      CompsName(s, 2);
      CompsSlash(s[2..]);
      CompsUpText(n - 1, l);
      assert [".."] + (Ups(n - 1) + Comps(l)) == Ups(n) + Comps(l);
    }
  }

  lemma {:induction false} UpTextAppend(n: nat)
    ensures UpText(n) + "../" == UpText(n + 1)
  {
    if n == 0 {
    } else {
      UpTextAppend(n - 1);
    }
  }

  /** As many ".." as there are names undo them. */
  lemma {:induction false} FollowUps(stack: seq<string>, names: seq<string>)
    requires forall k :: 0 <= k < |names| ==> Ordinary(names[k])
    ensures Follow(stack, names + Ups(|names|)) == stack
  {
    if names == [] {
    } else {
      var n := |names| - 1;
      var init, last := names[..n], names[n];
      assert names + Ups(|names|) == init + ([last, ".."] + Ups(n));
      FollowAppend(stack, init, [last, ".."] + Ups(n));
      var at := Follow(stack, init);
      FollowAppend(at, [last, ".."], Ups(n));
      assert Follow(at, [last, ".."]) == at by {
        assert [last, ".."] == [last] + [".."];
        FollowAppend(at, [last], [".."]);
        FollowOne(at, last);
        FollowOne(at + [last], "..");
        assert (at + [last])[..|at|] == at;
      }
      FollowUps(stack, init);
      FollowAppend(stack, init, Ups(n));
    }
  }

  /** The rewritten link leads from the directory of `path` to where the old one led. */
  lemma SameTarget(base: seq<string>, common: seq<string>, below: seq<string>, l: string)
    requires below != [] && forall k :: 0 <= k < |below| - 1 ==> Ordinary(below[k])
    ensures var n := |below| - 1;
      Follow([], base + common + below[..n] + Comps(LinkText(n, l))) == Follow([], base + common + Comps(l))
  {
    hide Follow, Comps, Ordinary;
    var n := |below| - 1;
    var dir, l' := below[..n], if l == "" && n == 0 then "." else l;
    CompsUpText(n, l');
    var at := Follow([], base + common);
    FollowAppend([], base + common, dir + Comps(LinkText(n, l)));
    assert base + common + dir + Comps(LinkText(n, l)) == base + common + (dir + Comps(LinkText(n, l)));
    FollowAppend(at, dir + Ups(n), Comps(l'));
    assert dir + Comps(LinkText(n, l)) == dir + Ups(n) + Comps(l');
    FollowUps(at, dir);
    FollowAppend([], base + common, Comps(l));
    DotStays(at);
  }

  lemma DotStays(at: seq<string>)
    ensures Follow(at, Comps(".")) == at == Follow(at, Comps(""))
  {
    CompsName(".", 1);
    assert "."[..1] == "." && "."[1..] == "" && Comps("") == [];
    FollowOne(at, ".");
  }

  /** `strcpy` of `text` to `at`. */
  method StrCpy(buf: array<char>, at: nat, text: string)
    requires at + |text| < buf.Length
    modifies buf
    ensures buf[..at + |text|] == old(buf[..at]) + text && buf[at + |text|] == '\0'
  {
    forall k | 0 <= k < |text| { buf[at + k] := text[k]; }
    buf[at + |text|] := '\0';
    assert buf[..at] == old(buf[..at]);
    assert buf[..at + |text|] == buf[..at] + text;
  }

  /** Writes the new link into a buffer of the size allocated for it; the result is its text. */
  method WriteLink(dotdots: nat, l: string) returns (newlink: string)
    ensures newlink == LinkText(dotdots, l)
  {
    var buf := new char[dotdots * 3 + |l| + 2](_ => '\0');
    var s := 0;
    for i := 0 to dotdots
      invariant s == 3 * i && buf[..s] == UpText(i)
    {
      hide UpText;
      UpTextAppend(i);
      StrCpy(buf, s, "../");
      s := s + 3;
    }
    var tail := if l == "" && dotdots == 0 then "." else l;
    StrCpy(buf, s, tail);
    newlink := buf[..s + |tail|];
  }

  lemma LinkTextRelative(n: nat, l: string)
    requires l == "" || l[0] != '/'
    ensures LinkText(n, l) != "" && LinkText(n, l)[0] != '/'
  {
    if n > 0 { assert UpText(n)[0] == '.'; }
  }

  /** What of the link comes after the base. */
  ghost function Below(link: string, base: string): seq<string>
    requires Comps(base) <= Comps(link)
  {
    Comps(link)[|Comps(base)|..]
  }

  /** Which links are rewritten: those that lead to the base or below it, written otherwise than the base
      itself, and not to the link's own place or below it, unless they are written just as that is. */
  ghost predicate Rewrites(path: string, link: string, base: string) {
    && Absolute(link) && Absolute(base) && Comps(base) <= Comps(link)
    && !(Comps(link) == Comps(base) && Comps(base) != [] && !EndsInSlash(link) && !EndsInSlash(base))
    && (Comps(path) <= Below(link, base) ==>
          Comps(path) == Below(link, base) && Comps(path) != [] && !EndsInSlash(link) && !EndsInSlash(path))
  }

  lemma BelowBase(link: string, l: nat, base: string)
    requires l <= |link| && Comps(link) == Comps(base) + Comps(link[l..])
    ensures Comps(base) <= Comps(link) && Below(link, base) == Comps(link[l..])
  {
    hide Comps;
  }

  /** Two ways of writing the base: one stays as it is, the other is rewritten. */
  lemma BaseItself()
    ensures !Rewrites("/x", "/a/b", "/a/b") && Rewrites("/x", "/a/b/", "/a/b")
  {
    hide Comps;
    assert Comps("") == [] && Comps("/") == [] by {
      CompsEmpty("");
      CompsSlash("/");
      assert "/"[1..] == "";
    }
    assert "/b" == "/" + "b" + "" && "/b/" == "/" + "b" + "/" && "/x" == "/" + "x" + "";
    assert "/a/b" == "/" + "a" + "/b" && "/a/b/" == "/" + "a" + "/b/";
    CompsOfName("b", "");
    CompsOfName("b", "/");
    CompsOfName("x", "");
    CompsOfName("a", "/b");
    CompsOfName("a", "/b/");
    assert Comps("/a/b") == ["a", "b"] == Comps("/a/b/");
  }

  lemma CompsOfName(name: string, rest: string)
    requires |name| == 1 && name[0] != '/' && (rest != "" ==> rest[0] == '/')
    ensures Comps("/" + name + rest) == [name] + Comps(rest)
  {
    hide Comps;
    var s := "/" + name + rest;
    CompsSlash(s);
    assert s[1..] == name + rest && (name + rest)[..1] == name && (name + rest)[1..] == rest;
    CompsName(name + rest, 1);
  }

  /** The new text of the link at `path` (below `base`), or nothing when it is left as it is. */
  method TransformSymlink(path: string, link: string, base: string) returns (r: Option<string>)
    requires '\0' !in path && '\0' !in link && '\0' !in base
    // a rewritten link leads to the same place from the directory it is in
    ensures r.Some? && (forall c :: c in Comps(path) ==> Ordinary(c)) ==>
      && Comps(path) != []
      && Follow([], Comps(base) + Comps(path)[..|Comps(path)| - 1] + Comps(r.value)) == Follow([], Comps(link))
    ensures r.Some? ==> r.value != "" && r.value[0] != '/' && Comps(base) <= Comps(link)
    ensures r.Some? <==> Rewrites(path, link, base)
  {
    hide Comps, Follow, Ordinary, Stopped, Below;
    r := None;
    if CharAt(link, 0) != '/' || CharAt(base, 0) != '/' {
      return;
    }
    assert link[0..] == link && base[0..] == base && path[0..] == path;
    ghost var c1, c2;
    var l, b, l2, p;
    l, b, c1 := StripCommon(link, base, 0, 0);
    CompsEmpty(base[b..]);
    assert b < |base| ==> base[b] in base;
    StripsAll(link, base, 0, l, 0, b, c1);
    if CharAt(base, b) != '\0' {
      return;
    }
    assert Comps(base) == c1;
    BelowBase(link, l, base);
    l2, p, c2 := StripCommon(link, path, l, 0);
    StripsAll(link, path, l, l2, 0, p, c2);
    var dotdots := CountComponents(path[p..]);
    if dotdots == 0 {
      return;
    }
    var text := WriteLink(dotdots - 1, link[l2..]);
    LinkTextRelative(dotdots - 1, link[l2..]);
    ghost var below := Comps(path[p..]);
    assert Comps(path) == c2 + below && Comps(link) == c1 + (c2 + Comps(link[l2..]));
    if forall c :: c in Comps(path) ==> Ordinary(c) {
      Rewritten(c1, c2, below, link[l2..]);
    }
    r := Some(text);
  }

  lemma Rewritten(base: seq<string>, common: seq<string>, below: seq<string>, l: string)
    requires below != [] && forall c :: c in common + below ==> Ordinary(c)
    ensures var path, n := common + below, |below| - 1;
      Follow([], base + path[..|path| - 1] + Comps(LinkText(n, l))) == Follow([], base + (common + Comps(l)))
  {
    hide Follow, Comps, Ordinary;
    var path, n := common + below, |below| - 1;
    forall k | 0 <= k < n ensures Ordinary(below[k]) {
      assert path[|common| + k] == below[k];
    }
    SameTarget(base, common, below, l);
    var link := Comps(LinkText(n, l));
    assert base + path[..|path| - 1] + link == base + common + below[..n] + link;
    assert base + (common + Comps(l)) == base + common + Comps(l);
  }
}
