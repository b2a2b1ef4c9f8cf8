/**
 Paths in character buffers (path.c and the string functions it uses): NUL-terminated strings in
 arrays, edited in place. `IsStr(a, i, s)` says that the string at offset i of a buffer is s.
 */
module Paths {
  import opened PathSpec

  const PATH_MAX: nat := 1023

  ghost predicate IsStr(a: seq<char>, i: nat, s: string) {
    && i + |s| < |a| && a[i + |s|] == '\0'
    && forall k :: 0 <= k < |s| ==> a[i + k] == s[k] != '\0'
  }

  lemma CharAt(a: seq<char>, i: nat, s: string, k: nat)
    requires IsStr(a, i, s) && k <= |s|
    ensures i + k < |a| && (a[i + k] == '\0' <==> k == |s|)
    ensures k < |s| ==> a[i + k] == s[k]
  {
    if k < |s| {
      assert a[i + k] == s[k];
    }
  }

  //  string.c

  method StrLen(a: array<char>, i: nat, ghost s: string) returns (n: nat)
    requires IsStr(a[..], i, s)
    ensures n == |s|
  {
    n := 0;
    while a[i + n] != '\0'
      invariant n <= |s|
      decreases |s| - n
    {
      assert n < |s|;
      n := n + 1;
    }
    CharAt(a[..], i, s, n);
  }

  ghost function LastIndex(s: string, c: char): (p: int)
    ensures -1 <= p < |s| && (p >= 0 ==> s[p] == c)
  {
    if s == [] then -1 else if s[|s| - 1] == c then |s| - 1 else LastIndex(s[..|s| - 1], c)
  }

  method StrRChr(a: array<char>, c: char, ghost s: string) returns (p: int)
    requires IsStr(a[..], 0, s) && c != '\0'
    ensures p == LastIndex(s, c)
  {
    var n := StrLen(a, 0, s);
    p := n;
    p := p - 1;
    if p < 0 {
      return -1;
    }
    assert s[..|s|] == s;
    while p > 0 && a[p] != c
      invariant 0 <= p < |s| && LastIndex(s, c) == LastIndex(s[..p + 1], c)
    {
      assert a[..][0 + p] == s[p] && s[..p + 1][..p] == s[..p];
      p := p - 1;
    }
    assert a[..][0 + p] == s[p];
    assert s[..p + 1][p] == s[p];
    if a[p] != c {
      assert s[..1][..0] == [];
      p := -1;
    }
  }

  /** strcpy from offset i of one buffer to the start of another. */
  method StrCpy(dst: array<char>, src: array<char>, i: nat, ghost s: string)
    requires IsStr(src[..], i, s) && dst != src && |s| < dst.Length
    modifies dst
    ensures IsStr(dst[..], 0, s)
  {
    var n := 0;
    while src[i + n] != '\0'
      invariant n <= |s| && src[..] == old(src[..])
      invariant forall k :: 0 <= k < n ==> dst[k] == s[k]
      decreases |s| - n
    {
      assert src[..][i + n] == s[n];
      dst[n] := src[i + n];
      n := n + 1;
    }
    CharAt(src[..], i, s, n);
    dst[n] := '\0';
  }

  /** strlcpy into a buffer of exactly the given size. */
  method StrLCpy(dst: array<char>, src: array<char>, i: nat, ghost s: string)
    requires IsStr(src[..], i, s) && dst != src && dst.Length > 0
    modifies dst
    ensures IsStr(dst[..], 0, if |s| < dst.Length then s else s[..dst.Length - 1])
  {
    var len := StrLen(src, i, s);
    if dst.Length >= len + 1 {
      StrCpy(dst, src, i, s);
      return;
    }
    for k := 0 to dst.Length - 1
      invariant forall j :: 0 <= j < k ==> dst[j] == s[j]
    {
      assert src[..][i + k] == s[k];
      dst[k] := src[i + k];
    }
    dst[dst.Length - 1] := '\0';
  }

  /** What strlcat leaves in a buffer, for a limit counted with the final NUL. */
  ghost function Catenated(s: string, r: string, size: nat): string {
    if size > 0 && |s| < size - 1 then s + r[..(if |r| >= size - |s| then size - |s| - 1 else |r|)] else s
  }

  method StrLCat(dst: array<char>, src: array<char>, i: nat, size: nat, ghost s: string, ghost r: string)
    requires IsStr(dst[..], 0, s) && IsStr(src[..], i, r) && dst != src && size <= dst.Length
    modifies dst
    ensures IsStr(dst[..], 0, Catenated(s, r, size))
  {
    var used := StrLen(dst, 0, s);
    var length := StrLen(src, i, r);
    if size > 0 && used < size - 1 {
      var copy := if length >= size - used then size - used - 1 else length;
      for k := 0 to copy
        invariant forall j :: 0 <= j < |s| ==> dst[j] == s[j]
        invariant forall j :: 0 <= j < k ==> dst[|s| + j] == r[j]
      {
        assert src[..][i + k] == r[k];
        dst[used + k] := src[i + k];
      }
      dst[used + copy] := '\0';
    }
  }

  lemma SkipAt(s: string, n: nat)
    requires n <= |s|
    ensures n < |s| && s[n] == '/' ==> SkipSlashes(s[n..]) == SkipSlashes(s[n + 1..])
    ensures n == |s| || s[n] != '/' ==> SkipSlashes(s[n..]) == s[n..]
  {
    assert n < |s| ==> s[n..][1..] == s[n + 1..];
  }

  lemma NameAt(s: string, n: nat)
    requires n <= |s|
    ensures n < |s| && s[n] != '/' ==> NameLength(s[n..]) == 1 + NameLength(s[n + 1..])
    ensures n == |s| || s[n] == '/' ==> NameLength(s[n..]) == 0
  {
    assert n < |s| ==> s[n..][1..] == s[n + 1..];
  }

  /** strspn with "/" as the set. */
  method SpanSlashes(a: array<char>, i: nat, ghost s: string) returns (n: nat)
    requires IsStr(a[..], i, s)
    ensures n == |s| - |SkipSlashes(s)|
  {
    hide IsStr, SkipSlashes;
    n := 0;
    assert s[0..] == s;
    CharAt(a[..], i, s, 0);
    while a[i + n] == '/'
      invariant n <= |s| && i + n < a.Length && SkipSlashes(s) == SkipSlashes(s[n..])
      invariant a[i + n] == if n < |s| then s[n] else '\0'
      decreases |s| - n
    {
      SkipAt(s, n);
      n := n + 1;
      CharAt(a[..], i, s, n);
    }
    SkipAt(s, n);
  }

  /** strcspn with "/" as the set. */
  method SpanName(a: array<char>, i: nat, ghost s: string) returns (n: nat)
    requires IsStr(a[..], i, s)
    ensures n == NameLength(s)
  {
    hide IsStr, NameLength;
    n := 0;
    assert s[0..] == s;
    CharAt(a[..], i, s, 0);
    while a[i + n] != '\0' && a[i + n] != '/'
      invariant n <= |s| && i + n < a.Length && NameLength(s) == n + NameLength(s[n..])
      invariant a[i + n] == '\0' <==> n == |s|
      invariant n < |s| ==> a[i + n] == s[n]
      decreases |s| - n
    {
      NameAt(s, n);
      n := n + 1;
      CharAt(a[..], i, s, n);
    }
    NameAt(s, n);
  }

  /** strtok_r with "/": the next token is cut out of the buffer, and `rest` is where to go on. */
  method StrTok(a: array<char>, begin: nat, ghost s: string)
    returns (token: int, last: nat, ghost t: string, ghost rest: string)
    requires IsStr(a[..], begin, s)
    modifies a
    ensures IsStr(a[..], last, rest)
    ensures token < 0 ==> Components(s) == [] && Components(rest) == [] && a[..] == old(a[..])
    ensures token >= 0 ==> IsStr(a[..], token, t) && Components(s) == [t] + Components(rest)
    ensures token >= 0 ==> |rest| < |s| && |t| <= |s| && t != [] && '/' !in t
  {
    hide Components, SkipSlashes, NameLength, IsStr;
    var n := SpanSlashes(a, begin, s);
    ghost var b := SkipSlashes(s);
    StrSuffix(a[..], begin, s, n);
    var start := begin + n;
    CharAt(a[..], start, b, 0);
    if a[start] == '\0' {
      NoComponents(s);
      return -1, start, [], b;
    }
    var m := SpanName(a, start, b);
    var end := start + m;
    NextComponents(s);
    CharAt(a[..], start, b, m);
    ghost var before := a[..];
    t := b[..m];
    if a[end] != '\0' {
      CutToken(before, start, b, m);
      a[end] := '\0';
      assert a[..] == before[end := '\0'];
      end := end + 1;
      rest := b[m + 1..];
    } else {
      assert t == b;
      StrSuffix(before, start, b, m);
      rest := b[m..];
      assert rest == [];
    }
    return start, end, t, rest;
  }

  lemma StrSuffix(a: seq<char>, i: nat, s: string, n: nat)
    requires IsStr(a, i, s) && n <= |s|
    ensures IsStr(a, i + n, s[n..])
  {
  }

  lemma CutToken(a: seq<char>, i: nat, s: string, m: nat)
    requires IsStr(a, i, s) && m < |s|
    ensures i + m < |a| && IsStr(a[i + m := '\0'], i, s[..m]) && IsStr(a[i + m := '\0'], i + m + 1, s[m + 1..])
  {
  }

  lemma NoComponents(s: string)
    requires SkipSlashes(s) == []
    ensures Components(s) == [] && Components([]) == []
  {
  }

  lemma NextComponents(s: string)
    requires SkipSlashes(s) != []
    ensures var b := SkipSlashes(s); var n := NameLength(b);
      0 < n <= |b| && Components(s) == [b[..n]] + Components(if n < |b| then b[n + 1..] else [])
  {
    hide SkipSlashes, NameLength, Components;
    var b := SkipSlashes(s);
    var n := NameLength(b);
    Unfold(s);
    if n < |b| {
      SkipOneSlash(b[n..]);
      assert b[n..][1..] == b[n + 1..];
    } else {
      assert b[n..] == [];
    }
  }

  lemma Unfold(s: string)
    requires SkipSlashes(s) != []
    ensures var b := SkipSlashes(s); Components(s) == [b[..NameLength(b)]] + Components(b[NameLength(b)..])
  {
  }

  lemma SkipOneSlash(s: string)
    requires s != [] && s[0] == '/'
    ensures Components(s) == Components(s[1..])
  {
  }

  method StrEqual(a: array<char>, i: nat, literal: string, ghost s: string) returns (equal: bool)
    requires IsStr(a[..], i, s) && '\0' !in literal
    ensures equal == (s == literal)
  {
    var n := StrLen(a, i, s);
    if n != |literal| {
      return false;
    }
    for k := 0 to n
      invariant s[..k] == literal[..k]
    {
      assert a[..][i + k] == s[k];
      if a[i + k] != literal[k] {
        return false;
      }
    }
    return true;
  }

  method HasSlash(a: array<char>, i: nat, ghost s: string) returns (found: bool)
    requires IsStr(a[..], i, s)
    ensures found == ('/' in s)
  {
    var n := SpanName(a, i, s);
    found := a[i + n] == '/';
    CharAt(a[..], i, s, n);
    assert s[..|s|] == s;
  }

  //  path.c

  /** The parent of a path, as path_dirname sees it. */
  ghost function DirNameOf(s: string): (r: string)
    requires s != []
    ensures r != [] && |r| <= |s|
  {
    var t := if s[|s| - 1] == '/' then s[..|s| - 1] else s;
    var p := LastIndex(t, '/');
    var u := if p >= 0 then t[..p] else t;
    if u == [] then "/" else u
  }

  method DirName(path: array<char>, ghost s: string)
    requires IsStr(path[..], 0, s) && s != []
    modifies path
    ensures IsStr(path[..], 0, DirNameOf(s))
  {
    hide LastIndex;
    var n := StrLen(path, 0, s);
    assert path[..][0 + (n - 1)] == s[n - 1];
    ghost var t := s;
    if path[n - 1] == '/' {
      path[n - 1] := '\0';
      t := s[..n - 1];
    }
    assert IsStr(path[..], 0, t);
    var p := StrRChr(path, '/', t);
    ghost var u := t;
    if p >= 0 {
      path[p] := '\0';
      u := t[..p];
    }
    assert IsStr(path[..], 0, u);
    assert u == [] || path[..][0 + 0] == u[0];
    if path[0] == '\0' {
      path[0] := '/';
      path[1] := '\0';
    }
  }

  ghost function Slashed(s: string): string
    requires s != []
  {
    if s[|s| - 1] == '/' then s else s + "/"
  }

  /** The path after one component is joined to it. */
  ghost function Joined(s: string, r: string): (j: string)
    requires s != []
    ensures j != []
  {
    if |r| > NAME_MAX || '/' in r || r == "." then s
    else if r == ".." then DirNameOf(s)
    else Catenated(Slashed(s), r, PATH_MAX)
  }

  ghost predicate JoinOk(s: string, r: string)
    requires s != []
  {
    |r| <= NAME_MAX && '/' !in r && (r == "." || r == ".." || |Slashed(s)| + |r| <= PATH_MAX)
  }

  /** __path_join */
  method JoinOne(path: array<char>, right: array<char>, at: nat, ghost s: string, ghost r: string) returns (ok: bool)
    requires IsStr(path[..], 0, s) && s != [] && |s| < PATH_MAX < path.Length
    requires path != right && IsStr(right[..], at, r)
    modifies path
    ensures IsStr(path[..], 0, Joined(s, r)) && ok == JoinOk(s, r)
  {
    hide IsStr;
    var length := StrLen(right, at, r);
    if length > NAME_MAX {
      return false;
    }
    var slash := HasSlash(right, at, r);
    if slash {
      return false;
    }
    var same := StrEqual(right, at, ".", r);
    if same {
      return true;
    }
    var up := StrEqual(right, at, "..", r);
    if up {
      DirName(path, s);
      return true;
    }
    AddSlash(path, s);
    var used := StrLen(path, 0, Slashed(s));
    ok := used + length <= PATH_MAX;
    StrLCat(path, right, at, PATH_MAX, Slashed(s), r);
  }

  method AddSlash(path: array<char>, ghost s: string)
    requires IsStr(path[..], 0, s) && s != [] && |s| + 1 < path.Length
    modifies path
    ensures IsStr(path[..], 0, Slashed(s))
  {
    var n := StrLen(path, 0, s);
    assert path[..][0 + (n - 1)] == s[n - 1];
    if path[n - 1] != '/' {
      path[n] := '/';
      path[n + 1] := '\0';
    }
  }

  /** Joining components one after another, up to the first that fails. */
  ghost function JoinedAll(s: string, cs: seq<string>): (r: (string, bool))
    requires s != []
    ensures r.0 != []
    decreases |cs|
  {
    if cs == [] then (s, true)
    else if JoinOk(s, cs[0]) then JoinedAll(Joined(s, cs[0]), cs[1..])
    else (Joined(s, cs[0]), false)
  }

  lemma JoinStaysShort(s: string, r: string)
    requires s != [] && |s| < PATH_MAX && r != [] && JoinOk(s, r)
    ensures |Joined(s, r)| < PATH_MAX
  {
  }

  /** path_join */
  method Join(path: array<char>, right: array<char>, at: nat, ghost s: string, ghost r: string) returns (ok: bool)
    requires IsStr(path[..], 0, s) && s != [] && |s| < PATH_MAX < path.Length
    requires path != right && IsStr(right[..], at, r)
    modifies path
    ensures var cs := Components(if |r| <= PATH_MAX then r else r[..PATH_MAX]);
      IsStr(path[..], 0, JoinedAll(s, cs).0) && ok == JoinedAll(s, cs).1
  {
    hide IsStr, Joined, JoinOk, Components;
    var buf := new char[PATH_MAX + 1];
    StrLCpy(buf, right, at, r);
    ghost var cut := if |r| <= PATH_MAX then r else r[..PATH_MAX];
    ghost var now := s;
    var token, last;
    ghost var t, rest;
    token, last, t, rest := StrTok(buf, 0, cut);
    ghost var left := Components(cut);
    while token >= 0
      invariant IsStr(path[..], 0, now) && now != [] && |now| < PATH_MAX
      invariant IsStr(buf[..], last, rest) && fresh(buf) && buf != path
      invariant JoinedAll(s, Components(cut)) == JoinedAll(now, left)
      invariant token >= 0 ==> IsStr(buf[..], token, t) && t != [] && left == [t] + Components(rest)
      invariant token < 0 ==> left == []
      decreases if token >= 0 then |rest| + 1 else 0
    {
      assert left[0] == t && left[1..] == Components(rest);
      ok := JoinOne(path, buf, token, now, t);
      if !ok {
        return false;
      }
      JoinStaysShort(now, t);
      now := Joined(now, t);
      left := Components(rest);
      token, last, t, rest := StrTok(buf, last, rest);
    }
    return true;
  }

  //  Joining, seen on the stack of names

  lemma {:induction false} LastSlash(t: string, c: string)
    requires '/' !in c
    ensures LastIndex(t + Item(c), '/') == |t|
    decreases |c|
  {
    var s := t + Item(c);
    if c == [] {
      assert s[|s| - 1] == '/';
    } else {
      var d := c[..|c| - 1];
      assert c[|c| - 1] in c && s[|s| - 1] == c[|c| - 1];
      assert s[..|s| - 1] == t + Item(d);
      LastSlash(t, d);
    }
  }

  /** path_dirname goes up one level, and stays at the root. */
  lemma DirNameRender(st: seq<string>)
    requires Clean(st)
    ensures Render(st) != [] && DirNameOf(Render(st)) == Render(Pop(st))
  {
    if st == [] {
      assert "/"[..0] == [];
    } else {
      var t, c := RenderTail(st[..|st| - 1]), st[|st| - 1];
      EndsInSlash(st);
      assert IsName(c);
      LastSlash(t, c);
      assert (t + Item(c))[..|t|] == t;
      if |st| > 1 {
        StartsWithSlash(st[..|st| - 1]);
      }
    }
  }

  /** One slash at the end does not matter. */
  lemma DirNameSlash(s: string)
    requires s != [] && s[|s| - 1] != '/'
    ensures DirNameOf(s + "/") == DirNameOf(s)
  {
    hide LastIndex;
    assert (s + "/")[..|s|] == s;
  }

  lemma DirNameRenderSlash(st: seq<string>)
    requires Clean(st) && st != []
    ensures DirNameOf(Render(st) + "/") == Render(Pop(st))
  {
    hide DirNameOf, Render;
    EndsInSlash(st);
    DirNameSlash(Render(st));
    DirNameRender(st);
  }

  ghost function Cut(s: string): string {
    if |s| < PATH_MAX then s else s[..PATH_MAX - 1]
  }

  lemma PushRender(st: seq<string>, c: string)
    requires Clean(st)
    ensures Render(st) != [] && Slashed(Render(st)) + c == Render(st + [c])
  {
    EndsInSlash(st);
    assert (st + [c])[..|st|] == st;
    assert RenderTail(st + [c]) == RenderTail(st) + Item(c);
    if st == [] {
      assert "/" + c == RenderTail(st) + Item(c);
    } else {
      assert (RenderTail(st) + "/") + c == RenderTail(st) + Item(c);
    }
  }

  /** Joining one component to the path of a stack gives the path of the new stack, but for the cut. */
  lemma JoinRender(st: seq<string>, c: string)
    requires Clean(st) && IsComponent(c) && |Render(st)| < PATH_MAX && |Render(Push(st, c))| <= PATH_MAX
    ensures Render(st) != [] && Joined(Render(st), c) == Cut(Render(Push(st, c)))
  {
    EndsInSlash(st);
    DirNameRender(st);
    PushRender(st, c);
    hide Render, DirNameOf, Slashed, Clean, Catenated, Cut;
    if c != ".." && c != "." && |c| <= NAME_MAX {
      CatenatedCut(Slashed(Render(st)), c);
    } else {
      CutShort(Render(st));
      CutShort(Render(Pop(st)));
    }
  }

  lemma CutShort(s: string)
    requires |s| < PATH_MAX
    ensures Cut(s) == s
  {
  }

  lemma CatenatedCut(t: string, c: string)
    requires |t| + |c| <= PATH_MAX && c != []
    ensures Catenated(t, c, PATH_MAX) == Cut(t + c)
  {
  }

  lemma JoinSingle(s: string, c: string)
    requires s != []
    ensures JoinedAll(s, [c]).0 == Joined(s, c)
  {
    hide Joined, JoinOk;
  }

  lemma SingleComponent(c: string)
    requires IsComponent(c)
    ensures Components(c) == [c]
  {
    NameThenSlash(c, []);
    assert c + [] == c && c[..|c|] == c && c[|c|..] == [];
  }

  /** How far path_collapse_dots has come: the components done, and the text still to do. */
  ghost predicate Halfway(s: string, done: seq<string>, rest: string) {
    && Components(s) == done + Components(rest)
    && (|Render(Fold(done))| >= PATH_MAX ==> Components(rest) == [])
  }

  lemma Advance(s: string, done: seq<string>, c: string, before: string, rest: string)
    requires s != [] && s[0] == '/' && |s| <= PATH_MAX && NoNul(s)
    requires Halfway(s, done, before) && Components(before) == [c] + Components(rest)
    ensures Halfway(s, done + [c], rest)
    ensures Fold(done + [c]) == Push(Fold(done), c) && Clean(Fold(done)) && IsComponent(c)
    ensures |Render(Fold(done))| < PATH_MAX && |Render(Fold(done + [c]))| <= PATH_MAX
  {
    hide Components, IsComponent, Push, Fold, Render, NoNul, Clean;
    var more := done + [c];
    Associative(done, [c], Components(rest));
    Lengths(s, more, rest);
    SomeSize(Components(before));
    assert |Components(before)| > 0;
    OneMore(done, c);
    ComponentsOk(s);
    DoneClean(Components(s), |done|);
    assert Components(s)[..|done|] == done && Components(s)[|done|] == c;
  }

  lemma OneMore(done: seq<string>, c: string)
    ensures Fold(done + [c]) == Push(Fold(done), c)
  {
    assert (done + [c])[..|done|] == done;
  }

  lemma Lengths(s: string, done: seq<string>, rest: string)
    requires s != [] && s[0] == '/' && |s| <= PATH_MAX && Components(s) == done + Components(rest)
    ensures |Render(Fold(done))| <= PATH_MAX
    ensures |Render(Fold(done))| >= PATH_MAX ==> Components(rest) == []
  {
    hide Components, Fold, RenderTail;
    ComponentsSize(s);
    SizeAppend(done, Components(rest));
    FoldSize(done);
    SomeSize(Components(rest));
  }

  lemma SomeSize(cs: seq<string>)
    ensures Size(cs) == 0 <==> cs == []
  {
  }

  lemma DoneClean(cs: seq<string>, n: nat)
    requires AreComponents(cs) && n <= |cs|
    ensures Clean(Fold(cs[..n]))
  {
    FoldClean(cs[..n]);
  }

  /** path_collapse_dots */
  method CollapseDots(path: array<char>, ghost s: string) returns (ok: bool)
    requires IsStr(path[..], 0, s) && |s| <= PATH_MAX && NoNul(s)
    modifies path
    ensures ok <==> s != [] && s[0] == '/'
    ensures ok ==> IsStr(path[..], 0, Cut(Collapsed(s)))
    ensures !ok ==> path[..] == old(path[..])
  {
    assert s == [] || path[..][0 + 0] == s[0];
    if path[0] != '/' {
      return false;
    }
    RebuildFrom(path, s);
    return true;
  }

  /** The rest of path_collapse_dots: the components are joined in a buffer of their own, and copied back. */
  method RebuildFrom(path: array<char>, ghost s: string)
    requires IsStr(path[..], 0, s) && |s| < path.Length && |s| <= PATH_MAX && NoNul(s) && s != [] && s[0] == '/'
    modifies path
    ensures IsStr(path[..], 0, Cut(Collapsed(s)))
  {
    hide NoNul, Collapsed, Slashed, IsStr, Components, Joined, Render, Fold, Push, Halfway, JoinedAll, Cut, IsComponent, Clean;
    var buf := new char[PATH_MAX + 1];
    buf[0], buf[1] := '/', '\0';
    ghost var done: seq<string> := [];
    Begin(buf[..], s);
    var token, last;
    ghost var t, rest;
    token, last, t, rest := StrTok(path, 0, s);
    ghost var left := s;
    while token >= 0
      invariant IsStr(buf[..], 0, Cut(Render(Fold(done)))) && fresh(buf) && buf.Length == PATH_MAX + 1
      invariant IsStr(path[..], last, rest) && Halfway(s, done, left)
      invariant token >= 0 ==> IsStr(path[..], token, t) && |t| <= PATH_MAX && Components(left) == [t] + Components(rest)
      invariant token >= 0 ==> |rest| < PATH_MAX
      invariant token < 0 ==> Components(left) == []
      decreases if token >= 0 then |rest| + 1 else 0
    {
      Advance(s, done, t, left, rest);
      CutShort(Render(Fold(done)));
      JoinRender(Fold(done), t);
      JoinSingle(Render(Fold(done)), t);
      SingleComponent(t);
      var joined := Join(buf, path, token, Render(Fold(done)), t);
      done := done + [t];
      left := rest;
      token, last, t, rest := StrTok(path, last, rest);
    }
    Finished(s, done, left);
    CollapsedLength(s);
    CutLength(Collapsed(s));
    StrCpy(path, buf, 0, Cut(Collapsed(s)));
  }

  lemma RenderRoot()
    ensures Render(Fold([])) == "/"
  {
  }

  lemma Begin(a: seq<char>, s: string)
    requires |a| > 1 && a[0] == '/' && a[1] == '\0'
    ensures IsStr(a, 0, Cut(Render(Fold([])))) && Halfway(s, [], s)
  {
    hide Cut, Render, Fold, Components;
    RenderRoot();
    CutShort("/");
    assert [] + Components(s) == Components(s);
  }

  lemma Finished(s: string, done: seq<string>, left: string)
    requires Halfway(s, done, left) && Components(left) == []
    ensures Render(Fold(done)) == Collapsed(s)
  {
    assert done + [] == done;
  }

  lemma CutLength(s: string)
    ensures |Cut(s)| <= |s|
  {
  }

  /** A buffer holds one string at an offset. */
  lemma OneString(a: seq<char>, i: nat, s: string, t: string)
    requires IsStr(a, i, s) && IsStr(a, i, t)
    ensures s == t
  {
    var k := if |s| < |t| then |s| else |t|;
    CharAt(a, i, s, k);
    CharAt(a, i, t, k);
  }

  /** The collapsed path is stored whole exactly when it is shorter than PATH_MAX; shorter input is enough for that. */
  lemma CollapseIsExact(a: seq<char>, s: string)
    requires IsStr(a, 0, Cut(Collapsed(s))) && s != [] && s[0] == '/'
    ensures IsStr(a, 0, Collapsed(s)) <==> |Collapsed(s)| < PATH_MAX
    ensures |s| < PATH_MAX ==> |Collapsed(s)| < PATH_MAX
  {
    hide Collapsed;
    CollapsedLength(s);
    if |Collapsed(s)| >= PATH_MAX && IsStr(a, 0, Collapsed(s)) {
      OneString(a, 0, Collapsed(s), Cut(Collapsed(s)));
    }
  }
}
