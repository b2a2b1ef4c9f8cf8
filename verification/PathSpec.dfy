/**
 What a path means: its components, the stack they leave behind, and the path that names that
 stack. Independent of the buffers and pointers of path.c.
 */
module PathSpec {

  const NAME_MAX: nat := 255

  //  Splitting at slashes

  ghost function SkipSlashes(s: string): (r: string)
    ensures |r| <= |s| && (r != [] ==> r[0] != '/')
    ensures r == s[|s| - |r|..]
    ensures s != [] && s[0] == '/' ==> |r| < |s|
  {
    if s != [] && s[0] == '/' then SkipSlashes(s[1..]) else s
  }

  /** The length of the part before the first slash. */
  ghost function NameLength(s: string): (n: nat)
    ensures n <= |s| && '/' !in s[..n]
    ensures n < |s| ==> s[n] == '/'
    ensures s != [] && s[0] != '/' ==> n > 0
  {
    if s == [] || s[0] == '/' then 0
    else
      var n := NameLength(s[1..]);
      assert s[..n + 1] == [s[0]] + s[1..][..n];
      n + 1
  }

  ghost function Components(s: string): seq<string>
    decreases |s|
  {
    var b := SkipSlashes(s);
    if b == [] then [] else [b[..NameLength(b)]] + Components(b[NameLength(b)..])
  }

  //  The stack of names

  ghost predicate IsName(c: string) {
    c != [] && '/' !in c && '\0' !in c && |c| <= NAME_MAX && c != "." && c != ".."
  }

  ghost predicate Clean(st: seq<string>) {
    forall i :: 0 <= i < |st| ==> IsName(st[i])
  }

  ghost function Pop(st: seq<string>): seq<string> {
    if st == [] then [] else st[..|st| - 1]
  }

  /** One component: "." stays, ".." goes up but not above the root, and too long a name is passed over. */
  ghost function Push(st: seq<string>, c: string): seq<string> {
    if |c| > NAME_MAX || c == "." then st
    else if c == ".." then Pop(st)
    else st + [c]
  }

  ghost function Fold(cs: seq<string>): seq<string> {
    if cs == [] then [] else Push(Fold(cs[..|cs| - 1]), cs[|cs| - 1])
  }

  /** A name with the slash before it. */
  ghost function Item(c: string): string { "/" + c }

  ghost function RenderTail(st: seq<string>): string {
    if st == [] then [] else RenderTail(st[..|st| - 1]) + Item(st[|st| - 1])
  }

  ghost function Render(st: seq<string>): string {
    if st == [] then "/" else RenderTail(st)
  }

  /** The collapsed form of an absolute path. */
  ghost function Collapsed(s: string): string {
    Render(Fold(Components(s)))
  }

  ghost predicate IsComponent(c: string) {
    c != [] && '/' !in c && '\0' !in c
  }

  ghost predicate AreComponents(cs: seq<string>) {
    forall i :: 0 <= i < |cs| ==> IsComponent(cs[i])
  }

  lemma FirstIsComponent(s: string)
    requires NoNul(s) && SkipSlashes(s) != []
    ensures var b := SkipSlashes(s); IsComponent(b[..NameLength(b)]) && NameLength(b) > 0 && NoNul(b[NameLength(b)..])
  {
  }

  lemma PrependComponent(c: string, cs: seq<string>)
    requires IsComponent(c) && AreComponents(cs)
    ensures AreComponents([c] + cs)
  {
    hide IsComponent;
  }

  ghost predicate NoNul(s: string) { '\0' !in s }

  lemma {:induction false} ComponentsOk(s: string)
    requires NoNul(s)
    ensures AreComponents(Components(s))
    decreases |s|
  {
    hide IsComponent, NoNul;
    var b := SkipSlashes(s);
    if b != [] {
      FirstIsComponent(s);
      ComponentsOk(b[NameLength(b)..]);
      PrependComponent(b[..NameLength(b)], Components(b[NameLength(b)..]));
    }
  }

  lemma {:induction false} FoldClean(cs: seq<string>)
    requires AreComponents(cs)
    ensures Clean(Fold(cs))
  {
    if cs != [] {
      FoldClean(cs[..|cs| - 1]);
    }
  }

  //  Size

  ghost function Size(cs: seq<string>): nat {
    if cs == [] then 0 else Size(cs[..|cs| - 1]) + |cs[|cs| - 1]| + 1
  }

  lemma {:induction false} SizeAppend(xs: seq<string>, ys: seq<string>)
    ensures Size(xs + ys) == Size(xs) + Size(ys)
  {
    if ys == [] {
      assert xs + ys == xs;
    } else {
      assert (xs + ys)[..|xs + ys| - 1] == xs + ys[..|ys| - 1];
      SizeAppend(xs, ys[..|ys| - 1]);
    }
  }

  lemma {:induction false} ComponentsSize(s: string)
    ensures Size(Components(s)) <= |s| + 1
    ensures s == [] || s[0] == '/' ==> Size(Components(s)) <= |s|
    decreases |s|
  {
    var b := SkipSlashes(s);
    if b != [] {
      var n := NameLength(b);
      ComponentsSize(b[n..]);
      SizeAppend([b[..n]], Components(b[n..]));
      assert Size([b[..n]]) == n + 1;
    }
  }

  lemma {:induction false} FoldSize(cs: seq<string>)
    ensures |RenderTail(Fold(cs))| <= Size(cs)
  {
    if cs != [] {
      FoldSize(cs[..|cs| - 1]);
      var st, c := Fold(cs[..|cs| - 1]), cs[|cs| - 1];
      assert (st + [c])[..|st|] == st;
    }
  }

  /** Collapsing never makes a path longer. */
  lemma CollapsedLength(s: string)
    requires s != [] && s[0] == '/'
    ensures |Collapsed(s)| <= |s|
  {
    ComponentsSize(s);
    FoldSize(Components(s));
  }

  /** Only the root ends in a slash. */
  lemma EndsInSlash(st: seq<string>)
    requires Clean(st)
    ensures Render(st) != [] && Render(st)[0] == '/'
    ensures Render(st)[|Render(st)| - 1] == '/' <==> st == []
  {
    if st != [] {
      assert IsName(st[|st| - 1]);
      StartsWithSlash(st);
    }
  }

  lemma {:induction false} StartsWithSlash(st: seq<string>)
    requires st != []
    ensures RenderTail(st) != [] && RenderTail(st)[0] == '/'
  {
    if |st| > 1 {
      StartsWithSlash(st[..|st| - 1]);
    }
  }

  //  Collapsing twice

  lemma {:induction false} SkipNone(s: string)
    requires s != [] && s[0] != '/'
    ensures SkipSlashes("/" + s) == s
  {
    assert ("/" + s)[1..] == s;
  }

  lemma {:induction false} NameThenSlash(c: string, t: string)
    requires '/' !in c && (t == [] || t[0] == '/')
    ensures NameLength(c + t) == |c|
  {
    if c == [] {
      assert c + t == t;
    } else {
      assert (c + t)[1..] == c[1..] + t;
      NameThenSlash(c[1..], t);
    }
  }

  lemma ComponentsOfItem(c: string, t: string)
    requires c != [] && '/' !in c && SlashFirst(t)
    ensures Components(Item(c) + t) == [c] + Components(t)
  {
    assert Item(c) + t == "/" + (c + t);
    SkipNone(c + t);
    NameThenSlash(c, t);
    assert (c + t)[..|c|] == c && (c + t)[|c|..] == t;
  }

  lemma Associative<T>(a: seq<T>, b: seq<T>, c: seq<T>)
    ensures (a + b) + c == a + (b + c)
  {
  }

  ghost predicate SlashFirst(t: string) { t == [] || t[0] == '/' }

  lemma ItemFirst(c: string, t: string)
    ensures SlashFirst(Item(c) + t)
  {
  }

  lemma NameIsComponent(c: string)
    requires IsName(c)
    ensures c != [] && '/' !in c
  {
  }

  lemma {:induction false} ComponentsOfRender(st: seq<string>, t: string)
    requires Clean(st) && SlashFirst(t)
    ensures Components(RenderTail(st) + t) == st + Components(t)
    decreases |st|
  {
    hide IsName, Components, Item, SlashFirst;
    if st == [] {
      assert RenderTail(st) + t == t;
      assert st + Components(t) == Components(t);
    } else {
      var init, c := st[..|st| - 1], st[|st| - 1];
      NameIsComponent(c);
      ComponentsOfItem(c, t);
      ItemFirst(c, t);
      Associative(RenderTail(init), Item(c), t);
      ComponentsOfRender(init, Item(c) + t);
      Associative(init, [c], Components(t));
      assert init + [c] == st;
    }
  }

  lemma {:induction false} FoldNames(st: seq<string>)
    requires Clean(st)
    ensures Fold(st) == st
  {
    if st != [] {
      FoldNames(st[..|st| - 1]);
      assert IsName(st[|st| - 1]);
    }
  }

  lemma RootHasNoComponents()
    ensures Components("/") == [] && Components([]) == []
  {
    assert SkipSlashes("/") == SkipSlashes("/"[1..]);
  }

  /** The stack can be read back from the path that names it. */
  lemma RenderRoundTrip(st: seq<string>)
    requires Clean(st)
    ensures Fold(Components(Render(st))) == st
  {
    hide IsName, Components;
    RootHasNoComponents();
    if st != [] {
      ComponentsOfRender(st, []);
      assert RenderTail(st) + [] == RenderTail(st);
      assert st + Components([]) == st;
      FoldNames(st);
    }
  }

  /** Collapsing is idempotent. */
  lemma CollapsedTwice(s: string)
    requires NoNul(s)
    ensures Collapsed(Collapsed(s)) == Collapsed(s)
  {
    ComponentsOk(s);
    FoldClean(Components(s));
    RenderRoundTrip(Fold(Components(s)));
  }

  //  What one more component does to a path

  lemma SkipOne(s: string)
    requires s != [] && s[0] == '/'
    ensures Components(s) == Components(s[1..])
  {
  }

  lemma SkipName(s: string)
    requires s != [] && s[0] != '/'
    ensures 0 < NameLength(s) && Components(s) == [s[..NameLength(s)]] + Components(s[NameLength(s)..])
  {
  }

  lemma NameLengthOf(s: string, t: string)
    requires s != [] && s[0] != '/' && SlashFirst(t)
    ensures NameLength(s + t) == NameLength(s)
  {
    hide NameLength;
    var n := NameLength(s);
    var c, rest := s[..n], s[n..] + t;
    assert s + t == c + rest;
    if n == |s| {
      assert rest == t;
    } else {
      assert rest[0] == s[n];
    }
    NameThenSlash(c, rest);
  }

  /** The components of two paths one after another. */
  lemma {:induction false} ComponentsJoin(s: string, t: string)
    requires SlashFirst(t)
    ensures Components(s + t) == Components(s) + Components(t)
    decreases |s|
  {
    hide Components, NameLength, SlashFirst;
    if s == [] {
      RootHasNoComponents();
      assert s + t == t && [] + Components(t) == Components(t);
    } else if s[0] == '/' {
      assert (s + t)[1..] == s[1..] + t;
      SkipOne(s);
      SkipOne(s + t);
      ComponentsJoin(s[1..], t);
    } else {
      var n := NameLength(s);
      SkipName(s);
      SkipName(s + t);
      NameLengthOf(s, t);
      assert (s + t)[..n] == s[..n] && (s + t)[n..] == s[n..] + t;
      ComponentsJoin(s[n..], t);
      Associative([s[..n]], Components(s[n..]), Components(t));
    }
  }

  /** A path with one more component collapses to the stack with that component pushed. */
  lemma OneComponentMore(s: string, c: string)
    requires c != [] && '/' !in c
    ensures Fold(Components(s + Item(c))) == Push(Fold(Components(s)), c)
  {
    hide Push, Components;
    ComponentsOfItem(c, []);
    RootHasNoComponents();
    assert Item(c) + [] == Item(c) && [c] + [] == [c];
    ComponentsJoin(s, Item(c));
    var cs := Components(s);
    assert (cs + [c])[..|cs|] == cs;
  }

  /** A name adds itself, "." adds nothing, ".." goes up, and too long a name is passed over. */
  lemma CollapsedMore(s: string, c: string)
    requires c != [] && '/' !in c
    ensures IsName(c) ==> Collapsed(s + Item(c)) == Render(Fold(Components(s)) + [c])
    ensures |c| > NAME_MAX || c == "." ==> Collapsed(s + Item(c)) == Collapsed(s)
    ensures c == ".." ==> Collapsed(s + Item(c)) == Render(Pop(Fold(Components(s))))
  {
    OneComponentMore(s, c);
    hide Fold, Components;
  }

  /** Going into a directory and up again changes nothing. */
  lemma UpAgain(s: string, c: string)
    requires IsName(c)
    ensures Collapsed(s + "/" + c + "/..") == Collapsed(s)
  {
    hide Components, Fold, Render;
    assert s + "/" + c + "/.." == (s + Item(c)) + Item("..");
    OneComponentMore(s, c);
    OneComponentMore(s + Item(c), "..");
    var st := Fold(Components(s));
    assert (st + [c])[..|st|] == st;
  }

  /** The root's parent is the root. */
  lemma UpFromRoot()
    ensures Collapsed("/..") == "/" && Collapsed("/") == "/"
  {
    hide Components;
    RootHasNoComponents();
    OneComponentMore([], "..");
    assert [] + Item("..") == "/..";
  }

  /** The example in the comment of path_collapse_dots. */
  lemma SourceExample()
    ensures Collapsed("/a/b/../c/./d") == "/a/c/d"
  {
    hide Components, Fold;
    RootHasNoComponents();
    var a, c, d := "/a", "/a/b/../c", "/a/b/../c/.";
    assert Fold(Components([])) == [] by {
      NothingFolded();
    }
    OneComponentMore([], "a");
    assert [] + Item("a") == a && [] + ["a"] == ["a"];
    OneComponentMore(a, "b");
    OneComponentMore(a + Item("b"), "..");
    assert (["a"] + ["b"])[..1] == ["a"];
    OneComponentMore((a + Item("b")) + Item(".."), "c");
    assert ((a + Item("b")) + Item("..")) + Item("c") == c;
    OneComponentMore(c, ".");
    assert c + Item(".") == d;
    OneComponentMore(d, "d");
    assert d + Item("d") == "/a/b/../c/./d";
    var st := ["a", "c", "d"];
    assert ["a"] + ["c"] + ["d"] == st;
    ThreeNames("a", "c", "d");
    assert Item("a") + Item("c") + Item("d") == "/a/c/d";
  }

  lemma NothingFolded()
    ensures Fold([]) == []
  {
  }

  lemma ThreeNames(a: string, b: string, c: string)
    ensures Render([a, b, c]) == Item(a) + Item(b) + Item(c)
  {
    assert [a, b, c][..2] == [a, b] && [a, b][..1] == [a] && [a][..0] == [];
    assert RenderTail([]) == [] && [] + Item(a) == Item(a);
    assert RenderTail([a]) == Item(a);
    assert RenderTail([a, b]) == Item(a) + Item(b);
  }
}
