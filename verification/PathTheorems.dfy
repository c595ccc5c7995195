/** What a lookup finds, said without cursors. */
module PathTheorems {
  import opened NeighborTable
  import opened DbModel
  import opened DumpSpec
  import opened Trees
  import opened Lookup

  // ----- slashes -----

  /** A slash between two paths only separates: leading, trailing and repeated slashes add nothing. */
  lemma {:induction false} SlashOnlySeparates(a: string, b: string)
    ensures Components(a + "/" + b) == Components(a) + Components(b)
    decreases |a|
  {
    var p := a + "/" + b;
    if a == "" {
      assert p[1..] == b;
    } else if a[0] == '/' {
      assert p[1..] == a[1..] + "/" + b;
      SlashOnlySeparates(a[1..], b);
    } else {
      var e := TokenEnd(a);
      TokenEndIs(p, e);
      assert p[..e] == a[..e];
      assert p[e..] == a[e..] + "/" + b;
      SlashOnlySeparates(a[e..], b);
    }
  }

  lemma {:induction false} TokenEndIs(s: string, e: nat)
    requires e <= |s| && (forall i :: 0 <= i < e ==> s[i] != '/') && (e < |s| ==> s[e] == '/')
    ensures TokenEnd(s) == e
  {
    if e > 0 {
      TokenEndIs(s[1..], e - 1);
    }
  }

  /** Leading, trailing and doubled slashes never change what a lookup finds or leaves behind. */
  lemma ExtraSlashesDoNotMatter(env: Env, g: Globals, a: string, b: string)
    requires ValidEnv(env) && Good(g)
    ensures Find(env, g, Components("/" + a)) == Find(env, g, Components(a))
    ensures Find(env, g, Components(a + "/")) == Find(env, g, Components(a))
    ensures Find(env, g, Components(a + "//" + b)) == Find(env, g, Components(a + "/" + b))
  {
    SlashOnlySeparates("", a);
    assert "" + "/" + a == "/" + a;
    assert [] + Components(a) == Components(a);
    SlashOnlySeparates(a, "");
    assert a + "/" + "" == a + "/";
    assert Components(a) + [] == Components(a);
    SlashOnlySeparates(a, "/" + b);
    SlashOnlySeparates("", b);
    assert "" + "/" + b == "/" + b;
    assert a + "/" + ("/" + b) == a + "//" + b;
    SlashOnlySeparates(a, b);
  }

  /** A printed path: every name after a slash. */
  function Join(names: seq<string>): string {
    if names == [] then "" else "/" + names[0] + Join(names[1..])
  }

  /** Names that a path can carry: no empty one, and none with a slash in it. */
  ghost predicate Plain(names: seq<string>) {
    forall i :: 0 <= i < |names| ==> names[i] != "" && '/' !in names[i]
  }

  /** Printing names as a path and splitting the path again gives the names back. */
  lemma {:induction false} JoinedNamesSplit(names: seq<string>)
    requires Plain(names)
    ensures Components(Join(names)) == names
  {
    if names != [] {
      var name, rest := names[0], Join(names[1..]);
      var p := name + rest;
      assert Join(names)[1..] == p;
      TokenEndIs(p, |name|);
      assert p[..|name|] == name && p[|name|..] == rest;
      JoinedNamesSplit(names[1..]);
    }
  }

  /** The comparison itself: with name_buf holding the name, its terminator and anything after it,
      memcmp over the component's length answers zero exactly when the name starts with it. */
  lemma MemcmpIsPrefix(tok: string, name: string, junk: string)
    requires '\0' !in tok && |tok| <= |name| + 1 + |junk|
    ensures tok == (name + ['\0'] + junk)[..|tok|] <==> Matches(tok, name)
  {
    var buf := name + ['\0'] + junk;
    if |tok| > |name| {
      assert buf[..|tok|][|name|] == '\0';
      assert tok[|name|] in tok;
    } else {
      assert buf[..|tok|] == name[..|tok|];
    }
  }

  // ----- resolving a path in a tree -----

  /** The first of the names, from index i on, that starts with a component; else their number. */
  function FirstFrom(names: seq<string>, tok: string, i: nat): (j: nat)
    requires i <= |names|
    ensures i <= j <= |names| && (j < |names| ==> Matches(tok, names[j]))
    ensures forall k :: i <= k < j ==> !Matches(tok, names[k])
    decreases |names| - i
  {
    if i == |names| || Matches(tok, names[i]) then i else FirstFrom(names, tok, i + 1)
  }

  function NamesOf(ts: seq<Tree>): (names: seq<string>)
    ensures |names| == |ts| && forall i :: 0 <= i < |ts| ==> names[i] == ts[i].name
  {
    seq(|ts|, i requires 0 <= i < |ts| => ts[i].name)
  }

  /** At each level the first child whose name starts with the component. */
  function Resolve(t: Tree, toks: seq<string>): Option<seq<nat>>
    decreases |toks|
  {
    if toks == [] then Some([])
    else
      var j := FirstFrom(NamesOf(Kids(t)), toks[0], 0);
      if j == |Kids(t)| then None
      else
        match Resolve(Kids(t)[j], toks[1..])
        case None => None
        case Some(p) => Some([j] + p)
  }

  /** p is the index path of a node of the tree. */
  ghost predicate InTree(t: Tree, p: seq<nat>)
    decreases |p|
  {
    p != [] ==> p[0] < |Kids(t)| && InTree(Kids(t)[p[0]], p[1..])
  }

  /** The node at an index path. */
  ghost function At(t: Tree, p: seq<nat>): Tree
    requires InTree(t, p)
    decreases |p|
  {
    if p == [] then t else At(Kids(t)[p[0]], p[1..])
  }

  /** The names printed on the way to a node. */
  ghost function NamesAlong(t: Tree, p: seq<nat>): seq<string>
    requires InTree(t, p)
    decreases |p|
  {
    if p == [] then [] else [Kids(t)[p[0]].name] + NamesAlong(Kids(t)[p[0]], p[1..])
  }

  /** No node on the way has an elder sibling whose name starts with its own. */
  ghost predicate Unshadowed(t: Tree, p: seq<nat>)
    requires InTree(t, p)
    decreases |p|
  {
    p != [] ==>
      && (forall i :: 0 <= i < p[0] ==> !Matches(Kids(t)[p[0]].name, Kids(t)[i].name))
      && Unshadowed(Kids(t)[p[0]], p[1..])
  }

  /** Resolving the names under which a dump shows a node leads back to that very node exactly when
      no elder sibling's name extends the name of a node on the way. */
  lemma {:induction false} DumpPathResolvesIff(t: Tree, p: seq<nat>)
    requires InTree(t, p)
    ensures Resolve(t, NamesAlong(t, p)) == Some(p) <==> Unshadowed(t, p)
    decreases |p|
  {
    if p != [] {
      var k := Kids(t)[p[0]];
      var names := NamesAlong(t, p);
      assert names[1..] == NamesAlong(k, p[1..]);
      DumpPathResolvesIff(k, p[1..]);
      var j := FirstFrom(NamesOf(Kids(t)), k.name, 0);
      assert NamesOf(Kids(t))[p[0]] == k.name;
      assert j <= p[0];
      if j == p[0] {
        var r := Resolve(k, names[1..]);
        assert r.Some? ==> ([j] + r.value)[1..] == r.value;
        assert [p[0]] + p[1..] == p;
      } else {
        assert Matches(k.name, Kids(t)[j].name);
      }
    }
  }
}
