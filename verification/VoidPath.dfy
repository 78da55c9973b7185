/** Names and paths on a Voidelle volume. */
module VoidPath {
  import opened Bytes
  import opened Options
  import opened VoidFs

  const SLASH: Byte := 47

  /** The parts of a path between its slashes. */
  function Components(s: seq<Byte>): (cs: seq<seq<Byte>>)
    ensures cs != []
  {
    var i := FirstSlash(s);
    if i == |s| then [s] else [s[..i]] + Components(s[i + 1..])
  }

  function FirstSlash(s: seq<Byte>): (i: nat)
    ensures i <= |s| && (forall k | 0 <= k < i :: s[k] != SLASH) && (i < |s| ==> s[i] == SLASH)
  {
    if s == [] || s[0] == SLASH then 0 else FirstSlash(s[1..]) + 1
  }

  /** The path with the given components, without the leading slash. */
  function Joined(cs: seq<seq<Byte>>): seq<Byte>
    requires cs != []
  {
    if |cs| == 1 then cs[0] else cs[0] + [SLASH] + Joined(cs[1..])
  }

  lemma {:induction false} JoinedComponents(s: seq<Byte>)
    ensures Joined(Components(s)) == s
    decreases |s|
  {
    hide FirstSlash;
    var i := FirstSlash(s);
    if i < |s| {
      JoinedComponents(s[i + 1..]);
      JoinedCons(s[..i], Components(s[i + 1..]));
      assert s == s[..i] + [SLASH] + s[i + 1..];
    }
  }

  lemma JoinedCons(c: seq<Byte>, cs: seq<seq<Byte>>)
    requires cs != []
    ensures Joined([c] + cs) == c + [SLASH] + Joined(cs)
  {
    assert ([c] + cs)[1..] == cs;
  }

  // ----- lookup in the tree -----

  /** The first entry of a list that has the given name. */
  function ChildNamed(t: Tree, ps: seq<nat>, name: seq<Byte>): (r: Option<nat>)
    ensures r.Some? ==> r.value in ps && r.value in t.labels && t.labels[r.value] == name
  {
    if ps == [] then None
    else if ps[0] in t.labels && t.labels[ps[0]] == name then Some(ps[0])
    else ChildNamed(t, ps[1..], name)
  }

  /** The entry that the components lead to from directory dir. */
  function Find(t: Tree, dir: nat, cs: seq<seq<Byte>>): Option<nat>
    requires cs != []
    decreases |cs|
  {
    if dir !in t.kids then None else
      var c := ChildNamed(t, t.kids[dir], cs[0]);
      if c.None? || |cs| == 1 then c else Find(t, c.value, cs[1..])
  }

  /** The entry a path names. */
  function Lookup(t: Tree, path: seq<Byte>): Option<nat> {
    if path == [] || path[0] != SLASH then None
    else if path == [SLASH] then Some(ROOT)
    else Find(t, ROOT, Components(path[1..]))
  }

  /** Following one more component. */
  lemma {:induction false} FindAppend(t: Tree, dir: nat, cs: seq<seq<Byte>>, c: seq<Byte>)
    requires cs != []
    ensures Find(t, dir, cs + [c]) == if Find(t, dir, cs).None? then None else Find(t, Find(t, dir, cs).value, [c])
    decreases |cs|
  {
    if dir in t.kids {
      var child := ChildNamed(t, t.kids[dir], cs[0]);
      assert (cs + [c])[1..] == cs[1..] + [c];
      if child.Some? && |cs| > 1 {
        FindAppend(t, child.value, cs[1..], c);
      }
    }
  }

  // ----- the last component -----

  function LastSlash(s: seq<Byte>): (i: nat)
    requires SLASH in s
    ensures i < |s| && s[i] == SLASH && SLASH !in s[i + 1..]
  {
    if s[|s| - 1] == SLASH then |s| - 1 else LastSlash(s[..|s| - 1])
  }

  /** What follows the last slash (GetFilename). */
  function FileName(path: seq<Byte>): seq<Byte>
    requires SLASH in path
  {
    path[LastSlash(path) + 1..]
  }

  /** What precedes the last slash, or "/" if nothing does (FindParentVoidelleByPath). */
  function ParentPath(path: seq<Byte>): seq<Byte>
    requires SLASH in path
  {
    if LastSlash(path) == 0 then [SLASH] else path[..LastSlash(path)]
  }

  lemma NoSlash(s: seq<Byte>)
    requires SLASH !in s
    ensures Components(s) == [s]
  {
    assert FirstSlash(s) == |s|;
  }

  lemma {:induction false} ComponentsSnoc(s: seq<Byte>, name: seq<Byte>)
    requires SLASH !in name
    ensures Components(s + [SLASH] + name) == Components(s) + [name]
    decreases |s|
  {
    var w := s + [SLASH] + name;
    var i := FirstSlash(s);
    FirstSlashIs(w, i);
    assert w[..i] == s[..i];
    if i == |s| {
      assert w[i + 1..] == name && s[..i] == s;
      NoSlash(name);
      assert Components(w) == [s] + Components(name);
    } else {
      assert w[i + 1..] == s[i + 1..] + [SLASH] + name;
      ComponentsSnoc(s[i + 1..], name);
    }
  }

  lemma {:induction false} FirstSlashIs(s: seq<Byte>, i: nat)
    requires i < |s| && (forall k | 0 <= k < i :: s[k] != SLASH) && s[i] == SLASH
    ensures FirstSlash(s) == i
  {
  }

  /** The components above the last one. */
  function ParentComponents(path: seq<Byte>): seq<seq<Byte>>
    requires path != [] && path[0] == SLASH
  {
    if LastSlash(path) == 0 then [] else Components(path[1..LastSlash(path)])
  }

  lemma SplitPath(path: seq<Byte>)
    requires path != [] && path[0] == SLASH
    ensures Components(path[1..]) == ParentComponents(path) + [FileName(path)]
  {
    hide Components;
    var i, name := LastSlash(path), FileName(path);
    if i == 0 {
      NoSlash(name);
      assert [] + [name] == [name];
    } else {
      var dir := path[1..i];
      assert path[1..] == dir + [SLASH] + name;
      ComponentsSnoc(dir, name);
    }
  }

  // ----- creating an entry -----

  /** t2 is t with a new, empty entry p called name, the first one in directory u. */
  ghost predicate Inserted(t: Tree, t2: Tree, u: nat, p: nat, name: seq<Byte>) {
    && u in t.kids && p !in t.labels && p !in t.kids && p != ROOT
    && (forall e | e in t.kids :: p !in t.kids[e])
    && t2.labels == t.labels[p := name]
    && u in t2.kids && t2.kids[u] == [p] + t.kids[u]
    && (forall e | e in t.kids && e != u :: e in t2.kids && t2.kids[e] == t.kids[e])
    && (forall e | e in t2.kids && e != p :: e in t.kids)
    && (p in t2.kids ==> t2.kids[p] == [])
  }

  lemma ChildNamedSame(t: Tree, t2: Tree, u: nat, p: nat, name: seq<Byte>, ps: seq<nat>, c: seq<Byte>)
    requires Inserted(t, t2, u, p, name) && p !in ps
    ensures ChildNamed(t2, ps, c) == ChildNamed(t, ps, c)
  {
    if ps != [] {
      ChildNamedSame(t, t2, u, p, name, ps[1..], c);
    }
  }

  /** In directory dir the new tree finds what the old one finds, and p under name in u. */
  lemma ChildInserted(t: Tree, t2: Tree, u: nat, p: nat, name: seq<Byte>, dir: nat, c: seq<Byte>)
    requires Inserted(t, t2, u, p, name) && dir in t.kids
    ensures dir in t2.kids
    ensures ChildNamed(t2, t2.kids[dir], c) ==
            if dir == u && c == name then Some(p) else ChildNamed(t, t.kids[dir], c)
  {
    ChildNamedSame(t, t2, u, p, name, t.kids[dir], c);
    if dir == u {
      assert t2.kids[u][1..] == t.kids[u];
    }
  }

  /** The path "//" followed by a single name. */
  predicate DoubleSlash(path: seq<Byte>) {
    2 <= |path| && path[0] == path[1] == SLASH && SLASH !in path[2..]
  }

  /** Where the parent's path leads: to the directory above the last component, except
      that "//name" has "/" for parent although its components are "" and name. */
  lemma ParentLookup(t: Tree, path: seq<Byte>)
    requires path != [] && path[0] == SLASH
    ensures Lookup(t, ParentPath(path)) ==
            if ParentComponents(path) == [] || DoubleSlash(path) then Some(ROOT)
            else Find(t, ROOT, ParentComponents(path))
    ensures DoubleSlash(path) <==> ParentComponents(path) == [[]]
  {
    var i := LastSlash(path);
    if i == 0 {
      assert path[1..][0..] == path[1..];
    } else {
      var dir := path[1..i];
      assert path[..i][1..] == dir;
      if i == 1 {
        assert path[..1] == [SLASH] && dir == [] && path[2..] == path[i + 1..];
        assert Components(dir) == [[]];
      } else {
        assert path[..i] != [SLASH];
        JoinedComponents(dir);
        assert path[2..][i - 2] == SLASH;
      }
    }
  }

  /** The entry that components lead to from the root. */
  function Reach(t: Tree, cs: seq<seq<Byte>>): Option<nat> {
    if cs == [] then Some(ROOT) else Find(t, ROOT, cs)
  }

  lemma ReachSnoc(t: Tree, cs: seq<seq<Byte>>, c: seq<Byte>)
    ensures Reach(t, cs + [c]) ==
            if Reach(t, cs).None? || Reach(t, cs).value !in t.kids then None
            else ChildNamed(t, t.kids[Reach(t, cs).value], c)
  {
    if cs == [] {
      assert cs + [c] == [c];
    } else {
      FindAppend(t, ROOT, cs, c);
    }
  }

  /** Entries are in at most one directory, and the root is in none. */
  ghost predicate Rooted(t: Tree) {
    && ROOT !in t.parents
    && forall e, c | e in t.kids && c in t.kids[e] :: c in t.parents && t.parents[c] == e
  }

  /** What Reach finds last is the child, with the last name, of what it found before. */
  lemma ReachLast(t: Tree, cs: seq<seq<Byte>>)
    requires Rooted(t) && cs != [] && Reach(t, cs).Some?
    ensures var x, above := Reach(t, cs).value, Reach(t, cs[..|cs| - 1]);
            && x in t.labels && t.labels[x] == cs[|cs| - 1]
            && x in t.parents && above == Some(t.parents[x])
  {
    var n := |cs| - 1;
    assert cs == cs[..n] + [cs[n]];
    ReachSnoc(t, cs[..n], cs[n]);
  }

  /** No two lists of components lead to the same entry. */
  lemma {:induction false} ReachUnique(t: Tree, a: seq<seq<Byte>>, b: seq<seq<Byte>>)
    requires Rooted(t) && Reach(t, a).Some? && Reach(t, a) == Reach(t, b)
    ensures a == b
    decreases |a|
  {
    if a != [] {
      ReachLast(t, a);
    }
    if b != [] {
      ReachLast(t, b);
    }
    if a != [] && b != [] {
      var m, n := |a| - 1, |b| - 1;
      ReachUnique(t, a[..m], b[..n]);
      assert a == a[..m] + [a[m]] && b == b[..n] + [b[n]];
    }
  }

  /** A name inserted under the directory that pre leads to is found there.  Nothing is
      found below it any more, and every other list of components leads where it led. */
  lemma {:induction false} ReachShadowed(t: Tree, t2: Tree, u: nat, p: nat, name: seq<Byte>,
                                         pre: seq<seq<Byte>>, cs: seq<seq<Byte>>)
    requires Rooted(t) && Inserted(t, t2, u, p, name) && Reach(t, pre) == Some(u)
    ensures Reach(t2, cs) == if cs == pre + [name] then Some(p) else if pre + [name] <= cs then None else Reach(t, cs)
    decreases |cs|
  {
    if cs != [] {
      var n := |cs| - 1;
      var ds, c := cs[..n], cs[n];
      assert cs == ds + [c];
      ReachShadowed(t, t2, u, p, name, pre, ds);
      ReachSnoc(t, ds, c);
      ReachSnoc(t2, ds, c);
      assert pre + [name] <= cs <==> cs == pre + [name] || pre + [name] <= ds;
      if !(pre + [name] <= ds) && Reach(t, ds).Some? {
        var x := Reach(t, ds).value;
        if x in t.kids {
          ChildInserted(t, t2, u, p, name, x, c);
          if x == u {
            ReachUnique(t, ds, pre);
          }
        }
      }
    }
  }

  lemma {:induction false} NothingBelow(t: Tree, a: seq<seq<Byte>>, cs: seq<seq<Byte>>)
    requires Reach(t, a) == None && a <= cs
    ensures Reach(t, cs) == None
    decreases |cs|
  {
    if a != cs {
      var n := |cs| - 1;
      assert cs == cs[..n] + [cs[n]];
      NothingBelow(t, a, cs[..n]);
      ReachSnoc(t, cs[..n], cs[n]);
    }
  }

  /** If the name was absent, every other list of components leads where it led. */
  lemma ReachInserted(t: Tree, t2: Tree, u: nat, p: nat, name: seq<Byte>, pre: seq<seq<Byte>>, cs: seq<seq<Byte>>)
    requires Rooted(t) && Inserted(t, t2, u, p, name)
    requires Reach(t, pre) == Some(u) && Reach(t, pre + [name]) == None
    ensures Reach(t2, cs) == if cs == pre + [name] then Some(p) else Reach(t, cs)
  {
    ReachShadowed(t, t2, u, p, name, pre, cs);
    if pre + [name] <= cs {
      NothingBelow(t, pre + [name], cs);
    }
  }

  lemma LookupReach(t: Tree, path: seq<Byte>)
    requires path != [] && path[0] == SLASH && path != [SLASH]
    ensures Lookup(t, path) == Reach(t, Components(path[1..]))
  {
  }

  /** Different paths have different components. */
  lemma ComponentsInjective(p: seq<Byte>, q: seq<Byte>)
    requires Components(p) == Components(q)
    ensures p == q
  {
    JoinedComponents(p);
    JoinedComponents(q);
  }

  /** Creating an absent path under an existing directory makes that path, and no
      other, resolve to the new entry -- exactly when it is not of the form "//name". */
  lemma CreateThenLookup(t: Tree, t2: Tree, path: seq<Byte>, u: nat, p: nat)
    requires path != [] && path[0] == SLASH
    requires Rooted(t) && Lookup(t, path) == None && Lookup(t, ParentPath(path)) == Some(u)
    requires Inserted(t, t2, u, p, FileName(path))
    ensures (Lookup(t2, path) == Some(p) && forall q | q != path :: Lookup(t2, q) == Lookup(t, q))
            <==> !DoubleSlash(path)
  {
    var pre, name := ParentComponents(path), FileName(path);
    ParentLookup(t, path);
    SplitPath(path);
    LookupReach(t, path);
    LookupReach(t2, path);
    if DoubleSlash(path) {
      DoubleSlashCreate(t, t2, u, p, name);
    } else {
      ReachInserted(t, t2, u, p, name, pre, Components(path[1..]));
      forall q | q != path
        ensures Lookup(t2, q) == Lookup(t, q)
      {
        if q != [] && q[0] == SLASH && q != [SLASH] {
          LookupReach(t, q);
          LookupReach(t2, q);
          ReachInserted(t, t2, u, p, name, pre, Components(q[1..]));
          assert q == [SLASH] + q[1..] && path == [SLASH] + path[1..];
          if Components(q[1..]) == Components(path[1..]) {
            ComponentsInjective(q[1..], path[1..]);
          }
        }
      }
    }
  }

  /** "//name" is created as "/name", in front of an entry of that name that is there
      already, and still does not resolve.  Nothing else changes. */
  lemma DoubleSlashCreate(t: Tree, t2: Tree, u: nat, p: nat, name: seq<Byte>)
    requires Rooted(t) && u == ROOT && Inserted(t, t2, u, p, name)
    requires Reach(t, [[]] + [name]) == None
    ensures Reach(t2, [[]] + [name]) == None && Reach(t2, [name]) == Some(p)
    ensures forall cs | !([name] <= cs) :: Reach(t2, cs) == Reach(t, cs)
    ensures forall cs | [name] <= cs && cs != [name] :: Reach(t2, cs) == None
    ensures name != [] && SLASH !in name ==> Lookup(t2, [SLASH] + name) == Some(p)
  {
    var root: seq<seq<Byte>> := [];
    assert root + [name] == [name];
    forall cs
      ensures Reach(t2, cs) == if cs == [name] then Some(p) else if [name] <= cs then None else Reach(t, cs)
    {
      ReachShadowed(t, t2, u, p, name, root, cs);
    }
    if name != [] && SLASH !in name {
      LookupReach(t2, [SLASH] + name);
      NoSlash(name);
    }
  }

  /** The components still to come once the first one has been followed. */
  lemma ComponentsStep(s: seq<Byte>)
    ensures var i := FirstSlash(s);
            && Components(s)[0] == s[..i]
            && (|Components(s)| == 1 <==> i == |s|)
            && (i < |s| ==> Components(s)[1..] == Components(s[i + 1..]))
  {
  }

  /** Lookup depends on the names and the directories only. */
  lemma LookupSame(t: Tree, t2: Tree, path: seq<Byte>)
    requires t2.labels == t.labels && t2.kids == t.kids
    ensures Lookup(t2, path) == Lookup(t, path)
  {
    if path != [] && path[0] == SLASH && path != [SLASH] {
      FindSame(t, t2, ROOT, Components(path[1..]));
    }
  }

  lemma {:induction false} FindSame(t: Tree, t2: Tree, dir: nat, cs: seq<seq<Byte>>)
    requires t2.labels == t.labels && t2.kids == t.kids && cs != []
    ensures Find(t2, dir, cs) == Find(t, dir, cs)
    decreases |cs|
  {
    if dir in t.kids {
      ChildSame(t, t2, t.kids[dir], cs[0]);
      var c := ChildNamed(t, t.kids[dir], cs[0]);
      if c.Some? && |cs| > 1 {
        FindSame(t, t2, c.value, cs[1..]);
      }
    }
  }

  lemma ChildSame(t: Tree, t2: Tree, ps: seq<nat>, name: seq<Byte>)
    requires t2.labels == t.labels
    ensures ChildNamed(t2, ps, name) == ChildNamed(t, ps, name)
  {
  }
}
