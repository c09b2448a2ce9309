/** fs/c14a_fs.c: how long the path of a working directory can get, for which sys_getcwd has MAX_PATH_LEN bytes. */
module Canonicals {
  import opened Paths
  import opened Trees
  import opened TreeSteps

  /** There are names that lead to a directory. */
  lemma {:induction false} HasNames(tree: Tree, depth: map<nat, nat>, d: nat) returns (names: seq<Text>)
    requires TreeOk(tree, depth) && d in tree && d in depth
    ensures Leads(tree, depth, names, d)
    decreases depth[d]
  {
    hide TreeOk, NameIn;
    if d == 0 {
      names := [];
    } else {
      HasAName(tree, depth, d);
      var n := NameIn1(tree[Parent(tree, depth, d)], d);
      var front := HasNames(tree, depth, Parent(tree, depth, d));
      LeadsFurther(tree, depth, front, d, n);
      names := front + [n];
    }
  }

  lemma JoinedLast(front: seq<Text>, n: Text)
    ensures |Joined(front + [n])| == |Joined(front)| + 1 + |n|
  {
    JoinedAppend(front, [n]);
    JoinedOne(n);
  }

  /** The last step of a path that leads to a directory. */
  lemma {:induction false} ResolveBack(tree: Tree, d: nat, front: seq<Text>, n: Text) returns (e: nat)
    requires Resolve(tree, d, front + [n]).Dir?
    ensures Resolve(tree, d, front) == Dir(e) && e in tree && n in tree[e]
    ensures tree[e][n] == Child(Resolve(tree, d, front + [n]).id, true)
    decreases |front|
  {
    var names := front + [n];
    if front == [] {
      e := d;
      assert names[1..] == [] && names[0] == n;
    } else {
      assert names[0] == front[0] && names[1..] == front[1..] + [n];
      e := ResolveBack(tree, tree[d][front[0]].id, front[1..], n);
    }
  }

  /** No path to a directory is shorter than the one that sys_getcwd puts together. */
  lemma {:induction false} NoShorter(tree: Tree, depth: map<nat, nat>, names: seq<Text>, own: seq<Text>, d: nat)
    requires TreeOk(tree, depth) && Resolve(tree, 0, names) == Dir(d)
    requires d in tree && d in depth && Leads(tree, depth, own, d)
    ensures |Joined(own)| <= |Joined(names)|
    decreases |names|
  {
    hide TreeOk, Joined, NameIn, Parent;
    if names != [] {
      var front, n := names[..|names| - 1], names[|names| - 1];
      assert names == front + [n];
      var e := ResolveBack(tree, 0, front, n);
      InDepth(tree, depth, e);
      var owns := HasNames(tree, depth, e);
      NoShorter(tree, depth, front, owns, e);
      JoinedLast(front, n);
      OneFurther(tree, depth, e, n, owns, d, own);
    } else {
      NothingJoined();
    }
  }

  lemma NothingJoined()
    ensures Joined([]) == []
  {
  }

  /** What one name does: nothing, a step up or a step down. */
  lemma OneFurther(tree: Tree, depth: map<nat, nat>, e: nat, n: Text, owns: seq<Text>, d: nat, own: seq<Text>)
    requires TreeOk(tree, depth) && e in tree && e in depth && d in tree && d in depth
    requires n in tree[e] && tree[e][n] == Child(d, true)
    requires Leads(tree, depth, owns, e) && Leads(tree, depth, own, d)
    ensures |Joined(own)| <= |Joined(owns)| + 1 + |n|
  {
    hide TreeOk, Joined, OneNameEach, IsName;
    DotsThere(tree, depth, e);
    if n == DOT {
      LeadsUnique(tree, depth, own, owns, d);
    } else if n == DOTDOT {
      NothingJoined();
      if e != 0 {
        var front, m := owns[..|owns| - 1], owns[|owns| - 1];
        LeadsUnique(tree, depth, own, front, d);
        assert owns == front + [m];
        JoinedLast(front, m);
      }
    } else {
      ChildThere(tree, depth, e, n);
      LeadsFurther(tree, depth, owns, d, n);
      LeadsUnique(tree, depth, own, owns + [n], d);
      JoinedLast(owns, n);
    }
  }

  /** The path of `d` and its zero fit into MAX_PATH_LEN bytes. */
  ghost predicate PathFits(tree: Tree, depth: map<nat, nat>, d: nat) {
    TreeOk(tree, depth) && d in tree && forall own :: Leads(tree, depth, own, d) ==> |Joined(own)| < MAX_PATH_LEN
  }

  ghost predicate AllFit(tree: Tree, depth: map<nat, nat>) {
    TreeOk(tree, depth) && forall d :: d in tree ==> PathFits(tree, depth, d)
  }

  /** In a tree of the root alone. */
  lemma RootFits(depth: map<nat, nat>)
    requires TreeOk(RootOnly(), depth)
    ensures AllFit(RootOnly(), depth)
  {
    hide TreeOk;
    NothingJoined();
  }

  /** Directory `x` was there, under the same parent and with the same subdirectories but `made`. */
  ghost predicate WasThere(tree: Tree, after: Tree, x: nat, made: set<nat>) {
    && x in tree && x in after && DOTDOT in tree[x] && DOTDOT in after[x]
    && after[x][DOTDOT] == tree[x][DOTDOT] && after[x][DOTDOT].id !in made
    && forall n, y :: NameIn(after[x], y, n) && y !in made ==> NameIn(tree[x], y, n)
  }

  /** What leads to a directory that was there led to it before. */
  lemma {:induction false} LedBefore(tree: Tree, depth: map<nat, nat>, after: Tree, depth1: map<nat, nat>,
                                     names: seq<Text>, d: nat, made: set<nat>)
    requires TreeOk(tree, depth) && TreeOk(after, depth1) && d in after && d in depth1 && d !in made
    requires forall x :: x in after && x !in made ==> WasThere(tree, after, x, made)
    requires Leads(after, depth1, names, d)
    ensures d in tree && Leads(tree, depth, names, d)
    decreases depth1[d]
  {
    hide TreeOk, NameIn;
    assert WasThere(tree, after, d, made);
    if d != 0 {
      var p := Parent(after, depth1, d);
      assert WasThere(tree, after, p, made);
      LedBefore(tree, depth, after, depth1, names[..|names| - 1], p, made);
    }
  }

  lemma StillFits(tree: Tree, depth: map<nat, nat>, after: Tree, depth1: map<nat, nat>, d: nat, made: set<nat>)
    requires AllFit(tree, depth) && TreeOk(after, depth1) && d in after && d in depth1 && d !in made
    requires forall x :: x in after && x !in made ==> WasThere(tree, after, x, made)
    ensures PathFits(after, depth1, d)
  {
    hide TreeOk, WasThere, Leads, Joined;
    forall own | Leads(after, depth1, own, d) ensures |Joined(own)| < MAX_PATH_LEN {
      LedBefore(tree, depth, after, depth1, own, d, made);
      assert PathFits(tree, depth, d);
    }
  }

  /** The new directory, when a path below MAX_PATH_LEN led to its name. */
  lemma MadeFits(tree: Tree, depth: map<nat, nat>, p: nat, n: Text, id: nat, depth1: map<nat, nat>, front: seq<Text>)
    requires TreeOk(tree, depth) && GoesThrough(tree, Mkdir(p, n, id)) && TreeOk(WithDir(tree, p, n, id), depth1)
    requires forall x :: x in WithDir(tree, p, n, id) && x != id ==> WasThere(tree, WithDir(tree, p, n, id), x, {id})
    requires Resolve(tree, 0, front) == Dir(p) && |Joined(front + [n])| < MAX_PATH_LEN
    ensures PathFits(WithDir(tree, p, n, id), depth1, id)
  {
    hide TreeOk, Joined, WasThere, NewIn, Resolve, IsName;
    var after := WithDir(tree, p, n, id);
    InDepth(after, depth1, id);
    InDepth(after, depth1, p);
    InDepth(tree, depth, p);
    forall own | Leads(after, depth1, own, id) ensures |Joined(own)| < MAX_PATH_LEN {
      OwnOfMade(tree, depth, p, n, id, depth1, own);
      var up := own[..|own| - 1];
      LedBefore(tree, depth, after, depth1, up, p, {id});
      NoShorter(tree, depth, front, up, p);
      JoinedLast(up, n);
      JoinedLast(front, n);
    }
  }

  lemma OwnOfMade(tree: Tree, depth: map<nat, nat>, p: nat, n: Text, id: nat, depth1: map<nat, nat>, own: seq<Text>)
    requires TreeOk(tree, depth) && GoesThrough(tree, Mkdir(p, n, id)) && TreeOk(WithDir(tree, p, n, id), depth1)
    requires Leads(WithDir(tree, p, n, id), depth1, own, id)
    ensures own != [] && own == own[..|own| - 1] + [n] && p in WithDir(tree, p, n, id)
    ensures Leads(WithDir(tree, p, n, id), depth1, own[..|own| - 1], p) && p != id
  {
    hide TreeOk, Joined;
    InDepth(tree, depth, 0);
    assert WithDir(tree, p, n, id)[id][DOTDOT].id == p;
  }

  lemma AllWereThere(tree: Tree, depth: map<nat, nat>, s: Step)
    requires TreeOk(tree, depth) && GoesThrough(tree, s) && !ByDot(s)
    ensures var made := if s.Mkdir? then {s.id} else {};
      forall x :: x in After(tree, s) && x !in made ==> WasThere(tree, After(tree, s), x, made)
  {
    hide TreeOk, OneNameEach, IsName;
    var made := if s.Mkdir? then {s.id} else {};
    DotsThere(tree, depth, s.p);
    if s.Rmdir? && s.n == DOTDOT {
      EmptyNotUp(tree, depth, s.p);
    }
    forall x | x in After(tree, s) && x !in made ensures WasThere(tree, After(tree, s), x, made) {
      DotsThere(tree, depth, x);
    }
  }

  /** Every step keeps all paths below MAX_PATH_LEN, a new directory's when one below it led to its name. */
  lemma StepFits(tree: Tree, depth: map<nat, nat>, s: Step, depth1: map<nat, nat>, front: seq<Text>)
    requires AllFit(tree, depth) && GoesThrough(tree, s) && !ByDot(s) && TreeOk(After(tree, s), depth1)
    requires s.Mkdir? ==> Resolve(tree, 0, front) == Dir(s.p) && |Joined(front + [s.n])| < MAX_PATH_LEN
    ensures AllFit(After(tree, s), depth1)
  {
    hide TreeOk, GoesThrough, After, Joined, Resolve, Leads, WasThere;
    AllWereThere(tree, depth, s);
    var made := if s.Mkdir? then {s.id} else {};
    forall d | d in After(tree, s) ensures PathFits(After(tree, s), depth1, d) {
      InDepth(After(tree, s), depth1, d);
      if d in made {
        ByMkdir(tree, s);
        MadeFits(tree, depth, s.p, s.n, s.id, depth1, front);
      } else {
        StillFits(tree, depth, After(tree, s), depth1, d, made);
      }
    }
  }

  lemma ByMkdir(tree: Tree, s: Step)
    requires GoesThrough(tree, s) && s.Mkdir?
    ensures After(tree, s) == WithDir(tree, s.p, s.n, s.id)
  {
  }
}
