/** fs/c14a_fs.c: search_file goes down a tree of directories, sys_getcwd comes up. A directory is the
    map from names that its blocks show. */
module Trees {
  import opened Paths

  const MAX_PATH_LEN := 512

  datatype Child = Child(id: nat, isDir: bool)

  type Directory = map<Text, Child>
  type Tree = map<nat, Directory>

  predicate IsDots(n: Text) {
    n == DOT || n == DOTDOT
  }

  /** `.` is the directory itself; `..` is a directory less deep, except in the root. */
  ghost predicate DotsOk(tree: Tree, depth: map<nat, nat>, d: nat, dir: Directory) {
    && DOT in dir && dir[DOT] == Child(d, true)
    && DOTDOT in dir && dir[DOTDOT].isDir && dir[DOTDOT].id in tree && dir[DOTDOT].id in depth && d in depth
    && if d == 0 then dir[DOTDOT].id == 0 else depth[dir[DOTDOT].id] < depth[d]
  }

  /** A directory listed in `d` has `d` for its parent. */
  ghost predicate ChildOk(tree: Tree, d: nat, c: Child) {
    c.isDir ==> c.id in tree && c.id != 0 && DOTDOT in tree[c.id] && tree[c.id][DOTDOT] == Child(d, true)
  }

  ghost predicate OneNameEach(dir: Directory) {
    && (forall n :: n in dir ==> IsName(n))
    && forall n, m :: n in dir && m in dir && !IsDots(n) && !IsDots(m) && dir[n].id == dir[m].id ==> n == m
  }

  ghost predicate DirectoryOk(tree: Tree, depth: map<nat, nat>, d: nat)
    requires d in tree
  {
    && DotsOk(tree, depth, d, tree[d]) && OneNameEach(tree[d])
    && forall n :: n in tree[d] && !IsDots(n) ==> ChildOk(tree, d, tree[d][n])
  }

  /** `n` is the name of directory `d` in its parent. */
  predicate NameIn(parent: Directory, d: nat, n: Text) {
    n in parent && !IsDots(n) && parent[n] == Child(d, true)
  }

  ghost predicate NamesChild(parent: Directory, d: nat) {
    exists n :: NameIn(parent, d, n)
  }

  /** Directory `d` has a name in its parent. */
  ghost predicate Placed(tree: Tree, d: nat) {
    d in tree && DOTDOT in tree[d] && tree[d][DOTDOT].id in tree && NamesChild(tree[tree[d][DOTDOT].id], d)
  }

  /** A tree of directories: each but the root is listed once in its parent, and parents are less deep. */
  ghost predicate TreeOk(tree: Tree, depth: map<nat, nat>) {
    && 0 in tree && depth.Keys == tree.Keys
    && (forall d {:trigger DirectoryOk(tree, depth, d)} :: d in tree ==> DirectoryOk(tree, depth, d))
    && forall d {:trigger Placed(tree, d)} :: d in tree && d != 0 ==> Placed(tree, d)
  }

  function Parent(tree: Tree, depth: map<nat, nat>, d: nat): (p: nat)
    requires TreeOk(tree, depth) && d in tree
    ensures p in tree && p in depth && (d != 0 ==> depth[p] < depth[d])
  {
    assert DirectoryOk(tree, depth, d);
    tree[d][DOTDOT].id
  }

  /** `names` lead from the root down to `d`. */
  ghost predicate Leads(tree: Tree, depth: map<nat, nat>, names: seq<Text>, d: nat)
    requires TreeOk(tree, depth) && d in tree
    decreases depth[d]
  {
    if d == 0 then names == []
    else
      names != [] && NameIn(tree[Parent(tree, depth, d)], d, names[|names| - 1])
      && Leads(tree, depth, names[..|names| - 1], Parent(tree, depth, d))
  }

  /** Where a search ends: a file ends it even when names are left over. */
  datatype Found = Missing(d: nat, left: seq<Text>) | File(id: nat, d: nat, left: seq<Text>) | Dir(id: nat)

  function Resolve(tree: Tree, d: nat, names: seq<Text>): Found
    decreases |names|
  {
    if names == [] then Dir(d)
    else if d !in tree || names[0] !in tree[d] then Missing(d, names)
    else
      var c := tree[d][names[0]];
      if c.isDir then Resolve(tree, c.id, names[1..]) else File(c.id, d, names[1..])
  }

  lemma {:induction false} ResolveStep(tree: Tree, d: nat, names: seq<Text>, e: nat, n: Text, f: nat)
    requires Resolve(tree, d, names) == Dir(e) && e in tree && n in tree[e] && tree[e][n] == Child(f, true)
    ensures Resolve(tree, d, names + [n]) == Dir(f)
    decreases |names|
  {
    if names == [] {
      assert names + [n] == [n] && [n][1..] == [];
    } else {
      assert (names + [n])[1..] == names[1..] + [n] && (names + [n])[0] == names[0];
      ResolveStep(tree, tree[d][names[0]].id, names[1..], e, n, f);
    }
  }

  lemma NameOfChild(tree: Tree, depth: map<nat, nat>, d: nat, n: Text)
    requires TreeOk(tree, depth) && d in tree && d != 0 && NameIn(tree[Parent(tree, depth, d)], d, n)
    ensures var p := Parent(tree, depth, d); IsName(n) && n in tree[p] && tree[p][n] == Child(d, true)
  {
    assert DirectoryOk(tree, depth, Parent(tree, depth, d));
  }

  /** Going down by the names that lead to a directory arrives there. */
  lemma {:induction false} LeadsResolves(tree: Tree, depth: map<nat, nat>, names: seq<Text>, d: nat)
    requires TreeOk(tree, depth) && d in tree && d in depth && Leads(tree, depth, names, d)
    ensures Resolve(tree, 0, names) == Dir(d)
    ensures forall i :: 0 <= i < |names| ==> IsName(names[i])
    decreases depth[d]
  {
    hide TreeOk, DirectoryOk, NameIn, IsName, Parent;
    if d != 0 {
      var p, n, front := Parent(tree, depth, d), names[|names| - 1], names[..|names| - 1];
      NameOfChild(tree, depth, d, n);
      LeadsResolves(tree, depth, front, p);
      ResolveStep(tree, 0, front, p, n, d);
      assert names == front + [n];
    }
  }

  lemma DotsOf(tree: Tree, depth: map<nat, nat>, p: nat)
    requires TreeOk(tree, depth) && p in tree
    ensures p in depth && DOT in tree[p] && tree[p][DOT].id == p
    ensures DOTDOT in tree[p] && tree[p][DOTDOT].id in depth
    ensures (tree[p][DOTDOT].id == 0 || depth[tree[p][DOTDOT].id] < depth[p])
  {
    assert DirectoryOk(tree, depth, p);
  }

  lemma OneNameFor(tree: Tree, depth: map<nat, nat>, p: nat, n: Text, m: Text)
    requires TreeOk(tree, depth) && p in tree && n in tree[p] && m in tree[p] && !IsDots(n) && !IsDots(m)
    requires tree[p][n].id == tree[p][m].id
    ensures n == m
  {
    assert DirectoryOk(tree, depth, p);
  }

  lemma HasAName(tree: Tree, depth: map<nat, nat>, d: nat)
    requires TreeOk(tree, depth) && d in tree && d != 0
    ensures NamesChild(tree[Parent(tree, depth, d)], d)
  {
    hide DirectoryOk, NamesChild;
    assert Placed(tree, d);
  }

  /** get_child_dir_name: some entry of the parent carries the child's inode number; only the child's
      own entry does. */
  lemma OnlyChildMatches(tree: Tree, depth: map<nat, nat>, d: nat, n: Text)
    requires TreeOk(tree, depth) && d in tree && d in depth && d != 0
    requires n in tree[Parent(tree, depth, d)] && tree[Parent(tree, depth, d)][n].id == d
    ensures NameIn(tree[Parent(tree, depth, d)], d, n)
  {
    hide TreeOk, Parent;
    var p := Parent(tree, depth, d);
    DotsOf(tree, depth, p);
    HasAName(tree, depth, d);
    var m :| NameIn(tree[p], d, m);
    if !IsDots(n) {
      OneNameFor(tree, depth, p, n, m);
    }
  }

  /** Only one list of names leads to a directory. */
  lemma {:induction false} LeadsUnique(tree: Tree, depth: map<nat, nat>, a: seq<Text>, b: seq<Text>, d: nat)
    requires TreeOk(tree, depth) && d in tree && d in depth && Leads(tree, depth, a, d) && Leads(tree, depth, b, d)
    ensures a == b
    decreases depth[d]
  {
    hide TreeOk, Parent;
    if d != 0 {
      LeadsUnique(tree, depth, a[..|a| - 1], b[..|b| - 1], Parent(tree, depth, d));
      OneNameFor(tree, depth, Parent(tree, depth, d), a[|a| - 1], b[|b| - 1]);
      assert a == a[..|a| - 1] + [a[|a| - 1]] && b == b[..|b| - 1] + [b[|b| - 1]];
    }
  }

  lemma {:induction false} LeadsFurther(tree: Tree, depth: map<nat, nat>, front: seq<Text>, d: nat, n: Text)
    requires TreeOk(tree, depth) && d in tree && d in depth && d != 0 && NameIn(tree[Parent(tree, depth, d)], d, n)
    requires Leads(tree, depth, front, Parent(tree, depth, d))
    ensures Leads(tree, depth, front + [n], d)
  {
    hide TreeOk, NameIn;
    assert (front + [n])[..|front + [n]| - 1] == front;
  }

  /** Whatever leads to `d`, followed by `down`, leads to `cwd`. */
  ghost predicate LeadsOn(tree: Tree, depth: map<nat, nat>, d: nat, down: seq<Text>, cwd: nat)
    requires TreeOk(tree, depth) && d in tree && cwd in tree
  {
    forall names :: Leads(tree, depth, names, d) ==> Leads(tree, depth, names + down, cwd)
  }

  lemma LeadsOnUp(tree: Tree, depth: map<nat, nat>, d: nat, n: Text, down: seq<Text>, cwd: nat)
    requires TreeOk(tree, depth) && d in tree && d in depth && cwd in tree && d != 0
    requires NameIn(tree[Parent(tree, depth, d)], d, n)
    requires LeadsOn(tree, depth, d, down, cwd)
    ensures LeadsOn(tree, depth, Parent(tree, depth, d), [n] + down, cwd)
  {
    hide TreeOk, NameIn, Leads;
    forall names | Leads(tree, depth, names, Parent(tree, depth, d))
      ensures Leads(tree, depth, names + ([n] + down), cwd)
    {
      LeadsFurther(tree, depth, names, d, n);
      assert names + ([n] + down) == names + [n] + down;
    }
  }

  lemma LeadsOnStart(tree: Tree, depth: map<nat, nat>, cwd: nat)
    requires TreeOk(tree, depth) && cwd in tree
    ensures LeadsOn(tree, depth, cwd, [], cwd)
  {
    hide TreeOk, Leads;
    forall names | Leads(tree, depth, names, cwd) ensures Leads(tree, depth, names + [], cwd) {
      assert names + [] == names;
    }
  }

  lemma LeadsOnEnd(tree: Tree, depth: map<nat, nat>, down: seq<Text>, cwd: nat)
    requires TreeOk(tree, depth) && 0 in tree && cwd in tree && LeadsOn(tree, depth, 0, down, cwd)
    ensures Leads(tree, depth, down, cwd)
  {
    hide TreeOk, DirectoryOk, NameIn, Parent;
    assert Leads(tree, depth, [], 0);
    assert [] + down == down;
  }

  lemma InDepth(tree: Tree, depth: map<nat, nat>, d: nat)
    requires TreeOk(tree, depth)
    ensures 0 in tree && (d in tree ==> d in depth)
  {
  }
}
