/** fs/c14a_fs.c: what creating and removing files and directories does to the tree of directories. */
module TreeSteps {
  import opened Bytes
  import opened Paths
  import opened Trees

  /** No entry of `dir` but the dots has this inode number. */
  ghost predicate NewIn(dir: Directory, id: nat) {
    forall n :: n in dir && !IsDots(n) ==> dir[n].id != id
  }

  function NewDirectory(id: nat, parent: nat): Directory {
    map[DOT := Child(id, true), DOTDOT := Child(parent, true)]
  }

  /** file_create */
  function WithFile(tree: Tree, p: nat, n: Text, id: nat): Tree
    requires p in tree
  {
    tree[p := tree[p][n := Child(id, false)]]
  }

  /** sys_mkdir */
  function WithDir(tree: Tree, p: nat, n: Text, id: nat): Tree
    requires p in tree
  {
    tree[p := tree[p][n := Child(id, true)]][id := NewDirectory(id, p)]
  }

  /** sys_unlink, and what sys_rmdir does to the parent. */
  function WithoutName(tree: Tree, p: nat, n: Text): Tree
    requires p in tree
  {
    tree[p := tree[p] - {n}]
  }

  /** sys_rmdir */
  function WithoutDir(tree: Tree, p: nat, n: Text, id: nat): Tree
    requires p in tree
  {
    WithoutName(tree, p, n) - {id}
  }

  lemma NewName(dir: Directory, n: Text, c: Child)
    requires OneNameEach(dir) && n !in dir && IsName(n) && NewIn(dir, c.id)
    ensures OneNameEach(dir[n := c])
  {
    hide IsName;
  }

  lemma LessName(dir: Directory, n: Text)
    requires OneNameEach(dir)
    ensures OneNameEach(dir - {n})
  {
    hide IsName;
  }

  /** A child is as well off in any tree that keeps its own directory, or at least its `..`. */
  lemma ChildKept(tree: Tree, after: Tree, d: nat, c: Child)
    requires ChildOk(tree, d, c)
    requires c.isDir && c.id in tree ==>
      c.id in after && DOTDOT in after[c.id] && DOTDOT in tree[c.id] && after[c.id][DOTDOT] == tree[c.id][DOTDOT]
    ensures ChildOk(after, d, c)
  {
  }

  /** The directory at `p` has one entry changed, and all other directories are the same. */
  ghost predicate OnlyAt(tree: Tree, after: Tree, p: nat, n: Text) {
    && p in tree && p in after && n != DOT && n != DOTDOT
    && (forall d :: d in after && d in tree && d != p ==> after[d] == tree[d])
    && (forall m :: m != n ==> (m in after[p] <==> m in tree[p]) && (m in tree[p] ==> after[p][m] == tree[p][m]))
  }

  lemma DotsThere(tree: Tree, depth: map<nat, nat>, d: nat)
    requires TreeOk(tree, depth) && d in tree
    ensures d in depth && DOT in tree[d] && tree[d][DOT] == Child(d, true) && DOTDOT in tree[d] && tree[d][DOTDOT].isDir
    ensures tree[d][DOTDOT].id in tree && tree[d][DOTDOT].id in depth && OneNameEach(tree[d])
    ensures DotsOk(tree, depth, d, tree[d])
    ensures if d == 0 then tree[d][DOTDOT].id == 0 else depth[tree[d][DOTDOT].id] < depth[d]
  {
    assert DirectoryOk(tree, depth, d);
  }

  lemma ChildThere(tree: Tree, depth: map<nat, nat>, d: nat, n: Text)
    requires TreeOk(tree, depth) && d in tree && n in tree[d] && !IsDots(n)
    ensures ChildOk(tree, d, tree[d][n])
  {
    assert DirectoryOk(tree, depth, d);
  }

  /** The parts of the tree a step does not touch stay in order. */
  lemma RestStays(tree: Tree, depth: map<nat, nat>, after: Tree, depth1: map<nat, nat>, p: nat, n: Text, d: nat,
                  gone: set<nat>)
    requires TreeOk(tree, depth) && OnlyAt(tree, after, p, n) && d in tree && d in after
    requires tree.Keys - gone <= after.Keys
    requires forall x :: x in depth && x !in gone ==> x in depth1 && depth1[x] == depth[x]
    requires d !in gone && DOTDOT in tree[d] && tree[d][DOTDOT].id !in gone
    requires forall m :: m in tree[d] && !IsDots(m) && m != n && tree[d][m].isDir ==> tree[d][m].id !in gone
    requires d == p || forall m :: m in tree[d] && !IsDots(m) && tree[d][m].isDir ==> tree[d][m].id !in gone
    ensures DotsOk(after, depth1, d, after[d])
    ensures forall m :: m in tree[d] && m in after[d] && !IsDots(m) && (m != n || d != p) ==>
      ChildOk(after, d, after[d][m])
  {
    hide TreeOk, IsName, NamesChild, OneNameEach;
    DotsThere(tree, depth, d);
    forall m | m in tree[d] && m in after[d] && !IsDots(m) && (m != n || d != p)
      ensures ChildOk(after, d, after[d][m])
    {
      ChildThere(tree, depth, d, m);
      var c := tree[d][m];
      if c.isDir {
        DotsThere(tree, depth, c.id);
        ChildKept(tree, after, d, c);
      }
    }
  }

  /** A directory other than the root that keeps its entry in its parent. */
  lemma NameStays(tree: Tree, depth: map<nat, nat>, after: Tree, p: nat, n: Text, d: nat)
    requires TreeOk(tree, depth) && OnlyAt(tree, after, p, n) && d in tree && d in after && d != 0
    requires n in tree[p] ==> tree[p][n] != Child(d, true)
    requires DOTDOT in tree[d] && tree[d][DOTDOT].id in after
    ensures DOTDOT in after[d] && after[d][DOTDOT].id in after && NamesChild(after[after[d][DOTDOT].id], d)
  {
    hide DirectoryOk, NamesChild, IsName;
    DotsThere(tree, depth, d);
    var q := tree[d][DOTDOT].id;
    assert Placed(tree, d);
    SameName(tree[q], after[q], d, n);
  }

  lemma SameName(before: Directory, after: Directory, d: nat, n: Text)
    requires NamesChild(before, d) && (n in before && n !in after ==> before[n] != Child(d, true))
    requires forall m :: m in before && m in after && m != n ==> after[m] == before[m]
    requires n in before ==> before[n] != Child(d, true) || after == before
    requires forall m :: m in before && m != n ==> m in after
    ensures NamesChild(after, d)
  {
    var m :| NameIn(before, d, m);
    assert NameIn(after, d, m);
  }

  lemma SameKeys(tree: Tree, depth: map<nat, nat>)
    requires TreeOk(tree, depth)
    ensures tree.Keys == depth.Keys && 0 in tree
  {
  }

  /** Directory `d` is in order and, unless it is the root, has a name in its parent. */
  ghost predicate InOrder(tree: Tree, depth: map<nat, nat>, d: nat) {
    d in tree && DirectoryOk(tree, depth, d) && (d != 0 ==> NamesChild(tree[tree[d][DOTDOT].id], d))
  }

  lemma Together(tree: Tree, depth: map<nat, nat>)
    requires 0 in tree && depth.Keys == tree.Keys
    requires forall d :: d in tree ==> InOrder(tree, depth, d)
    ensures TreeOk(tree, depth)
  {
    hide NamesChild;
  }

  /** A directory elsewhere that the step leaves alone. */
  lemma OtherInOrder(tree: Tree, depth: map<nat, nat>, after: Tree, depth1: map<nat, nat>, p: nat, n: Text, d: nat,
                     gone: set<nat>)
    requires TreeOk(tree, depth) && OnlyAt(tree, after, p, n) && d in tree && d in after
    requires tree.Keys - gone <= after.Keys
    requires forall x :: x in depth && x !in gone ==> x in depth1 && depth1[x] == depth[x]
    requires d !in gone && DOTDOT in tree[d] && tree[d][DOTDOT].id !in gone
    requires forall m :: m in tree[d] && !IsDots(m) && (m != n || d != p) && tree[d][m].isDir ==> tree[d][m].id !in gone
    requires n in tree[p] ==> tree[p][n] != Child(d, true)
    requires d == p ==> OneNameEach(after[p]) && (n in after[p] ==> ChildOk(after, p, after[p][n]))
    ensures InOrder(after, depth1, d)
  {
    hide TreeOk, NamesChild, IsName, OneNameEach, DotsOk, ChildOk;
    DotsThere(tree, depth, d);
    RestStays(tree, depth, after, depth1, p, n, d, gone);
    if d != 0 {
      NameStays(tree, depth, after, p, n, d);
    }
  }

  /** Creating a file keeps the tree of directories in order. */
  lemma CreateKeeps(tree: Tree, depth: map<nat, nat>, p: nat, n: Text, id: nat)
    requires TreeOk(tree, depth) && p in tree && IsName(n) && n !in tree[p] && NewIn(tree[p], id)
    ensures TreeOk(WithFile(tree, p, n, id), depth)
  {
    hide TreeOk, NamesChild, IsName, OneNameEach, NewIn, InOrder, DotsOk;
    var after, none: set<nat> := WithFile(tree, p, n, id), {};
    DotsThere(tree, depth, p);
    SameKeys(tree, depth);
    NewName(tree[p], n, Child(id, false));
    forall d | d in after ensures InOrder(after, depth, d) {
      DotsThere(tree, depth, d);
      OtherInOrder(tree, depth, after, depth, p, n, d, none);
    }
    Together(after, depth);
  }

  /** Removing a file does too. */
  lemma UnlinkKeeps(tree: Tree, depth: map<nat, nat>, p: nat, n: Text)
    requires TreeOk(tree, depth) && p in tree && n in tree[p] && !tree[p][n].isDir
    ensures TreeOk(WithoutName(tree, p, n), depth)
  {
    hide TreeOk, NamesChild, IsName, OneNameEach, InOrder, DotsOk;
    var after, none: set<nat> := WithoutName(tree, p, n), {};
    DotsThere(tree, depth, p);
    SameKeys(tree, depth);
    LessName(tree[p], n);
    forall d | d in after ensures InOrder(after, depth, d) {
      DotsThere(tree, depth, d);
      OtherInOrder(tree, depth, after, depth, p, n, d, none);
    }
    Together(after, depth);
  }

  lemma NewDots(id: nat, p: nat)
    ensures DOTDOT in NewDirectory(id, p) && NewDirectory(id, p)[DOTDOT] == Child(p, true)
  {
  }

  lemma NewInOrder(tree: Tree, depth: map<nat, nat>, id: nat, p: nat, n: Text)
    requires id in tree && tree[id] == NewDirectory(id, p) && p in tree && id in depth && p in depth
    requires if id == 0 then p == 0 else depth[p] < depth[id] && NameIn(tree[p], id, n)
    ensures InOrder(tree, depth, id)
  {
  }

  /** Making a directory does, under an inode number that no directory has. */
  lemma MkdirKeeps(tree: Tree, depth: map<nat, nat>, p: nat, n: Text, id: nat)
    requires TreeOk(tree, depth) && p in tree && p in depth && IsName(n) && n !in tree[p] && NewIn(tree[p], id)
    requires id !in tree
    ensures TreeOk(WithDir(tree, p, n, id), depth[id := depth[p] + 1])
  {
    hide TreeOk, NamesChild, IsName, OneNameEach, NewIn, NewDirectory, InOrder, DotsOk;
    var after, depth1, none: set<nat> := WithDir(tree, p, n, id), depth[id := depth[p] + 1], {};
    DotsThere(tree, depth, p);
    SameKeys(tree, depth);
    NewName(tree[p], n, Child(id, true));
    NewDots(id, p);
    NewInOrder(after, depth1, id, p, n);
    forall d | d in tree ensures InOrder(after, depth1, d) {
      DotsThere(tree, depth, d);
      OtherInOrder(tree, depth, after, depth1, p, n, d, none);
    }
    Together(after, depth1);
  }

  /** No directory has an empty one for its parent. */
  lemma NotAParent(tree: Tree, depth: map<nat, nat>, id: nat, d: nat)
    requires TreeOk(tree, depth) && id in tree && (forall m :: m in tree[id] ==> IsDots(m)) && d in tree && d != 0
    ensures DOTDOT in tree[d] && tree[d][DOTDOT].id != id
  {
    hide DirectoryOk, NamesChild;
    DotsThere(tree, depth, d);
    assert Placed(tree, d);
    NoNameIn(tree[id], d);
  }

  lemma NoNameIn(dir: Directory, d: nat)
    requires forall m :: m in dir ==> IsDots(m)
    ensures !NamesChild(dir, d)
  {
  }

  /** Nothing points to an empty directory but its own entry and its `.`. */
  lemma OnlyOneRef(tree: Tree, depth: map<nat, nat>, p: nat, n: Text, id: nat, d: nat)
    requires TreeOk(tree, depth) && p in tree && n in tree[p] && !IsDots(n) && tree[p][n] == Child(id, true)
    requires d in tree && d != id
    requires id in tree && forall m :: m in tree[id] ==> IsDots(m)
    ensures DOTDOT in tree[d] && tree[d][DOTDOT].id != id
    ensures forall m :: m in tree[d] && !IsDots(m) && tree[d][m].isDir && tree[d][m].id == id ==> d == p && m == n
  {
    hide TreeOk, OneNameEach, NamesChild, DotsOk;
    NotItsParent(tree, depth, p, n, id);
    DotsThere(tree, depth, d);
    if d != 0 {
      NotAParent(tree, depth, id, d);
    }
    ChildThere(tree, depth, p, n);
    forall m | m in tree[d] && !IsDots(m) && tree[d][m].isDir && tree[d][m].id == id ensures d == p && m == n {
      ChildThere(tree, depth, d, m);
      OneNameFor(tree, depth, p, n, if d == p then m else n);
    }
  }

  lemma OthersWithout(tree: Tree, depth: map<nat, nat>, p: nat, n: Text, id: nat, d: nat)
    requires TreeOk(tree, depth) && p in tree && n in tree[p] && !IsDots(n) && tree[p][n] == Child(id, true)
    requires id in tree && (forall m :: m in tree[id] ==> IsDots(m)) && d in tree && d != id && id != p
    requires tree.Keys == depth.Keys
    ensures InOrder(WithoutDir(tree, p, n, id), depth - {id}, d)
  {
    hide TreeOk, NamesChild, IsName, OneNameEach, InOrder, DotsOk;
    DotsThere(tree, depth, p);
    LessName(tree[p], n);
    OnlyOneRef(tree, depth, p, n, id, d);
    OtherInOrder(tree, depth, WithoutDir(tree, p, n, id), depth - {id}, p, n, d, {id});
  }

  /** Removing an empty directory does. */
  lemma RmdirKeeps(tree: Tree, depth: map<nat, nat>, p: nat, n: Text, id: nat)
    requires TreeOk(tree, depth) && p in tree && n in tree[p] && !IsDots(n) && tree[p][n] == Child(id, true)
    requires id in tree && forall m :: m in tree[id] ==> IsDots(m)
    ensures TreeOk(WithoutDir(tree, p, n, id), depth - {id})
  {
    hide TreeOk, IsDots, InOrder;
    NotItsParent(tree, depth, p, n, id);
    SameKeys(tree, depth);
    forall d | d in tree && d != id ensures InOrder(WithoutDir(tree, p, n, id), depth - {id}, d) {
      OthersWithout(tree, depth, p, n, id, d);
    }
    Together(WithoutDir(tree, p, n, id), depth - {id});
  }

  lemma NotItsParent(tree: Tree, depth: map<nat, nat>, p: nat, n: Text, id: nat)
    requires TreeOk(tree, depth) && p in tree && n in tree[p] && !IsDots(n) && tree[p][n] == Child(id, true)
    ensures id != p && id != 0 && id in tree
  {
    hide TreeOk, NamesChild, IsName, OneNameEach;
    ChildThere(tree, depth, p, n);
    DotsThere(tree, depth, id);
  }

  /** The calls that change the tree, by the directory that path search reports as parent and the last name. */
  datatype Step =
    | Create(p: nat, n: Text, id: nat)
    | Mkdir(p: nat, n: Text, id: nat)
    | Unlink(p: nat, n: Text)
    | Rmdir(p: nat, n: Text)

  /** The tree that partition_format_init leaves. */
  function RootOnly(): Tree {
    map[0 := NewDirectory(0, 0)]
  }

  /** A directory with nothing but `.` and `..`. */
  predicate IsEmptyDir(dir: Directory) {
    forall m :: m in dir ==> IsDots(m)
  }

  /** When a call goes through: a new name, an inode number from the bitmap, a file to unlink, an empty
      directory other than the root to remove - under whatever name, `.` included. */
  ghost predicate GoesThrough(tree: Tree, s: Step) {
    && s.p in tree
    && match s
       case Create(p, n, id) => IsName(n) && n !in tree[p] && NewIn(tree[p], id)
       case Mkdir(p, n, id) => IsName(n) && n !in tree[p] && NewIn(tree[p], id) && id !in tree
       case Unlink(p, n) => n in tree[p] && !tree[p][n].isDir
       case Rmdir(p, n) =>
         && n in tree[p] && tree[p][n].isDir && tree[p][n].id != 0 && tree[p][n].id in tree
         && IsEmptyDir(tree[tree[p][n].id])
  }

  /** What it leaves. The entry that rmdir looks for is the one the parent has for the directory, not its `.`. */
  ghost function After(tree: Tree, s: Step): Tree
    requires GoesThrough(tree, s)
  {
    match s
    case Create(p, n, id) => WithFile(tree, p, n, id)
    case Mkdir(p, n, id) => WithDir(tree, p, n, id)
    case Unlink(p, n) => WithoutName(tree, p, n)
    case Rmdir(p, n) => if n == DOT then WithoutSelf(tree, tree[p][n].id) else WithoutDir(tree, p, n, tree[p][n].id)
  }

  function WithoutSelf(tree: Tree, id: nat): Tree {
    tree - {id}
  }

  /** A removal through `.`, as in /a/. */
  predicate ByDot(s: Step) {
    s.Rmdir? && s.n == DOT
  }

  /** An empty directory is never reached through the `..` of another one. */
  lemma EmptyNotUp(tree: Tree, depth: map<nat, nat>, p: nat)
    requires TreeOk(tree, depth) && p in tree && DOTDOT in tree[p] && tree[p][DOTDOT].id in tree
    requires IsEmptyDir(tree[tree[p][DOTDOT].id])
    ensures tree[p][DOTDOT].id == 0
  {
    hide DirectoryOk, NamesChild;
    DotsThere(tree, depth, p);
    if p != 0 {
      NotAParent(tree, depth, tree[p][DOTDOT].id, p);
    }
  }

  lemma StepKeeps(tree: Tree, depth: map<nat, nat>, s: Step) returns (depth1: map<nat, nat>)
    requires TreeOk(tree, depth) && GoesThrough(tree, s) && !ByDot(s)
    ensures TreeOk(After(tree, s), depth1)
  {
    hide TreeOk, IsName, NewIn, WithFile, WithDir, WithoutName, WithoutDir;
    match s
    case Create(p, n, id) =>
      CreateKeeps(tree, depth, p, n, id);
      depth1 := depth;
    case Mkdir(p, n, id) =>
      SameKeys(tree, depth);
      MkdirKeeps(tree, depth, p, n, id);
      depth1 := depth[id := depth[p] + 1];
    case Unlink(p, n) =>
      UnlinkKeeps(tree, depth, p, n);
      depth1 := depth;
    case Rmdir(p, n) =>
      if n == DOTDOT {
        EmptyNotUp(tree, depth, p);
      }
      RmdirKeeps(tree, depth, p, n, tree[p][n].id);
      depth1 := depth - {tree[p][n].id};
  }

  /** Removing a directory through its own `.` leaves its entry in the parent, which then names no directory. */
  lemma DotBreaks(tree: Tree, depth: map<nat, nat>, s: Step, depth1: map<nat, nat>)
    requires TreeOk(tree, depth) && GoesThrough(tree, s) && ByDot(s)
    ensures !TreeOk(After(tree, s), depth1)
  {
    hide TreeOk, NamesChild, IsName, OneNameEach;
    var id, after := tree[s.p][DOT].id, After(tree, s);
    DotsThere(tree, depth, s.p);
    HasAName(tree, depth, id);
    var p := Parent(tree, depth, id);
    DotsThere(tree, depth, id);
    var n := NameIn1(tree[p], id);
    if TreeOk(after, depth1) {
      ChildThere(after, depth1, p, n);
    }
  }

  lemma NameIn1(dir: Directory, d: nat) returns (n: Text)
    requires NamesChild(dir, d)
    ensures NameIn(dir, d, n)
  {
    n :| NameIn(dir, d, n);
  }

  /** A call that goes through leaves a tree if and only if it does not remove a directory through `.`. */
  lemma KeepsUnlessByDot(tree: Tree, depth: map<nat, nat>, s: Step)
    requires TreeOk(tree, depth) && GoesThrough(tree, s)
    ensures (exists depth1 :: TreeOk(After(tree, s), depth1)) <==> !ByDot(s)
  {
    hide TreeOk, GoesThrough, After;
    if ByDot(s) {
      forall depth1 ensures !TreeOk(After(tree, s), depth1) {
        DotBreaks(tree, depth, s, depth1);
      }
    } else {
      var depth1 := StepKeeps(tree, depth, s);
    }
  }

  /** The trees a run of calls leads through. */
  ghost predicate History(trees: seq<Tree>, steps: seq<Step>) {
    && |trees| == |steps| + 1 && trees[0] == RootOnly()
    && forall i :: 0 <= i < |steps| ==> GoesThrough(trees[i], steps[i]) && trees[i + 1] == After(trees[i], steps[i])
  }

  lemma RootIsTree() returns (depth: map<nat, nat>)
    ensures TreeOk(RootOnly(), depth)
  {
    hide TreeOk, InOrder;
    depth := map[0 := 0];
    NewInOrder(RootOnly(), depth, 0, 0, DOT);
    Together(RootOnly(), depth);
  }

  /** Up to the first removal through `.`, the directories form a tree after every call, so that sys_getcwd
      and search_file agree; after it they do not. */
  lemma {:induction false} RunsKeepTree(trees: seq<Tree>, steps: seq<Step>, k: nat)
    requires History(trees, steps) && k < |trees| && forall i :: 0 <= i < k - 1 ==> !ByDot(steps[i])
    ensures (exists depth :: TreeOk(trees[k], depth)) <==> k == 0 || !ByDot(steps[k - 1])
  {
    hide TreeOk, GoesThrough, After;
    if k == 0 {
      var depth := RootIsTree();
    } else {
      RunsKeepTree(trees, steps, k - 1);
      assert GoesThrough(trees[k - 1], steps[k - 1]) && trees[k - 1 + 1] == After(trees[k - 1], steps[k - 1]);
      var depth :| TreeOk(trees[k - 1], depth);
      KeepsUnlessByDot(trees[k - 1], depth, steps[k - 1]);
    }
  }

  const A: Text := [97]
  const B: Text := [98]

  function OnlyA(id: nat): Tree {
    WithDir(RootOnly(), 0, A, id)
  }

  lemma OnlyAHas(id: nat)
    requires id != 0
    ensures id in OnlyA(id) && OnlyA(id)[id] == NewDirectory(id, 0) && IsEmptyDir(OnlyA(id)[id])
    ensures 0 in OnlyA(id) && A in OnlyA(id)[0] && OnlyA(id)[0][A] == Child(id, true) && DOT in OnlyA(id)[id]
    ensures OnlyA(id)[id][DOT] == Child(id, true)
  {
  }

  /** After sys_mkdir("/a"), the path /a/. and its parent part are the same directory. */
  lemma DotPath(id: nat)
    requires id != 0
    ensures Components([SLASH, 97, SLASH, 46]) == [A, DOT]
    ensures Resolve(OnlyA(id), 0, [A, DOT]) == Dir(id) && Resolve(OnlyA(id), 0, [A]) == Dir(id)
  {
    hide OnlyA;
    OnlyAHas(id);
    var none: seq<Text> := [];
    ResolveStep(OnlyA(id), 0, none, 0, A, id);
    ResolveStep(OnlyA(id), 0, none + [A], id, DOT, id);
    assert none + [A] == [A] && [A] + [DOT] == [A, DOT];
    ComponentsOfJoined([A, DOT]);
    JoinedAppend([A], [DOT]);
    JoinedOne(A);
    JoinedOne(DOT);
    assert Joined([A, DOT]) == [SLASH] + A + ([SLASH] + DOT) == [SLASH, 97, SLASH, 46];
  }

  /** sys_mkdir("/a") and sys_rmdir("/a/.") both go through, and the root is left with an entry for a
      directory that is gone. */
  lemma ThroughDot(id: nat)
    requires id != 0
    ensures History([RootOnly(), OnlyA(id), WithoutSelf(OnlyA(id), id)], [Mkdir(0, A, id), Rmdir(id, DOT)])
    ensures !(exists depth :: TreeOk(WithoutSelf(OnlyA(id), id), depth))
  {
    hide TreeOk;
    var steps, trees := [Mkdir(0, A, id), Rmdir(id, DOT)], [RootOnly(), OnlyA(id), WithoutSelf(OnlyA(id), id)];
    OnlyAHas(id);
    assert GoesThrough(trees[0], steps[0]) && GoesThrough(trees[1], steps[1]);
    RunsKeepTree(trees, steps, 2);
    assert ByDot(steps[1]) && !ByDot(steps[0]) && trees[2] == WithoutSelf(OnlyA(id), id);
  }

  /** sys_mkdir("/b") then takes the free number again, so that the root has two entries with it. */
  lemma NumberTwice(id: nat)
    requires id != 0
    ensures var tree := WithoutSelf(OnlyA(id), id);
      id !in tree && 0 in tree && B !in tree[0] && !OneNameEach(WithDir(tree, 0, B, id)[0])
  {
    OnlyAHas(id);
    var after := WithDir(WithoutSelf(OnlyA(id), id), 0, B, id)[0];
    assert A in after && B in after && after[A].id == after[B].id;
  }
}
