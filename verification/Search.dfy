/** fs/c14a_fs.c: search_file and path_depth_count. */
module Searches {
  import opened Debug
  import opened Bytes
  import opened Inodes
  import opened Volumes
  import opened OpenInodes
  import opened DirData
  import opened NameBuffers
  import opened Caches
  import opened Paths
  import opened Trees
  import opened DiskTrees

  /** search_file's answer: an inode number and its type, or -1. */
  datatype Hit = None | Hit(id: nat, isDir: bool)

  function HitOf(found: Found): Hit {
    match found
    case Missing(_, _) => None
    case File(id, _, _) => Hit(id, false)
    case Dir(id) => Hit(id, true)
  }

  /** What search_file reports for a path with at least one name: where the search ended, the directory
      it looked in last, and the part of the path it went through. */
  ghost predicate Answer(tree: Tree, names: seq<Text>, hit: Hit, parent: nat, searched: Text) {
    && names != [] && hit == HitOf(Resolve(tree, 0, names))
    && match Resolve(tree, 0, names)
       case Missing(d, left) =>
         parent == d && 0 < |left| <= |names| && searched == Joined(names[..|names| - |left| + 1])
       case File(_, d, left) => parent == d && |left| < |names| && searched == Joined(names[..|names| - |left|])
       case Dir(_) => Resolve(tree, 0, names[..|names| - 1]) == Dir(parent) && searched == Joined(names)
  }

  lemma DirChild(tree: Tree, depth: map<nat, nat>, d: nat, n: Text)
    requires TreeOk(tree, depth) && d in tree && n in tree[d] && tree[d][n].isDir
    ensures tree[d][n].id in tree
  {
    hide IsName, NamesChild;
    assert DirectoryOk(tree, depth, d);
  }

  /** A directory found from a directory of the tree is in the tree. */
  lemma {:induction false} DirsFound(tree: Tree, depth: map<nat, nat>, d: nat, names: seq<Text>)
    requires TreeOk(tree, depth) && d in tree && Resolve(tree, d, names).Dir?
    ensures Resolve(tree, d, names).id in tree
    decreases |names|
  {
    hide TreeOk;
    if names != [] {
      DirChild(tree, depth, d, names[0]);
      DirsFound(tree, depth, tree[d][names[0]].id, names[1..]);
    }
  }

  /** What is left of a path after its first name: nothing, or something that starts with a slash. */
  lemma FirstOf(path: Text, name: Text, rest: Text)
    requires name == UpToSlash(SkipSlashes(path)) && rest == SkipSlashes(path)[|name|..]
    ensures name == [] ==> Components(path) == []
    ensures name != [] ==> Components(path) == [name] + Components(rest)
    ensures |name| + |rest| <= |path| && (rest != [] ==> rest[0] == SLASH)
    ensures path != [] && path[0] == SLASH ==> |name| + |rest| < |path|
    ensures SLASH !in name && forall x :: x in name ==> x in path
  {
    KeepsLetters(path);
  }

  lemma {:induction false} KeepsLetters(path: Text)
    ensures forall x :: x in SkipSlashes(path) ==> x in path
    decreases |path|
  {
    if path != [] && path[0] == SLASH {
      KeepsLetters(path[1..]);
    }
  }

  /** The names of a path without zeros are file names, and putting them together takes no more room. */
  lemma {:induction false} NamesFit(path: Text)
    requires path != [] ==> path[0] == SLASH
    ensures |Joined(Components(path))| <= |path|
    ensures 0 !in path ==> forall i :: 0 <= i < |Components(path)| ==> IsName(Components(path)[i])
    decreases |path|
  {
    var name := UpToSlash(SkipSlashes(path));
    var rest := SkipSlashes(path)[|name|..];
    FirstOf(path, name, rest);
    if name != [] {
      NamesFit(rest);
      var tail := Components(rest);
      assert ([name] + tail)[1..] == tail;
      assert forall x :: x in rest ==> x in SkipSlashes(path);
      KeepsLetters(path);
    }
  }

  lemma PrefixFits(names: seq<Text>, k: nat)
    requires k < |names|
    ensures |Joined(names[..k])| < |Joined(names)|
  {
    assert names == names[..k] + names[k..];
    JoinedAppend(names[..k], names[k..]);
  }

  lemma NextPiece(names: seq<Text>, k: nat)
    requires k < |names|
    ensures Joined(names[..k]) + ([SLASH] + names[k]) == Joined(names[..k + 1])
  {
    assert names[..k + 1] == names[..k] + [names[k]];
    JoinedAppend(names[..k], [names[k]]);
    JoinedOne(names[k]);
  }

  lemma NextDown(tree: Tree, names: seq<Text>, k: nat, d: nat)
    requires k < |names| && d in tree && Resolve(tree, 0, names) == Resolve(tree, d, names[k..])
    ensures names[k] !in tree[d] ==> Resolve(tree, 0, names) == Missing(d, names[k..])
    ensures names[k] in tree[d] && !tree[d][names[k]].isDir ==>
      Resolve(tree, 0, names) == File(tree[d][names[k]].id, d, names[k + 1..])
    ensures names[k] in tree[d] && tree[d][names[k]].isDir ==>
      Resolve(tree, 0, names) == Resolve(tree, tree[d][names[k]].id, names[k + 1..])
  {
    assert names[k..][0] == names[k] && names[k..][1..] == names[k + 1..];
  }

  lemma NextDir(tree: Tree, names: seq<Text>, k: nat, d: nat)
    requires k < |names| && d in tree && Resolve(tree, 0, names[..k]) == Dir(d)
    requires names[k] in tree[d] && tree[d][names[k]].isDir
    ensures Resolve(tree, 0, names[..k + 1]) == Dir(tree[d][names[k]].id)
  {
    ResolveStep(tree, 0, names[..k], d, names[k], tree[d][names[k]].id);
    assert names[..k + 1] == names[..k] + [names[k]];
  }

  /** Parsing on from `before` yields the name at `k` of the whole path, or its end. */
  ghost predicate Parsed(names: seq<Text>, k: nat, name: Text, rest: Text) {
    if name == [] then k == |names| else k < |names| && name == names[k] && names[k + 1..] == Components(rest)
  }

  lemma JoinedNone(names: seq<Text>)
    ensures Joined(names[..0]) == []
  {
  }

  lemma AnswerDir(tree: Tree, names: seq<Text>, d: nat, parent: nat, searched: Text)
    requires names != [] && Resolve(tree, 0, names) == Resolve(tree, d, names[|names|..])
    requires searched == Joined(names[..|names|])
    requires Resolve(tree, 0, names[..|names| - 1]) == Dir(parent)
    ensures Answer(tree, names, Hit(d, true), parent, searched)
  {
    assert names[..|names|] == names && names[|names|..] == [];
  }

  lemma AnswerEarly(tree: Tree, names: seq<Text>, k: nat, hit: Hit, d: nat, searched: Text)
    requires k < |names| && searched == Joined(names[..k + 1]) && hit == HitOf(Resolve(tree, 0, names))
    requires Resolve(tree, 0, names) == if hit == None then Missing(d, names[k..]) else File(hit.id, d, names[k + 1..])
    ensures Answer(tree, names, hit, d, searched)
  {
  }

  /** What is parsed next, seen from the whole path. */
  lemma NextOf(path: Text, before: Text, name: Text, rest: Text)
    requires (forall x :: x in before ==> x in path) && 0 !in path && name == FirstName(before)
    requires rest == SkipSlashes(before)[|name|..]
    ensures 0 !in name && (forall x :: x in rest ==> x in path) && |name| + |rest| <= |before|
    ensures name == [] ==> Components(before) == [] && rest == []
    ensures name != [] ==> Components(before) == [name] + Components(rest)
    ensures before != [] && before[0] == SLASH ==> |name| + |rest| < |before|
    ensures rest != [] ==> rest[0] == SLASH
  {
    FirstOf(before, name, rest);
    KeepsLetters(before);
    assert forall x :: x in rest ==> x in SkipSlashes(before);
  }

  /** Counting, with a name in the buffer or not: what has been counted, and what is still to come. */
  ghost predicate Counting(path: Text, junk: byte, named: bool, rest: Text, depth: nat) {
    && (forall x :: x in rest ==> x in path) && (rest != [] ==> rest[0] == SLASH)
    && if Components(path) == [] then
         rest == [] && depth == (if junk != 0 && !named then 1 else 0) && (named ==> junk != 0)
       else
         && |Components(path)| == depth + (if named then 1 + |Components(rest)| else 0)
         && (Overlong(Components(path)) <==> named && Overlong(Components(rest)))
  }

  lemma NoneOverlong()
    ensures !Overlong([])
  {
  }

  lemma CountStart(path: Text, junk: byte, rest: Text)
    requires 0 !in path && rest == SkipSlashes(path)[|FirstName(path)|..]
    ensures |FirstName(path)| > NAME_SPACE ==> Overlong(Components(path))
    ensures |FirstName(path)| <= NAME_SPACE ==> Counting(path, junk, FirstName(path) != [] || junk != 0, rest, 0)
    ensures 0 !in FirstName(path)
  {
    hide Components, Overlong, SkipSlashes, UpToSlash;
    NextOf(path, path, FirstName(path), rest);
    OverlongFirst(FirstName(path), Components(rest));
    NoneOverlong();
  }

  lemma CountOn(path: Text, junk: byte, before: Text, rest: Text, depth: nat)
    requires 0 !in path && Counting(path, junk, true, before, depth)
    requires rest == SkipSlashes(before)[|FirstName(before)|..]
    ensures |FirstName(before)| > NAME_SPACE ==> Overlong(Components(path))
    ensures |FirstName(before)| <= NAME_SPACE ==>
      Counting(path, junk, FirstName(before) != [], rest, depth + 1) && (before != [] ==> |rest| < |before|)
    ensures 0 !in FirstName(before) && (before == [] ==> rest == [] && FirstName(before) == [])
  {
    hide Components, Overlong, SkipSlashes, UpToSlash;
    NothingNext();
    NextOf(path, before, FirstName(before), rest);
    OverlongFirst(FirstName(before), Components(rest));
    NoneOverlong();
  }

  lemma NothingNext()
    ensures SkipSlashes([]) == [] && FirstName([]) == []
  {
  }

  lemma CountEnd(path: Text, junk: byte, rest: Text, depth: nat)
    requires Counting(path, junk, false, rest, depth)
    ensures !Overlong(Components(path))
    ensures depth == if Components(path) != [] then |Components(path)| else if junk != 0 then 1 else 0
  {
    hide Components, Overlong;
    NoneOverlong();
  }

  /** path_depth_count: how many names a path has. Without a name the first byte of the buffer on the stack
      is tested as it is. The buffer is overrun exactly when some name is longer than it. */
  method PathDepthCount(path: Text, junk: byte) returns (overrun: bool, depth: nat)
    requires 0 !in path
    ensures overrun <==> Overlong(Components(path))
    ensures !overrun ==> depth == if Components(path) != [] then |Components(path)| else if junk != 0 then 1 else 0
  {
    hide Components, Overlong, SkipSlashes, UpToSlash, Counting, FirstName;
    var store := new byte[NAME_SPACE];
    store[0] := junk;
    depth := 0;
    var rest, more;
    overrun, rest, more := PathParse(path, store);
    FirstIs(path);
    CountStart(path, junk, SkipSlashes(path)[|FirstName(path)|..]);
    if overrun {
      return;
    }
    while store[0] != 0
      invariant !overrun && (more <==> rest != []) && Counting(path, junk, store[0] != 0, rest, depth)
      decreases |rest| + if store[0] != 0 then 1 else 0
    {
      depth := depth + 1;
      ghost var before := rest;
      FirstIs(before);
      CountOn(path, junk, before, SkipSlashes(before)[|FirstName(before)|..], depth - 1);
      overrun, rest, more := NextName(rest, more, store);
      if overrun {
        return;
      }
      StoredReads(store[..], FirstName(before));
    }
    CountEnd(path, junk, rest, depth);
  }

  lemma FirstIs(path: Text)
    ensures FirstName(path) == UpToSlash(SkipSlashes(path)) && |FirstName(path)| <= |SkipSlashes(path)|
    ensures NAME_SPACE == 16
  {
  }

  const MINUS_ONE: word := 0xFFFF_FFFF

  /** What callers make of the number that was on the stack. */
  function Stray(junk: word): Hit {
    if junk == MINUS_ONE then None else Hit(junk, true)
  }

  /** What is known of the directory at hand. */
  lemma InDirectory(part: Partition, cache: Cache, root: Inode, dirs: Listings, depth: map<nat, nat>, cur: Inode)
    requires InUse(part, cache, root, dirs, depth) && cur in cache.list && cur.id as nat in dirs
    ensures OnDisk(part, dirs) && Opened(part, cur) && TreeOk(TreeOf(dirs), depth) && cur.id as nat in TreeOf(dirs)
  {
    hide Partition.Valid, TreeOk, AllAllocated, SoleEntries, AllDisplayed, TreeOf, Distinct, Counted, Ids, Counts,
      OpenedIn;
    cache.ShowsFields(part, cur);
    TreeHas(dirs, cur.id);
  }

  /** A subdirectory can be opened. */
  lemma CanOpen(part: Partition, cache: Cache, root: Inode, dirs: Listings, depth: map<nat, nat>, id: nat)
    requires InUse(part, cache, root, dirs, depth) && id in TreeOf(dirs)
    ensures id in dirs && id in part.nodes && part.Valid() && id < 256 && cache.Valid(part)
  {
    hide TreeOk, AllAllocated, SoleEntries, AllDisplayed, TreeOf, Distinct, Counted, Ids, Counts, OpenedIn;
    TreeHas(dirs, id);
    KnownNumbers(part, dirs);
  }

  /** Entries are of files or directories. */
  lemma KnownKind(part: Partition, cache: Cache, root: Inode, dirs: Listings, depth: map<nat, nat>, d: nat, e: Entry)
    requires InUse(part, cache, root, dirs, depth) && d in dirs && exists p :: p in dirs[d] && dirs[d][p] == e
    ensures e.kind == REGULAR <==> e.kind != DIRECTORY
  {
    hide TreeOk, SoleEntries, AllDisplayed, TreeOf, Distinct, Counted, Ids, Counts, OpenedIn, Partition.Valid;
    AllocatedOne(part.nodes, dirs, d);
  }

  /** dir_close and dir_open on the way down. */
  method Enter(part: Partition, cache: Cache, root: Inode, atRoot: bool, cur: Inode, id: nat, ghost dirs: Listings,
               ghost depth: map<nat, nat>,
               ghost opens0: map<nat, nat>, ghost list0: seq<Inode>)
    returns (next: Inode)
    requires InUse(part, cache, root, dirs, depth) && id in TreeOf(dirs) && cache.Held(atRoot, cur, opens0, list0)
    requires root in list0
    modifies cache, cur`openCount, list0`openCount
    ensures InUse(part, cache, root, dirs, depth) && cache.Held(false, next, opens0, list0) && next.id == id
    ensures next in cache.list && (next in list0 || fresh(next))
  {
    hide TreeOk, AllAllocated, SoleEntries, AllDisplayed, TreeOf, Distinct, Counted, Ids, Counts, OpenedIn,
      Partition.Valid;
    CanOpen(part, cache, root, dirs, depth, id);
    next := cache.GoTo(part, atRoot, cur, id, opens0, list0);
  }

  /** One turn of the search: the name is looked up, and a subdirectory takes the place of the directory. */
  method Turn(part: Partition, cache: Cache, root: Inode, atRoot: bool, cur: Inode, name: Text, ghost here: Directory,
              ghost dirs: Listings, ghost depth: map<nat, nat>, ghost opens0: map<nat, nat>, ghost list0: seq<Inode>)
    returns (hit: Hit, id: word, atRoot1: bool, next: Inode)
    requires cur in cache.list && cur.id as nat in TreeOf(dirs) && here == TreeOf(dirs)[cur.id] && name != []
    requires InUse(part, cache, root, dirs, depth) && cache.Held(atRoot, cur, opens0, list0) && root in list0
    modifies cache, cur`openCount, list0`openCount
    ensures InUse(part, cache, root, dirs, depth) && cache.Held(atRoot1, next, opens0, list0) && next in cache.list
    ensures hit == if name in here then Hit(here[name].id, here[name].isDir) else None
    ensures hit == None || hit.id == id as nat
    ensures if hit != None && hit.isDir
            then next.id == id && id as nat in TreeOf(dirs) && (next in list0 || fresh(next)) else next == cur
  {
    hide InUse, TreeOk, TreeOf, OnDisk, OpenedIn, Opened, Cache.OpenedSince;
    TreeHas(dirs, cur.id);
    InDirectory(part, cache, root, dirs, depth, cur);
    hit, id, atRoot1, next := None, 0, atRoot, cur;
    var found, e := LookUp(part, cur, name, dirs);
    if found {
      KnownKind(part, cache, root, dirs, depth, cur.id, e);
      id := e.id;
      if e.kind == REGULAR {
        hit := Hit(id, false);
      } else {
        hit := Hit(id, true);
        DirChild(TreeOf(dirs), depth, cur.id, name);
        next := Enter(part, cache, root, atRoot, cur, id, dirs, depth, opens0, list0);
        atRoot1 := false;
      }
    }
  }

  /** Where the search is after `k` names: in directory `d`, entered from `parentNo`. */
  ghost predicate At(tree: Tree, names: seq<Text>, k: nat, d: nat, parentNo: nat, last: nat, junk: nat,
                     searched: Text) {
    && k <= |names| && d in tree && parentNo in tree && searched == Joined(names[..k])
    && Resolve(tree, 0, names) == Resolve(tree, d, names[k..]) && Resolve(tree, 0, names[..k]) == Dir(d)
    && if k == 0 then last == junk && parentNo == 0
       else last == d && Resolve(tree, 0, names[..k - 1]) == Dir(parentNo)
  }

  lemma AtStart(tree: Tree, names: seq<Text>, junk: word)
    requires 0 in tree
    ensures At(tree, names, 0, 0, 0, junk, junk, [])
  {
    JoinedNone(names);
    assert names[0..] == names;
  }

  /** The ASSERT of a turn. */
  lemma AtShort(tree: Tree, names: seq<Text>, k: nat, d: nat, parentNo: nat, last: nat, junk: nat, searched: Text)
    requires At(tree, names, k, d, parentNo, last, junk, searched) && k < |names|
    ensures |searched| < |Joined(names)|
  {
    hide Joined, Resolve;
    PrefixFits(names, k);
  }

  /** What a turn comes to: the answer, or the next directory. */
  lemma AtTurn(tree: Tree, depth: map<nat, nat>, names: seq<Text>, k: nat, d: nat, parentNo: nat, last: nat, junk: nat,
               searched: Text)
    requires At(tree, names, k, d, parentNo, last, junk, searched) && k < |names| && TreeOk(tree, depth)
    ensures d in tree
    ensures var after := searched + ([SLASH] + names[k]);
      if names[k] !in tree[d] then Answer(tree, names, None, d, after)
      else if !tree[d][names[k]].isDir then Answer(tree, names, Hit(tree[d][names[k]].id, false), d, after)
      else At(tree, names, k + 1, tree[d][names[k]].id, d, tree[d][names[k]].id, junk, after)
  {
    hide Joined, Resolve, TreeOk, Answer;
    NextPiece(names, k);
    NextDown(tree, names, k, d);
    var after := searched + ([SLASH] + names[k]);
    if names[k] !in tree[d] {
      AnswerEarly(tree, names, k, None, d, after);
    } else if !tree[d][names[k]].isDir {
      AnswerEarly(tree, names, k, Hit(tree[d][names[k]].id, false), d, after);
    } else {
      NextDir(tree, names, k, d);
      DirChild(tree, depth, d, names[k]);
      assert names[..k + 1 - 1] == names[..k];
    }
  }

  lemma AtEnd(tree: Tree, names: seq<Text>, d: nat, parentNo: nat, last: nat, junk: nat, searched: Text)
    requires At(tree, names, |names|, d, parentNo, last, junk, searched)
    ensures names != [] ==> last in tree && (last < 256 ==> Answer(tree, names, Stray(last), parentNo, searched))
    ensures names == [] ==> last == junk && parentNo == 0
    ensures parentNo in tree
  {
    hide Joined, Resolve, Answer;
    if names != [] {
      AnswerDir(tree, names, d, parentNo, searched);
    }
  }

  /** What happens to the buffer, seen after `k` names. */
  lemma BufferOn(tree: Tree, names: seq<Text>, k: nat, d: nat)
    requires k < |names| && BufferAfter(tree, 0, names) == BufferAfter(tree, d, names[k..])
    ensures |names[k]| > NAME_SPACE ==> BufferAfter(tree, 0, names) == Overrun
    ensures |names[k]| == NAME_SPACE ==> BufferAfter(tree, 0, names) == Unended
    ensures |names[k]| < NAME_SPACE && (d !in tree || names[k] !in tree[d]) ==> BufferAfter(tree, 0, names) == Kept
    ensures |names[k]| < NAME_SPACE && d in tree && names[k] in tree[d] && tree[d][names[k]].isDir ==>
      BufferAfter(tree, 0, names) == BufferAfter(tree, tree[d][names[k]].id, names[k + 1..])
    ensures |names[k]| < NAME_SPACE && d in tree && names[k] in tree[d] && !tree[d][names[k]].isDir ==>
      BufferAfter(tree, 0, names) == if k + 1 < |names| && |names[k + 1]| > NAME_SPACE then Overrun else Kept
  {
    assert names[k..][0] == names[k] && names[k..][1..] == names[k + 1..];
    assert k + 1 < |names| ==> names[k..][1] == names[k + 1];
  }

  lemma BufferStart(tree: Tree, names: seq<Text>)
    ensures BufferAfter(tree, 0, names) == BufferAfter(tree, 0, names[0..])
    ensures names != [] && |names[0]| > NAME_SPACE ==> BufferAfter(tree, 0, names) == Overrun
  {
    assert names[0..] == names;
  }

  lemma BufferEnd(tree: Tree, names: seq<Text>, d: nat)
    requires BufferAfter(tree, 0, names) == BufferAfter(tree, d, names[|names|..])
    ensures BufferAfter(tree, 0, names) == Kept
  {
  }

  /** The name that is in the buffer, and how the path goes on. */
  ghost predicate InBuffer(path: Text, names: seq<Text>, k: nat, store: seq<byte>, name: Text, rest: Text) {
    && StoredIn(store, name) && Parsed(names, k, name, rest) && 0 !in name
    && forall x :: x in rest ==> x in path
  }

  lemma InBufferReads(path: Text, names: seq<Text>, k: nat, store: seq<byte>, name: Text, rest: Text)
    requires InBuffer(path, names, k, store, name, rest) && |store| == NAME_SPACE
    ensures if store[0] == 0 then k == |names| else k < |names| && name == names[k] && |name| <= NAME_SPACE
    ensures store[0] != 0 ==> (0 in store <==> |name| < NAME_SPACE)
    ensures store[0] != 0 && 0 in store ==> CString(store) == name && name != []
  {
    hide CString, Components;
    StoredReads(store, name);
  }

  lemma InBufferFirst(path: Text, rest: Text)
    requires 0 !in path && rest == SkipSlashes(path)[|FirstName(path)|..]
    ensures |FirstName(path)| > NAME_SPACE ==> Components(path) != [] && Components(path)[0] == FirstName(path)
    ensures forall store :: StoredIn(store, FirstName(path)) ==>
      InBuffer(path, Components(path), 0, store, FirstName(path), rest)
  {
    hide Components, SkipSlashes, UpToSlash;
    NextOf(path, path, FirstName(path), rest);
    assert Components(path)[0..] == Components(path);
    ParsedFrom(Components(path), 0, path, FirstName(path), rest);
  }

  lemma ParsedFrom(names: seq<Text>, k: nat, before: Text, name: Text, rest: Text)
    requires k <= |names| && names[k..] == Components(before) && name == FirstName(before)
    requires rest == SkipSlashes(before)[|name|..]
    ensures Parsed(names, k, name, rest)
  {
    FirstOf(before, name, rest);
    if name != [] {
      assert names[k + 1..] == names[k..][1..] && names[k] == names[k..][0];
    }
  }

  /** The name behind it. */
  lemma InBufferNext(path: Text, names: seq<Text>, k: nat, store0: seq<byte>, name: Text, before: Text, rest: Text)
    requires InBuffer(path, names, k, store0, name, before) && name != [] && 0 !in path
    requires rest == SkipSlashes(before)[|FirstName(before)|..]
    ensures k < |names|
    ensures |FirstName(before)| > NAME_SPACE ==> k + 1 < |names| && names[k + 1] == FirstName(before)
    ensures k + 1 < |names| ==> names[k + 1] == FirstName(before)
    ensures forall store :: StoredIn(store, FirstName(before)) ==>
      InBuffer(path, names, k + 1, store, FirstName(before), rest)
  {
    hide Components, SkipSlashes, UpToSlash;
    NextOf(path, before, FirstName(before), rest);
    ParsedFrom(names, k + 1, before, FirstName(before), rest);
    assert k + 1 < |names| ==> names[k + 1] == names[k + 1..][0];
  }

  /** The search loop: one directory for each name. Its ASSERT on the length of what was searched holds. When
      the buffer for the names is not kept, nothing is said of the rest. */
  method SearchLoop(part: Partition, cache: Cache, root: Inode, junk: word, path: Text, ghost dirs: Listings,
                    ghost depth: map<nat, nat>)
    returns (halted: bool, buffer: Buffer, ended: bool, hit: Hit, atRoot: bool, parent: Inode, parentNo: word,
             last: word, searched: Text)
    requires InUse(part, cache, root, dirs, depth) && path != [] && path[0] == SLASH && |path| < MAX_PATH_LEN
    requires 0 !in path
    modifies cache, cache.list`openCount
    ensures InUse(part, cache, root, dirs, depth) && cache.Held(atRoot, parent, old(cache.opens), old(cache.list))
    ensures parent in cache.list && (parent in old(cache.list) || fresh(parent)) && !halted
    ensures buffer == BufferAfter(TreeOf(dirs), 0, Components(path))
    ensures buffer == Kept && ended ==>
      Components(path) != [] && Answer(TreeOf(dirs), Components(path), hit, parent.id, searched)
    ensures buffer == Kept && !ended ==>
      At(TreeOf(dirs), Components(path), |Components(path)|, parent.id, parentNo, last, junk, searched)
  {
    hide *;
    ghost var names, k, tree, opens0, list0 := Components(path), 0, TreeOf(dirs), cache.opens, cache.list;
    NamesFit(path);
    RootAtHand(part, cache, root, dirs, depth);
    AtStart(tree, names, junk);
    BufferStart(tree, names);
    halted, ended, hit, parent, atRoot, parentNo, last, searched := false, false, None, root, true, 0, junk, [];
    ghost var name := FirstName(path);
    FirstIs(path);
    var store := new byte[NAME_SPACE];
    InBufferFirst(path, SkipSlashes(path)[|name|..]);
    var overrun, rest, more := NextName(path, true, store);
    buffer := if overrun then Overrun else Kept;
    if overrun {
      return;
    }
    while store[0] != 0
      invariant InUse(part, cache, root, dirs, depth) && cache.Held(atRoot, parent, opens0, list0)
      invariant parent in cache.list && (parent in list0 || fresh(parent)) && parent.id as nat in dirs
      invariant At(tree, names, k, parent.id, parentNo, last, junk, searched)
      invariant k <= |names| && BufferAfter(tree, 0, names) == BufferAfter(tree, parent.id, names[k..])
      invariant InBuffer(path, names, k, store[..], name, rest) && (more <==> rest != [])
      invariant !halted && !ended && buffer == Kept
      decreases |names| - k
    {
      InBufferReads(path, names, k, store[..], name, rest);
      AtShort(tree, names, k, parent.id, parentNo, last, junk, searched);
      halted := |searched| >= MAX_PATH_LEN;  // ASSERT
      if halted {
        return;
      }
      AtTurn(tree, depth, names, k, parent.id, parentNo, last, junk, searched);
      BufferOn(tree, names, k, parent.id);
      if 0 !in store[..] {
        buffer := Unended;
        return;
      }
      searched := searched + ([SLASH] + CString(store[..]));
      parentNo := parent.id;
      hit, last, atRoot, parent := Turn(part, cache, root, atRoot, parent, CString(store[..]), tree[parent.id], dirs,
                                        depth, opens0, list0);
      ended := hit == None;
      if ended {
        return;
      }
      FirstIs(rest);
      InBufferNext(path, names, k, store[..], name, rest, SkipSlashes(rest)[|FirstName(rest)|..]);
      name := FirstName(rest);
      overrun, rest, more := NextName(rest, more, store);
      if overrun {
        buffer := Overrun;
        if hit.isDir {
          BufferOn(tree, names, k + 1, parent.id);
        }
      }
      ended := !hit.isDir;
      if overrun || ended {
        return;
      }
      TreeHas(dirs, last);
      k := k + 1;
    }
    InBufferReads(path, names, k, store[..], name, rest);
    BufferEnd(tree, names, parent.id);
  }

  /** From the first name to the answer. Of the directories that the search opens the last one stays open. */
  method SearchNames(part: Partition, cache: Cache, root: Inode, junk: word, path: Text, ghost dirs: Listings,
                     ghost depth: map<nat, nat>)
    returns (r: Run<Hit>, buffer: Buffer, atRoot: bool, parent: Inode, searched: Text)
    requires InUse(part, cache, root, dirs, depth) && path != [] && path[0] == SLASH && |path| < MAX_PATH_LEN
    requires 0 !in path
    modifies cache, cache.list`openCount
    ensures buffer == BufferAfter(TreeOf(dirs), 0, Components(path)) && r.Done?
    ensures buffer == Kept ==> InUse(part, cache, root, dirs, depth) && parent in cache.list
    ensures buffer == Kept ==> cache.Held(atRoot, parent, old(cache.opens), old(cache.list))
    ensures buffer == Kept ==> parent in old(cache.list) || fresh(parent)
    ensures buffer == Kept && Components(path) != [] ==>
      Answer(TreeOf(dirs), Components(path), r.value, parent.id, searched)
    ensures buffer == Kept && Components(path) == [] ==> r.value == Stray(junk) && parent.id == 0
  {
    hide *;
    ghost var names, opens0, list0 := Components(path), cache.opens, cache.list;
    RootAtHand(part, cache, root, dirs, depth);
    var halted, ended, hit, parentNo, last;
    halted, buffer, ended, hit, atRoot, parent, parentNo, last, searched :=
      SearchLoop(part, cache, root, junk, path, dirs, depth);
    r := if halted then Halted else Done(hit);
    if !halted && buffer == Kept && !ended {
      AtEnd(TreeOf(dirs), names, parent.id, parentNo, last, junk, searched);
      if names != [] {
        CanOpen(part, cache, root, dirs, depth, last);
      }
      parent := Enter(part, cache, root, atRoot, parent, parentNo, dirs, depth, opens0, list0);
      atRoot := false;
      r := Done(Stray(last));
    }
  }

  /** The search starts in the root. */
  lemma RootAtHand(part: Partition, cache: Cache, root: Inode, dirs: Listings, depth: map<nat, nat>)
    requires InUse(part, cache, root, dirs, depth)
    ensures root in cache.list && root.id == 0 && cache.Held(true, root, cache.opens, cache.list)
    ensures 0 in dirs && 0 in TreeOf(dirs) && TreeOk(TreeOf(dirs), depth)
  {
    hide TreeOf, AllAllocated, SoleEntries, AllDisplayed, Distinct, Counted, Ids, Counts, OpenedIn, Partition.Valid,
      DirectoryOk, Placed;
    TreeHas(dirs, 0);
  }

  /** The three ways of writing the root that search_file answers at once. */
  predicate IsRoot(path: Text) {
    path == [SLASH] || path == [SLASH] + DOT || path == [SLASH] + DOTDOT
  }

  /** The ASSERT of search_file. */
  predicate Refused(path: Text) {
    !IsRoot(path) && !(1 < |path| < MAX_PATH_LEN && path[0] == SLASH)
  }

  lemma LongRefused(path: Text)
    requires |path| >= MAX_PATH_LEN
    ensures Refused(path)
  {
  }

  lemma RootEntries(tree: Tree, depth: map<nat, nat>)
    requires TreeOk(tree, depth)
    ensures 0 in tree && DOT in tree[0] && tree[0][DOT] == Child(0, true) && DOTDOT in tree[0]
    ensures tree[0][DOTDOT] == Child(0, true)
  {
    hide IsName, NamesChild;
    assert DirectoryOk(tree, depth, 0);
  }

  /** Looking them up name by name would have given the same answer. */
  lemma RootResolves(tree: Tree, depth: map<nat, nat>, path: Text)
    requires TreeOk(tree, depth) && IsRoot(path)
    ensures Resolve(tree, 0, Components(path)) == Dir(0)
  {
    hide TreeOk, Joined, Components;
    RootEntries(tree, depth);
    if path == [SLASH] {
      var name: Text := [];
      FirstOf(path, name, SkipSlashes(path));
    } else {
      var n := path[1..];
      JoinedOne(n);
      assert path == [SLASH] + n;
      ComponentsOfJoined([n]);
    }
  }

  /** What search_file makes of its buffer: it parses no name of the root's spellings and none of a path that
      its ASSERT refuses. */
  function BufferOf(tree: Tree, path: Text): Buffer {
    if IsRoot(path) || Refused(path) then Kept else BufferAfter(tree, 0, Components(path))
  }

  /** A path of short names keeps it in any tree. */
  lemma ShortPathKept(tree: Tree, path: Text)
    requires Short(Components(path))
    ensures BufferOf(tree, path) == Kept && !Overlong(Components(path))
  {
    hide Components, IsRoot;
    ShortIsKept(tree, 0, Components(path));
  }

  /** search_file. A path of slashes only, longer than one, has no name: the answer is then whatever the
      directory entry on the stack held, here `junk`. The parent's handle stays open for the caller. Nothing is
      said once a name has run over its buffer. */
  method SearchFile(part: Partition, cache: Cache, root: Inode, junk: word, path: Text, ghost dirs: Listings,
                    ghost depth: map<nat, nat>)
    returns (r: Run<Hit>, buffer: Buffer, atRoot: bool, parent: Inode, searched: Text)
    requires InUse(part, cache, root, dirs, depth) && 0 !in path
    modifies cache, cache.list`openCount
    ensures buffer == BufferOf(TreeOf(dirs), path)
    ensures buffer == Kept ==> InUse(part, cache, root, dirs, depth) && parent in cache.list
    ensures buffer == Kept ==> cache.Held(atRoot, parent, old(cache.opens), old(cache.list))
    ensures buffer == Kept ==> parent in old(cache.list) || fresh(parent)
    ensures r == Halted <==> Refused(path)
    ensures IsRoot(path) ==> r == Done(Hit(0, true)) && parent == root
    ensures IsRoot(path) ==> Resolve(TreeOf(dirs), 0, Components(path)) == Dir(0)
    ensures buffer == Kept && r.Done? && !IsRoot(path) && Components(path) != [] ==>
      Answer(TreeOf(dirs), Components(path), r.value, parent.id, searched)
    ensures buffer == Kept && r.Done? && !IsRoot(path) && Components(path) == [] ==>
      r.value == Stray(junk) && parent.id == 0
  {
    hide InUse, TreeOk, TreeOf, Joined, Components, IsName, OnDisk, Answer, Cache.OpenedSince, BufferAfter;
    RootAtHand(part, cache, root, dirs, depth);
    if IsRoot(path) {
      RootResolves(TreeOf(dirs), depth, path);
      return Done(Hit(0, true)), Kept, true, root, [];
    }
    if !(1 < |path| < MAX_PATH_LEN && path[0] == SLASH) {  // ASSERT
      return Halted, Kept, true, root, [];
    }
    r, buffer, atRoot, parent, searched := SearchNames(part, cache, root, junk, path, dirs, depth);
  }

  /** What sys_open and sys_mkdir read off the searched part: it has as many names as the whole path
      exactly when the search got to the last name. */
  lemma DepthTells(tree: Tree, names: seq<Text>, hit: Hit, parent: nat, searched: Text)
    requires Answer(tree, names, hit, parent, searched) && forall i :: 0 <= i < |names| ==> IsName(names[i])
    ensures |Components(searched)| <= |names| && Components(searched) == names[..|Components(searched)|]
    ensures |Components(searched)| == |names| <==> Resolve(tree, 0, names[..|names| - 1]) == Dir(parent)
  {
    var found := Resolve(tree, 0, names);
    var j :=
      if found.Missing? then |names| - |found.left| + 1 else if found.File? then |names| - |found.left| else |names|;
    assert names[..|names|] == names;
    ComponentsOfJoined(names[..j]);
    LastStep(tree, 0, names);
  }

  /** All names but the last lead to the directory `d` exactly when at most the last one is left. */
  lemma {:induction false} LastStep(tree: Tree, d: nat, names: seq<Text>)
    requires names != []
    ensures match Resolve(tree, d, names)
            case Missing(e, left) =>
              |left| <= |names| && left != [] && (Resolve(tree, d, names[..|names| - 1]) == Dir(e) <==> |left| == 1)
            case File(_, e, left) =>
              |left| < |names| && (Resolve(tree, d, names[..|names| - 1]) == Dir(e) <==> left == [])
            case Dir(_) => true
    decreases |names|
  {
    var front := names[..|names| - 1];
    if |names| > 1 && d in tree && names[0] in tree[d] && tree[d][names[0]].isDir {
      LastStep(tree, tree[d][names[0]].id, names[1..]);
      assert front[0] == names[0] && front[1..] == names[1..][..|names[1..]| - 1];
    } else if |names| > 1 {
      assert front[0] == names[0];
    } else {
      assert front == [];
    }
  }

  /** How many names the search looks up, told from where it ends. */
  lemma {:induction false} LookedUpIs(tree: Tree, d: nat, names: seq<Text>)
    ensures match Resolve(tree, d, names)
            case Missing(_, left) => 0 < |left| <= |names| && LookedUp(tree, d, names) == |names| - |left| + 1
            case File(_, _, left) => |left| <= |names| && LookedUp(tree, d, names) == |names| - |left|
            case Dir(_) => LookedUp(tree, d, names) == |names|
    decreases |names|
  {
    if names != [] && d in tree && names[0] in tree[d] && tree[d][names[0]].isDir {
      LookedUpIs(tree, tree[d][names[0]].id, names[1..]);
    }
  }

  lemma {:induction false} NoZeros(names: seq<Text>)
    requires forall i :: 0 <= i < |names| ==> IsName(names[i])
    ensures 0 !in Joined(names)
  {
    if names != [] {
      NoZeros(names[1..]);
    }
  }

  /** The searched part has no name that its search did not have room for. */
  lemma SearchedShort(tree: Tree, path: Text, hit: Hit, parent: nat, searched: Text)
    requires path != [] && path[0] == SLASH && 0 !in path && Components(path) != []
    requires Answer(tree, Components(path), hit, parent, searched)
    requires BufferAfter(tree, 0, Components(path)) == Kept
    ensures 0 !in searched && Components(searched) != [] && Short(Components(searched))
  {
    hide Joined, Components, IsName, BufferAfter, Resolve, LookedUp;
    var names := Components(path);
    NamesFit(path);
    KeptIsShort(tree, 0, names);
    LookedUpIs(tree, 0, names);
    var k := LookedUp(tree, 0, names);
    assert names[..|names|] == names;
    assert searched == Joined(names[..k]) && k > 0;
    NoZeros(names[..k]);
    ComponentsOfJoined(names[..k]);
  }

  lemma ShortNotOverlong(names: seq<Text>)
    requires Short(names)
    ensures !Overlong(names)
  {
  }

  /** The names sys_getcwd puts together, looked up from the root, end at the working directory. */
  lemma CwdResolves(tree: Tree, depth: map<nat, nat>, cwd: nat, names: seq<Text>, path: Text)
    requires TreeOk(tree, depth) && cwd in tree && Leads(tree, depth, names, cwd)
    requires path == if cwd == 0 then [SLASH] else Joined(names)
    ensures Resolve(tree, 0, Components(path)) == Dir(cwd) && path != [] && path[0] == SLASH
    ensures |path| == 1 ==> IsRoot(path)
    ensures |path| > 1 ==> Components(path) != []
  {
    hide TreeOk, Resolve;
    if cwd == 0 {
      RootResolves(tree, depth, path);
    } else {
      InDepth(tree, depth, cwd);
      LeadsResolves(tree, depth, names, cwd);
      ComponentsOfJoined(names);
    }
  }
}
