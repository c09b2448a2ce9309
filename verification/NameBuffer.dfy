/** fs/c14a_fs.c: the 16 bytes on the stack into which path_depth_count and search_file parse each name. Nothing
    checks that a name fits. */
module NameBuffers {
  import opened Bytes
  import opened DirData
  import opened Paths
  import opened Trees

  /** What parsing leaves of the buffer: a name with its zero, a name without one, or bytes written behind it. */
  datatype Buffer = Kept | Unended | Overrun

  /** The buffer holds `name`, and zeros behind it. */
  predicate StoredIn(store: seq<byte>, name: Text) {
    |name| <= |store| && store == name + Zeros(|store| - |name|)
  }

  /** What the code sees of it: whether there is a name, and where it ends. */
  lemma StoredReads(store: seq<byte>, name: Text)
    requires StoredIn(store, name) && store != [] && 0 !in name
    ensures store[0] == 0 <==> name == []
    ensures 0 in store <==> |name| < |store|
    ensures |name| < |store| ==> CString(store) == name
  {
    var tail := Zeros(|store| - |name|);
    assert name != [] ==> store[0] == name[0] && name[0] in name;
    if |name| < |store| {
      assert store[|name|] == 0;
      CStringStops(name, tail);
    } else {
      assert store == name;
    }
  }

  /** memset */
  method Clear(store: array<byte>)
    modifies store
    ensures store[..] == Zeros(store.Length)
  {
    forall i | 0 <= i < store.Length {
      store[i] := 0;
    }
  }

  /** The name that the next path_parse copies. */
  function FirstName(rest: Text): Text {
    UpToSlash(SkipSlashes(rest))
  }

  /** memset and, unless the string is at its end, path_parse. */
  method NextName(rest: Text, more: bool, store: array<byte>) returns (overrun: bool, rest1: Text, more1: bool)
    requires more <==> rest != []
    modifies store
    ensures overrun <==> |FirstName(rest)| > store.Length
    ensures !overrun ==> StoredIn(store[..], FirstName(rest)) && rest1 == SkipSlashes(rest)[|FirstName(rest)|..]
    ensures !overrun ==> (more1 <==> rest1 != [])
  {
    Clear(store);
    overrun, rest1, more1 := false, [], false;
    if more {
      overrun, rest1, more1 := PathParse(rest, store);
      assert !overrun ==> Zeros(store.Length)[|FirstName(rest)|..] == Zeros(store.Length - |FirstName(rest)|);
    } else {
      assert FirstName(rest) == [];
    }
  }

  /** Some name is longer than the buffer. */
  ghost predicate Overlong(names: seq<Text>) {
    exists i :: 0 <= i < |names| && |names[i]| > NAME_SPACE
  }

  lemma OverlongFirst(n: Text, names: seq<Text>)
    ensures Overlong([n] + names) <==> |n| > NAME_SPACE || Overlong(names)
  {
    var all := [n] + names;
    if Overlong(names) {
      var i :| 0 <= i < |names| && |names[i]| > NAME_SPACE;
      assert all[i + 1] == names[i];
    }
    if |n| > NAME_SPACE {
      assert all[0] == n;
    }
    if Overlong(all) && |n| <= NAME_SPACE {
      var i :| 0 <= i < |all| && |all[i]| > NAME_SPACE;
      assert names[i - 1] == all[i];
    }
  }

  /** What search_file makes of its buffer. A name is parsed as soon as the one in front of it is found, also when
      that is a file, behind which the search ends. */
  function BufferAfter(tree: Tree, d: nat, names: seq<Text>): Buffer
    decreases |names|
  {
    if names == [] then Kept
    else if |names[0]| > NAME_SPACE then Overrun
    else if |names[0]| == NAME_SPACE then Unended
    else if d !in tree || names[0] !in tree[d] then Kept
    else if tree[d][names[0]].isDir then BufferAfter(tree, tree[d][names[0]].id, names[1..])
    else if |names| > 1 && |names[1]| > NAME_SPACE then Overrun
    else Kept
  }

  /** How many names the search looks up, and how many it parses. */
  function LookedUp(tree: Tree, d: nat, names: seq<Text>): (n: nat)
    ensures n <= |names|
    decreases |names|
  {
    if names == [] then 0
    else if d in tree && names[0] in tree[d] && tree[d][names[0]].isDir then
      1 + LookedUp(tree, tree[d][names[0]].id, names[1..])
    else 1
  }

  function ParsedNames(tree: Tree, d: nat, names: seq<Text>): (n: nat)
    ensures LookedUp(tree, d, names) <= n <= |names|
  {
    if Resolve(tree, d, names).File? && LookedUp(tree, d, names) < |names| then LookedUp(tree, d, names) + 1
    else LookedUp(tree, d, names)
  }

  /** Name `i` is the first one that does not leave room for its zero. */
  predicate FirstLong(names: seq<Text>, i: nat) {
    i < |names| && |names[i]| >= NAME_SPACE && forall j :: 0 <= j < i ==> |names[j]| < NAME_SPACE
  }

  lemma FirstLongNext(names: seq<Text>, i: nat)
    requires names != [] && |names[0]| < NAME_SPACE
    ensures FirstLong(names, i) <==> i > 0 && FirstLong(names[1..], i - 1)
  {
    var rest := names[1..];
    if i > 0 && FirstLong(rest, i - 1) {
      assert forall j :: 0 < j < i ==> names[j] == rest[j - 1];
    }
  }

  /** The buffer is overrun if and only if the first parsed name without room for its zero has more than 16
      bytes; and it is left without a zero if and only if that name has exactly 16 and is looked up. */
  lemma {:induction false} OverrunBy(tree: Tree, d: nat, names: seq<Text>)
    ensures BufferAfter(tree, d, names) == Overrun <==>
      exists i :: 0 <= i < ParsedNames(tree, d, names) && FirstLong(names, i) && |names[i]| > NAME_SPACE
    ensures BufferAfter(tree, d, names) == Unended <==>
      exists i :: 0 <= i < LookedUp(tree, d, names) && FirstLong(names, i) && |names[i]| == NAME_SPACE
    decreases |names|
  {
    if names != [] {
      if |names[0]| >= NAME_SPACE {
        assert FirstLong(names, 0);
      } else {
        forall i: nat ensures FirstLong(names, i) <==> i > 0 && FirstLong(names[1..], i - 1) {
          FirstLongNext(names, i);
        }
        if d in tree && names[0] in tree[d] && tree[d][names[0]].isDir {
          var e := tree[d][names[0]].id;
          OverrunBy(tree, e, names[1..]);
          assert ParsedNames(tree, d, names) == 1 + ParsedNames(tree, e, names[1..]);
          forall i: nat | 0 < i < |names| ensures names[i] == names[1..][i - 1] {}
        }
      }
    }
  }

  /** Every name leaves room for its zero. */
  predicate Short(names: seq<Text>) {
    forall i :: 0 <= i < |names| ==> |names[i]| < NAME_SPACE
  }

  lemma ShortIsKept(tree: Tree, d: nat, names: seq<Text>)
    requires Short(names)
    ensures BufferAfter(tree, d, names) == Kept && !Overlong(names)
  {
    OverrunBy(tree, d, names);
  }

  /** Every name that was looked up in an intact buffer had room for its zero. */
  lemma {:induction false} KeptIsShort(tree: Tree, d: nat, names: seq<Text>)
    requires BufferAfter(tree, d, names) == Kept
    ensures Short(names[..LookedUp(tree, d, names)])
    decreases |names|
  {
    if names != [] && d in tree && names[0] in tree[d] && tree[d][names[0]].isDir {
      var e := tree[d][names[0]].id;
      KeptIsShort(tree, e, names[1..]);
      forall i | 0 <= i < LookedUp(tree, d, names) ensures |names[i]| < NAME_SPACE {
        if i > 0 {
          assert names[i] == names[1..][..LookedUp(tree, e, names[1..])][i - 1];
        }
      }
    }
  }

  /** A path of one name keeps the buffer if and only if the name has fewer than 16 bytes; 300 bytes do not. */
  lemma LongName(tree: Tree, n: Text)
    requires IsName(n)
    ensures Components([SLASH] + n) == [n]
    ensures BufferAfter(tree, 0, [n]) == if |n| > 16 then Overrun else if |n| == 16 then Unended else Kept
    ensures BufferAfter(tree, 0, [seq(300, _ => 97)]) == Overrun
  {
    JoinedOne(n);
    ComponentsOfJoined([n]);
    assert [n][1..] == [];
  }
}
