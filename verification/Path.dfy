/** fs/c14a_fs.c: splitting paths into names, and putting them together again. A path is the bytes in
    front of its terminating zero. */
module Paths {
  import opened Bytes

  const SLASH: byte := 47
  const DOT: Text := [46]
  const DOTDOT: Text := [46, 46]

  type Text = seq<byte>

  /** A file name: not empty, no slash, no zero. */
  predicate IsName(n: Text) {
    n != [] && SLASH !in n && 0 !in n
  }

  /** path_parse skips the slashes in front. */
  function SkipSlashes(p: Text): (r: Text)
    ensures |r| <= |p| && (r == [] || r[0] != SLASH)
  {
    if p != [] && p[0] == SLASH then SkipSlashes(p[1..]) else p
  }

  /** Then it copies up to the next slash or the end. */
  function UpToSlash(p: Text): (n: Text)
    ensures |n| <= |p| && n == p[..|n|] && SLASH !in n && (|n| < |p| ==> p[|n|] == SLASH)
  {
    if p == [] || p[0] == SLASH then [] else [p[0]] + UpToSlash(p[1..])
  }

  method SkipLoop(path: Text) returns (q: Text)
    ensures q == SkipSlashes(path)
  {
    q := path;
    while q != [] && q[0] == SLASH
      invariant SkipSlashes(q) == SkipSlashes(path)
      decreases |q|
    {
      q := q[1..];
    }
  }

  const NAME_SPACE := 16  // MAX_FILE_NAME_LEN, the size of the buffers for a name

  /** The copying loop. It does not look at the size of the buffer; `overrun` is the first byte behind it. */
  method CopyLoop(q: Text, store: array<byte>) returns (overrun: bool, rest: Text)
    modifies store
    ensures overrun <==> |UpToSlash(q)| > store.Length
    ensures !overrun ==> rest == q[|UpToSlash(q)|..]
    ensures !overrun ==> store[..] == UpToSlash(q) + old(store[..])[|UpToSlash(q)|..]
  {
    hide UpToSlash;
    overrun, rest := false, q;
    ghost var before, name: Text := store[..], [];
    var at := 0;
    while rest != [] && rest[0] != SLASH
      invariant |name| == at <= store.Length && at <= |q| && !overrun
      invariant name + UpToSlash(rest) == UpToSlash(q) && rest == q[at..] && store[..] == name + before[at..]
      decreases |rest|
    {
      CopyStep(name, rest);
      overrun := at == store.Length;
      if overrun {
        return;
      }
      ghost var was := store[..];
      store[at] := rest[0];
      assert store[..] == was[at := rest[0]];
      StoreStep(before, name, rest[0]);
      assert rest[1..] == q[at + 1..];
      name, rest, at := name + [rest[0]], rest[1..], at + 1;
    }
    CopyEnd(rest);
    assert name + [] == name;
  }

  lemma StoreStep(before: Text, name: Text, b: byte)
    requires |name| < |before|
    ensures (name + before[|name|..])[|name| := b] == (name + [b]) + before[|name| + 1..]
  {
  }

  lemma CopyEnd(rest: Text)
    requires rest == [] || rest[0] == SLASH
    ensures UpToSlash(rest) == []
  {
  }

  lemma CopyStep(name: Text, rest: Text)
    requires rest != [] && rest[0] != SLASH
    ensures name + UpToSlash(rest) == name + [rest[0]] + UpToSlash(rest[1..]) && |UpToSlash(rest)| > 0
  {
  }

  /** path_parse: the first name, copied to `store`, and what follows it; nothing follows at the end of the
      string. The buffer is overrun exactly by a name that is longer. */
  method PathParse(path: Text, store: array<byte>) returns (overrun: bool, rest: Text, more: bool)
    modifies store
    ensures var name := UpToSlash(SkipSlashes(path));
      && (overrun <==> |name| > store.Length)
      && (!overrun ==> rest == SkipSlashes(path)[|name|..] && (more <==> rest != []))
      && (!overrun ==> store[..] == name + old(store[..])[|name|..])
  {
    var q := SkipLoop(path);
    overrun, rest := CopyLoop(q, store);
    more := rest != [];
  }

  /** The names a path consists of, one path_parse after another, until one answers no name. */
  function Components(path: Text): seq<Text>
    decreases |path|
  {
    var q := SkipSlashes(path);
    var n := UpToSlash(q);
    if n == [] then [] else [n] + Components(q[|n|..])
  }

  /** Each name behind a slash. */
  function Joined(names: seq<Text>): Text {
    if names == [] then [] else [SLASH] + names[0] + Joined(names[1..])
  }

  lemma {:induction false} UpToName(n: Text, rest: Text)
    requires SLASH !in n && (rest == [] || rest[0] == SLASH)
    ensures UpToSlash(n + rest) == n
  {
    if n == [] {
      assert n + rest == rest;
    } else {
      var path := n + rest;
      assert path[0] == n[0] && n[0] in n && path[1..] == n[1..] + rest && n == [n[0]] + n[1..];
      UpToName(n[1..], rest);
    }
  }

  /** Splitting undoes joining. */
  lemma {:induction false} ComponentsOfJoined(names: seq<Text>)
    requires forall i :: 0 <= i < |names| ==> IsName(names[i])
    ensures Components(Joined(names)) == names
  {
    if names != [] {
      var n, rest := names[0], Joined(names[1..]);
      var path := Joined(names);
      assert path == [SLASH] + (n + rest) && path[1..] == n + rest;
      assert n[0] in n && (n + rest)[0] == n[0];
      assert SkipSlashes(path) == n + rest;
      UpToName(n, rest);
      assert (n + rest)[|n|..] == rest;
      ComponentsOfJoined(names[1..]);
    }
  }

  lemma {:induction false} JoinedAppend(a: seq<Text>, b: seq<Text>)
    ensures Joined(a + b) == Joined(a) + Joined(b)
  {
    if a == [] {
      assert a + b == b;
    } else {
      assert (a + b)[1..] == a[1..] + b;
      JoinedAppend(a[1..], b);
    }
  }

  function Reversed(names: seq<Text>): (r: seq<Text>)
    ensures |r| == |names| && forall i :: 0 <= i < |names| ==> r[i] == names[|names| - 1 - i]
  {
    if names == [] then [] else Reversed(names[1..]) + [names[0]]
  }

  lemma ReversedAppend(names: seq<Text>, n: Text)
    ensures Reversed(names + [n]) == [n] + Reversed(names)
  {
  }

  /** Turning the names around does not change the length of the path. */
  lemma {:induction false} SameLength(names: seq<Text>)
    ensures |Joined(Reversed(names))| == |Joined(names)|
  {
    if names != [] {
      SameLength(names[1..]);
      JoinedAppend(Reversed(names[1..]), [names[0]]);
      JoinedOne(names[0]);
    }
  }

  /** strrchr for a slash; -1 when there is none. */
  method LastSlash(s: Text) returns (k: int)
    ensures -1 <= k < |s| && (k >= 0 ==> s[k] == SLASH) && forall i :: k < i < |s| ==> s[i] != SLASH
  {
    k := -1;
    var i := 0;
    while i < |s|
      invariant i <= |s| && -1 <= k < i && (k >= 0 ==> s[k] == SLASH) && forall j :: k < j < i ==> s[j] != SLASH
    {
      if s[i] == SLASH {
        k := i;
      }
      i := i + 1;
    }
  }

  /** The last slash of a joined path is the one in front of the last name. */
  lemma LastPiece(names: seq<Text>, k: int)
    requires names != [] && IsName(names[|names| - 1])
    requires -1 <= k < |Joined(names)| && (k >= 0 ==> Joined(names)[k] == SLASH)
    requires forall i :: k < i < |Joined(names)| ==> Joined(names)[i] != SLASH
    ensures k >= 0 && Joined(names)[..k] == Joined(names[..|names| - 1])
    ensures Joined(names)[k..] == Joined([names[|names| - 1]])
  {
    hide Joined;
    var front, last := names[..|names| - 1], names[|names| - 1];
    assert names == front + [last];
    JoinedAppend(front, [last]);
    JoinedOne(last);
    OnlySlash(Joined(front), last, k);
  }

  lemma JoinedOne(n: Text)
    ensures Joined([n]) == [SLASH] + n
  {
    assert Joined([]) == [];
  }

  lemma OnlySlash(front: Text, last: Text, k: int)
    requires SLASH !in last && -1 <= k < |front + ([SLASH] + last)|
    requires (k >= 0 ==> (front + ([SLASH] + last))[k] == SLASH)
    requires forall i :: k < i < |front + ([SLASH] + last)| ==> (front + ([SLASH] + last))[i] != SLASH
    ensures k == |front| && (front + ([SLASH] + last))[..k] == front
    ensures (front + ([SLASH] + last))[k..] == [SLASH] + last
  {
    var path := front + ([SLASH] + last);
    assert path[|front|] == SLASH;
    forall i | |front| < i < |path| ensures path[i] in last {
      assert path[i] == last[i - |front| - 1];
    }
  }

  /** The loop at the end of sys_getcwd: the pieces of a path written back to front are put in order. */
  method Unreverse(reversed: Text, ghost names: seq<Text>) returns (buf: Text)
    requires reversed == Joined(names) && forall i :: 0 <= i < |names| ==> IsName(names[i])
    ensures buf == Joined(Reversed(names))
  {
    buf := [];
    var full := reversed;
    ghost var m := |names|;
    assert names[..m] == names && names[m..] == [];
    var slash := LastSlash(full);
    while slash >= 0
      invariant 0 <= m <= |names| && full == Joined(names[..m]) && buf == Joined(Reversed(names[m..]))
      invariant -1 <= slash < |full| && (slash >= 0 ==> full[slash] == SLASH)
      invariant forall i :: slash < i < |full| ==> full[i] != SLASH
      decreases m
    {
      assert m > 0;
      LastPiece(names[..m], slash);
      assert names[..m][..m - 1] == names[..m - 1] && names[m - 1..][1..] == names[m..];
      JoinedAppend(Reversed(names[m..]), [names[m - 1]]);
      buf := buf + full[slash..];
      full := full[..slash];
      m := m - 1;
      slash := LastSlash(full);
    }
    NoSlashNoName(names[..m]);
    assert names[m..] == names;
  }

  lemma NoSlashNoName(names: seq<Text>)
    requires forall i :: 0 <= i < |Joined(names)| ==> Joined(names)[i] != SLASH
    ensures names == []
  {
    if names != [] {
      assert Joined(names)[0] == SLASH;
    }
  }
}
