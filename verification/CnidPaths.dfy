/**
  The host paths that catalog node IDs stand for: how they are made of names, and that different IDs stand for
  different files.
 */
module CnidPaths {
  import opened CnidTable

  // ---------- Paths are names between slashes ----------

  /** What a file may be called. */
  predicate Clean(name: string) {
    name != "" && '/' !in name
  }

  ghost predicate CleanNames(items: seq<Item>) {
    forall i :: 2 <= i < |items| ==> Clean(items[i].name)
  }

  /** The names on the way from the root down to an item. */
  function Chain(items: seq<Item>, k: nat): (names: seq<string>)
    requires k < |items| && forall j :: 0 <= j <= k ==> ParentOk(items, j)
    decreases k
  {
    assert ParentOk(items, k);
    if k <= 1 then [] else Chain(items, items[k].up) + [items[k].name]
  }

  function Joined(names: seq<string>): (path: string)
    decreases |names|
  {
    if names == [] then "" else Joined(names[..|names| - 1]) + "/" + names[|names| - 1]
  }

  /** The root's path without a slash at its end. */
  function Trimmed(rootPath: string): (path: string) {
    if rootPath != "" && rootPath[|rootPath| - 1] == '/' then rootPath[..|rootPath| - 1] else rootPath
  }

  /** The item is in the root directory, or in one of those below it. */
  predicate InRoot(t: Table, k: nat)
    requires k < |t.items| && forall j :: 0 <= j <= k ==> ParentOk(t.items, j)
  {
    k > 1 && Under(t.items, k, 1)
  }

  /** A path is that of the root and, each after one slash, the names on the way down. */
  lemma {:induction false} PathIsJoined(t: Table, rootPath: string, k: nat)
    requires Inv(t) && CleanNames(t.items) && k < |t.items| && InRoot(t, k)
    ensures Chain(t.items, k) != [] && forall n :: n in Chain(t.items, k) ==> Clean(n)
    ensures Path(t.items, rootPath, k) == Trimmed(rootPath) + Joined(Chain(t.items, k))
    decreases k
  {
    assert ParentOk(t.items, k);
    var up, name := t.items[k].up, t.items[k].name;
    var above := Chain(t.items, up);
    assert Chain(t.items, k) == above + [name] && (above + [name])[..|above|] == above;
    assert Joined(above + [name]) == Joined(above) + "/" + name;
    assert t.items[k].id != ROOT_PARENT_ID && t.items[k].id != ROOT_ID;
    if up == 1 {
      assert ParentOk(t.items, 1);
      assert Path(t.items, rootPath, 1) == rootPath;
      FirstComponent(rootPath, name);
    } else {
      PathIsJoined(t, rootPath, up);
      NextComponent(Trimmed(rootPath), above, name);
    }
  }

  lemma FirstComponent(rootPath: string, name: string)
    ensures AddComponent(rootPath, name) == Trimmed(rootPath) + (Joined([]) + "/" + name)
  {
  }

  lemma NextComponent(root: string, above: seq<string>, name: string)
    requires above != [] && forall n :: n in above ==> Clean(n)
    ensures AddComponent(root + Joined(above), name) == root + (Joined(above) + "/" + name)
  {
    var last := above[|above| - 1];
    var path := root + Joined(above);
    assert Clean(last);
    assert path == root + (Joined(above[..|above| - 1]) + "/" + last);
    assert path[|path| - 1] == last[|last| - 1];
  }

  // ---------- Different files have different paths ----------

  /** Which names a path is made of can be read off it. */
  lemma {:induction false} JoinedOnce(a: seq<string>, b: seq<string>)
    requires (forall n :: n in a ==> Clean(n)) && (forall n :: n in b ==> Clean(n)) && Joined(a) == Joined(b)
    ensures a == b
    decreases |a|
  {
    if a != [] && b != [] {
      var m, n := |a| - 1, |b| - 1;
      assert Clean(a[m]) && Clean(b[n]);
      LastName(Joined(a[..m]), a[m], Joined(b[..n]), b[n]);
      JoinedOnce(a[..m], b[..n]);
      assert a == a[..m] + [a[m]] && b == b[..n] + [b[n]];
    }
  }

  lemma LastName(x: string, a: string, y: string, b: string)
    requires '/' !in a && '/' !in b && x + "/" + a == y + "/" + b
    ensures x == y && a == b
  {
    var s, r := x + "/" + a, y + "/" + b;
    assert s[|x|] == '/' && r[|y|] == '/';
    assert |x| == |y|;
    assert x == s[..|x|] && y == r[..|y|] && a == s[|x| + 1..] && b == r[|y| + 1..];
  }

  /** No two items in one directory have one name. */
  ghost predicate SiblingsDiffer(items: seq<Item>) {
    forall i, j :: 2 <= i < j < |items| && items[i].up == items[j].up ==> items[i].name != items[j].name
  }

  lemma UpInRoot(t: Table, k: nat)
    requires Inv(t) && k < |t.items| && InRoot(t, k)
    ensures var up := t.items[k].up; 0 <= up < k && ParentOk(t.items, up) && (up == 1 || InRoot(t, up))
  {
    assert ParentOk(t.items, k);
  }

  lemma {:induction false} ChainOnce(t: Table, i: nat, j: nat)
    requires Inv(t) && SiblingsDiffer(t.items) && i < |t.items| && j < |t.items|
    requires (i == 1 || InRoot(t, i)) && (j == 1 || InRoot(t, j)) && Chain(t.items, i) == Chain(t.items, j)
    ensures i == j
    decreases i
  {
    assert ParentOk(t.items, i) && ParentOk(t.items, j);
    if i > 1 && j > 1 {
      var a, b := Chain(t.items, t.items[i].up), Chain(t.items, t.items[j].up);
      assert (a + [t.items[i].name])[..|a|] == a && (b + [t.items[j].name])[..|b|] == b;
      UpInRoot(t, i);
      UpInRoot(t, j);
      assert (a + [t.items[i].name])[|a|] == t.items[i].name && (b + [t.items[j].name])[|b|] == t.items[j].name;
      ChainOnce(t, t.items[i].up, t.items[j].up);
    }
  }

  /** Two items have one path only if they are the same. */
  lemma PathsDiffer(t: Table, rootPath: string, i: nat, j: nat)
    requires Inv(t) && CleanNames(t.items) && SiblingsDiffer(t.items) && i < |t.items| && j < |t.items|
    requires (i == 1 || InRoot(t, i)) && (j == 1 || InRoot(t, j))
    ensures Path(t.items, rootPath, i) == Path(t.items, rootPath, j) <==> i == j
  {
    hide Chain, SiblingsDiffer;
    if i != j {
      if i > 1 { PathIsJoined(t, rootPath, i); }
      if j > 1 { PathIsJoined(t, rootPath, j); }
      if i > 1 && j > 1 {
        if Path(t.items, rootPath, i) == Path(t.items, rootPath, j) {
          SameStart(Trimmed(rootPath), Joined(Chain(t.items, i)), Joined(Chain(t.items, j)));
          JoinedOnce(Chain(t.items, i), Chain(t.items, j));
          ChainOnce(t, i, j);
        }
      } else {
        RootShorter(t, rootPath, if i > 1 then i else j);
      }
    }
  }

  lemma SameStart(x: string, a: string, b: string)
    requires x + a == x + b
    ensures a == b
  {
    assert a == (x + a)[|x|..] && b == (x + b)[|x|..];
  }

  lemma RootShorter(t: Table, rootPath: string, k: nat)
    requires Inv(t) && k < |t.items| && InRoot(t, k) && CleanNames(t.items)
    ensures Path(t.items, rootPath, 1) == rootPath != Path(t.items, rootPath, k)
  {
    PathIsJoined(t, rootPath, k);
    var names := Chain(t.items, k);
    assert Clean(names[|names| - 1]);
    hide Chain;
    assert |Joined(names)| >= 2;
    assert ParentOk(t.items, 1);
  }

  // ---------- Every run ----------

  /** Host names are looked up, and no guest names. */
  predicate ByHostName(op: Op) {
    match op
    case LookUp(name, _) => Clean(name)
    case LookUpGuest(_, _) => false
    case RenameTo(_, _, _) => true
    case MoveTo(_, _, _) => true
  }

  lemma FindItemKeepsSiblings(t: Table, name: string, parent: nat, toMac: string -> string)
    requires parent < |t.items| && SiblingsDiffer(t.items) && CleanNames(t.items) && Clean(name)
    ensures var t' := FindItem(t, name, parent, toMac).0; SiblingsDiffer(t'.items) && CleanNames(t'.items)
  {
    FindItemFinds(t, name, parent, toMac);
    hide FindItem;
    var t' := FindItem(t, name, parent, toMac).0;
    if t' != t {
      forall i | 2 <= i < |t.items|
        ensures t'.items[i] == t.items[i] && !Named(t.items[i], name, parent)
      {
      }
    }
  }

  lemma SwapKeepsSiblings(t: Table, i: nat, j: nat)
    requires i < |t.items| && j < |t.items| && DistinctIds(t.items)
    requires SiblingsDiffer(t.items) && CleanNames(t.items)
    ensures SiblingsDiffer(SwapIds(t, i, j).items) && CleanNames(SwapIds(t, i, j).items)
  {
    hide SwapIds;
    forall k | 0 <= k < |t.items|
      ensures SwapIds(t, i, j).items[k].up == t.items[k].up && SwapIds(t, i, j).items[k].name == t.items[k].name
    {
      SwapIdsAt(t, i, j, k);
    }
  }

  /** From the start on, as long as files are looked up by their host names, different items have different paths. */
  lemma {:induction false} RunKeepsSiblings(s: Table, t: Table, ops: seq<Op>, toMac: string -> string,
                                            toHost: string -> string)
    requires Inv(s) && Reachable(s, t, ops, toMac, toHost)
    requires forall k :: 0 <= k < |ops| ==> ByHostName(ops[k])
    requires SiblingsDiffer(s.items) && CleanNames(s.items)
    ensures Inv(t) && SiblingsDiffer(t.items) && CleanNames(t.items)
    decreases |ops|
  {
    if ops != [] {
      assert ByHostName(ops[0]);
      hide Inv, SiblingsDiffer, CleanNames, Rename, Move;
      ApplyKeepsSiblings(s, ops[0], toMac, toHost);
      hide Apply;
      ApplyKeepsInv(s, ops[0], toMac, toHost);
      RunKeepsSiblings(Apply(s, ops[0], toMac, toHost), t, ops[1..], toMac, toHost);
    }
  }

  lemma ApplyKeepsSiblings(s: Table, op: Op, toMac: string -> string, toHost: string -> string)
    requires Inv(s) && Possible(s, op) && ByHostName(op) && SiblingsDiffer(s.items) && CleanNames(s.items)
    ensures var t := Apply(s, op, toMac, toHost); SiblingsDiffer(t.items) && CleanNames(t.items)
  {
    hide SiblingsDiffer, CleanNames, FindItem, SwapIds;
    match op
    case LookUp(name, parent) => FindItemKeepsSiblings(s, name, parent, toMac);
    case LookUpGuest(_, _) =>
    case RenameTo(i, j, _) => SwapKeepsSiblings(s, i, j);
    case MoveTo(i, dir, _) =>
      var name := s.items[i].name;
      var (t, j) := FindItem(s, name, dir, toMac);
      assert Clean(name) by { NameIsClean(s.items, i); }
      FindItemKeepsSiblings(s, name, dir, toMac);
      FindItemKeepsInv(s, name, dir, toMac, "");
      SwapKeepsSiblings(t, i, j);
  }

  lemma NameIsClean(items: seq<Item>, i: nat)
    requires CleanNames(items) && 2 <= i < |items|
    ensures Clean(items[i].name)
  {
  }

  /** So different IDs stand for different files, and the same ID for the same: two IDs of files below the root
      resolve to one path if and only if they are equal. */
  lemma IdsResolveApart(volumeName: string, guestName: string, t: Table, ops: seq<Op>, toMac: string -> string,
                        toHost: string -> string, rootPath: string, i: nat, j: nat)
    requires Reachable(CnidTable.Initial(volumeName, guestName), t, ops, toMac, toHost)
    requires forall k :: 0 <= k < |ops| ==> ByHostName(ops[k])
    ensures Inv(t)
    ensures i < |t.items| && j < |t.items| && InRoot(t, i) && InRoot(t, j) ==>
              (Resolve(t, rootPath, t.items[i].id) == Resolve(t, rootPath, t.items[j].id) <==>
                 t.items[i].id == t.items[j].id)
  {
    var s := CnidTable.Initial(volumeName, guestName);
    InitialInv(volumeName, guestName);
    assert SiblingsDiffer(s.items) && CleanNames(s.items);
    RunKeepsSiblings(s, t, ops, toMac, toHost);
    if i < |t.items| && j < |t.items| && InRoot(t, i) && InRoot(t, j) {
      hide SiblingsDiffer, CleanNames, Reachable, Path;
      PathsDiffer(t, rootPath, i, j);
      FindDistinct(t.items, i);
      FindDistinct(t.items, j);
    }
  }

  /** Looking up by a guest name keeps names apart if and only if it finds an item, or the name that it is
      converted to is new in its directory. */
  lemma GuestLookupKeepsSiblings(t: Table, guestName: string, parent: nat, toHost: string -> string)
    requires parent < |t.items| && SiblingsDiffer(t.items)
    requires forall i :: 0 <= i < 2 && i < |t.items| ==> t.items[i].up != parent
    ensures var t' := FindItemGuest(t, guestName, parent, toHost).0;
      SiblingsDiffer(t'.items) <==>
        || (exists k :: 0 <= k < |t.items| && GuestNamed(t.items[k], guestName, parent))
        || (forall k :: 0 <= k < |t.items| ==> !Named(t.items[k], toHost(guestName), parent))
  {
    FindItemGuestFinds(t, guestName, parent, toHost);
    hide FindItemGuest;
    var t' := FindItemGuest(t, guestName, parent, toHost).0;
    if t' != t {
      var n := |t.items|;
      assert forall i :: 0 <= i < n ==> t'.items[i] == t.items[i];
      if k :| 0 <= k < n && Named(t.items[k], toHost(guestName), parent) {
        assert t'.items[k].up == t'.items[n].up && t'.items[k].name == t'.items[n].name;
      }
    }
  }
}
