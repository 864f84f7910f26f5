/**
  The table that maps catalog node IDs to host files, as a value: the items in list order.

  A rename or a move makes a new item for the new name and exchanges the two items' IDs, so that
  the old ID goes on naming the file. `ExtFs` has the code; here is what it does and what holds.
 */
module CnidTable {
  import opened Options

  const ROOT_PARENT_ID := 1
  const ROOT_ID := 2
  const FS_USR_CNID := 16

  /** An item; `up` is its parent's place in the list, -1 for the root's parent. */
  datatype Item = Item(id: int, parentId: int, up: int, name: string, guestName: string)

  datatype Table = Table(items: seq<Item>, nextCnid: int)

  // ---------- Well-formed tables ----------

  /** Parents come earlier in the list, and `parentId` is the parent's ID. */
  predicate ParentOk(items: seq<Item>, i: nat)
    requires i < |items|
  {
    if i == 0 then items[i].up == -1
    else 0 <= items[i].up < i && items[i].parentId == items[items[i].up].id
  }

  ghost predicate DistinctIds(items: seq<Item>) {
    forall i, j :: 0 <= i < j < |items| ==> items[i].id != items[j].id
  }

  ghost predicate Inv(t: Table) {
    && |t.items| >= 2
    && t.items[0].id == ROOT_PARENT_ID && t.items[1].id == ROOT_ID
    && (forall i :: 0 <= i < |t.items| ==> ParentOk(t.items, i))
    && DistinctIds(t.items)
    && t.nextCnid >= FS_USR_CNID
    && (forall i :: 0 <= i < |t.items| ==> 0 < t.items[i].id < t.nextCnid)
    && (forall i :: 2 <= i < |t.items| ==> t.items[i].id >= FS_USR_CNID)
  }

  /** The table after initialization. */
  function Initial(volumeName: string, guestName: string): Table {
    Table([Item(ROOT_PARENT_ID, 0, -1, "", ""), Item(ROOT_ID, ROOT_PARENT_ID, 0, volumeName, guestName)], FS_USR_CNID)
  }

  lemma InitialInv(volumeName: string, guestName: string)
    ensures Inv(Initial(volumeName, guestName))
  {
  }

  // ---------- Paths ----------

  /** A path with one more component; the separator is not doubled. */
  function AddComponent(path: string, name: string): (r: string) {
    path + (if path != "" && path[|path| - 1] == '/' then "" else "/") + name
  }

  /** The path of item `i`: the root's, extended by the names on the way down. */
  function Path(items: seq<Item>, rootPath: string, i: nat): (path: string)
    requires i < |items| && forall j :: 0 <= j <= i ==> ParentOk(items, j)
    decreases i
  {
    assert ParentOk(items, i);
    if items[i].id == ROOT_PARENT_ID || i == 0 then ""
    else if items[i].id == ROOT_ID then rootPath
    else AddComponent(Path(items, rootPath, items[i].up), items[i].name)
  }

  /** The first item with the ID. */
  function Find(items: seq<Item>, cnid: int): (r: Option<nat>)
    ensures r.Some? ==> r.value < |items| && items[r.value].id == cnid
    ensures r.None? ==> forall i :: 0 <= i < |items| ==> items[i].id != cnid
  {
    FindFrom(items, cnid, 0)
  }

  function FindFrom(items: seq<Item>, cnid: int, from: nat): (r: Option<nat>)
    requires from <= |items|
    ensures r.Some? ==> from <= r.value < |items| && items[r.value].id == cnid
    ensures r.None? ==> forall i :: from <= i < |items| ==> items[i].id != cnid
    decreases |items| - from
  {
    if from == |items| then None else if items[from].id == cnid then Some(from) else FindFrom(items, cnid, from + 1)
  }

  /** What path an ID resolves to. */
  function Resolve(t: Table, rootPath: string, cnid: int): (r: Option<string>)
    requires forall j :: 0 <= j < |t.items| ==> ParentOk(t.items, j)
  {
    match Find(t.items, cnid)
    case None => None
    case Some(i) => Some(Path(t.items, rootPath, i))
  }

  lemma FindDistinct(items: seq<Item>, i: nat)
    requires i < |items| && DistinctIds(items)
    ensures Find(items, items[i].id) == Some(i)
  {
  }

  // ---------- Operations ----------

  /** What fits a guest name field of 32 characters with its terminator. */
  function Cut(s: string): (r: string)
    ensures |r| <= 31
  {
    if |s| > 31 then s[..31] else s
  }

  function Create(t: Table, name: string, guestName: string, parent: nat): (t': Table)
    requires parent < |t.items|
  {
    Table(t.items + [Item(t.nextCnid, t.items[parent].id, parent, name, Cut(guestName))], t.nextCnid + 1)
  }

  /** The first item from `from` on with this host name under this parent. */
  function FindName(items: seq<Item>, name: string, parent: nat, from: nat): (r: Option<nat>)
    requires from <= |items|
    ensures r.Some? ==> from <= r.value < |items| && items[r.value].up == parent && items[r.value].name == name
    decreases |items| - from
  {
    if from == |items| then None
    else if items[from].up == parent && items[from].name == name then Some(from)
    else FindName(items, name, parent, from + 1)
  }

  /** The same, by guest name. */
  function FindGuestName(items: seq<Item>, guestName: string, parent: nat, from: nat): (r: Option<nat>)
    requires from <= |items|
    ensures r.Some? ==>
      from <= r.value < |items| && items[r.value].up == parent && items[r.value].guestName == guestName
    decreases |items| - from
  {
    if from == |items| then None
    else if items[from].up == parent && items[from].guestName == guestName then Some(from)
    else FindGuestName(items, guestName, parent, from + 1)
  }

  /** Find-or-create by host name; `toMac` converts it to a guest name. */
  function FindItem(t: Table, name: string, parent: nat, toMac: string -> string): (r: (Table, nat))
    requires parent < |t.items|
    ensures t.items <= r.0.items && r.1 < |r.0.items|
    ensures r.0.items[r.1].up == parent && r.0.items[r.1].name == name
  {
    match FindName(t.items, name, parent, 0)
    case Some(i) => (t, i)
    case None => (Create(t, name, toMac(name), parent), |t.items|)
  }

  /** Find-or-create by guest name; `toHost` converts it to a host name. */
  function FindItemGuest(t: Table, guestName: string, parent: nat, toHost: string -> string): (r: (Table, nat))
    requires parent < |t.items|
    ensures t.items <= r.0.items && r.1 < |r.0.items| && r.0.items[r.1].up == parent
  {
    match FindGuestName(t.items, guestName, parent, 0)
    case Some(i) => (t, i)
    case None => (Create(t, toHost(guestName), guestName, parent), |t.items|)
  }

  function Swapped(x: int, a: int, b: int): (r: int) {
    if x == a then b else if x == b then a else x
  }

  /** Exchanges two parent IDs in all items. */
  function SwapParentIds(items: seq<Item>, a: int, b: int): (r: seq<Item>)
    ensures |r| == |items|
  {
    seq(|items|, i requires 0 <= i < |items| => items[i].(parentId := Swapped(items[i].parentId, a, b)))
  }

  /** Exchanges the IDs of two items, and with them the parent IDs of their children. */
  function SwapIds(t: Table, i: nat, j: nat): (t': Table)
    requires i < |t.items| && j < |t.items|
    ensures |t'.items| == |t.items|
  {
    var a, b := t.items[i].id, t.items[j].id;
    var s := SwapParentIds(t.items, a, b);
    t.(items := s[i := s[i].(id := b)][j := s[j].(id := a)])
  }

  // ---------- Lookups ----------

  /** The item has this name in this directory. */
  predicate Named(item: Item, name: string, parent: nat) {
    item.up == parent && item.name == name
  }

  predicate GuestNamed(item: Item, guestName: string, parent: nat) {
    item.up == parent && item.guestName == guestName
  }

  /** Item `i` is the first that has the name. */
  ghost predicate FirstNamed(items: seq<Item>, name: string, parent: nat, i: nat) {
    i < |items| && Named(items[i], name, parent) && forall k :: 0 <= k < i ==> !Named(items[k], name, parent)
  }

  ghost predicate FirstGuestNamed(items: seq<Item>, guestName: string, parent: nat, i: nat) {
    && i < |items| && GuestNamed(items[i], guestName, parent)
    && forall k :: 0 <= k < i ==> !GuestNamed(items[k], guestName, parent)
  }

  lemma {:induction false} FindNameIs(items: seq<Item>, name: string, parent: nat, from: nat)
    requires from <= |items| && forall k :: 0 <= k < from ==> !Named(items[k], name, parent)
    ensures var r := FindName(items, name, parent, from);
      if r.Some? then FirstNamed(items, name, parent, r.value)
      else forall k :: 0 <= k < |items| ==> !Named(items[k], name, parent)
    decreases |items| - from
  {
    if from < |items| && !Named(items[from], name, parent) { FindNameIs(items, name, parent, from + 1); }
  }

  lemma {:induction false} FindGuestNameIs(items: seq<Item>, guestName: string, parent: nat, from: nat)
    requires from <= |items| && forall k :: 0 <= k < from ==> !GuestNamed(items[k], guestName, parent)
    ensures var r := FindGuestName(items, guestName, parent, from);
      if r.Some? then FirstGuestNamed(items, guestName, parent, r.value)
      else forall k :: 0 <= k < |items| ==> !GuestNamed(items[k], guestName, parent)
    decreases |items| - from
  {
    if from < |items| && !GuestNamed(items[from], guestName, parent) {
      FindGuestNameIs(items, guestName, parent, from + 1);
    }
  }

  /** The one item that a lookup adds, if it adds any. */
  ghost predicate Adds(t: Table, t': Table, name: string, guestName: string, parent: nat)
    requires parent < |t.items|
  {
    && |t'.items| == |t.items| + 1 && t.items <= t'.items && t'.nextCnid == t.nextCnid + 1
    && t'.items[|t.items|] == Item(t.nextCnid, t.items[parent].id, parent, name, guestName)
  }

  /** A lookup finds the first item with the name, and changes nothing, or else adds one. */
  lemma FindItemFinds(t: Table, name: string, parent: nat, toMac: string -> string)
    requires parent < |t.items|
    ensures var (t', i) := FindItem(t, name, parent, toMac);
      && FirstNamed(t'.items, name, parent, i)
      && (if exists k :: 0 <= k < |t.items| && Named(t.items[k], name, parent) then t' == t
          else Adds(t, t', name, Cut(toMac(name)), parent))
  {
    hide Cut;
    FindNameIs(t.items, name, parent, 0);
  }

  lemma FindItemGuestFinds(t: Table, guestName: string, parent: nat, toHost: string -> string)
    requires parent < |t.items|
    ensures var (t', i) := FindItemGuest(t, guestName, parent, toHost);
      if exists k :: 0 <= k < |t.items| && GuestNamed(t.items[k], guestName, parent) then
        t' == t && FirstGuestNamed(t.items, guestName, parent, i)
      else
        i == |t.items| && Adds(t, t', toHost(guestName), Cut(guestName), parent)
  {
    hide Cut;
    FindGuestNameIs(t.items, guestName, parent, 0);
  }

  /** Looking a name up again gives the same item, and the same table. */
  lemma FindItemAgain(t: Table, name: string, parent: nat, toMac: string -> string)
    requires parent < |t.items|
    ensures var (t', i) := FindItem(t, name, parent, toMac); FindItem(t', name, parent, toMac) == (t', i)
  {
    FindItemFinds(t, name, parent, toMac);
    var (t', i) := FindItem(t, name, parent, toMac);
    FindItemFinds(t', name, parent, toMac);
    hide FindItem;
    assert Named(t'.items[i], name, parent);
  }

  /** So does looking a guest name up again, if and only if it is in the table already or not longer than what
      the table keeps of it. */
  lemma FindItemGuestAgain(t: Table, guestName: string, parent: nat, toHost: string -> string)
    requires parent < |t.items|
    ensures var (t', i) := FindItemGuest(t, guestName, parent, toHost);
      FindItemGuest(t', guestName, parent, toHost) == (t', i) <==>
        |guestName| <= 31 || exists k :: 0 <= k < |t.items| && GuestNamed(t.items[k], guestName, parent)
  {
    FindItemGuestFinds(t, guestName, parent, toHost);
    var (t', i) := FindItemGuest(t, guestName, parent, toHost);
    FindItemGuestFinds(t', guestName, parent, toHost);
    hide FindItemGuest;
    if |guestName| <= 31 && t' != t {
      assert GuestNamed(t'.items[i], guestName, parent);
      assert t.items == t'.items[..i];
    } else if t' != t {
      forall k | 0 <= k < |t'.items|
        ensures !GuestNamed(t'.items[k], guestName, parent)
      {
        if k < |t.items| { assert t'.items[k] == t.items[k]; }
      }
    }
  }

  /** A guest name of 32 characters: two lookups, two items. */
  lemma LongNameTwice(t: Table, toHost: string -> string)
    requires Inv(t) && forall k :: 0 <= k < |t.items| ==> |t.items[k].guestName| <= 31
    ensures var name := seq(32, _ => 'a');
      var (t', i) := FindItemGuest(t, name, 1, toHost);
      var (t'', j) := FindItemGuest(t', name, 1, toHost);
      |name| == 32 && i != j && t''.items[i].id != t''.items[j].id
  {
    var name := seq(32, _ => 'a');
    FindItemGuestFinds(t, name, 1, toHost);
    var (t', i) := FindItemGuest(t, name, 1, toHost);
    forall k | 0 <= k < |t'.items|
      ensures !GuestNamed(t'.items[k], name, 1)
    {
      if k < |t.items| { assert t'.items[k] == t.items[k]; }
    }
    FindItemGuestFinds(t', name, 1, toHost);
  }

  /** Operations that only look names up. */
  predicate LooksUp(op: Op) {
    op.LookUp? || op.LookUpGuest?
  }

  /** However many names are looked up, a name keeps its item, and the item its CNID. */
  lemma {:induction false} LookupsKeepNames(s: Table, t: Table, ops: seq<Op>, toMac: string -> string,
                                            toHost: string -> string, name: string, parent: nat, i: nat)
    requires Reachable(s, t, ops, toMac, toHost) && forall k :: 0 <= k < |ops| ==> LooksUp(ops[k])
    requires FirstNamed(s.items, name, parent, i) && parent < |s.items|
    ensures s.items <= t.items
    ensures FirstNamed(t.items, name, parent, i) && FindItem(t, name, parent, toMac) == (t, i)
    ensures t.items[i].id == s.items[i].id
    decreases |ops|
  {
    if ops == [] {
      FindItemFinds(t, name, parent, toMac);
      assert Named(t.items[i], name, parent);
    } else {
      hide FindItem, FindItemGuest;
      assert LooksUp(ops[0]);
      var s' := Apply(s, ops[0], toMac, toHost);
      assert s.items <= s'.items;
      assert forall k :: 0 <= k < |s.items| ==> s'.items[k] == s.items[k];
      LookupsKeepNames(s', t, ops[1..], toMac, toHost, name, parent, i);
    }
  }

  // ---------- What the operations keep ----------

  lemma CreateKeepsInv(t: Table, name: string, guestName: string, parent: nat)
    requires Inv(t) && parent < |t.items|
    ensures Inv(Create(t, name, guestName, parent))
  {
    var t' := Create(t, name, guestName, parent);
    forall i | 0 <= i < |t'.items|
      ensures ParentOk(t'.items, i)
    {
      if i < |t.items| { assert ParentOk(t.items, i); }
    }
  }

  /** An item's ID and parent ID after an exchange. */
  lemma SwapIdsAt(t: Table, i: nat, j: nat, k: nat)
    requires i < |t.items| && j < |t.items| && k < |t.items| && DistinctIds(t.items)
    ensures var a, b, x, y := t.items[i].id, t.items[j].id, t.items[k], SwapIds(t, i, j).items[k];
      && y.id == Swapped(x.id, a, b) && y.parentId == Swapped(x.parentId, a, b)
      && y.up == x.up && y.name == x.name && y.guestName == x.guestName
  {
  }

  lemma SwapIdsKeepsInv(t: Table, i: nat, j: nat)
    requires Inv(t) && 2 <= i < |t.items| && 2 <= j < |t.items|
    ensures Inv(SwapIds(t, i, j))
  {
    hide SwapIds;
    var t' := SwapIds(t, i, j);
    forall k | 0 <= k < |t.items|
      ensures t'.items[k].id == Swapped(t.items[k].id, t.items[i].id, t.items[j].id)
      ensures ParentOk(t'.items, k)
    {
      SwapIdsAt(t, i, j, k);
      assert ParentOk(t.items, k);
      if k > 0 { SwapIdsAt(t, i, j, t.items[k].up); }
    }
    SwapIdsAt(t, i, j, 0);
    assert t'.nextCnid == t.nextCnid by { SwapIdsNext(t, i, j); }
  }

  lemma SwapIdsNext(t: Table, i: nat, j: nat)
    requires i < |t.items| && j < |t.items|
    ensures SwapIds(t, i, j).nextCnid == t.nextCnid
  {
  }

  /** Paths go by position and names, so an exchange of IDs moves no item. */
  lemma {:induction false} SwapIdsKeepsPaths(t: Table, i: nat, j: nat, rootPath: string, k: nat)
    requires Inv(t) && 2 <= i < |t.items| && 2 <= j < |t.items| && k < |t.items|
    ensures Inv(SwapIds(t, i, j))
    ensures Path(SwapIds(t, i, j).items, rootPath, k) == Path(t.items, rootPath, k)
    decreases k
  {
    hide SwapIds, AddComponent;
    SwapIdsKeepsInv(t, i, j);
    SwapIdsAt(t, i, j, k);
    assert ParentOk(t.items, k) && ParentOk(SwapIds(t, i, j).items, k);
    if k > 0 {
      SwapIdsKeepsPaths(t, i, j, rootPath, t.items[k].up);
    }
  }

  lemma {:induction false} CreateKeepsPaths(t: Table, name: string, guestName: string, parent: nat, rootPath: string,
                                            k: nat)
    requires Inv(t) && parent < |t.items| && k < |t.items|
    ensures Inv(Create(t, name, guestName, parent))
    ensures Path(Create(t, name, guestName, parent).items, rootPath, k) == Path(t.items, rootPath, k)
    decreases k
  {
    hide AddComponent, Cut;
    CreateKeepsInv(t, name, guestName, parent);
    assert ParentOk(t.items, k);
    if k > 0 {
      CreateKeepsPaths(t, name, guestName, parent, rootPath, t.items[k].up);
    }
  }

  // ---------- Renaming and moving ----------

  /** What the host says: whether the new name exists, and whether renaming the file succeeds. */
  datatype Host = Host(nameTaken: bool, renames: bool)

  /** The file system's answer, other than its errors in finding the items. */
  datatype Answer = NoErr | DupFNErr | HostError

  /** Renames item `i` to what item `j` names. */
  function Rename(t: Table, i: nat, j: nat, host: Host): (r: (Table, Answer))
    requires i < |t.items| && j < |t.items|
  {
    if host.nameTaken then (t, DupFNErr)
    else if !host.renames then (t, HostError)
    else (SwapIds(t, i, j), NoErr)
  }

  /** Moves item `i` into the directory `dir`, under its own name. */
  function Move(t: Table, i: nat, dir: nat, host: Host, toMac: string -> string): (r: (Table, Answer))
    requires i < |t.items| && dir < |t.items|
  {
    if host.nameTaken then (t, DupFNErr)
    else if !host.renames then (t, HostError)
    else
      var (t', j) := FindItem(t, t.items[i].name, dir, toMac);
      (SwapIds(t', i, j), NoErr)
  }

  /** What an ID resolves to after an exchange: the two IDs change places, no other is affected. */
  lemma SwapIdsResolves(t: Table, i: nat, j: nat, rootPath: string, cnid: int)
    requires Inv(t) && 2 <= i < |t.items| && 2 <= j < |t.items|
    ensures Inv(SwapIds(t, i, j))
    ensures Resolve(SwapIds(t, i, j), rootPath, cnid)
         == Resolve(t, rootPath, Swapped(cnid, t.items[i].id, t.items[j].id))
  {
    hide SwapIds, Path;
    SwapIdsKeepsInv(t, i, j);
    var t', a, b := SwapIds(t, i, j), t.items[i].id, t.items[j].id;
    var before, after := Find(t.items, Swapped(cnid, a, b)), Find(t'.items, cnid);
    if before.Some? {
      var k := before.value;
      SwapIdsAt(t, i, j, k);
      assert t'.items[k].id == cnid;
      FindDistinct(t'.items, k);
      SwapIdsKeepsPaths(t, i, j, rootPath, k);
    } else if after.Some? {
      SwapIdsAt(t, i, j, after.value);
      assert false;
    }
  }

  /** After a rename the old ID resolves to the new path and the new ID to the old path; every
      other ID keeps its path. A rename that fails changes nothing. */
  lemma RenameResolves(t: Table, i: nat, j: nat, host: Host, rootPath: string, cnid: int)
    requires Inv(t) && 2 <= i < |t.items| && 2 <= j < |t.items|
    ensures var (t', answer) := Rename(t, i, j, host);
      var a, b := t.items[i].id, t.items[j].id;
      && Inv(t')
      && (answer != NoErr ==> t' == t)
      && (answer == DupFNErr <==> host.nameTaken) && (answer == NoErr <==> !host.nameTaken && host.renames)
      && (answer == NoErr ==>
            && Resolve(t', rootPath, a) == Some(Path(t.items, rootPath, j))
            && Resolve(t', rootPath, b) == Some(Path(t.items, rootPath, i))
            && (cnid != a && cnid != b ==> Resolve(t', rootPath, cnid) == Resolve(t, rootPath, cnid)))
  {
    hide SwapIds, Path;
    if !host.nameTaken && host.renames {
      var a, b := t.items[i].id, t.items[j].id;
      SwapIdsResolves(t, i, j, rootPath, a);
      SwapIdsResolves(t, i, j, rootPath, b);
      SwapIdsResolves(t, i, j, rootPath, cnid);
      FindDistinct(t.items, i);
      FindDistinct(t.items, j);
    }
  }

  /** Item `k` is item `i`, or somewhere below it. */
  predicate Under(items: seq<Item>, k: nat, i: nat)
    requires k < |items| && forall j :: 0 <= j <= k ==> ParentOk(items, j)
    decreases k
  {
    assert ParentOk(items, k);
    k == i || (k > 0 && Under(items, items[k].up, i))
  }

  /** Where the path of item `k` continues that of item `i` above it. */
  lemma {:induction false} PathContinues(t: Table, rootPath: string, k: nat, i: nat)
    requires Inv(t) && k < |t.items| && 2 <= i && Under(t.items, k, i)
    ensures i <= k && Path(t.items, rootPath, i) <= Path(t.items, rootPath, k)
    decreases k
  {
    assert ParentOk(t.items, k);
    if k != i {
      var up := t.items[k].up;
      PathContinues(t, rootPath, up, i);
      assert t.items[k].id != ROOT_PARENT_ID && t.items[k].id != ROOT_ID;
      var path, name := Path(t.items, rootPath, up), t.items[k].name;
      assert Path(t.items, rootPath, k) == AddComponent(path, name);
      assert path <= AddComponent(path, name);
    }
  }

  /** When a directory is renamed, the host moves what is in it along, from below the old path to below
      the new one. The IDs of these files go on resolving to where they were, so that they are right if
      and only if the path did not change. */
  lemma RenameLeavesContentsBehind(t: Table, i: nat, j: nat, host: Host, rootPath: string, k: nat)
    requires Inv(t) && 2 <= i < |t.items| && 2 <= j < |t.items| && k < |t.items|
    requires Under(t.items, k, i) && k != i && k != j
    requires Rename(t, i, j, host).1 == NoErr
    ensures Inv(Rename(t, i, j, host).0)
    ensures var source, goal, was := Path(t.items, rootPath, i), Path(t.items, rootPath, j), Path(t.items, rootPath, k);
      var resolved := Resolve(Rename(t, i, j, host).0, rootPath, t.items[k].id);
      && source <= was && resolved == Some(was)
      && (resolved == Some(goal + was[|source|..]) <==> source == goal)
  {
    hide Path, Rename;
    var source, goal, was := Path(t.items, rootPath, i), Path(t.items, rootPath, j), Path(t.items, rootPath, k);
    PathContinues(t, rootPath, k, i);
    OthersKeepIds(t, k, i);
    OthersKeepIds(t, k, j);
    RenameResolves(t, i, j, host, rootPath, t.items[k].id);
    var rest := was[|source|..];
    assert was == source + rest;
    if source + rest == goal + rest {
      assert |source| == |goal|;
      assert source == (source + rest)[..|source|] == (goal + rest)[..|goal|] == goal;
    }
  }

  lemma OthersKeepIds(t: Table, k: nat, i: nat)
    requires Inv(t) && k < |t.items| && i < |t.items| && k != i
    ensures t.items[k].id != t.items[i].id && Find(t.items, t.items[k].id) == Some(k)
  {
    FindDistinct(t.items, k);
  }

  lemma FindItemKeepsInv(t: Table, name: string, parent: nat, toMac: string -> string, rootPath: string)
    requires Inv(t) && parent < |t.items|
    ensures var (t', i) := FindItem(t, name, parent, toMac);
      && Inv(t')
      && (parent >= 1 ==> i >= 2 && Path(t'.items, rootPath, i) == AddComponent(Path(t.items, rootPath, parent), name))
      && (forall k :: 0 <= k < |t.items| ==> Path(t'.items, rootPath, k) == Path(t.items, rootPath, k))
  {
    hide AddComponent;
    var (t', i) := FindItem(t, name, parent, toMac);
    if FindName(t.items, name, parent, 0).None? {
      CreateKeepsInv(t, name, toMac(name), parent);
      forall k | 0 <= k < |t.items|
        ensures Path(t'.items, rootPath, k) == Path(t.items, rootPath, k)
      {
        CreateKeepsPaths(t, name, toMac(name), parent, rootPath, k);
      }
    }
    assert ParentOk(t'.items, i) && ParentOk(t'.items, 1);
  }

  lemma FindItemGuestKeepsInv(t: Table, guestName: string, parent: nat, toHost: string -> string, rootPath: string)
    requires Inv(t) && parent < |t.items|
    ensures var t' := FindItemGuest(t, guestName, parent, toHost).0;
      && Inv(t')
      && (forall k :: 0 <= k < |t.items| ==> Path(t'.items, rootPath, k) == Path(t.items, rootPath, k))
  {
    var t' := FindItemGuest(t, guestName, parent, toHost).0;
    if FindGuestName(t.items, guestName, parent, 0).None? {
      CreateKeepsInv(t, toHost(guestName), guestName, parent);
      forall k | 0 <= k < |t.items|
        ensures Path(t'.items, rootPath, k) == Path(t.items, rootPath, k)
      {
        CreateKeepsPaths(t, toHost(guestName), guestName, parent, rootPath, k);
      }
    }
  }

  /** After a move the item's ID resolves to its name in the new directory; every ID known before,
      other than the two exchanged, keeps its path. */
  lemma MoveResolves(t: Table, i: nat, dir: nat, host: Host, toMac: string -> string, rootPath: string, cnid: int)
    requires Inv(t) && 2 <= i < |t.items| && 1 <= dir < |t.items|
    ensures var (t', answer) := Move(t, i, dir, host, toMac);
      var a := t.items[i].id;
      && Inv(t')
      && (answer != NoErr ==> t' == t)
      && (answer == DupFNErr <==> host.nameTaken) && (answer == NoErr <==> !host.nameTaken && host.renames)
      && (answer == NoErr ==>
            var (found, j) := FindItem(t, t.items[i].name, dir, toMac);
            && Resolve(t', rootPath, a) == Some(AddComponent(Path(t.items, rootPath, dir), t.items[i].name))
            && Resolve(t', rootPath, found.items[j].id) == Some(Path(t.items, rootPath, i))
            && (cnid != a && cnid != found.items[j].id && Find(t.items, cnid).Some? ==>
                  Resolve(t', rootPath, cnid) == Resolve(t, rootPath, cnid)))
  {
    hide SwapIds, Path, FindItem, AddComponent;
    if !host.nameTaken && host.renames {
      var name := t.items[i].name;
      var (found, j) := FindItem(t, name, dir, toMac);
      FindItemKeepsInv(t, name, dir, toMac, rootPath);
      assert found.items[i] == t.items[i];
      RenameResolves(found, i, j, host, rootPath, cnid);
      if k :| 0 <= k < |t.items| && t.items[k].id == cnid {
        assert found.items[k] == t.items[k];
        FindDistinct(t.items, k);
        FindDistinct(found.items, k);
      }
    }
  }

  // ---------- Every run ----------

  datatype Op =
    | LookUp(name: string, parent: nat)
    | LookUpGuest(guestName: string, parent: nat)
    | RenameTo(i: nat, j: nat, host: Host)
    | MoveTo(i: nat, dir: nat, host: Host)

  /** The operation names items that exist, and renames or moves neither the root nor its parent. */
  predicate Possible(t: Table, op: Op) {
    match op
    case LookUp(_, parent) => parent < |t.items|
    case LookUpGuest(_, parent) => parent < |t.items|
    case RenameTo(i, j, _) => 2 <= i < |t.items| && 2 <= j < |t.items|
    case MoveTo(i, dir, _) => 2 <= i < |t.items| && 1 <= dir < |t.items|
  }

  function Apply(t: Table, op: Op, toMac: string -> string, toHost: string -> string): (t': Table)
    requires Possible(t, op)
  {
    match op
    case LookUp(name, parent) => FindItem(t, name, parent, toMac).0
    case LookUpGuest(name, parent) => FindItemGuest(t, name, parent, toHost).0
    case RenameTo(i, j, host) => Rename(t, i, j, host).0
    case MoveTo(i, dir, host) => Move(t, i, dir, host, toMac).0
  }

  ghost predicate Reachable(s: Table, t: Table, ops: seq<Op>, toMac: string -> string, toHost: string -> string)
    decreases |ops|
  {
    if ops == [] then s == t
    else Possible(s, ops[0]) && Reachable(Apply(s, ops[0], toMac, toHost), t, ops[1..], toMac, toHost)
  }

  lemma ApplyKeepsInv(t: Table, op: Op, toMac: string -> string, toHost: string -> string)
    requires Inv(t) && Possible(t, op)
    ensures Inv(Apply(t, op, toMac, toHost))
  {
    hide Inv, FindItem, FindItemGuest, Move, Rename;
    match op
    case LookUp(name, parent) => FindItemKeepsInv(t, name, parent, toMac, "");
    case LookUpGuest(name, parent) => FindItemGuestKeepsInv(t, name, parent, toHost, "");
    case RenameTo(i, j, host) => RenameResolves(t, i, j, host, "", 0);
    case MoveTo(i, dir, host) => MoveResolves(t, i, dir, host, toMac, "", 0);
  }

  /** Every sequence of lookups, renames and moves keeps IDs distinct and below the next one, parent
      IDs right, and parents ahead of their children. */
  lemma {:induction false} RunKeepsInv(s: Table, t: Table, ops: seq<Op>, toMac: string -> string,
                                       toHost: string -> string)
    requires Inv(s) && Reachable(s, t, ops, toMac, toHost)
    ensures Inv(t)
    decreases |ops|
  {
    hide Inv, Apply, Possible;
    if ops != [] {
      ApplyKeepsInv(s, ops[0], toMac, toHost);
      RunKeepsInv(Apply(s, ops[0], toMac, toHost), t, ops[1..], toMac, toHost);
    }
  }

  /** So does every such sequence from the table after initialization. */
  lemma EveryRun(volumeName: string, guestName: string, t: Table, ops: seq<Op>,
                 toMac: string -> string, toHost: string -> string)
    requires Reachable(Initial(volumeName, guestName), t, ops, toMac, toHost)
    ensures Inv(t)
  {
    hide Inv, Reachable;
    InitialInv(volumeName, guestName);
    RunKeepsInv(Initial(volumeName, guestName), t, ops, toMac, toHost);
  }
}
