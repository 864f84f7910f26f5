/**
  The external file system's item list: objects linked in creation order, each pointing to its
  parent. `View` is the list as the table that `CnidTable` reasons about.
 */
module ExtFs {
  import opened CnidTable

  class FSItem {
    var next: FSItem?
    var id: int
    var parentId: int
    var parent: FSItem?
    var name: string
    var guestName: string

    constructor (id: int, parentId: int, parent: FSItem?, name: string, guestName: string)
      ensures this.id == id && this.parentId == parentId && this.parent == parent && this.next == null
      ensures this.name == name && this.guestName == guestName
    {
      this.next, this.id, this.parentId, this.parent := null, id, parentId, parent;
      this.name, this.guestName := name, guestName;
    }
  }

  class ItemList {
    var first: FSItem
    var last: FSItem
    var nextCnid: int
    var fullPath: string
    const rootPath: string
    const toMac: string -> string      // host encoding to Mac Roman
    const toHost: string -> string     // Mac Roman to host encoding
    ghost var items: seq<FSItem>
    ghost var up: seq<int>             // where each item's parent stands

    ghost predicate Valid()
      reads this`first, this`last, this`items, this`up, items`next, items`parent
    {
      && |items| == |up| >= 2
      && (forall i, j :: 0 <= i < j < |items| ==> items[i] != items[j])
      && first == items[0] && last == items[|items| - 1]
      && (forall i :: 0 <= i < |items| ==> Linked(i))
    }

    ghost predicate Linked(i: nat)
      requires i < |items| == |up|
      reads this`items, this`up, items`next, items`parent
    {
      && items[i].next == (if i + 1 < |items| then items[i + 1] else null)
      && -1 <= up[i] < |items|
      && items[i].parent == (if up[i] == -1 then null else items[up[i]])
    }

    ghost function ItemView(i: nat): Item
      requires i < |items| == |up|
      reads this`items, this`up, items
    {
      Item(items[i].id, items[i].parentId, up[i], items[i].name, items[i].guestName)
    }

    ghost function View(): (t: Table)
      requires |items| == |up|
      reads this, items
      ensures |t.items| == |items| && t.nextCnid == nextCnid
      ensures forall i :: 0 <= i < |items| ==> t.items[i] == ItemView(i)
    {
      Table(seq(|items|, i requires 0 <= i < |items| == |up| reads this, items => ItemView(i)), nextCnid)
    }

    constructor (rootPath: string, volumeName: string, toMac: string -> string, toHost: string -> string)
      ensures Valid() && fresh(items)
      ensures View() == Initial(volumeName, Cut(toMac(volumeName)))
      ensures this.rootPath == rootPath && this.toMac == toMac && this.toHost == toHost
    {
      var p := new FSItem(ROOT_PARENT_ID, 0, null, "", "");
      var root := new FSItem(ROOT_ID, ROOT_PARENT_ID, p, volumeName, Cut(toMac(volumeName)));
      p.next := root;
      this.rootPath, this.toMac, this.toHost := rootPath, toMac, toHost;
      first, last, nextCnid, fullPath := p, root, FS_USR_CNID, "";
      items, up := [p, root], [-1, 0];
      new;
      assert Linked(0) && Linked(1);
      assert ItemView(0) == Initial(volumeName, Cut(toMac(volumeName))).items[0];
      assert ItemView(1) == Initial(volumeName, Cut(toMac(volumeName))).items[1];
    }

    method FindById(cnid: int) returns (p: FSItem?)
      requires Valid()
      ensures var r := Find(View().items, cnid);
        if r.None? then p == null else p == items[r.value]
    {
      p := first;
      ghost var k: nat := 0;
      while p != null
        invariant k <= |items| && p == (if k < |items| then items[k] else null)
        invariant Find(View().items, cnid) == FindFrom(View().items, cnid, k)
        decreases |items| - k
      {
        assert Linked(k) && View().items[k] == ItemView(k);
        if p.id == cnid {
          return p;
        }
        p := p.next;
        k := k + 1;
      }
    }

    /** Appends a new item under the parent at place `k`. */
    method CreateItem(name: string, guestName: string, parent: FSItem, ghost k: nat) returns (p: FSItem)
      requires Valid() && k < |items| && items[k] == parent
      modifies this, last
      ensures Valid() && fresh(p) && items == old(items) + [p] && up == old(up) + [k]
      ensures View() == Create(old(View()), name, guestName, k)
    {
      ghost var t, n := View(), |items|;
      p := new FSItem(nextCnid, parent.id, parent, name, Cut(guestName));
      last.next := p;
      last := p;
      nextCnid := nextCnid + 1;
      items, up := items + [p], up + [k];
      forall i | 0 <= i < |items|
        ensures Linked(i)
        ensures i < n ==> ItemView(i) == t.items[i]
      {
        if i < n {
          assert old(Linked(i)) && t.items[i] == old(ItemView(i));
        }
      }
      assert View().items == Create(t, name, guestName, k).items;
    }

    method FindItem(name: string, parent: FSItem, ghost k: nat) returns (p: FSItem, ghost at: nat)
      requires Valid() && k < |items| && items[k] == parent
      modifies this, last
      ensures Valid() && old(items) <= items && old(up) <= up && fresh(items[|old(items)|..])
      ensures at < |items| && items[at] == p
      ensures (View(), at) == CnidTable.FindItem(old(View()), name, k, toMac)
    {
      var q: FSItem? := first;
      at := 0;
      while q != null
        invariant at <= |items| && q == (if at < |items| then items[at] else null)
        invariant FindName(View().items, name, k, 0) == FindName(View().items, name, k, at)
        decreases |items| - at
      {
        assert Linked(at) && View().items[at] == ItemView(at);
        if q.parent == parent && q.name == name {
          return q, at;
        }
        q := q.next;
        at := at + 1;
      }

      p := CreateItem(name, toMac(name), parent, k);
    }

    method FindItemGuest(guestName: string, parent: FSItem, ghost k: nat) returns (p: FSItem, ghost at: nat)
      requires Valid() && k < |items| && items[k] == parent
      modifies this, last
      ensures Valid() && old(items) <= items && old(up) <= up && fresh(items[|old(items)|..])
      ensures at < |items| && items[at] == p
      ensures (View(), at) == CnidTable.FindItemGuest(old(View()), guestName, k, toHost)
    {
      var q: FSItem? := first;
      at := 0;
      while q != null
        invariant at <= |items| && q == (if at < |items| then items[at] else null)
        invariant FindGuestName(View().items, guestName, k, 0) == FindGuestName(View().items, guestName, k, at)
        decreases |items| - at
      {
        assert Linked(at) && View().items[at] == ItemView(at);
        if q.parent == parent && q.guestName == guestName {
          return q, at;
        }
        q := q.next;
        at := at + 1;
      }

      p := CreateItem(toHost(guestName), guestName, parent, k);
    }

    /** Leaves the item's path in `fullPath`. */
    method GetPath(p: FSItem, ghost k: nat)
      requires Valid() && Inv(View()) && k < |items| && items[k] == p
      modifies this`fullPath
      ensures Valid() && Inv(View()) && View() == old(View())
      ensures fullPath == Path(View().items, rootPath, k)
      decreases k
    {
      hide Inv;
      ghost var t := View();
      InvHere(t, k);
      assert Linked(k) && t.items[k] == ItemView(k);
      if p.id == ROOT_PARENT_ID {
        fullPath := "";
      } else if p.id == ROOT_ID {
        fullPath := rootPath;
      } else {
        GetPath(p.parent, up[k]);
        fullPath := AddComponent(fullPath, p.name);
      }
      assert View() == t;
    }

    /** Exchanges two parent IDs in all items. */
    method SwapParents(parent1: int, parent2: int)
      requires Valid()
      modifies items`parentId
      ensures Valid() && items == old(items) && up == old(up)
      ensures View().items == SwapParentIds(old(View()).items, parent1, parent2)
      ensures View().nextCnid == old(View()).nextCnid
    {
      ghost var t := View();
      var p: FSItem? := first;
      ghost var k: nat := 0;
      while p != null
        invariant k <= |items| && p == (if k < |items| then items[k] else null)
        invariant forall i :: 0 <= i < |items| ==>
          items[i].parentId == if i < k then Swapped(t.items[i].parentId, parent1, parent2) else t.items[i].parentId
        decreases |items| - k
      {
        assert Linked(k);
        if p.parentId == parent1 {
          p.parentId := parent2;
        } else if p.parentId == parent2 {
          p.parentId := parent1;
        }
        p := p.next;
        k := k + 1;
      }
      forall i | 0 <= i < |items|
        ensures View().items[i] == SwapParentIds(t.items, parent1, parent2)[i]
      {
        assert View().items[i] == ItemView(i) && t.items[i] == old(ItemView(i));
      }
      assert View().items == SwapParentIds(t.items, parent1, parent2);
    }

    /** The ID of the old file has to stay the same, so the IDs of the items are exchanged. */
    method SwapItemIds(fsItem: FSItem, newItem: FSItem, ghost i: nat, ghost j: nat)
      requires Valid() && i < |items| && items[i] == fsItem && j < |items| && items[j] == newItem
      modifies items
      ensures Valid() && items == old(items) && up == old(up)
      ensures View() == SwapIds(old(View()), i, j)
    {
      ghost var t := View();
      assert t.items[i] == ItemView(i) && t.items[j] == ItemView(j);
      SwapParents(fsItem.id, newItem.id);
      ghost var s := View().items;
      label swapped:
      var id := fsItem.id;
      fsItem.id := newItem.id;
      newItem.id := id;
      ghost var want := SwapIds(t, i, j).items;
      forall k | 0 <= k < |items|
        ensures Linked(k)
        ensures View().items[k] == want[k]
      {
        assert old@swapped(Linked(k));
        assert s[k] == old@swapped(ItemView(k));
        assert View().items[k] == ItemView(k);
      }
      assert View().items == want;
    }

    /** The end of a rename: `host` says whether the new path exists and how the host's rename ends. */
    method FsRename(fsItem: FSItem, newItem: FSItem, host: Host, ghost i: nat, ghost j: nat) returns (answer: Answer)
      requires Valid() && i < |items| && items[i] == fsItem && j < |items| && items[j] == newItem
      modifies items
      ensures Valid() && items == old(items)
      ensures (View(), answer) == Rename(old(View()), i, j, host)
    {
      if host.nameTaken {
        return DupFNErr;
      }
      if !host.renames {
        return HostError;
      }
      SwapItemIds(fsItem, newItem, i, j);
      return NoErr;
    }

    /** The end of a move into the directory `newDir`. */
    method FsCatMove(fsItem: FSItem, newDir: FSItem, host: Host, ghost i: nat, ghost k: nat) returns (answer: Answer)
      requires Valid() && i < |items| && items[i] == fsItem && k < |items| && items[k] == newDir
      modifies this, items
      ensures Valid() && old(items) <= items
      ensures (View(), answer) == Move(old(View()), i, k, host, toMac)
    {
      if host.nameTaken {
        return DupFNErr;
      }
      if !host.renames {
        return HostError;
      }
      assert View().items[i] == ItemView(i);
      var newItem, j := FindItem(fsItem.name, newDir, k);
      assert forall n :: |old(items)| <= n < |items| ==> items[n] == items[|old(items)|..][n - |old(items)|];
      assert forall n :: 0 <= n < |old(items)| ==> items[n] == old(items)[n];
      SwapItemIds(fsItem, newItem, i, j);
      return NoErr;
    }
  }

  lemma InvHere(t: Table, k: nat)
    requires Inv(t) && k < |t.items|
    ensures ParentOk(t.items, k) && forall j :: 0 <= j <= k ==> ParentOk(t.items, j)
    ensures t.items[k].id == ROOT_PARENT_ID <==> k == 0
    ensures k == 0 ==> Path(t.items, "", k) == ""
  {
  }
}
