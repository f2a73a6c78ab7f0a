/**
  The list of network interfaces of esp_netif_objects.c, and the creation and destruction of interfaces in
  esp_netif_lwip.c as far as they use it.
*/
module NetifList {

  // The address of an esp_netif object; 0 is NULL.
  type Handle = nat

  const NULL: Handle := 0

  // ---- Lists of handles as values -----------------------------------------

  // Position of the first h, or the length when there is none.
  function IndexOf(hs: seq<Handle>, h: Handle): (r: nat)
    ensures r <= |hs|
    ensures forall i :: 0 <= i < r ==> hs[i] != h
    ensures r < |hs| ==> hs[r] == h
  {
    if hs == [] || hs[0] == h then 0 else 1 + IndexOf(hs[1..], h)
  }

  // esp_netif_next_unsafe
  function NextOf(hs: seq<Handle>, h: Handle): Handle {
    if h == NULL then (if hs == [] then NULL else hs[0])
    else
      var i := IndexOf(hs, h);
      if i + 1 < |hs| then hs[i + 1] else NULL
  }

  function Without(hs: seq<Handle>, h: Handle): seq<Handle> {
    var i := IndexOf(hs, h);
    if i < |hs| then hs[..i] + hs[i + 1..] else hs
  }

  ghost predicate Distinct<T>(s: seq<T>) {
    forall i, j :: 0 <= i < j < |s| ==> s[i] != s[j]
  }

  lemma IndexOfAt(hs: seq<Handle>, i: nat)
    requires i < |hs| && Distinct(hs)
    ensures IndexOf(hs, hs[i]) == i
  {
  }

  // Restarting from the head every time, next still leads from each interface to the one behind it.
  lemma NextStepsThrough(hs: seq<Handle>, i: nat)
    requires Distinct(hs) && NULL !in hs && i < |hs|
    ensures NextOf(hs, NULL) == hs[0]
    ensures NextOf(hs, hs[i]) == if i + 1 < |hs| then hs[i + 1] else NULL
  {
    IndexOfAt(hs, i);
  }

  // ---- The interfaces of the system as a value ----------------------------

  // Listed handles, newest first, and the interface key of each object that exists.
  datatype Registry = Registry(handles: seq<Handle>, keys: map<Handle, string>)

  ghost predicate Consistent(g: Registry) {
    && NULL !in g.handles
    && Distinct(g.handles)
    && (forall h :: h in g.handles ==> h in g.keys)
    && forall i, j :: 0 <= i < j < |g.handles| ==> g.keys[g.handles[i]] != g.keys[g.handles[j]]
  }

  // esp_netif_get_handle_from_ifkey_unsafe
  function ByKey(g: Registry, key: string): (h: Handle)
    requires forall h :: h in g.handles ==> h in g.keys
    ensures h != NULL ==> h in g.handles && g.keys[h] == key
    ensures NULL !in g.handles && h == NULL ==> forall k :: k in g.handles ==> g.keys[k] != key
    decreases |g.handles|
  {
    if g.handles == [] then NULL
    else if g.keys[g.handles[0]] == key then g.handles[0]
    else ByKey(g.(handles := g.handles[1..]), key)
  }

  datatype Op = Create(h: Handle, key: string, configured: bool) | Destroy(h: Handle)

  // esp_netif_new_api and esp_netif_destroy_api. A creation is refused when the key is in use; h is the object
  // the allocator returns, which no listed interface occupies. One whose configuration fails is destroyed again.
  ghost function Do(g: Registry, op: Op): Registry
    requires Consistent(g)
  {
    match op
    case Create(h, key, configured) =>
      if h == NULL || h in g.handles || ByKey(g, key) != NULL || !configured then g
      else Registry([h] + g.handles, g.keys[h := key])
    case Destroy(h) =>
      g.(handles := Without(g.handles, h))
  }

  lemma DoKeepsConsistent(g: Registry, op: Op)
    requires Consistent(g)
    ensures Consistent(Do(g, op))
  {
    match op
    case Create(h, key, configured) =>
      if !(h == NULL || h in g.handles || ByKey(g, key) != NULL || !configured) {
        var g' := Do(g, op);
        hide ByKey;
        forall i, j | 0 <= i < j < |g'.handles|
          ensures g'.handles[i] != g'.handles[j] && g'.keys[g'.handles[i]] != g'.keys[g'.handles[j]]
        {
          assert g'.handles[j] == g.handles[j - 1];
          assert i > 0 ==> g'.handles[i] == g.handles[i - 1];
        }
      }
    case Destroy(h) => DestroyKeepsConsistent(g, h);
  }

  // An object is created, with its key, if and only if there is memory for it, the key is not in use and its configuration
  // succeeds; otherwise the list stays as it was.
  lemma CreatedIff(g: Registry, h: Handle, key: string, configured: bool)
    requires Consistent(g) && h !in g.handles
    ensures var t := Do(g, Create(h, key, configured));
            var created := h != NULL && configured && forall k :: k in g.handles ==> g.keys[k] != key;
            if created then t.handles == [h] + g.handles && h in t.keys && t.keys[h] == key else t == g
  {
  }

  lemma DestroyKeepsConsistent(g: Registry, h: Handle)
    requires Consistent(g)
    ensures Consistent(Do(g, Destroy(h)))
  {
    var n, rest := IndexOf(g.handles, h), Without(g.handles, h);
    assert n < |g.handles| ==> forall i :: 0 <= i < |rest| ==> rest[i] == g.handles[if i < n then i else i + 1];
  }

  ghost function DoAll(g: Registry, ops: seq<Op>): Registry
    requires Consistent(g)
    decreases |ops|
  {
    if ops == [] then g
    else
      DoKeepsConsistent(g, ops[0]);
      DoAll(Do(g, ops[0]), ops[1..])
  }

  // Over any run of creations and destructions the listed handles and their keys stay pairwise distinct, so the
  // walk with next visits every interface exactly once.
  lemma {:induction false} RunsStayConsistent(g: Registry, ops: seq<Op>)
    requires Consistent(g)
    ensures Consistent(DoAll(g, ops))
    decreases |ops|
  {
    if ops != [] {
      DoKeepsConsistent(g, ops[0]);
      RunsStayConsistent(Do(g, ops[0]), ops[1..]);
    }
  }

  // ---- The linked list ----------------------------------------------------

  class Item {
    const netif: Handle
    var next: Item?

    constructor (netif: Handle, next: Item?)
      ensures this.netif == netif && this.next == next
    {
      this.netif, this.next := netif, next;
    }
  }

  // The interfaces of some items.
  function Netifs(items: seq<Item>): (hs: seq<Handle>)
    ensures |hs| == |items|
  {
    seq(|items|, i requires 0 <= i < |items| => items[i].netif)
  }

  lemma SpliceIsDistinct<T>(s: seq<T>, i: nat)
    requires i < |s| && Distinct(s)
    ensures Distinct(s[..i] + s[i + 1..])
  {
    var rest := s[..i] + s[i + 1..];
    assert forall k :: 0 <= k < |rest| ==> rest[k] == s[if k < i then k else k + 1];
  }

  lemma PushIsDistinct<T>(x: T, s: seq<T>)
    requires x !in s && Distinct(s)
    ensures Distinct([x] + s)
  {
  }

  lemma NetifsPushed(item: Item, items: seq<Item>)
    ensures Netifs([item] + items) == [item.netif] + Netifs(items)
  {
  }

  lemma FoundIff(hs: seq<Handle>, h: Handle)
    ensures h in hs <==> IndexOf(hs, h) < |hs|
    ensures h !in hs ==> Without(hs, h) == hs
  {
  }

  lemma NetifsWithout(items: seq<Item>, netif: Handle)
    ensures var i := IndexOf(Netifs(items), netif);
            i < |items| ==> Netifs(items[..i] + items[i + 1..]) == Without(Netifs(items), netif)
  {
  }

  class List {
    var head: Item?        // s_head
    var counter: nat       // s_esp_netif_counter
    ghost var spine: seq<Item>

    // The item at a position of the list, null behind its end.
    ghost function At(i: nat): Item?
      reads this
    {
      if i < |spine| then spine[i] else null
    }

    ghost predicate Linked()
      reads this, spine
    {
      && head == At(0)
      && Distinct(spine)
      && forall i: nat {:trigger spine[i]} :: i < |spine| ==> spine[i].next == At(i + 1)
    }

    ghost predicate Valid()
      reads this, spine
    {
      counter == |spine| && Linked()
    }

    ghost function Handles(): (hs: seq<Handle>)
      reads this
      ensures |hs| == |spine|
    {
      Netifs(spine)
    }

    constructor ()
      ensures Valid() && Handles() == []
    {
      head, counter, spine := null, 0, [];
    }

    // esp_netif_add_to_list_unsafe
    method Add(netif: Handle)
      requires Valid()
      modifies this
      ensures Valid()
      ensures Handles() == [netif] + old(Handles()) && counter == old(counter) + 1
      ensures fresh(spine[0]) && spine[1..] == old(spine)
    {
      var item := new Item(netif, head);
      assert item !in spine;
      NetifsPushed(item, spine);
      PushIsDistinct(item, spine);
      hide Netifs, Distinct;
      head := item;
      spine := [item] + spine;
      counter := counter + 1;
    }

    // SLIST_FOREACH up to the first item of a handle; null when there is none.
    method Find(netif: Handle) returns (item: Item?, ghost i: nat)
      requires Valid()
      ensures i == IndexOf(Handles(), netif)
      ensures item == At(i)
    {
      item := head;
      i := 0;
      while item != null && item.netif != netif
        invariant 0 <= i <= |spine|
        invariant item == At(i)
        invariant forall k :: 0 <= k < i ==> Handles()[k] != netif
        decreases |spine| - i
      {
        assert Handles()[i] == item.netif;
        item := item.next;
        i := i + 1;
      }
      assert i < |spine| ==> Handles()[i] == netif;
    }

    // esp_netif_remove_from_list_unsafe
    method Remove(netif: Handle) returns (found: bool)
      requires Valid()
      modifies this, spine
      ensures Valid()
      ensures found == (netif in old(Handles())) && forall item :: item in spine ==> item in old(spine)
      ensures Handles() == Without(old(Handles()), netif)
      ensures counter == old(counter) - if found then 1 else 0
    {
      hide Netifs, Without, Linked;
      var item: Item?;
      ghost var i;
      item, i := Find(netif);
      FoundIff(Handles(), netif);
      if item == null {
        return false;
      }
      NetifsWithout(spine, netif);
      Unlink(item, i);
      return true;
    }

    // SLIST_REMOVE and the counter
    method Unlink(item: Item, ghost i: nat)
      requires Valid() && i < |spine| && spine[i] == item
      modifies this, spine
      ensures spine == old(spine[..i] + spine[i + 1..]) && counter == old(counter) - 1
      ensures Valid()
    {
      if head == item {
        assert i == 0;
        UnlinkHead();
      } else {
        UnlinkLater(item, i);
      }
      counter := counter - 1;
    }

    // SLIST_REMOVE: the walk to the item before the one to remove
    method Predecessor(item: Item, ghost i: nat) returns (cur: Item)
      requires Valid() && 0 < i < |spine| && spine[i] == item
      ensures cur == spine[i - 1]
    {
      cur := head;
      ghost var k := 0;
      while cur.next != item
        invariant 0 <= k < i && cur == spine[k]
        decreases i - k
      {
        assert spine[k].next == At(k + 1);
        cur := cur.next;
        k := k + 1;
      }
      assert spine[k].next == At(k + 1);
    }

    // SLIST_REMOVE of the first item
    method UnlinkHead()
      requires Valid() && head != null
      modifies this
      ensures spine == old(spine[1..]) && counter == old(counter)
      ensures Linked()
    {
      ghost var before := spine;
      head := head.next;
      spine := before[1..];
      forall k: nat | k < |spine|
        ensures spine[k].next == At(k + 1)
      {
        assert spine[k] == before[k + 1];
      }
    }

    // SLIST_REMOVE of a later item
    method UnlinkLater(item: Item, ghost i: nat)
      requires Valid() && 0 < i < |spine| && spine[i] == item
      modifies this, spine
      ensures spine == old(spine[..i] + spine[i + 1..]) && counter == old(counter)
      ensures Linked()
    {
      ghost var before := spine;
      var cur := Predecessor(item, i);
      cur.next := cur.next.next;
      spine := before[..i] + before[i + 1..];
      SplicedIsLinked(before, i);
    }

    // The list without item i, once the item before it points behind it.
    lemma SplicedIsLinked(before: seq<Item>, i: nat)
      requires 0 < i < |before| && Distinct(before) && head == before[0]
      requires spine == before[..i] + before[i + 1..]
      requires forall j: nat {:trigger before[j]} :: j < |before| && j != i - 1 && j != i ==>
                 before[j].next == if j + 1 < |before| then before[j + 1] else null
      requires before[i - 1].next == if i + 1 < |before| then before[i + 1] else null
      ensures Linked()
    {
      hide Distinct;
      SpliceIsDistinct(before, i);
      forall k: nat | k < |spine|
        ensures spine[k].next == At(k + 1)
      {
        if k < i - 1 {
          assert spine[k] == before[k] && spine[k + 1] == before[k + 1];
        } else {
          assert spine[k] == before[if k < i then k else k + 1];
          assert k + 1 < |spine| ==> spine[k + 1] == before[k + 2];
        }
      }
    }

    // esp_netif_next_unsafe
    method Next(netif: Handle) returns (next: Handle)
      requires Valid()
      ensures next == NextOf(Handles(), netif)
    {
      if netif == NULL {
        return if head == null then NULL else head.netif;
      }
      var item: Item?;
      ghost var i;
      item, i := Find(netif);
      if item == null {
        return NULL;
      }
      item := item.next;
      assert i + 1 < |spine| ==> Handles()[i + 1] == item.netif;
      return if item == null then NULL else item.netif;
    }

    // esp_netif_is_netif_listed
    method IsListed(netif: Handle) returns (listed: bool)
      requires Valid()
      ensures listed == (netif in Handles())
    {
      var item: Item?;
      ghost var i;
      item, i := Find(netif);
      return item != null;
    }

    // The loop around esp_netif_next_unsafe that every caller writes: all interfaces, each once, in list order.
    method Walk() returns (visited: seq<Handle>)
      requires Valid() && Distinct(Handles()) && NULL !in Handles()
      ensures visited == Handles() && |visited| == counter
    {
      visited := [];
      var netif := Next(NULL);
      while netif != NULL
        invariant |visited| <= |Handles()| && visited == Handles()[..|visited|]
        invariant netif == if |visited| < |Handles()| then Handles()[|visited|] else NULL
        decreases |Handles()| - |visited|
      {
        NextStepsThrough(Handles(), |visited|);
        visited := visited + [netif];
        netif := Next(netif);
      }
    }
  }

  // ByKey is a search from the head.
  lemma {:induction false} ByKeySkips(g: Registry, key: string, i: nat)
    requires i <= |g.handles| && forall h :: h in g.handles ==> h in g.keys
    requires forall k :: 0 <= k < i ==> g.keys[g.handles[k]] != key
    decreases i
    ensures ByKey(g, key) == if i < |g.handles| && g.keys[g.handles[i]] == key then g.handles[i]
                             else ByKey(g.(handles := g.handles[i..]), key)
  {
    if i == 0 {
      assert g.handles[0..] == g.handles;
    } else {
      var rest := g.(handles := g.handles[1..]);
      ByKeySkips(rest, key, i - 1);
      assert rest.handles[i - 1..] == g.handles[i..];
    }
  }

  class Interfaces {
    const list: List
    var keys: map<Handle, string>

    ghost predicate Valid()
      reads this, list, list.spine
    {
      list.Valid() && Consistent(View())
    }

    ghost function View(): Registry
      reads this, list
    {
      Registry(list.Handles(), keys)
    }

    constructor ()
      ensures Valid() && View() == Registry([], map[]) && fresh(list)
    {
      list := new List();
      keys := map[];
    }

    // esp_netif_get_handle_from_ifkey_unsafe
    method FindByKey(key: string) returns (h: Handle)
      requires Valid()
      ensures h == ByKey(View(), key)
    {
      var item := list.head;
      ghost var i: nat := 0;
      ByKeySkips(View(), key, 0);
      while item != null
        invariant 0 <= i <= |list.spine| && item == list.At(i)
        invariant forall k :: 0 <= k < i ==> keys[list.Handles()[k]] != key
        invariant i < |list.spine| ==> list.Handles()[i] in keys
        decreases |list.spine| - i
      {
        assert list.Handles()[i] == item.netif;
        ByKeySkips(View(), key, i);
        if keys[item.netif] == key {
          return item.netif;
        }
        item := item.next;
        i := i + 1;
        assert i < |list.spine| ==> list.Handles()[i] in list.Handles();
      }
      ByKeySkips(View(), key, i);
      return NULL;
    }

    // esp_netif_new_api; netif is the object the allocator returned
    method Create(netif: Handle, key: string, configured: bool) returns (r: Handle)
      requires Valid() && netif != NULL && netif !in list.Handles()
      modifies this, list, list.spine
      ensures Valid()
      ensures View() == Do(old(View()), Op.Create(netif, key, configured))
      ensures r == if ByKey(old(View()), key) == NULL && configured then netif else NULL
      ensures list.counter == |View().handles|
    {
      hide Consistent, Distinct;
      ghost var before := View();
      DoKeepsConsistent(before, Op.Create(netif, key, configured));
      var existing := FindByKey(key);
      if existing != NULL {
        return NULL;
      }
      r := AddConfigured(netif, configured);
      if r != NULL {
        keys := keys[netif := key];
      }
    }

    // esp_netif_new_api, from adding the object to the list on: one that cannot be configured is destroyed again.
    method AddConfigured(netif: Handle, configured: bool) returns (r: Handle)
      requires list.Valid() && netif != NULL
      modifies list, list.spine
      ensures list.Valid()
      ensures list.Handles() == if configured then [netif] + old(list.Handles()) else old(list.Handles())
      ensures r == if configured then netif else NULL
    {
      ghost var before := list.Handles();
      list.Add(netif);
      if !configured {
        var _ := list.Remove(netif);
        assert Without([netif] + before, netif) == before;
        return NULL;
      }
      return netif;
    }

    // esp_netif_destroy_api
    method Destroy(netif: Handle)
      requires Valid()
      modifies list, list.spine
      ensures Valid()
      ensures View() == Do(old(View()), Op.Destroy(netif))
      ensures list.counter == |View().handles|
    {
      DoKeepsConsistent(View(), Op.Destroy(netif));
      var _ := list.Remove(netif);
    }
  }
}
