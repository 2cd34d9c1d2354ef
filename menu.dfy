/** The host's system menu as a sequence of items, and the bookkeeping the
    extension does on it: one "Restart to ..." item per boot-loader entry,
    inserted after the first two host items, and a table from entry id to
    display name. Items are objects in the host; here each carries an id that
    stands for its identity. */
module Menu {
  import opened Labels

  datatype MenuItem =
    | HostItem(id: nat)                                   // an item the host put there
    | RebootItem(id: nat, entry: string)                  // an item activating `entry`

  /** Position of the first item the extension adds. */
  const Offset: nat := 2

  /** The host's `addMenuItem(item, position)`: the item goes before the one now
      at `position`, or at the end when there is none. */
  function Insert(menu: seq<MenuItem>, position: nat, item: MenuItem): (r: seq<MenuItem>)
    ensures |r| == |menu| + 1
    ensures item in r && forall x :: x in menu ==> x in r
  {
    if position < |menu| then menu[..position] + [item] + menu[position..]
    else menu + [item]
  }

  /** An identity no item of `menu` has yet: the next object the host allocates. */
  function FreshId(menu: seq<MenuItem>): (n: nat)
    ensures forall x :: x in menu ==> x.id < n
  {
    if menu == [] then 0
    else
      var later := FreshId(menu[1..]);
      if menu[0].id < later then later else menu[0].id + 1
  }

  /** Where the added items start: at `Offset`, or at the end of a shorter menu. */
  function Anchor(menu: seq<MenuItem>): nat {
    if |menu| < Offset then |menu| else Offset
  }

  /** `menu` with `items` placed as one block starting at `Anchor(menu)`:
      nothing is lost and nothing else is added. */
  function Splice(menu: seq<MenuItem>, items: seq<MenuItem>): (r: seq<MenuItem>)
    ensures |r| == |menu| + |items|
    ensures forall x :: x in r <==> x in menu || x in items
  {
    menu[..Anchor(menu)] + items + menu[Anchor(menu)..]
  }

  /** The item built for `entry`, with identity `id`. */
  function ItemFor(entry: string, id: nat): MenuItem {
    RebootItem(id, entry)
  }

  /** The label an item shows: a host item's is not modelled; an item added
      for an entry is labelled from the entry's display name. */
  function Text(item: MenuItem): Option<string> {
    match item
    case HostItem(_) => None
    case RebootItem(_, entry) => Some(MenuText(PrettyName(entry)))
  }

  /** The items built for `entries`, in order, with identities from `firstId` on. */
  function ItemsFor(entries: seq<string>, firstId: nat): (r: seq<MenuItem>)
    ensures |r| == |entries|
  {
    if entries == [] then []
    else
      var last := |entries| - 1;
      ItemsFor(entries[..last], firstId) + [ItemFor(entries[last], firstId + last)]
  }

  /** The name table after `Map.set(entry, PrettyName(entry))` for each entry
      in turn; a later duplicate overwrites an earlier one. Its keys are
      exactly the entries. */
  function NameTable(entries: seq<string>): (r: map<string, string>)
    ensures forall e :: e in r <==> e in entries
  {
    if entries == [] then map[]
    else
      var last := entries[|entries| - 1];
      NameTable(entries[..|entries| - 1])[last := PrettyName(last)]
  }

  /** What the extension keeps true of its menu, its items and its name table:
      every identity in the menu is below the next one to be allocated, and
      every stored item is one for an entry that has a display name. */
  ghost predicate Bookkept(menu: seq<MenuItem>, nextId: nat, items: seq<MenuItem>,
                           names: map<string, string>) {
    && (forall x :: x in menu ==> x.id < nextId)
    && (forall x :: x in items ==> x.RebootItem? && x.entry in names)
  }

  /** `menu` without the items in `gone`, the rest in order. */
  function Without(menu: seq<MenuItem>, gone: seq<MenuItem>): (r: seq<MenuItem>)
    ensures forall x :: x in r <==> x in menu && x !in gone
  {
    if menu == [] then []
    else (if menu[0] in gone then [] else [menu[0]]) + Without(menu[1..], gone)
  }

  // ---------------------------------------------------------------------------
  // Properties

  /** The i-th added item is inserted at `Offset + i`: adding one more item
      there extends the block by one. */
  lemma InsertExtendsBlock(menu: seq<MenuItem>, items: seq<MenuItem>, item: MenuItem)
    ensures Insert(Splice(menu, items), Offset + |items|, item) == Splice(menu, items + [item])
  {
    var k := Anchor(menu);
    var m := Splice(menu, items);
    if Offset + |items| < |m| {
      assert k == Offset;
      assert m[..Offset + |items|] == menu[..k] + items;
      assert m[Offset + |items|..] == menu[k..];
    } else {
      assert menu[k..] == [];
    }
  }

  /** The i-th item built is the one for the i-th entry, with identity
      `firstId + i`. */
  lemma {:induction false} ItemsForAt(entries: seq<string>, firstId: nat, i: nat)
    requires i < |entries|
    ensures ItemsFor(entries, firstId)[i] == ItemFor(entries[i], firstId + i)
  {
    var last := |entries| - 1;
    if i < last {
      ItemsForAt(entries[..last], firstId, i);
    }
  }

  /** The label of an added item is the restart template with `%s` replaced by
      the entry's display name, followed by an ellipsis. */
  lemma ItemText(entry: string, id: nat)
    ensures Text(ItemFor(entry, id)) == Some(ReplaceFirst(RestartTemplate, "%s", PrettyName(entry)) + "...")
  {
    TitleTextShape(PrettyName(entry));
  }

  /** Every entry has a name in the table, the name derived from it, and the
      table holds nothing else. */
  lemma {:induction false} NameTableContents(entries: seq<string>)
    ensures forall e :: e in NameTable(entries) <==> e in entries
    ensures forall e :: e in NameTable(entries) ==> NameTable(entries)[e] == PrettyName(e)
  {
    if entries != [] {
      var init := entries[..|entries| - 1];
      NameTableContents(init);
      assert entries == init + [entries[|entries| - 1]];
    }
  }

  /** Recording one more entry adds (or overwrites) exactly its name. */
  lemma NameTableExtend(entries: seq<string>, index: nat)
    requires index < |entries|
    ensures NameTable(entries[..index + 1])
         == NameTable(entries[..index])[entries[index] := PrettyName(entries[index])]
  {
    assert entries[..index + 1][..index] == entries[..index];
  }

  lemma {:induction false} WithoutConcat(a: seq<MenuItem>, b: seq<MenuItem>, gone: seq<MenuItem>)
    ensures Without(a + b, gone) == Without(a, gone) + Without(b, gone)
  {
    if a != [] {
      assert (a + b)[1..] == a[1..] + b;
      WithoutConcat(a[1..], b, gone);
    } else {
      assert a + b == b;
    }
  }

  /** Removing a block item by item is removing the block at once. */
  lemma {:induction false} WithoutOneMore(menu: seq<MenuItem>, gone: seq<MenuItem>, item: MenuItem)
    ensures Without(Without(menu, gone), [item]) == Without(menu, gone + [item])
  {
    if menu != [] {
      WithoutOneMore(menu[1..], gone, item);
      var head := if menu[0] in gone then [] else [menu[0]];
      WithoutConcat(head, Without(menu[1..], gone), [item]);
    }
  }

  /** Removing items none of which is in the menu leaves it as it was. */
  lemma {:induction false} WithoutNothing(menu: seq<MenuItem>, gone: seq<MenuItem>)
    requires forall x :: x in menu ==> x !in gone
    ensures Without(menu, gone) == menu
  {
    if menu != [] {
      WithoutNothing(menu[1..], gone);
      assert menu == [menu[0]] + menu[1..];
    }
  }

  /** Removing items that cover the menu leaves nothing. */
  lemma {:induction false} WithoutAll(menu: seq<MenuItem>, gone: seq<MenuItem>)
    requires forall x :: x in menu ==> x in gone
    ensures Without(menu, gone) == []
  {
    if menu != [] {
      WithoutAll(menu[1..], gone);
    }
  }

  /** The items built for `entries` are pairwise distinct, each is an item for
      one of the entries, and their identities run from `firstId` on. */
  lemma ItemsForFacts(entries: seq<string>, firstId: nat)
    ensures forall i, j :: 0 <= i < j < |entries| ==> ItemsFor(entries, firstId)[i] != ItemsFor(entries, firstId)[j]
    ensures forall x :: x in ItemsFor(entries, firstId) ==>
      x.RebootItem? && x.entry in entries && firstId <= x.id < firstId + |entries|
  {
    var r := ItemsFor(entries, firstId);
    forall i | 0 <= i < |r|
      ensures r[i] == ItemFor(entries[i], firstId + i)
    {
      ItemsForAt(entries, firstId, i);
    }
    forall x | x in r
      ensures x.RebootItem? && x.entry in entries && firstId <= x.id < firstId + |entries|
    {
      var i :| 0 <= i < |r| && r[i] == x;
    }
  }

  /** After the items are spliced in, every identity in the menu is below the
      next one to be allocated. */
  lemma SplicedIds(menu: seq<MenuItem>, entries: seq<string>, firstId: nat)
    requires forall x :: x in menu ==> x.id < firstId
    ensures forall x :: x in Splice(menu, ItemsFor(entries, firstId)) ==> x.id < firstId + |entries|
  {
    ItemsForFacts(entries, firstId);
    var k := Anchor(menu);
    assert forall x :: x in menu[..k] ==> x in menu;
    assert forall x :: x in menu[k..] ==> x in menu;
  }

  /** Enabling on a menu whose identities are all below `firstId` leaves the
      bookkeeping intact. */
  lemma EnabledBookkept(menu: seq<MenuItem>, entries: seq<string>, firstId: nat)
    requires forall x :: x in menu ==> x.id < firstId
    ensures Bookkept(Splice(menu, ItemsFor(entries, firstId)), firstId + |entries|,
                     ItemsFor(entries, firstId), NameTable(entries))
  {
    SplicedIds(menu, entries, firstId);
    ItemsForFacts(entries, firstId);
    NameTableContents(entries);
  }

  /** Building the items into a menu whose own items all have identities below
      `firstId`, and then removing them again, gives back the menu. */
  lemma AddThenRemove(menu: seq<MenuItem>, entries: seq<string>, firstId: nat)
    requires forall x :: x in menu ==> x.id < firstId
    ensures Without(Splice(menu, ItemsFor(entries, firstId)), ItemsFor(entries, firstId)) == menu
  {
    var items := ItemsFor(entries, firstId);
    var before, after := menu[..Anchor(menu)], menu[Anchor(menu)..];
    assert forall x :: x in menu ==> x !in items by {
      ItemsForFacts(entries, firstId);
    }
    assert forall x :: x in before ==> x !in items;
    assert forall x :: x in after ==> x !in items;
    RemoveBlock(before, items, after);
    assert before + after == menu;
  }

  /** Removing a block from between items that are not in it leaves those items. */
  lemma RemoveBlock(before: seq<MenuItem>, items: seq<MenuItem>, after: seq<MenuItem>)
    requires forall x :: x in before ==> x !in items
    requires forall x :: x in after ==> x !in items
    ensures Without(before + items + after, items) == before + after
  {
    var kept := Without(before, items);
    var dropped := Without(items, items);
    assert kept == before by { WithoutNothing(before, items); }
    assert dropped == [] by { WithoutAll(items, items); }
    assert Without(before + items, items) == kept + dropped by {
      WithoutConcat(before, items, items);
    }
    assert Without(after, items) == after by { WithoutNothing(after, items); }
    assert kept + dropped == before;
    WithoutConcat(before + items, after, items);
  }


}
