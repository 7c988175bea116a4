/**
 The ordering screen's grouping of the menu by category: a reduce over the
 menu list into an object keyed by category, whose keys are then listed in
 the order they were first inserted.

 The object is modelled as a sequence of (category, items) groups in key
 insertion order.
 */
module MenuGroups {
  import opened Records

  datatype Group = Group(category: string, items: seq<MenuItem>)

  /** No category keys two groups. */
  predicate DistinctCategories(groups: seq<Group>) {
    forall i, j :: 0 <= i < j < |groups| ==> groups[i].category != groups[j].category
  }

  /** `acc[c] || []`: the items grouped under category `c`. */
  function Members(groups: seq<Group>, c: string): seq<MenuItem> {
    if |groups| == 0 then []
    else if groups[0].category == c then groups[0].items
    else Members(groups[1..], c)
  }

  /** The items of category `c`, in list order: the reference the grouping is checked against. */
  function InCategory(items: seq<MenuItem>, c: string): seq<MenuItem> {
    if |items| == 0 then []
    else
      var last := items[|items| - 1];
      InCategory(items[..|items| - 1], c) + (if last.category == c then [last] else [])
  }

  /** Every key holds at least one item: a key is only created for an item pushed onto it. */
  predicate NoEmptyGroup(groups: seq<Group>) {
    forall i :: 0 <= i < |groups| ==> |groups[i].items| > 0
  }

  /**
   The categories of a menu list in the order they first appear: the key
   order the grouping object reports.
   */
  function FirstSeen(items: seq<MenuItem>): seq<string> {
    if |items| == 0 then []
    else
      var prev := FirstSeen(items[..|items| - 1]);
      var c := items[|items| - 1].category;
      if c in prev then prev else prev + [c]
  }

  function TotalCount(groups: seq<Group>): nat {
    if |groups| == 0 then 0 else |groups[0].items| + TotalCount(groups[1..])
  }

  /** Lookup and count over a group list, one group at a time from the front. */
  lemma ConsFacts(g: Group, rest: seq<Group>, c: string)
    ensures Members([g] + rest, c) == if g.category == c then g.items else Members(rest, c)
    ensures TotalCount([g] + rest) == |g.items| + TotalCount(rest)
  {
    assert ([g] + rest)[1..] == rest;
  }

  /**
   One step of the reducer: create the item's category key if it is missing,
   then push the item onto that key's list.
   */
  function AddToGroups(groups: seq<Group>, item: MenuItem): (r: seq<Group>)
    requires DistinctCategories(groups)
    ensures DistinctCategories(r)
    ensures |r| == |groups| || (|r| == |groups| + 1 && r[|groups|].category == item.category)
    ensures forall i :: 0 <= i < |groups| ==> r[i].category == groups[i].category
    decreases |groups|
  {
    if |groups| == 0 then [Group(item.category, [item])]
    else if groups[0].category == item.category then
      [groups[0].(items := groups[0].items + [item])] + groups[1..]
    else
      [groups[0]] + AddToGroups(groups[1..], item)
  }

  /**
   The step appends the item to its own category's list and leaves every
   other category's list alone; the count grows by one.
   */
  lemma {:induction false} AddToGroupsMembers(groups: seq<Group>, item: MenuItem, c: string)
    requires DistinctCategories(groups)
    ensures Members(AddToGroups(groups, item), c) == Members(groups, c) + (if item.category == c then [item] else [])
    ensures TotalCount(AddToGroups(groups, item)) == TotalCount(groups) + 1
    decreases |groups|
  {
    if |groups| == 0 {
      ConsFacts(Group(item.category, [item]), [], c);
    } else {
      ConsFacts(groups[0], groups[1..], c);
      assert groups == [groups[0]] + groups[1..];
      if groups[0].category == item.category {
        if c != item.category {
          assert Members(groups, c) == Members(groups[1..], c);
        }
        ConsFacts(groups[0].(items := groups[0].items + [item]), groups[1..], c);
      } else {
        AddToGroupsMembers(groups[1..], item, c);
        ConsFacts(groups[0], AddToGroups(groups[1..], item), c);
      }
    }
  }

  /** The step never leaves a key without items. */
  lemma {:induction false} AddToGroupsNonEmpty(groups: seq<Group>, item: MenuItem)
    requires DistinctCategories(groups) && NoEmptyGroup(groups)
    ensures NoEmptyGroup(AddToGroups(groups, item))
    decreases |groups|
  {
    if |groups| > 0 && groups[0].category != item.category {
      assert forall i :: 0 <= i < |groups| - 1 ==> groups[1..][i] == groups[i + 1];
      AddToGroupsNonEmpty(groups[1..], item);
      var r := AddToGroups(groups, item);
      assert forall i :: 1 <= i < |r| ==> r[i] == AddToGroups(groups[1..], item)[i - 1];
    }
  }

  /** The step adds a key exactly when the item's category had none. */
  lemma {:induction false} AddToGroupsKeys(groups: seq<Group>, item: MenuItem)
    requires DistinctCategories(groups)
    ensures |AddToGroups(groups, item)| == |groups| <==>
      exists i :: 0 <= i < |groups| && groups[i].category == item.category
    decreases |groups|
  {
    if |groups| > 0 && groups[0].category != item.category {
      assert forall i :: 0 <= i < |groups| - 1 ==> groups[1..][i] == groups[i + 1];
      AddToGroupsKeys(groups[1..], item);
      if exists i :: 0 <= i < |groups| && groups[i].category == item.category {
        var i :| 0 <= i < |groups| && groups[i].category == item.category;
        assert groups[1..][i - 1].category == item.category;
      }
    }
  }

  /**
   `menuItems.reduce(...)`: the category groups of a menu list. Every group
   holds exactly the list's items of its category, in list order, so each
   item lands in exactly one group (its own category's) and none is lost.
   */
  function GroupByCategory(items: seq<MenuItem>): (r: seq<Group>)
    ensures DistinctCategories(r)
    ensures forall c :: Members(r, c) == InCategory(items, c)
    ensures TotalCount(r) == |items|
    ensures NoEmptyGroup(r)
  {
    if |items| == 0 then []
    else
      var prev := GroupByCategory(items[..|items| - 1]);
      var last := items[|items| - 1];
      AddToGroupsMembers(prev, last, last.category);
      AddToGroupsNonEmpty(prev, last);
      assert forall c :: Members(AddToGroups(prev, last), c) == InCategory(items, c) by {
        forall c ensures Members(AddToGroups(prev, last), c) == InCategory(items, c) {
          AddToGroupsMembers(prev, last, c);
        }
      }
      AddToGroups(prev, last)
  }

  /** With distinct keys, a group's list is what lookup by its key returns. */
  lemma {:induction false} MembersOfGroup(groups: seq<Group>, i: int)
    requires DistinctCategories(groups)
    requires 0 <= i < |groups|
    ensures Members(groups, groups[i].category) == groups[i].items
  {
    if i > 0 {
      assert groups[1..][i - 1] == groups[i];
      MembersOfGroup(groups[1..], i - 1);
    }
  }

  /** An item is listed under category `c` exactly when it is on the menu and its category is `c`. */
  lemma {:induction false} InCategoryMembers(items: seq<MenuItem>, c: string, x: MenuItem)
    ensures x in InCategory(items, c) <==> x in items && x.category == c
  {
    if |items| > 0 {
      InCategoryMembers(items[..|items| - 1], c, x);
      assert items == items[..|items| - 1] + [items[|items| - 1]];
    }
  }

  /** Every item of a group has the group's category and comes from the list. */
  lemma GroupHomogeneous(items: seq<MenuItem>, i: int, x: MenuItem)
    requires 0 <= i < |GroupByCategory(items)|
    requires x in GroupByCategory(items)[i].items
    ensures x.category == GroupByCategory(items)[i].category
    ensures x in items
  {
    var r := GroupByCategory(items);
    MembersOfGroup(r, i);
    InCategoryMembers(items, r[i].category, x);
  }

  /** Every item of the list sits in the group keyed by its own category. */
  lemma ItemInOwnGroup(items: seq<MenuItem>, k: int)
    requires 0 <= k < |items|
    ensures items[k] in Members(GroupByCategory(items), items[k].category)
  {
    InCategoryMembers(items, items[k].category, items[k]);
  }

  /** The keys of the groups, in order, are `keys`. */
  predicate KeysAre(groups: seq<Group>, keys: seq<string>) {
    |groups| == |keys| && forall i :: 0 <= i < |groups| ==> groups[i].category == keys[i]
  }

  /** A step appends the item's category to the key list exactly when it is new. */
  lemma StepKeys(groups: seq<Group>, keys: seq<string>, item: MenuItem)
    requires DistinctCategories(groups) && KeysAre(groups, keys)
    ensures KeysAre(AddToGroups(groups, item),
                    if item.category in keys then keys else keys + [item.category])
  {
    AddToGroupsKeys(groups, item);
    if item.category in keys {
      var i :| 0 <= i < |keys| && keys[i] == item.category;
      assert groups[i].category == item.category;
    }
  }

  /**
   The keys come in the order their categories first appear in the menu
   list, each once.
   */
  lemma {:induction false} GroupKeysFirstSeen(items: seq<MenuItem>)
    ensures KeysAre(GroupByCategory(items), FirstSeen(items))
  {
    if |items| > 0 {
      var prefix := items[..|items| - 1];
      GroupKeysFirstSeen(prefix);
      StepKeys(GroupByCategory(prefix), FirstSeen(prefix), items[|items| - 1]);
    }
  }
}
