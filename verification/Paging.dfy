/**
 * Listing the users with access to a resource, page by page: one role per user,
 * users in id order, a cursor naming the last user of the page before.
 * Ids are numbers in the order of their texts.
 */
module Paging {
  import opened Common

  datatype Binding = Binding(subject: nat, role: nat, permissions: seq<string>)

  /** A user and the role shown for them. */
  type Item = (nat, nat)

  const MANAGE_ALL := "manage_all"
  const WRITE_ALL := "write_all"
  const READ_ALL := "read_all"
  const DEFAULT_PAGE_SIZE := 100

  function SetOf(bindings: seq<Binding>): set<Binding> {
    set b | b in bindings
  }

  // ------------------------------------------------------------------------- ranking

  function Max(a: int, b: int): int { if a < b then b else a }

  /** The wildcards lift a role to a fixed rank; otherwise the number of permissions counts. */
  function Rank(permissions: seq<string>): int {
    if MANAGE_ALL in permissions then 300
    else if WRITE_ALL in permissions then Max(200, |permissions|)
    else if READ_ALL in permissions then Max(100, |permissions|)
    else |permissions|
  }

  method RoleRank(permissions: seq<string>) returns (rank: int)
    ensures rank == Rank(permissions)
  {
    rank := |permissions|;
    for i := 0 to |permissions|
      invariant MANAGE_ALL !in permissions[..i]
      invariant rank == if WRITE_ALL in permissions[..i] then Max(200, |permissions|)
                        else if READ_ALL in permissions[..i] then Max(100, |permissions|) else |permissions|
    {
      var permission := permissions[i];
      assert permissions[..i + 1] == permissions[..i] + [permission] && permission in permissions;
      WildcardsDiffer();
      if permission == MANAGE_ALL {
        return 300;
      } else if permission == WRITE_ALL {
        rank := if rank < 200 then 200 else rank;
      } else if permission == READ_ALL {
        rank := if rank < 100 then 100 else rank;
      }
    }
    assert permissions[..|permissions|] == permissions;
  }

  lemma WildcardsDiffer()
    ensures MANAGE_ALL != WRITE_ALL && MANAGE_ALL != READ_ALL && WRITE_ALL != READ_ALL
  {
    assert MANAGE_ALL[0] == 'm' && WRITE_ALL[0] == 'w' && READ_ALL[0] == 'r';
  }

  predicate Better(b: Binding, c: Binding) {
    Rank(b.permissions) > Rank(c.permissions) || (Rank(b.permissions) == Rank(c.permissions) && b.role < c.role)
  }

  /** The role with the highest rank, and among those the smallest id. */
  predicate Shown(bindings: set<Binding>, item: Item) {
    exists b :: b in bindings && b.subject == item.0 && b.role == item.1 && Unbeaten(bindings, b)
  }

  predicate Unbeaten(bindings: set<Binding>, b: Binding) {
    forall c :: c in bindings && c.subject == b.subject ==> !Better(c, b)
  }

  /** The role shown does not depend on the order of the bindings: there is one per user. */
  lemma OneRoleShown(bindings: set<Binding>, i: Item, j: Item)
    requires Shown(bindings, i) && Shown(bindings, j) && i.0 == j.0
    ensures i == j
  {
    var b :| b in bindings && b.subject == i.0 && b.role == i.1 && Unbeaten(bindings, b);
    var c :| c in bindings && c.subject == j.0 && c.role == j.1 && Unbeaten(bindings, c);
    assert !Better(b, c) && !Better(c, b);
  }

  /** No longer list of permissions beats a wildcard it does not hold, below these lengths. */
  lemma WildcardsRankFirst(p: seq<string>, q: seq<string>)
    ensures "manage_all" in p && "manage_all" !in q && |q| < 300 ==> Rank(p) > Rank(q)
    ensures "write_all" in p && "manage_all" !in q && "write_all" !in q && |q| < 200 ==> Rank(p) > Rank(q)
    ensures "read_all" in p && "manage_all" !in q && "write_all" !in q && "read_all" !in q && |q| < 100 ==> Rank(p) > Rank(q)
    ensures "manage_all" in p && "manage_all" in q ==> Rank(p) == Rank(q)
    ensures (forall w :: w in {"manage_all", "write_all", "read_all"} ==> w !in p && w !in q) ==> (Rank(p) > Rank(q) <==> |p| > |q|)
  {
    WildcardsDiffer();
  }

  predicate HasWildcard(bindings: set<Binding>, subject: nat, wildcard: string) {
    exists b :: b in bindings && b.subject == subject && wildcard in b.permissions
  }

  /** Among ordinary roles, those of fewer than a hundred permissions, the strongest wildcard a user has is in the role shown. */
  lemma StrongestRoleShown(bindings: set<Binding>, item: Item) returns (b: Binding)
    requires Shown(bindings, item) && forall c :: c in bindings ==> |c.permissions| < 100
    ensures b in bindings && b.subject == item.0 && b.role == item.1
    ensures HasWildcard(bindings, item.0, "manage_all") ==> "manage_all" in b.permissions
    ensures !HasWildcard(bindings, item.0, "manage_all") && HasWildcard(bindings, item.0, "write_all") ==> "write_all" in b.permissions
    ensures !HasWildcard(bindings, item.0, "manage_all") && !HasWildcard(bindings, item.0, "write_all") && HasWildcard(bindings, item.0, "read_all") ==>
      "read_all" in b.permissions
    ensures !HasWildcard(bindings, item.0, "manage_all") && !HasWildcard(bindings, item.0, "write_all") && !HasWildcard(bindings, item.0, "read_all") ==>
      forall c :: c in bindings && c.subject == item.0 ==>
        |c.permissions| < |b.permissions| || (|c.permissions| == |b.permissions| && c.role >= b.role)
  {
    hide Rank;
    b :| b in bindings && b.subject == item.0 && b.role == item.1 && Unbeaten(bindings, b);
    forall c | c in bindings && c.subject == b.subject ensures !Better(c, b) {
    }
    forall c | c in bindings && c.subject == b.subject
      ensures ("manage_all" in c.permissions && "manage_all" !in b.permissions ==> Better(c, b))
    {
      WildcardsRankFirst(c.permissions, b.permissions);
    }
    forall c | c in bindings && c.subject == b.subject
      ensures "write_all" in c.permissions && "manage_all" !in b.permissions && "write_all" !in b.permissions ==> Better(c, b)
      ensures "read_all" in c.permissions && "manage_all" !in b.permissions && "write_all" !in b.permissions && "read_all" !in b.permissions ==> Better(c, b)
    {
      WildcardsRankFirst(c.permissions, b.permissions);
    }
    forall c | c in bindings && c.subject == b.subject
      ensures (forall w :: w in {"manage_all", "write_all", "read_all"} ==> w !in b.permissions && w !in c.permissions) ==>
        |c.permissions| < |b.permissions| || (|c.permissions| == |b.permissions| && c.role >= b.role)
    {
      WildcardsRankFirst(c.permissions, b.permissions);
      WildcardsRankFirst(b.permissions, c.permissions);
    }
  }

  // ----------------------------------------------------------------------- selecting

  predicate Covered(bindings: seq<Binding>, selected: map<nat, Binding>) {
    && (forall s :: s in selected ==> selected[s] in bindings && selected[s].subject == s)
    && (forall b :: b in bindings ==> b.subject in selected && !Better(b, selected[b.subject]))
  }

  method Select(bindings: seq<Binding>) returns (selected: map<nat, Binding>)
    ensures Covered(bindings, selected)
  {
    hide Rank;
    selected := map[];
    for i := 0 to |bindings|
      invariant Covered(bindings[..i], selected)
    {
      var b := bindings[i];
      assert bindings[..i + 1] == bindings[..i] + [b];
      if b.subject !in selected || Better(b, selected[b.subject]) {
        selected := selected[b.subject := b];
      }
    }
    assert bindings[..|bindings|] == bindings;
  }

  predicate Sorted(items: seq<Item>) {
    forall i, j :: 0 <= i < j < |items| ==> items[i].0 < items[j].0
  }

  /** Inserting keeps the list strictly ordered by id. */
  function Insert(items: seq<Item>, item: Item): seq<Item>
    decreases |items|
  {
    if items == [] || items[|items| - 1].0 < item.0 then items + [item]
    else Insert(items[..|items| - 1], item) + [items[|items| - 1]]
  }

  lemma {:induction false} InsertSorts(items: seq<Item>, item: Item)
    requires Sorted(items) && forall x :: x in items ==> x.0 != item.0
    ensures Sorted(Insert(items, item)) && forall x :: x in Insert(items, item) <==> x in items || x == item
    decreases |items|
  {
    if items != [] {
      var init, last := items[..|items| - 1], items[|items| - 1];
      assert items == init + [last] && last in items;
      if last.0 < item.0 {
        LastIsLargest(items);
        AppendSorted(items, item);
      } else {
        InsertSorts(init, item);
        LastIsLargest(items);
        AppendSorted(Insert(init, item), last);
      }
    }
  }

  lemma LastIsLargest(items: seq<Item>)
    requires Sorted(items) && items != []
    ensures forall x :: x in items[..|items| - 1] ==> x.0 < items[|items| - 1].0
    ensures forall x :: x in items ==> x.0 <= items[|items| - 1].0
  {
  }

  lemma AppendSorted(items: seq<Item>, last: Item)
    requires Sorted(items) && forall x :: x in items ==> x.0 < last.0
    ensures Sorted(items + [last])
  {
    forall i | 0 <= i < |items| ensures items[i].0 < last.0 {
      assert items[i] in items;
    }
  }

  /** All users of the listing, in id order. */
  ghost predicate Listing(bindings: set<Binding>, wanted: nat -> bool, all: seq<Item>) {
    Sorted(all) && forall item :: item in all <==> wanted(item.0) && Shown(bindings, item)
  }

  method ListUsers(bindings: seq<Binding>, wanted: nat -> bool) returns (items: seq<Item>)
    ensures Listing(SetOf(bindings), wanted, items)
  {
    hide Better, Insert;
    var selected := Select(bindings);
    items := [];
    var rest: set<nat> := selected.Keys;
    while rest != {}
      invariant rest <= selected.Keys && Sorted(items)
      invariant forall item :: item in items <==> item.0 in selected && item.0 !in rest && wanted(item.0) && item.1 == selected[item.0].role
      decreases rest
    {
      var s :| s in rest;
      if wanted(s) {
        InsertSorts(items, (s, selected[s].role));
        items := Insert(items, (s, selected[s].role));
      }
      rest := rest - {s};
    }
    SelectedAreShown(bindings, selected);
  }

  lemma SelectedAreShown(bindings: seq<Binding>, selected: map<nat, Binding>)
    requires Covered(bindings, selected)
    ensures forall item: Item :: Shown(SetOf(bindings), item) <==> item.0 in selected && item.1 == selected[item.0].role
  {
    var all := SetOf(bindings);
    forall item: Item ensures Shown(all, item) <==> item.0 in selected && item.1 == selected[item.0].role {
      if item.0 in selected {
        var b := selected[item.0];
        assert b in all && Unbeaten(all, b) && Shown(all, (b.subject, b.role));
        if Shown(all, item) {
          OneRoleShown(all, item, (b.subject, b.role));
        }
      }
    }
  }

  /** A listing is determined by its bindings. */
  lemma {:induction false} ListingUnique(bindings: set<Binding>, wanted: nat -> bool, a: seq<Item>, b: seq<Item>)
    requires Listing(bindings, wanted, a) && Listing(bindings, wanted, b)
    ensures a == b
  {
    hide Shown;
    SameSortedItems(a, b);
  }

  lemma {:induction false} SameSortedItems(a: seq<Item>, b: seq<Item>)
    requires Sorted(a) && Sorted(b) && forall x :: x in a <==> x in b
    ensures a == b
    decreases |a|
  {
    if a == [] {
      HeadIn(b);
    } else {
      assert a[0] in a && |b| > 0 && b[0] in b;
      var i :| 0 <= i < |b| && b[i] == a[0];
      var j :| 0 <= j < |a| && a[j] == b[0];
      assert a[0] == b[0];
      forall x ensures x in a[1..] <==> x in b[1..] {
        if x in a[1..] { TailSkipsHead(a, x); }
        if x in b[1..] { TailSkipsHead(b, x); }
      }
      SameSortedItems(a[1..], b[1..]);
      assert a == [a[0]] + a[1..] && b == [b[0]] + b[1..];
    }
  }

  lemma HeadIn(b: seq<Item>)
    ensures b == [] || b[0] in b
  {
  }

  lemma TailSkipsHead(a: seq<Item>, x: Item)
    requires Sorted(a) && a != [] && x in a[1..]
    ensures x in a && x != a[0]
  {
  }

  // -------------------------------------------------------------------------- paging

  predicate After(cursor: Option<nat>, item: Item) {
    cursor.None? || item.0 > cursor.value
  }

  /** The users after the cursor. */
  function Rest(all: seq<Item>, cursor: Option<nat>): seq<Item>
    decreases |all|
  {
    if all == [] || After(cursor, all[0]) then all else Rest(all[1..], cursor)
  }

  function PageSize(perPage: int): nat {
    if perPage <= 0 then DEFAULT_PAGE_SIZE else perPage
  }

  function Page(rest: seq<Item>, perPage: int): seq<Item> {
    if |rest| > PageSize(perPage) then rest[..PageSize(perPage)] else rest
  }

  function NextCursor(rest: seq<Item>, perPage: int): Option<nat> {
    if |rest| > PageSize(perPage) then Some(rest[PageSize(perPage) - 1].0) else None
  }

  /** One request: the listing is built anew, then cut to the page after the cursor. */
  method ListPage(bindings: seq<Binding>, wanted: nat -> bool, cursor: Option<nat>, perPage: int)
    returns (items: seq<Item>, next: Option<nat>)
    ensures forall all :: Listing(SetOf(bindings), wanted, all) ==>
      items == Page(Rest(all, cursor), perPage) && next == NextCursor(Rest(all, cursor), perPage)
  {
    hide Listing;
    var listed := ListUsers(bindings, wanted);
    ListingSorted(bindings, wanted, listed);
    forall all | Listing(SetOf(bindings), wanted, all) ensures all == listed {
      ListingUnique(SetOf(bindings), wanted, all, listed);
    }
    items := [];
    assert listed[..0] == [];
    for i := 0 to |listed|
      invariant items == Kept(listed[..i], cursor)
    {
      assert listed[..i + 1][..i] == listed[..i];
      if After(cursor, listed[i]) {
        items := items + [listed[i]];
      }
    }
    assert listed[..|listed|] == listed;
    KeptIsRest(listed, cursor);
    next := None;
    if |items| > PageSize(perPage) {
      next := Some(items[PageSize(perPage) - 1].0);
      items := items[..PageSize(perPage)];
    }
  }

  lemma ListingSorted(bindings: seq<Binding>, wanted: nat -> bool, all: seq<Item>)
    requires Listing(SetOf(bindings), wanted, all)
    ensures Sorted(all)
  {
  }

  function Kept(all: seq<Item>, cursor: Option<nat>): seq<Item>
    decreases |all|
  {
    if all == [] then []
    else Kept(all[..|all| - 1], cursor) + (if After(cursor, all[|all| - 1]) then [all[|all| - 1]] else [])
  }

  /** In a sorted list, deleting up to the cursor leaves a tail. */
  lemma {:induction false} KeptIsRest(all: seq<Item>, cursor: Option<nat>)
    requires Sorted(all)
    ensures Kept(all, cursor) == Rest(all, cursor)
    decreases |all|
  {
    hide After, Rest, Kept;
    if all == [] {
      NothingKept(cursor);
    } else {
      var init, last := all[..|all| - 1], all[|all| - 1];
      assert all == init + [last];
      KeptIsRest(init, cursor);
      RestOfLonger(init, last, cursor);
      LastStep(all, cursor);
    }
  }

  lemma NothingKept(cursor: Option<nat>)
    ensures Kept([], cursor) == [] && Rest([], cursor) == []
  {
  }

  lemma LastStep(all: seq<Item>, cursor: Option<nat>)
    requires all != []
    ensures var init, last := all[..|all| - 1], all[|all| - 1];
      Kept(all, cursor) == if After(cursor, last) then Kept(init, cursor) + [last] else Kept(init, cursor)
  {
  }

  lemma {:induction false} RestOfLonger(init: seq<Item>, last: Item, cursor: Option<nat>)
    requires Sorted(init + [last])
    ensures Rest(init + [last], cursor) == if After(cursor, last) then Rest(init, cursor) + [last] else []
    ensures !After(cursor, last) ==> Rest(init, cursor) == []
    decreases |init|
  {
    var all := init + [last];
    if init == [] {
      assert all == [last] && all[1..] == [];
    } else {
      assert all[0] == init[0] && all[|all| - 1] == last && all[0].0 < last.0;
      assert all[1..] == init[1..] + [last];
      RestOfLonger(init[1..], last, cursor);
    }
  }

  /** A page is the next users after the cursor, at most a hundred unless told otherwise; the cursor it hands on is its last user, if more follow. */
  lemma PageIsNext(all: seq<Item>, cursor: Option<nat>, perPage: int)
    requires Sorted(all)
    ensures var page := Page(Rest(all, cursor), perPage); var size := if perPage <= 0 then 100 else perPage; var next := NextCursor(Rest(all, cursor), perPage);
      && |page| <= size
      && (forall x :: x in page ==> x in all && (cursor.Some? ==> x.0 > cursor.value))
      && (forall x :: x in all && (cursor.Some? ==> x.0 > cursor.value) && x !in page ==>
            |page| == size && next == Some(page[size - 1].0) && x.0 > page[size - 1].0)
      && (next.Some? ==> exists x :: x in all && x.0 > next.value)
  {
    hide Rest, Page, NextCursor;
    RestIsTail(all, cursor);
    RestIsAfter(all, cursor);
    PageOfRest(Rest(all, cursor), perPage);
  }

  lemma PageOfRest(rest: seq<Item>, perPage: int)
    requires Sorted(rest)
    ensures var page := Page(rest, perPage); var size := if perPage <= 0 then 100 else perPage; var next := NextCursor(rest, perPage);
      && |page| <= size
      && (forall x :: x in page ==> x in rest)
      && (forall x :: x in rest && x !in page ==> |page| == size && next == Some(page[size - 1].0) && x.0 > page[size - 1].0)
      && (next.Some? ==> exists x :: x in rest && x.0 > next.value)
  {
    var size := PageSize(perPage);
    if |rest| > size {
      var page := rest[..size];
      assert rest[size] in rest && rest[size].0 > rest[size - 1].0;
      forall x | x in rest && x !in page ensures x.0 > page[size - 1].0 {
        var i :| 0 <= i < |rest| && rest[i] == x;
        assert i < size ==> page[i] == x;
      }
    }
  }

  lemma {:induction false} RestIsAfter(all: seq<Item>, cursor: Option<nat>)
    requires Sorted(all)
    ensures forall x :: x in Rest(all, cursor) <==> x in all && (cursor.Some? ==> x.0 > cursor.value)
    decreases |all|
  {
    if all != [] {
      assert forall x :: x in all <==> x == all[0] || x in all[1..];
      if After(cursor, all[0]) {
        forall x | x in all ensures x.0 >= all[0].0 {
        }
      } else {
        RestIsAfter(all[1..], cursor);
      }
    }
  }

  /** Following the cursors from one on. */
  function Walk(all: seq<Item>, cursor: Option<nat>, perPage: int): seq<seq<Item>>
    requires Sorted(all)
    decreases |Rest(all, cursor)|
  {
    var rest := Rest(all, cursor);
    var next := NextCursor(rest, perPage);
    RestIsTail(all, cursor);
    if next.None? then [Page(rest, perPage)]
    else
      NextPageStarts(all, cursor, perPage);
      [Page(rest, perPage)] + Walk(all, next, perPage)
  }

  lemma {:induction false} RestIsTail(all: seq<Item>, cursor: Option<nat>)
    requires Sorted(all)
    ensures |Rest(all, cursor)| <= |all| && Rest(all, cursor) == all[|all| - |Rest(all, cursor)|..]
    ensures Sorted(Rest(all, cursor))
    decreases |all|
  {
    if all != [] && !After(cursor, all[0]) {
      RestIsTail(all[1..], cursor);
    }
  }

  /** Behind the cursor of the k-th entry of a sorted list is what follows it. */
  lemma {:induction false} RestBehind(all: seq<Item>, k: nat)
    requires Sorted(all) && k < |all|
    ensures Rest(all, Some(all[k].0)) == all[k + 1..]
    decreases |all|
  {
    if k > 0 {
      RestBehind(all[1..], k - 1);
      assert all[1..][k - 1] == all[k] && all[0].0 < all[k].0;
    } else if |all| > 1 {
      assert all[1..][0].0 > all[0].0;
    }
  }

  lemma NextPageStarts(all: seq<Item>, cursor: Option<nat>, perPage: int)
    requires Sorted(all) && NextCursor(Rest(all, cursor), perPage).Some?
    ensures var rest := Rest(all, cursor); var next := NextCursor(rest, perPage);
      Rest(all, next) == rest[PageSize(perPage)..] && |Rest(all, next)| < |rest|
  {
    var rest := Rest(all, cursor);
    RestIsTail(all, cursor);
    var k := |all| - |rest| + PageSize(perPage) - 1;
    assert all[k] == rest[PageSize(perPage) - 1];
    RestBehind(all, k);
    assert all[k + 1..] == rest[PageSize(perPage)..];
  }

  function Flatten(pages: seq<seq<Item>>): seq<Item> {
    if pages == [] then [] else pages[0] + Flatten(pages[1..])
  }

  lemma {:induction false} WalkVisitsRest(all: seq<Item>, cursor: Option<nat>, perPage: int)
    requires Sorted(all)
    ensures Flatten(Walk(all, cursor, perPage)) == Rest(all, cursor)
    decreases |Rest(all, cursor)|
  {
    var rest := Rest(all, cursor);
    var next := NextCursor(rest, perPage);
    if next.Some? {
      NextPageStarts(all, cursor, perPage);
      WalkVisitsRest(all, next, perPage);
      assert ([Page(rest, perPage)] + Walk(all, next, perPage))[1..] == Walk(all, next, perPage);
    } else {
      assert [Page(rest, perPage)][1..] == [];
      assert Flatten([Page(rest, perPage)]) == Page(rest, perPage) + Flatten([]);
    }
  }

  /** From the first page on, the pages are all the users, each once, in order, for any page size. */
  lemma WalkVisitsEveryoneOnce(bindings: set<Binding>, wanted: nat -> bool, all: seq<Item>, perPage: int)
    requires Listing(bindings, wanted, all)
    ensures Flatten(Walk(all, None, perPage)) == all
    ensures forall p :: p in Walk(all, None, perPage) ==> |p| <= PageSize(perPage)
  {
    WalkVisitsRest(all, None, perPage);
    PagesAreBounded(all, None, perPage);
  }

  lemma {:induction false} PagesAreBounded(all: seq<Item>, cursor: Option<nat>, perPage: int)
    requires Sorted(all)
    ensures forall p :: p in Walk(all, cursor, perPage) ==> |p| <= PageSize(perPage)
    decreases |Rest(all, cursor)|
  {
    var next := NextCursor(Rest(all, cursor), perPage);
    if next.Some? {
      NextPageStarts(all, cursor, perPage);
      PagesAreBounded(all, next, perPage);
    }
  }
}
