/**
 * The in-memory record store of the server: two tables keyed by numeric id
 * (users and items), each with a counter that hands out the next id, and
 * the allow-list of CNICs that may log in.
 *
 * A JavaScript `Map` iterates its keys in insertion order. The store keeps
 * that order explicitly (`userKeys`, `itemKeys`); because ids only grow and
 * replacing the value of a key keeps its place, the order is ascending id,
 * which `Valid` records.
 */
module Storage {
  import opened Wrappers
  import opened Schema

  /** How a user is looked up by a field other than its id. */
  datatype UserKey = ByUsername(name: string) | ByCnic(cnic: string)

  predicate HasKey(u: User, key: UserKey)
  {
    match key
    case ByUsername(name) => u.username == Some(name)
    case ByCnic(c) => u.cnic == c
  }

  /** u is the earliest-created user that has key. */
  ghost predicate IsFirstMatch(users: map<int, User>, key: UserKey, u: User)
  {
    && u.id in users
    && users[u.id] == u
    && HasKey(u, key)
    && forall k :: k in users && k < u.id ==> !HasKey(users[k], key)
  }

  ghost predicate NoMatch(users: map<int, User>, key: UserKey)
  {
    forall k :: k in users ==> !HasKey(users[k], key)
  }

  /** The earliest-created match is unique, whichever way it was found. */
  lemma FirstMatchUnique(users: map<int, User>, key: UserKey, u: User, v: User)
    requires IsFirstMatch(users, key, u) && IsFirstMatch(users, key, v)
    ensures u == v
  {
  }

  // ---------------------------------------------------------------------
  // Map iteration order
  // ---------------------------------------------------------------------

  /** keys lists the domain dom once each, in ascending order, below next. */
  ghost predicate KeyOrder(keys: seq<int>, dom: set<int>, next: int)
  {
    && Ascending(keys)
    && (forall i :: 0 <= i < |keys| ==> keys[i] in dom)
    && (forall k :: k in dom ==> k in keys)
    && (forall k :: k in dom ==> 1 <= k < next)
  }

  /** keys with k taken out, as `Map.delete` does to the iteration order. */
  function Without(keys: seq<int>, k: int): (r: seq<int>)
    ensures forall x :: x in r <==> x in keys && x != k
    ensures k !in keys ==> r == keys
  {
    if keys == [] then []
    else if keys[0] == k then Without(keys[1..], k)
    else
      assert keys == [keys[0]] + keys[1..];
      [keys[0]] + Without(keys[1..], k)
  }

  lemma {:induction false} WithoutKeepsOrder(keys: seq<int>, k: int)
    requires Ascending(keys)
    ensures Ascending(Without(keys, k))
  {
    if keys != [] {
      WithoutKeepsOrder(keys[1..], k);
      if keys[0] != k {
        var rest := Without(keys[1..], k);
        forall x | x in rest ensures keys[0] < x {
          var j :| 0 <= j < |keys[1..]| && keys[1..][j] == x;
          assert keys[j + 1] == x;
        }
        var r := [keys[0]] + rest;
        forall i, j | 0 <= i < j < |r| ensures r[i] < r[j] {
          assert r[j] == rest[j - 1] && rest[j - 1] in rest;
          if i > 0 { assert r[i] == rest[i - 1]; }
        }
      }
    }
  }

  ghost predicate Ascending(keys: seq<int>)
  {
    forall i, j :: 0 <= i < j < |keys| ==> keys[i] < keys[j]
  }

  lemma {:induction false} WithoutIdempotent(keys: seq<int>, k: int)
    ensures Without(Without(keys, k), k) == Without(keys, k)
  {
    assert k !in Without(keys, k);
  }

  // ---------------------------------------------------------------------
  // Listing items
  // ---------------------------------------------------------------------

  /** The optional filters of an item listing. */
  datatype ItemFilters = ItemFilters(itemType: Option<string>, category: Option<string>)

  /** A filter takes part only when its value is truthy: a non-empty string. */
  predicate Active(v: Option<string>)
  {
    v.Some? && v.value != ""
  }

  predicate Selects(f: ItemFilters, x: Item)
  {
    && (Active(f.itemType) ==> x.itemType == f.itemType.value)
    && (Active(f.category) ==> x.category == f.category.value)
  }

  /** a is listed before b: it is newer, or as new and created earlier. */
  predicate Before(a: Item, b: Item)
  {
    a.date > b.date || (a.date == b.date && a.id < b.id)
  }

  ghost predicate NewestFirst(s: seq<Item>)
  {
    forall i, j :: 0 <= i < j < |s| ==> Before(s[i], s[j])
  }

  ghost predicate DatesNonIncreasing(s: seq<Item>)
  {
    forall i, j :: 0 <= i < j < |s| ==> s[i].date >= s[j].date
  }

  ghost predicate IdsAscending(s: seq<Item>)
  {
    forall i, j :: 0 <= i < j < |s| ==> s[i].id < s[j].id
  }

  /** r is the listing of items under filters: exactly the stored items the
      filters select, newest first, items of equal date in creation order. */
  ghost predicate Listing(items: map<int, Item>, filters: ItemFilters, r: seq<Item>)
  {
    && (forall x :: x in r ==> x in items.Values && Selects(filters, x))
    && (forall k :: k in items && Selects(filters, items[k]) ==> items[k] in r)
    && NewestFirst(r)
  }

  /** The values of m in the order keys lists them. */
  function ValuesInOrder(m: map<int, Item>, keys: seq<int>): (r: seq<Item>)
    requires forall i :: 0 <= i < |keys| ==> keys[i] in m
    ensures |r| == |keys| && forall i :: 0 <= i < |keys| ==> r[i] == m[keys[i]]
  {
    seq(|keys|, i requires 0 <= i < |keys| => m[keys[i]])
  }

  lemma ValuesInKeyOrder(m: map<int, Item>, keys: seq<int>, next: int)
    requires KeyOrder(keys, m.Keys, next)
    requires forall k :: k in m ==> m[k].id == k
    ensures IdsAscending(ValuesInOrder(m, keys))
    ensures forall x :: x in ValuesInOrder(m, keys) ==> x in m.Values
    ensures forall k :: k in m ==> m[k] in ValuesInOrder(m, keys)
  {
    var r := ValuesInOrder(m, keys);
    forall k | k in m ensures m[k] in r {
      var i :| 0 <= i < |keys| && keys[i] == k;
      assert r[i] == m[k];
    }
  }

  datatype ItemField = TypeField | CategoryField

  function FieldValue(x: Item, f: ItemField): string
  {
    match f
    case TypeField => x.itemType
    case CategoryField => x.category
  }

  /** `Array.prototype.filter` keeping the items whose field f equals v. */
  function KeepWhere(s: seq<Item>, f: ItemField, v: string): (r: seq<Item>)
    ensures forall x :: x in r <==> x in s && FieldValue(x, f) == v
  {
    if s == [] then []
    else if FieldValue(s[0], f) == v then [s[0]] + KeepWhere(s[1..], f, v)
    else KeepWhere(s[1..], f, v)
  }

  /** Filtering keeps creation order. */
  lemma {:induction false} KeepWhereKeepsOrder(s: seq<Item>, f: ItemField, v: string)
    requires IdsAscending(s)
    ensures IdsAscending(KeepWhere(s, f, v))
  {
    if s != [] {
      KeepWhereKeepsOrder(s[1..], f, v);
      var rest := KeepWhere(s[1..], f, v);
      if FieldValue(s[0], f) == v {
        forall x | x in rest ensures s[0].id < x.id {
          var j :| 0 <= j < |s[1..]| && s[1..][j] == x;
          assert s[j + 1] == x;
        }
        var r := [s[0]] + rest;
        forall i, j | 0 <= i < j < |r| ensures r[i].id < r[j].id {
          assert r[j] == rest[j - 1] && rest[j - 1] in rest;
          if i > 0 { assert r[i] == rest[i - 1]; }
        }
      }
    }
  }

  /** Place x after every element at least as new: one step of a stable sort
      by date, newest first. */
  function InsertByDate(x: Item, s: seq<Item>): (r: seq<Item>)
    ensures multiset(r) == multiset(s) + multiset{x}
  {
    if s == [] then [x]
    else if s[0].date >= x.date then
      assert s == [s[0]] + s[1..];
      [s[0]] + InsertByDate(x, s[1..])
    else [x] + s
  }

  /** `Array.prototype.sort` with the comparator "later date first". The sort
      is stable, so items of equal date keep their order. */
  function SortNewestFirst(s: seq<Item>): (r: seq<Item>)
    ensures multiset(r) == multiset(s)
  {
    if s == [] then []
    else
      assert s == s[..|s| - 1] + [s[|s| - 1]];
      InsertByDate(s[|s| - 1], SortNewestFirst(s[..|s| - 1]))
  }

  lemma {:induction false} InsertKeepsDateOrder(x: Item, s: seq<Item>)
    requires DatesNonIncreasing(s)
    ensures DatesNonIncreasing(InsertByDate(x, s))
  {
    if s != [] && s[0].date >= x.date {
      InsertKeepsDateOrder(x, s[1..]);
      var rest := InsertByDate(x, s[1..]);
      forall e | e in rest ensures s[0].date >= e.date {
        assert e in multiset(rest);
        if e != x {
          var j :| 0 <= j < |s[1..]| && s[1..][j] == e;
          assert s[j + 1] == e;
        }
      }
      PrependKeepsDateOrder(s[0], rest);
    } else if s != [] {
      forall e | e in s ensures x.date >= e.date {
        var j :| 0 <= j < |s| && s[j] == e;
        assert j == 0 || s[0].date >= s[j].date;
      }
      PrependKeepsDateOrder(x, s);
    }
  }

  lemma PrependKeepsDateOrder(a: Item, s: seq<Item>)
    requires DatesNonIncreasing(s)
    requires forall e :: e in s ==> a.date >= e.date
    ensures DatesNonIncreasing([a] + s)
  {
    var t := [a] + s;
    forall i, j | 0 <= i < j < |t| ensures t[i].date >= t[j].date {
      if i == 0 {
        assert t[j] == s[j - 1] && s[j - 1] in s;
      } else {
        assert t[i] == s[i - 1] && t[j] == s[j - 1];
      }
    }
  }

  lemma {:induction false} InsertKeepsNewestFirst(x: Item, s: seq<Item>)
    requires NewestFirst(s)
    requires forall e :: e in s ==> e.id < x.id
    ensures NewestFirst(InsertByDate(x, s))
  {
    if s != [] && s[0].date >= x.date {
      InsertKeepsNewestFirst(x, s[1..]);
      var rest := InsertByDate(x, s[1..]);
      forall e | e in rest ensures Before(s[0], e) {
        assert e in multiset(rest);
        if e != x {
          var j :| 0 <= j < |s[1..]| && s[1..][j] == e;
          assert s[j + 1] == e;
        }
      }
      PrependKeepsNewestFirst(s[0], rest);
    } else if s != [] {
      forall e | e in s ensures Before(x, e) {
        var j :| 0 <= j < |s| && s[j] == e;
        assert j == 0 || Before(s[0], s[j]);
      }
      PrependKeepsNewestFirst(x, s);
    }
  }

  lemma PrependKeepsNewestFirst(a: Item, s: seq<Item>)
    requires NewestFirst(s)
    requires forall e :: e in s ==> Before(a, e)
    ensures NewestFirst([a] + s)
  {
    var t := [a] + s;
    forall i, j | 0 <= i < j < |t| ensures Before(t[i], t[j]) {
      if i == 0 {
        assert t[j] == s[j - 1] && s[j - 1] in s;
      } else {
        assert t[i] == s[i - 1] && t[j] == s[j - 1];
      }
    }
  }

  lemma SortKeepsElements(s: seq<Item>)
    ensures forall x :: x in SortNewestFirst(s) <==> x in s
  {
    var r := SortNewestFirst(s);
    forall x ensures x in r <==> x in s {
      assert x in r <==> x in multiset(r);
      assert x in s <==> x in multiset(s);
    }
  }

  /** The sort puts later dates first, whatever the input. */
  lemma {:induction false} SortOrdersByDate(s: seq<Item>)
    ensures DatesNonIncreasing(SortNewestFirst(s))
  {
    if s != [] {
      SortOrdersByDate(s[..|s| - 1]);
      InsertKeepsDateOrder(s[|s| - 1], SortNewestFirst(s[..|s| - 1]));
    }
  }

  /** Stability: on input in creation order, items of equal date stay in
      creation order. */
  lemma {:induction false} SortIsStable(s: seq<Item>)
    requires IdsAscending(s)
    ensures NewestFirst(SortNewestFirst(s))
  {
    if s != [] {
      var init, x := s[..|s| - 1], s[|s| - 1];
      SortIsStable(init);
      var sorted := SortNewestFirst(init);
      forall e | e in sorted ensures e.id < x.id {
        assert e in multiset(sorted);
        var j :| 0 <= j < |init| && init[j] == e;
        assert s[j] == e;
      }
      InsertKeepsNewestFirst(x, sorted);
    }
  }

  // ---------------------------------------------------------------------
  // The store
  // ---------------------------------------------------------------------

  class MemStorage {
    var users: map<int, User>
    var userKeys: seq<int>
    var items: map<int, Item>
    var itemKeys: seq<int>
    var currentUserId: int
    var currentItemId: int
    /** The CNICs that may log in. The code that fills this allow-list is not
        part of this model; the store receives it when it is made. */
    var authorizedCnics: set<string>

    ghost predicate Valid()
      reads this
    {
      && 1 <= currentUserId
      && 1 <= currentItemId
      && KeyOrder(userKeys, users.Keys, currentUserId)
      && KeyOrder(itemKeys, items.Keys, currentItemId)
      && (forall k :: k in users ==> users[k].id == k)
      && (forall k :: k in items ==> items[k].id == k)
    }

    /** The store after createUser returned u: u is added under the id the
        counter held, and nothing else changes. */
    twostate predicate UserAdded(u: User)
      reads this
    {
      && u.id == old(currentUserId)
      && u.id !in old(users)
      && users == old(users)[u.id := u]
      && userKeys == old(userKeys) + [u.id]
      && currentUserId == old(currentUserId) + 1
      && items == old(items) && itemKeys == old(itemKeys)
      && currentItemId == old(currentItemId)
      && authorizedCnics == old(authorizedCnics)
    }

    /** The store after createItem returned x. */
    twostate predicate ItemAdded(x: Item)
      reads this
    {
      && x.id == old(currentItemId)
      && x.id !in old(items)
      && items == old(items)[x.id := x]
      && itemKeys == old(itemKeys) + [x.id]
      && currentItemId == old(currentItemId) + 1
      && users == old(users) && userKeys == old(userKeys)
      && currentUserId == old(currentUserId)
      && authorizedCnics == old(authorizedCnics)
    }

    constructor (allowList: set<string>)
      ensures Valid()
      ensures users == map[] && items == map[]
      ensures currentUserId == 1 && currentItemId == 1
      ensures authorizedCnics == allowList
    {
      users, userKeys := map[], [];
      items, itemKeys := map[], [];
      currentUserId, currentItemId := 1, 1;
      authorizedCnics := allowList;
    }

    method GetUser(id: int) returns (r: Option<User>)
      requires Valid()
      ensures r.Some? <==> id in users
      ensures r.Some? ==> r.value == users[id] && r.value.id == id
    {
      if id in users {
        r := Some(users[id]);
      } else {
        r := None;
      }
    }

    /** `Array.prototype.find` over the users in iteration order. */
    method FindUser(key: UserKey) returns (r: Option<User>)
      requires Valid()
      ensures r.Some? ==> IsFirstMatch(users, key, r.value)
      ensures r.None? ==> NoMatch(users, key)
    {
      var i := 0;
      while i < |userKeys|
        invariant 0 <= i <= |userKeys|
        invariant forall j :: 0 <= j < i ==> !HasKey(users[userKeys[j]], key)
      {
        var u := users[userKeys[i]];
        if HasKey(u, key) {
          forall k | k in users && k < u.id ensures !HasKey(users[k], key) {
            var j :| 0 <= j < |userKeys| && userKeys[j] == k;
          }
          return Some(u);
        }
        i := i + 1;
      }
      forall k | k in users ensures !HasKey(users[k], key) {
        var j :| 0 <= j < |userKeys| && userKeys[j] == k;
      }
      return None;
    }

    method GetUserByUsername(username: string) returns (r: Option<User>)
      requires Valid()
      ensures r.Some? ==> IsFirstMatch(users, ByUsername(username), r.value)
      ensures r.None? ==> forall k :: k in users ==> users[k].username != Some(username)
    {
      r := FindUser(ByUsername(username));
    }

    /** The CNIC lookup that the login flow relies on; it works as
        GetUserByUsername does. */
    method GetUserByCnic(cnic: string) returns (r: Option<User>)
      requires Valid()
      ensures r.Some? ==> IsFirstMatch(users, ByCnic(cnic), r.value)
      ensures r.None? ==> forall k :: k in users ==> users[k].cnic != cnic
    {
      r := FindUser(ByCnic(cnic));
    }

    method GetAuthorizedCnic(cnic: string) returns (found: bool)
      ensures found <==> cnic in authorizedCnics
    {
      found := cnic in authorizedCnics;
    }

    /** Hands out the counter's value as the new id and advances it. */
    method CreateUser(insert: InsertUser) returns (u: User)
      requires Valid()
      modifies this
      ensures Valid()
      ensures u.id == old(currentUserId)
      ensures InsertUser(u.username, u.password, u.cnic) == insert
      ensures u.isAdmin == None
      ensures UserAdded(u)
      ensures forall k :: k in old(users) ==> k < u.id
    {
      var id := currentUserId;
      currentUserId := currentUserId + 1;
      u := User(id, insert.username, insert.password, insert.cnic, None);
      users := users[id := u];
      userKeys := userKeys + [id];
    }

    /** Hands out the counter's value as the new id and advances it; the
        item opens with status "open" and the given creation time. */
    method CreateItem(insert: InsertItem, userId: int, now: int) returns (x: Item)
      requires Valid()
      modifies this
      ensures Valid()
      ensures x == Item(old(currentItemId), userId, insert.itemType, insert.title, insert.description,
                        insert.category, insert.location, insert.contactNumber, "open", now, insert.imageUrl)
      ensures ItemAdded(x)
      ensures forall k :: k in old(items) ==> k < x.id
    {
      var id := currentItemId;
      currentItemId := currentItemId + 1;
      x := Item(id, userId, insert.itemType, insert.title, insert.description,
                insert.category, insert.location, insert.contactNumber, "open", now, insert.imageUrl);
      items := items[id := x];
      itemKeys := itemKeys + [id];
    }

    method GetItem(id: int) returns (r: Option<Item>)
      requires Valid()
      ensures r.Some? <==> id in items
      ensures r.Some? ==> r.value == items[id] && r.value.id == id
    {
      if id in items {
        r := Some(items[id]);
      } else {
        r := None;
      }
    }

    /** The stored items, kept by the active filters, newest first. */
    method GetItems(filters: ItemFilters) returns (r: seq<Item>)
      requires Valid()
      ensures Listing(items, filters, r)
    {
      var list := ValuesInOrder(items, itemKeys);
      ValuesInKeyOrder(items, itemKeys, currentItemId);
      if Active(filters.itemType) {
        KeepWhereKeepsOrder(list, TypeField, filters.itemType.value);
        list := KeepWhere(list, TypeField, filters.itemType.value);
      }
      if Active(filters.category) {
        KeepWhereKeepsOrder(list, CategoryField, filters.category.value);
        list := KeepWhere(list, CategoryField, filters.category.value);
      }
      assert forall x :: x in list ==> x in items.Values && Selects(filters, x);
      assert forall k :: k in items && Selects(filters, items[k]) ==> items[k] in list;
      SortIsStable(list);
      r := SortNewestFirst(list);
      SortKeepsElements(list);
    }

    /** Replaces the status of an existing item; an unknown id is an error
        and the store stays as it was. */
    method UpdateItemStatus(id: int, status: string) returns (r: Result<Item, string>)
      requires Valid()
      modifies this
      ensures Valid()
      ensures id !in old(items) ==> r == Failure("Item not found") && unchanged(this)
      ensures id in old(items) ==>
        && r == Success(old(items)[id].(status := status))
        && items == old(items)[id := r.value]
        && itemKeys == old(itemKeys) && currentItemId == old(currentItemId)
        && users == old(users) && userKeys == old(userKeys) && currentUserId == old(currentUserId)
        && authorizedCnics == old(authorizedCnics)
    {
      var found := GetItem(id);
      if found.None? {
        return Failure("Item not found");
      }
      var updated := found.value.(status := status);
      items := items[id := updated];
      r := Success(updated);
    }

    /** Removes the key id; an absent id leaves the store as it was. */
    method DeleteItem(id: int)
      requires Valid()
      modifies this
      ensures Valid()
      ensures items == old(items) - {id}
      ensures itemKeys == Without(old(itemKeys), id)
      ensures id !in old(items) ==> unchanged(this)
      ensures currentItemId == old(currentItemId)
      ensures users == old(users) && userKeys == old(userKeys) && currentUserId == old(currentUserId)
      ensures authorizedCnics == old(authorizedCnics)
    {
      assert id !in items ==> items - {id} == items && id !in itemKeys;
      WithoutKeepsOrder(itemKeys, id);
      items := items - {id};
      itemKeys := Without(itemKeys, id);
      assert forall i :: 0 <= i < |itemKeys| ==> itemKeys[i] in itemKeys;
    }
  }

  /** Deleting twice leaves the same store as deleting once. */
  method DeleteIsIdempotent(store: MemStorage, id: int)
    requires store.Valid()
    modifies store
    ensures store.Valid()
    ensures store.items == old(store.items) - {id}
    ensures store.itemKeys == Without(old(store.itemKeys), id)
    ensures store.currentItemId == old(store.currentItemId)
    ensures store.users == old(store.users) && store.userKeys == old(store.userKeys)
    ensures store.currentUserId == old(store.currentUserId)
    ensures store.authorizedCnics == old(store.authorizedCnics)
  {
    store.DeleteItem(id);
    store.DeleteItem(id);
    WithoutIdempotent(old(store.itemKeys), id);
  }
}
