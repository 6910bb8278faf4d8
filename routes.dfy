/**
 * The item routes. Each handler runs a fixed chain of checks, returning
 * early with an error status, and ends in at most one store operation. The
 * `...Outcome` functions give the status each chain decides; the handlers
 * perform it on the store and leave the store untouched whenever they
 * reject.
 */
module Routes {
  import opened Wrappers
  import opened Schema
  import opened Storage
  import opened Http
  import opened Auth

  // ---------------------------------------------------------------------
  // GET /api/items
  // ---------------------------------------------------------------------

  /** Open to everyone: the listing under the query's `type` and `category`. */
  method HandleGetItems(store: MemStorage, typeQuery: Option<string>, categoryQuery: Option<string>)
    returns (resp: Response)
    requires store.Valid()
    ensures resp.status == 200 && resp.body.ItemsJson?
    ensures Listing(store.items, ItemFilters(typeQuery, categoryQuery), resp.body.items)
  {
    var found := store.GetItems(ItemFilters(typeQuery, categoryQuery));
    resp := Response(200, ItemsJson(found));
  }

  // ---------------------------------------------------------------------
  // POST /api/items
  // ---------------------------------------------------------------------

  /** Authentication first, then the item insert schema. */
  function PostItemOutcome(c: Caller, body: ItemBody): (code: int)
    ensures code == 401 <==> c.Anonymous?
    ensures code == 400 <==> c.SignedIn? && forall x :: IsInsertItem(x) ==> BodyOf(x) != body
    ensures code == 201 <==> c.SignedIn? && exists x :: IsInsertItem(x) && BodyOf(x) == body
  {
    if c.Anonymous? then 401
    else
      var parsed := ParseInsertItem(body);
      if parsed.None? then 400
      else
        assert IsInsertItem(parsed.value) && BodyOf(parsed.value) == body;
        201
  }

  method HandlePostItem(store: MemStorage, s: Session, body: ItemBody, now: int) returns (resp: Response)
    requires store.Valid()
    modifies store
    ensures store.Valid()
    ensures resp.status == PostItemOutcome(CallerOf(s, old(store.users)), body)
    ensures resp.status != 201 ==> unchanged(store)
    ensures resp.status == 401 ==> resp.body == NoBody
    ensures resp.status == 400 ==> resp.body == ValidationErrors
    ensures resp.status == 201 ==>
      && resp.body.ItemJson?
      && store.ItemAdded(resp.body.item)
      && resp.body.item.userId == CallerOf(s, old(store.users)).user.id
      && resp.body.item.status == "open"
      && resp.body.item.date == now
      && BodyOf(Supplied(resp.body.item)) == body
  {
    var caller := ResolveSession(store, s);
    if caller.Anonymous? {
      return Response(401, NoBody);
    }
    var parsed := ParseInsertItem(body);
    if parsed.None? {
      return Response(400, ValidationErrors);
    }
    var x := store.CreateItem(parsed.value, caller.user.id, now);
    return Response(201, ItemJson(x));
  }

  // ---------------------------------------------------------------------
  // PATCH /api/items/:id/status
  // ---------------------------------------------------------------------

  /** The two statuses the route accepts, as exact strings. */
  predicate IsItemStatus(f: Field)
  {
    f == Str("open") || f == Str("closed")
  }

  /** Authentication, then the status value, then the existence of the
      item. No check compares the caller with the item's owner. */
  function PatchStatusOutcome(c: Caller, status: Field, id: int, items: map<int, Item>): (code: int)
    ensures code == 401 <==> c.Anonymous?
    ensures code == 400 <==> c.SignedIn? && !IsItemStatus(status)
    ensures code == 404 <==> c.SignedIn? && IsItemStatus(status) && id !in items
    ensures code == 200 <==> c.SignedIn? && IsItemStatus(status) && id in items
  {
    if c.Anonymous? then 401
    else if !IsItemStatus(status) then 400
    else if id !in items then 404
    else 200
  }

  /** Any logged-in user may change the status of any item. */
  lemma StatusChangeIgnoresOwner(u: User, v: User, status: Field, id: int, items: map<int, Item>)
    ensures PatchStatusOutcome(SignedIn(u), status, id, items) == PatchStatusOutcome(SignedIn(v), status, id, items)
  {
  }

  /** The path segment arrives as the number it converts to; a number that is
      not a key of the store behaves as a missing item. */
  method HandlePatchStatus(store: MemStorage, s: Session, id: int, status: Field) returns (resp: Response)
    requires store.Valid()
    modifies store
    ensures store.Valid()
    ensures resp.status == PatchStatusOutcome(CallerOf(s, old(store.users)), status, id, old(store.items))
    ensures resp.status != 200 ==> unchanged(store)
    ensures resp.status == 400 ==> resp.body == Message("Invalid status")
    ensures resp.status == 404 ==> resp.body == Message("Item not found")
    ensures resp.status == 200 ==>
      && resp.body == ItemJson(old(store.items)[id].(status := status.text))
      && store.items == old(store.items)[id := resp.body.item]
      && store.itemKeys == old(store.itemKeys) && store.currentItemId == old(store.currentItemId)
      && store.users == old(store.users) && store.userKeys == old(store.userKeys)
      && store.currentUserId == old(store.currentUserId)
      && store.authorizedCnics == old(store.authorizedCnics)
  {
    var caller := ResolveSession(store, s);
    if caller.Anonymous? {
      return Response(401, NoBody);
    }
    if !IsItemStatus(status) {
      return Response(400, Message("Invalid status"));
    }
    var r := store.UpdateItemStatus(id, status.text);
    match r
    case Success(x) => resp := Response(200, ItemJson(x));
    case Failure(_) => resp := Response(404, Message("Item not found"));
  }

  // ---------------------------------------------------------------------
  // DELETE /api/items/:id
  // ---------------------------------------------------------------------

  /** Authentication, then the existence of the item, then ownership. */
  function DeleteItemOutcome(c: Caller, id: int, items: map<int, Item>): (code: int)
    ensures code == 401 <==> c.Anonymous?
    ensures code == 404 <==> c.SignedIn? && id !in items
    ensures code == 403 <==> c.SignedIn? && id in items && items[id].userId != c.user.id
    ensures code == 204 <==> c.SignedIn? && id in items && items[id].userId == c.user.id
  {
    if c.Anonymous? then 401
    else if id !in items then 404
    else if items[id].userId != c.user.id then 403
    else 204
  }

  method HandleDeleteItem(store: MemStorage, s: Session, id: int) returns (resp: Response)
    requires store.Valid()
    modifies store
    ensures store.Valid()
    ensures resp.status == DeleteItemOutcome(CallerOf(s, old(store.users)), id, old(store.items))
    ensures resp.status != 204 ==> unchanged(store)
    ensures resp.status == 404 ==> resp.body == Message("Item not found")
    ensures resp.status == 403 ==> resp.body == Message("You can only delete your own items") && id in store.items
    ensures resp.status == 204 ==>
      && resp.body == NoBody
      && store.items == old(store.items) - {id}
      && store.itemKeys == Without(old(store.itemKeys), id)
      && store.currentItemId == old(store.currentItemId)
      && store.users == old(store.users) && store.userKeys == old(store.userKeys)
      && store.currentUserId == old(store.currentUserId)
      && store.authorizedCnics == old(store.authorizedCnics)
  {
    var caller := ResolveSession(store, s);
    if caller.Anonymous? {
      return Response(401, NoBody);
    }
    var found := store.GetItem(id);
    if found.None? {
      return Response(404, Message("Item not found"));
    }
    if found.value.userId != caller.user.id {
      return Response(403, Message("You can only delete your own items"));
    }
    store.DeleteItem(id);
    return Response(204, NoBody);
  }
}
