# LostLink server core in Dafny

This project models the server side of LostLink, a lost-and-found web application, and proves properties of the model.
On LostLink, people log in with their national identity number (CNIC). They report lost or found items and browse the reports.

The model covers four parts of the server:

- **The in-memory record store** (`Storage.MemStorage`). It holds two tables keyed by numeric id, users and items. Each table has a counter that hands out the next id. The store also holds the allow-list of CNICs that may log in. The methods create, look up, list, update and delete records. A JavaScript `Map` iterates in insertion order, so the class keeps that order in `userKeys` and `itemKeys`. `Valid()` states that the order is ascending id, and every method keeps it.
- **The validation in the shared schema** (`Schema`). The regular expressions of the insert schemas are written in a small pattern language (`Pattern`, `Matches`). `Matches` is whole-string matching of an expression with `^` and `$` anchors. Lemmas say exactly which strings each pattern accepts. Length limits count UTF-16 code units, as JavaScript's `length` does.
- **The login policy and sessions** (`Auth`, `Http`). A CNIC must be on the allow-list to log in. A user record comes from get-or-create. The session stores only the user id, and each request looks the user up again.
- **The item routes** (`Routes`). Each handler is a chain of checks that ends in at most one store operation. An `...Outcome` function gives the status the chain decides. The handler method applies that decision to the store and proves that a rejected request leaves the store unchanged.

Inputs the server takes from its environment are parameters of the model:

- the clock (`now` of item creation);
- the allow-list (the store's constructor argument);
- the session (`Http.Session`);
- the parsed request fields (`Schema.Field`, `Schema.ItemBody`, query strings as `Option<string>`, path ids as `int`).

The model follows the code as written:

- Login checks only the allow-list. It does not check the CNIC's format or any password.
- Changing an item's status has no ownership check.
- There is no username/password login mode.
- `server/auth.ts` calls `getAuthorizedCnic` and `getUserByCnic`, which `MemStorage` does not define. The model adds them as the allow-list set and a first-match CNIC lookup that works like `getUserByUsername`.
- As written (not executed), the call to `storage.getAuthorizedCnic` at server/auth.ts:35 throws a `TypeError`, because `MemStorage` has no such method. The catch at server/auth.ts:49-51 passes the error to `done(error)`. The error handler at server/index.ts:52-57 then answers 500. So every login that reaches the verify callback ends in a 500 with this store, and the model describes the store with the two lookups added.
- The client posts only `{ cnic }` (client/src/hooks/use-auth.tsx:33-36). passport-local reads both a username field and a password field. As we understand that library (not executed), it fails a request that lacks either field, or has an empty one, before the verify callback runs. The response is status 400 with the status text "Bad Request" as its body; "Missing credentials" is only the failure message passport keeps. `Auth.HandleLogin` takes both strings as given, including empty ones, and so describes the callback, not that earlier check.

## Model

| member | source | states |
|---|---|---|
| `Schema.InsertKeepsUnique` | shared/schema.ts:7-9 | adding a row whose CNIC and username are not yet used keeps `username` and `cnic` unique across `users` |
| `Schema.Utf16Length` | shared/schema.ts:42-47 | the JavaScript length of a string lies between its number of characters and twice that |
| `Schema.PowerOfAtom` | shared/schema.ts:49 | a character class repeated n times matches exactly the strings of length n made of that class |
| `Schema.PlusOfAtom` | shared/schema.ts:44 | a character class followed by `+` matches exactly the non-empty strings made of that class |
| `Schema.OptionalLead` | shared/schema.ts:77 | an optional leading character followed by p matches s exactly when p matches s, or s starts with that character and p matches the rest |
| `Schema.CnicExactly` | shared/schema.ts:48-58 | a CNIC (in the user and allow-list schemas) is valid exactly when it has 13 characters, all digits 0-9 |
| `Schema.UsernameExactly` | shared/schema.ts:41-44 | a username is valid exactly when it has 3 to 50 characters, all from a-z, A-Z, 0-9, `_` and `-` |
| `Schema.InsertUserExactly` | shared/schema.ts:34-50 | the user insert schema accepts exactly: a username of 3 to 50 characters from a-z, A-Z, 0-9, `_` and `-`; a password of 6 to 100 UTF-16 code units; a CNIC of 13 digits. A missing username or password is rejected |
| `Schema.PasswordOfBmp` | shared/schema.ts:45-47 | for text in the Basic Multilingual Plane, a password is valid exactly when it has 6 to 100 characters |
| `Schema.ContactNumberExactly` | shared/schema.ts:74-77 | a contact number is valid exactly when it has 10 to 15 characters, all digits, JavaScript white space or `-`, except that the first may be `+` |
| `Schema.ParseInsertItem` | shared/schema.ts:61-79 | the item schema accepts: type `lost`/`found`; one of the five categories; a valid contact number; string title, description and location; an optional string image URL. It accepts exactly the bodies that carry such an item and returns that item |
| `Schema.ParseBodyOf` | shared/schema.ts:72-78 | round trip: the body of an item parses back to that item when the item is valid, and is rejected otherwise |
| `Storage.FirstMatchUnique` | server/storage.ts:47-49 | the earliest-created user with a given username or CNIC is unique |
| `Storage.Without` | server/storage.ts:104 | removing a key from the iteration order keeps every other key and none of its own; removing an absent key changes nothing |
| `Storage.WithoutKeepsOrder` | server/storage.ts:104 | removing a key keeps the iteration order ascending |
| `Storage.WithoutIdempotent` | server/storage.ts:103-105 | removing the same key twice gives the same order as removing it once |
| `Storage.ValuesInKeyOrder` | server/storage.ts:82 | the array of a table's values holds exactly the stored items, in ascending id |
| `Storage.KeepWhere` | server/storage.ts:84-89 | filtering keeps exactly the items whose field has the value asked for |
| `Storage.KeepWhereKeepsOrder` | server/storage.ts:84-89 | filtering keeps ascending id |
| `Storage.InsertByDate` | server/storage.ts:91 | one insertion step adds the item and keeps every other element |
| `Storage.SortNewestFirst` | server/storage.ts:91 | sorting is a permutation of its input |
| `Storage.SortKeepsElements` | server/storage.ts:91 | the sorted array holds the same items as its input |
| `Storage.SortOrdersByDate` | server/storage.ts:91 | the sorted array has non-increasing dates, whatever the input |
| `Storage.SortIsStable` | server/storage.ts:91 | on input in creation order, the sort puts newer items first and equal dates in creation order |
| `Storage.MemStorage.constructor` | server/storage.ts:28-36 | a new store is empty, both counters start at 1, and the allow-list is the given one |
| `Storage.MemStorage.GetUser` | server/storage.ts:38-43 | a user is found exactly when its id is a key, and it is the stored record |
| `Storage.MemStorage.FindUser` | server/storage.ts:47-49 | the search returns the earliest-created user with the key, or reports that no user has it |
| `Storage.MemStorage.GetUserByUsername` | server/storage.ts:45-52 | the lookup by username returns the earliest-created user with that username, or none when no user has it |
| `Storage.MemStorage.GetUserByCnic` | server/auth.ts:42 | the lookup by CNIC returns the earliest-created user with that CNIC, or none when no user has it |
| `Storage.MemStorage.GetAuthorizedCnic` | server/auth.ts:35-36 | the allow-list check succeeds exactly for the listed CNICs |
| `Storage.MemStorage.CreateUser` | server/storage.ts:54-61 | the new user is the supplied fields plus the counter's old value as its id, and that id is larger than every existing id. The user has no `isAdmin` property. The counter goes up by one, the user is stored under its id, and nothing else changes |
| `Storage.MemStorage.CreateItem` | server/storage.ts:63-75 | the new item gets a fresh id, status `open`, the given time and owner, and every supplied field. It is stored at the end of the iteration order, and no other item changes |
| `Storage.MemStorage.GetItem` | server/storage.ts:77-79 | an item is found exactly when its id is a key, and it is the stored record |
| `Storage.MemStorage.GetItems` | server/storage.ts:81-92 | the listing holds exactly the stored items that the active filters select, where a filter is active only when it is a non-empty string. The items run newest first, and equal dates run in creation order |
| `Storage.MemStorage.UpdateItemStatus` | server/storage.ts:94-101 | an unknown id gives "Item not found" and leaves the store unchanged. A known id changes only that item's status, keeps its place in the iteration order, and returns the updated item |
| `Storage.MemStorage.DeleteItem` | server/storage.ts:103-105 | exactly that key leaves the table and the iteration order, and deleting an absent key changes nothing |
| `Storage.DeleteIsIdempotent` | server/storage.ts:103-105 | deleting twice leaves the same store as deleting once: the item table and its order lose exactly that key, and the users, the counters and the allow-list stay as they were |
| `Auth.CallerOf` | server/auth.ts:62-72 | a request is authenticated exactly when its session holds an id the store knows, and the caller is the store's current record |
| `Auth.SessionRoundTrip` | server/auth.ts:57-67 | serializing a user (`SerializeUser`, which keeps only the id) and resolving the session later gives the store's current record for that id |
| `Auth.ResolveSession` | server/auth.ts:62-72 | resolving a session by reading the store gives the caller `CallerOf` describes |
| `Auth.Verify` | server/auth.ts:30-53 | a CNIC not on the allow-list gets "Your CNIC is not authorized" and nothing changes. An allow-listed CNIC that has a user gets the earliest such user, and nothing changes. Otherwise exactly one user with that CNIC is created. The password plays no part, and uniqueness of CNIC and username is kept |
| `Auth.HandleLogin` | server/auth.ts:74-76 | a denied login answers 401 and leaves the session and store as they were. An accepted one answers 200 with the earliest user with that CNIC, and the session now resolves to that user. The store is unchanged when such a user existed; otherwise exactly that user was added, and it has only the CNIC and the new id (no username, password or `isAdmin`). Uniqueness of CNIC and username is kept |
| `Auth.HandleLogout` | server/auth.ts:78-83 | after logout the session resolves to no one, whatever the store holds |
| `Auth.HandleCurrentUser` | server/auth.ts:85-88 | without a known user in the session the route answers 401; otherwise it answers 200 with the user as the store holds it now |
| `Auth.LoginTwice` | server/auth.ts:42-45 | two logins with one allow-listed CNIC return the same user, and at most one user is created |
| `Routes.HandleGetItems` | server/routes.ts:10-18 | anyone gets 200 with the listing for the query's type and category |
| `Routes.PostItemOutcome` | server/routes.ts:20-33 | creating an item gives 401 exactly when unauthenticated, 400 exactly when authenticated and the body carries no valid item, and 201 otherwise |
| `Routes.HandlePostItem` | server/routes.ts:20-33 | a rejected create leaves the store unchanged. A successful one adds one item owned by the caller, with status `open`, the current time, and exactly the fields of the body |
| `Routes.PatchStatusOutcome` | server/routes.ts:35-51 | changing a status gives 401 when unauthenticated, then 400 for a status other than the strings `open` and `closed`, then 404 for a missing item, and 200 otherwise |
| `Routes.StatusChangeIgnoresOwner` | server/routes.ts:45-50 | every authenticated user gets the same outcome for the same status change |
| `Routes.HandlePatchStatus` | server/routes.ts:35-51 | a rejected status change leaves the store unchanged, and an invalid status is rejected before any item is looked up. A successful one changes only that item's status and returns the item |
| `Routes.DeleteItemOutcome` | server/routes.ts:53-73 | deleting gives 401 when unauthenticated, then 404 for a missing item, then 403 when the caller does not own it, and 204 otherwise |
| `Routes.HandleDeleteItem` | server/routes.ts:53-73 | a rejected delete leaves the store unchanged, and on 403 the item is still there. The owner's delete removes exactly that item |

## Left out

- The model counts string lengths as JavaScript does (UTF-16 code units), but the lemmas state the password bound in characters only for text in the Basic Multilingual Plane. Usernames and contact numbers always are, because their patterns admit only such characters.
- Express, passport and the session store are library behaviour. The model assumes that a failed local login answers 401. A session whose id names no stored user is modelled as unauthenticated (401). passport itself would fail such a request, because `getUser` returns `undefined` rather than `null`, and the error handler would answer 500. With this store that state is never reached: sessions come only from logins of stored users, no operation removes a user, and both live in one process. passport-local's own rejection of a request without a password, which happens before the verify callback runs, is not modelled.
- Session regeneration, cookie settings, expiry of sessions and `trust proxy` are framework settings and are not modelled.
- The path segment of the item routes is converted with `Number(...)`. The model receives the resulting integer. A number that is not an integer cannot be a key, and it behaves as a missing item.
- A query parameter given several times reaches the route as an array. The model takes at most one string per filter.
- The JSON shape of a ZodError (the 400 body of item creation) is reduced to `ValidationErrors`.
- The 500 branch of `DELETE /api/items/:id` is not modelled: no operation of the in-memory store throws, so the branch is unreachable there.
- `Storage.MemStorage.GetAuthorizedCnic`: returns a boolean rather than an allow-list record, because the record's other columns (`addedBy`, `addedAt`) are filled by admin code that is not part of this model.
- The allow-list is a set, so its CNICs are unique by construction. Adding and removing entries (the admin endpoints) is not part of this model, because no server code for those endpoints is present.
- The `isAdmin` column has the table default false (shared/schema.ts:10), but only a database applies it. `MemStorage.createUser` stores the spread of its argument plus the id (server/storage.ts:57), and the login creates users from `{ cnic }` alone. So these users have no `isAdmin` property, which the model writes as `None`.
- `MemStorage.createUser` does not enforce the unique constraints of `users`, and neither does the model. Only the login flow is proved to keep them.
- The timestamp of `new Date()` is the parameter `now`. The model does not assume that the clock only moves forward.
- Console logging, the Express bootstrap, the cleanup job, the client pages and hooks, and password hashing (none exists in this code) are not modelled.
