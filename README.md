# Foundry tabletop clone — a verified model of its two stores and their form guards

This project models the in-memory core of a browser tabletop game in Dafny. It has two stores
and the page handlers that decide whether a store is called at all.

- **World store** (`GameContext.WorldStore`, over the entities and pure updaters in `GameModel`).
  It holds these collections as fields:
  - the item catalog and the craft recipes;
  - the per-table lobby and the per-user, per-table inventory;
  - a global staging buffer;
  - presence records and auction listings;
  - table passwords, table chat, global chat and the event log.

  Every operation replaces the collections it touches by a `find`/`filter`/`map`/append/prepend
  updater, exactly as the store does. The class invariant `Valid()` is what those operations keep:
  - one staging line per item id;
  - inventory records with distinct keys (item id, user, table), each holding at least one unit;
  - at most one presence record per user;
  - distinct listing ids.

  Auction operations also *conserve stock*: the units of an item at a table, held or listed,
  never change.
- **Identity store** (`AuthContext.AuthStore`):
  - it starts from the three default accounts;
  - `login` is an exact credential match;
  - `register` refuses, in this order, a name already taken up to letter case, a name shorter
    than 3 UTF-16 code units, and a password shorter than 4;
  - an accepted sign-up appends one player account, and the store keeps names unique up to case.
- **Admin page** (`AdminPage`):
  - the pure helpers are the rarity badge, the category list and the catalog search;
  - the handler methods check required fields, require distinct recipe ingredients, apply the
    staging quantity default (`parseInt(text) || 1`), and hold the staging-clear and edit-save
    callbacks.
- **Sign-in page** (`AuthPage.AuthForms`): the login and sign-up handlers, with their error and
  success state.

Supporting modules:
- `Seqs`: `Array.prototype.find` and `filter` as functions on sequences, with their laws.
- `JsText`: the parts of JavaScript string semantics the core relies on. These are `toLowerCase`
  on the capitals of the Basic Latin, Latin-1, Latin Extended-A, Cyrillic and Cyrillic
  Supplement blocks (except U+0130), UTF-16 `length`, `includes`, the decimal rendering of an index
  inside a template string, and decimal `Number.parseInt`.

Timestamps are dropped; the ids drawn from `Date.now()` are arguments of the operations:
`newId`, `listingId` and `stamp`. Where uniqueness is claimed, a freshness precondition says so.

Inventory records are keyed by the lobby copy's id (lib/game-context.tsx:322-328), and every lobby
copy has its own id, so two pickups give two records of one unit each;
`GameModel.TwoCopiesTwoRecords` states this.

## Model

| member | source | states |
|---|---|---|
| Seqs.Find | lib/game-context.tsx:314 | `find`: `None` exactly when no element satisfies the predicate; otherwise the first element that does, every earlier one failing it |
| Seqs.Filter | lib/game-context.tsx:319 | `filter` keeps only elements satisfying the predicate and never grows the sequence |
| Seqs.FilterSpec | lib/game-context.tsx:399 | `filter` keeps exactly the elements satisfying the predicate, in their order (a subsequence), and is the identity when all pass |
| Seqs.FilterMultiset | lib/game-context.tsx:399 | `filter` keeps every passing element as often as it occurs and drops every failing one |
| Seqs.FilterDropsOne | lib/game-context.tsx:599 | when one position alone fails the predicate, `filter` removes exactly that element and keeps the rest in order |
| Seqs.FindConcat | lib/game-context.tsx:443 | `find` on a concatenation answers from the first part when it has a match, otherwise from the second |
| Seqs.FilterDistinctBy | lib/game-context.tsx:452 | filtering keeps keys distinct |
| JsText.LowerChar | lib/auth-context.tsx:74 | `toLowerCase` of one character: A–Z, À–Þ (but not ×) and Cyrillic А–Я move up 32; Ѐ–Џ move up 80; the paired capitals of Latin Extended-A and Cyrillic move up 1; Ÿ becomes ÿ and Ӏ becomes ӏ; anything else is unchanged, and the result is never a capital |
| JsText.ToLower | lib/auth-context.tsx:74 | lowercasing keeps the length, lowercases position by position, and leaves no capital |
| JsText.ToLowerExamples | lib/auth-context.tsx:74 | "Ärger" and "ärger" lowercase alike, and so do Ґ, Ŷ and Ź with their small letters |
| JsText.Utf16Length | lib/auth-context.tsx:80-84 | `.length` counts UTF-16 code units: between the number of characters and twice it, and equal to it when every character is in the BMP |
| JsText.IncludesEmpty | app/admin/page.tsx:176 | every string includes the empty search text |
| JsText.Includes | app/admin/page.tsx:176-178 | `includes`: a text never includes anything longer than itself, and always includes itself |
| JsText.NatToString | lib/game-context.tsx:412 | an index written in a template string is a non-empty run of digits without a leading zero |
| JsText.DecimalValueOfNatToString | lib/game-context.tsx:412 | reading the written digits back gives the number |
| JsText.NatToStringInjective | lib/game-context.tsx:412 | different indices are written differently |
| JsText.TrimStart | app/admin/page.tsx:133 | `parseInt` first drops leading white space: the rest is a suffix of the text that does not start with white space, and text without leading white space is kept whole |
| JsText.LeadingDigits | app/admin/page.tsx:133 | `parseInt` reads the longest run of leading digits |
| JsText.Unsigned | app/admin/page.tsx:133 | one leading sign is dropped before the digits are read, and anything else is kept |
| JsText.LeadingValue | app/admin/page.tsx:133 | there is no number exactly when the text after the sign does not start with a digit |
| JsText.ParseTrimmed | app/admin/page.tsx:133 | after the white space, there is no number exactly when no digit follows the optional sign, and a negative result needs a leading minus |
| JsText.ParseInt | app/admin/page.tsx:133 | `Number.parseInt` gives `NaN` exactly when no digit follows the leading white space and the optional sign; the values it reads are `JsText.ParseIntOfNatToString` and `JsText.ParseIntOfNegated` |
| JsText.ParseIntOfNatToString | app/admin/page.tsx:133 | `parseInt` of a written natural number gives it back |
| JsText.ParseIntOfNegated | app/admin/page.tsx:133 | `parseInt` of `-` followed by a written natural number gives its negation |
| JsText.ParseIntOfNoDigits | app/admin/page.tsx:133 | text that starts with neither space, sign nor digit does not parse (`NaN`) |
| GameModel.FindItem | lib/game-context.tsx:405 | the catalog lookup returns a catalog entry with that id, and nothing exactly when no entry has it |
| GameModel.WithId | lib/game-context.tsx:386-389 | `{ id, ...item }`: the new entry carries the new id and exactly the form's fields |
| GameModel.Merge | lib/game-context.tsx:395 | `{ ...item, ...updates }`: a patch without an id keeps the item's id, and an empty patch keeps the item; the full-patch law is `GameModel.MergeLaws` |
| GameModel.PatchCatalog | lib/game-context.tsx:394-396 | `updateItem` keeps the catalog's length and merges the patch into exactly the entries with that id |
| GameModel.MergeLaws | lib/game-context.tsx:395 | `{ ...item, ...updates }`: a full patch gives the patch's item, an empty patch keeps the item |
| GameModel.SaveEditReplaces | app/admin/page.tsx:842-846 | saving an edited item replaces every entry with its id by it and touches nothing else; an unknown id changes nothing |
| GameModel.DeleteFromCatalog | lib/game-context.tsx:398-399 | deleting keeps exactly the entries with another id, in order, each as often as it occurs |
| GameModel.StagedQuantity | lib/game-context.tsx:443 | a staged quantity is absent exactly when no staging line has that item id |
| GameModel.AddToStaging | lib/game-context.tsx:441-449 | the staging upsert grows staging by at most one line, and a grown staging ends with the new line holding `quantity`; the full law is `GameModel.AddToStagingSpec` |
| GameModel.Bump | lib/game-context.tsx:445 | the staging `map` keeps every line's item id and position and adds the quantity to the lines with that id only |
| GameModel.AddToStagingSpec | lib/game-context.tsx:441-449 | `addToStaging` keeps one line per id, adds `quantity` to the staged quantity (or starts it at `quantity`), leaves other ids' quantities alone, keeps line order, and appends one line only for a new id |
| GameModel.AddToStagingUnique | lib/game-context.tsx:441-449 | `addToStaging` keeps staging ids unique |
| GameModel.AddToStagingQuantity | lib/game-context.tsx:443-448 | the staged quantity of the id becomes old plus `quantity`, or `quantity` when new |
| GameModel.AddToStagingOthers | lib/game-context.tsx:441-449 | the staged quantity of every other id is unchanged |
| GameModel.BumpQuantity | lib/game-context.tsx:444-445 | when the id sits at one position, the existing-line branch is taken and that line's quantity grows by `quantity` |
| GameModel.StagedAt | lib/game-context.tsx:443 | with unique ids, a staged id sits at exactly one position, whose line gives its quantity |
| GameModel.RemoveFromStaging | lib/game-context.tsx:451-453 | `removeFromStaging` drops exactly the lines with that id and keeps the others in order, each as often as it occurs |
| GameModel.RemoveFromStagingSpec | lib/game-context.tsx:451-453 | removal keeps staging ids unique and leaves every other id's quantity alone |
| GameModel.RemoveFromStagingOthers | lib/game-context.tsx:452 | removal leaves the staged quantity of every other id unchanged |
| GameModel.RemoveFirstStaged | app/admin/page.tsx:637-640 | with unique ids, removing the first line's id removes exactly the first line |
| GameModel.StagingAddTwice | lib/game-context.tsx:441-449 | staging an absent id twice stages the sum of the two quantities |
| GameModel.StagingRemoveThenAdd | lib/game-context.tsx:441-453 | removing an id and staging it again stages exactly the new quantity |
| GameModel.LobbyIdInjective | lib/game-context.tsx:412 | copies made in one call with different indices get different ids |
| GameModel.LobbyId | lib/game-context.tsx:412 | a lobby copy's id starts with the catalog item's id and a dash and is longer than the item id and the stamp together |
| GameModel.Copies | lib/game-context.tsx:408-415 | the loop appends `quantity` copies (none when it is not positive), all on the target table |
| GameModel.CopiesSpec | lib/game-context.tsx:408-415 | every copy is the catalog item in every field but the id, on the target table, and no two copies share an id |
| GameModel.LobbyCopies | lib/game-context.tsx:404-415 | `addItemToLobby` appends `quantity` copies of a known item and nothing for an unknown id |
| GameModel.LobbyLog | lib/game-context.tsx:404-427 | `addItemToLobby` prepends one log line for a known item and none for an unknown id |
| GameModel.Distribution | lib/game-context.tsx:459-464 | every copy the distribution appends is on the target table; how many copies is `GameModel.DistributionSpec` |
| GameModel.DistributionLog | lib/game-context.tsx:459-464 | the distribution writes at most one line per staging line, each an info line on the target table |
| GameModel.DistributionSpec | lib/game-context.tsx:459-464 | distribution appends exactly the staged units of known items, all on the target table, and prepends one info line on that table per known staging line |
| GameModel.DistributionStep | lib/game-context.tsx:460-462 | distributing one more staging line appends its copies and prepends its log line |
| GameModel.DistributionSkipsUnknown | lib/game-context.tsx:405-406 | staging lines whose item is not in the catalog add neither copies nor log lines |
| GameModel.DistributionExample | lib/game-context.tsx:133-164 | staging two potions and distributing them to table "1" puts two potions in that lobby |
| GameModel.DistributionLogExample | lib/game-context.tsx:417-426 | the same scenario writes exactly one info line on table "1" |
| GameModel.PotionInInitialCatalog | lib/game-context.tsx:133-164 | the initial catalog finds the potion under id "2" |
| GameModel.FindLobbyItem | lib/game-context.tsx:314 | the lobby lookup returns a lobby item with that id, and nothing exactly when none has it |
| GameModel.WithoutLobbyItem | lib/game-context.tsx:319 | the pickup's lobby updater keeps exactly the items with another id, in order, each as often as it occurs |
| GameModel.WithoutLobbyItemDropsOne | lib/game-context.tsx:319 | when the id is carried by one lobby item only, exactly that item leaves the lobby |
| GameModel.HasRecord | lib/game-context.tsx:322 | the inventory lookup succeeds exactly when a record has that (item id, user, table) key |
| GameModel.HoldingOfValid | lib/game-context.tsx:322-328 | in a valid inventory a key's holding is its record's quantity, zero without a record, and at least one exactly when the record exists |
| GameModel.AddUnit | lib/game-context.tsx:321-329 | the upsert shared by pickup, purchase (:602-612) and withdrawal (:640-650) grows the inventory by at most one record; the full law is `GameModel.AddUnitSpec` |
| GameModel.Adjust | lib/game-context.tsx:323-326 | the inventory `map` changes the quantity of exactly the records with that key, position by position |
| GameModel.AdjustUnits | lib/game-context.tsx:323-326 | with distinct keys, adjusting shifts every unit count whose scope contains the key by `delta`, when the record exists |
| GameModel.AddUnitSpec | lib/game-context.tsx:321-329 | the pickup/buy/withdraw upsert keeps the inventory valid, creates or keeps the key's record, adds exactly one unit to every count whose scope contains the key, and leaves other keys' records as they were |
| GameModel.AddUnitHolding | lib/game-context.tsx:321-329 | the upsert keeps the inventory valid and the key's own holding grows by exactly one |
| GameModel.AddUnitPresent | lib/game-context.tsx:322-326 | with an existing record, the increment keeps validity and the record, adds one unit where the key counts, and leaves other keys' records |
| GameModel.AdjustStaysValid | lib/game-context.tsx:323-326 | adding units keeps every record non-empty and the keys distinct |
| GameModel.AdjustKeepsRecord | lib/game-context.tsx:323-326 | adjusting keeps the adjusted key's record |
| GameModel.IncrementUnits | lib/game-context.tsx:323-326 | the increment adds one unit to every count whose scope contains the key |
| GameModel.AdjustShape | lib/game-context.tsx:323-326 | adjusting keeps keys distinct and leaves every other key's records in place |
| GameModel.AddUnitAbsent | lib/game-context.tsx:328 | without a record, the upsert appends one record of quantity 1 and adds exactly one unit where the key counts |
| GameModel.UnitsDropEmpty | lib/game-context.tsx:560 | dropping records with no units changes no unit count |
| GameModel.RemoveUnit | lib/game-context.tsx:555-561 | taking a unit never grows the inventory and leaves only records holding at least one unit; the full law is `GameModel.RemoveUnitSpec` |
| GameModel.RemoveUnitSpec | lib/game-context.tsx:555-561 | with an existing record, taking one unit keeps the inventory valid, removes exactly one unit from every count whose scope contains the key, and leaves other keys' records |
| GameModel.RemoveUnitValid | lib/game-context.tsx:555-561 | taking a unit and dropping empty records keeps the inventory valid |
| GameModel.RemoveUnitUnits | lib/game-context.tsx:555-561 | taking a unit removes exactly one unit from every scope containing the key |
| GameModel.RemoveUnitOthers | lib/game-context.tsx:555-561 | taking a unit leaves the records of every other key as they were |
| GameModel.ListWithdrawRoundTrip | lib/game-context.tsx:555-561 | listing a unit and then withdrawing it to the same seller restores every unit count, and the seller's holding |
| GameModel.TwoCopiesTwoRecords | lib/game-context.tsx:322-328 | picking up two lobby copies with different ids gives two records of one unit each |
| GameModel.ListedUnits | lib/game-context.tsx:574 | the number of listings of an item at a table is bounded by the number of listings, and zero exactly when none matches |
| GameModel.WithoutListing | lib/game-context.tsx:599 | the sale/withdrawal updater keeps exactly the listings with another id, in order, each as often as it occurs |
| GameModel.WithoutListingSpec | lib/game-context.tsx:599 | with unique ids, removing a listing's id removes exactly that listing, keeps ids unique, and lowers the listed units only where it counted |
| GameModel.ListedUnitsAppend | lib/game-context.tsx:574 | an appended listing is counted once, where it belongs |
| GameModel.ListingConserves | lib/game-context.tsx:555-574 | listing moves one unit from the seller's record into the listings: no stock is created or lost |
| GameModel.ReturnConserves | lib/game-context.tsx:599-614 | a sale or withdrawal moves the listing's unit into a user's record at the listing's table: no stock is created or lost |
| GameModel.LeavePresence | lib/game-context.tsx:509 | keeps exactly the presence records of other users, in order and each as often as it occurs, so the user has none |
| GameModel.JoinPresence | lib/game-context.tsx:482-492 | the new record comes last, and every record before it is an old one of another user; the full law is `GameModel.JoinPresenceSpec` |
| GameModel.JoinPresenceSpec | lib/game-context.tsx:480-492 | after joining, the user has exactly one presence record, the new one; other users' records are untouched; the one-table rule is kept |
| GameModel.LeavePresenceSpec | lib/game-context.tsx:509 | removing a user's records keeps the one-table rule |
| GameModel.StoredPassword | lib/game-context.tsx:476-478 | a stored password is returned exactly for tables that have one |
| GameModel.PasswordAccepts | lib/game-context.tsx:470-474 | a table without a stored password admits everyone, and a table always admits its own password; the full gate is `GameModel.PasswordGate` |
| GameModel.SetPasswordSpec | lib/game-context.tsx:466-474 | after setting a table's password, that table admits exactly that password, or everyone when it is empty, and every other table admits as before |
| GameModel.PasswordGate | lib/game-context.tsx:470-474 | a protected table admits exactly its password, its own password always admits, and a table without one admits everyone |
| GameModel.DeleteRecipe | lib/game-context.tsx:437-439 | deleting keeps exactly the recipes with another id, in order, each as often as it occurs |
| GameModel.LogTable | lib/game-context.tsx:379 | `tableId \|\| ""`: a given table id is kept and a missing one becomes empty |
| GameContext.WorldStore.constructor | lib/game-context.tsx:209-226 | a fresh store holds the initial catalog, the initial lobby and the welcome log entry, everything else empty, and is valid |
| GameContext.WorldStore.PickupItem | lib/game-context.tsx:313-341 | an unknown lobby id changes nothing; otherwise the item leaves the lobby, the picker's holding at its table grows by one via the upsert, a success line is prepended, and the invariant is kept |
| GameContext.WorldStore.SendChatMessage | lib/game-context.tsx:343-357 | appends exactly one table chat message |
| GameContext.WorldStore.SendGlobalChatMessage | lib/game-context.tsx:359-370 | appends exactly one global chat message |
| GameContext.WorldStore.AddEventLog | lib/game-context.tsx:372-383 | prepends exactly one free-form log line, with a missing table recorded as empty |
| GameContext.WorldStore.CreateItem | lib/game-context.tsx:385-392 | appends and returns the item with the new id; with a fresh id it is what the catalog finds under that id |
| GameContext.WorldStore.UpdateItem | lib/game-context.tsx:394-396 | replaces the catalog by its patched version |
| GameContext.WorldStore.DeleteItem | lib/game-context.tsx:398-402 | drops the id from catalog and staging only (lobby, inventory and recipes are outside its frame), after which neither finds it; the invariant is kept |
| GameContext.WorldStore.AddItemToLobby | lib/game-context.tsx:404-427 | the loop appends exactly the copies of the catalog item and prepends one log line; an unknown id changes nothing |
| GameContext.WorldStore.CreateCraftRecipe | lib/game-context.tsx:429-435 | appends exactly one recipe with the new id |
| GameContext.WorldStore.DeleteCraftRecipe | lib/game-context.tsx:437-439 | removes the recipes with that id |
| GameContext.WorldStore.AddToStaging | lib/game-context.tsx:441-449 | applies the staging upsert, keeps staging ids unique, and the id's staged quantity becomes old plus `quantity` |
| GameContext.WorldStore.RemoveFromStaging | lib/game-context.tsx:451-453 | applies the staging filter and keeps the invariant |
| GameContext.WorldStore.ClearStaging | lib/game-context.tsx:455-457 | empties staging |
| GameContext.WorldStore.DistributeStagingToLobby | lib/game-context.tsx:459-464 | appends the distribution of the old staging to the lobby (exactly its staged units), prepends its log lines, and empties staging |
| GameContext.WorldStore.AddLinesToLobby | lib/game-context.tsx:460-462 | the `forEach` of `addItemToLobby` appends the copies of every line in order and prepends their log lines newest first |
| GameContext.DistributedOnto | lib/game-context.tsx:460-462 | one more `addItemToLobby` both extends the lobby and log built from the earlier lines |
| GameContext.WorldStore.SetTablePassword | lib/game-context.tsx:466-468 | stores the password for that table only, after which it admits |
| GameContext.WorldStore.CheckTablePassword | lib/game-context.tsx:470-474 | admits exactly when the table has no password, the empty one, or the given one |
| GameContext.WorldStore.GetTablePassword | lib/game-context.tsx:476-478 | returns the stored password exactly when there is one |
| GameContext.WorldStore.JoinTable | lib/game-context.tsx:480-504 | drops the user's records then appends the new one, so the user's only record is the new one; prepends one info line; keeps the invariant |
| GameContext.WorldStore.LeaveTable | lib/game-context.tsx:506-522 | nothing changes unless the user is at that table; then every record of the user goes and one warning line names them |
| GameContext.WorldStore.KickPlayer | lib/game-context.tsx:524-540 | the same guard and removal as leaving, with the kick line |
| GameContext.WorldStore.ListItemOnAuction | lib/game-context.tsx:542-588 | succeeds exactly when the user's record exists and holds a unit; failure changes nothing; success takes one unit, dropping an emptied record, appends one listing and one log line; stock is conserved and the invariant kept |
| GameContext.WorldStore.BuyAuctionItem | lib/game-context.tsx:590-626 | succeeds exactly when the listing exists and is someone else's; failure changes nothing; success removes exactly that listing, gives the buyer one unit at its table, logs the sale, conserves stock and keeps the invariant |
| GameContext.WorldStore.RemoveAuctionListing | lib/game-context.tsx:628-664 | succeeds exactly when the seller owns the listing; failure changes nothing; success removes exactly that listing, returns its unit to the seller at its table, logs it, conserves stock and keeps the invariant |
| GameContext.WorldStore.TakeListing | lib/game-context.tsx:596-614 | the shared step removes exactly that listing, upserts its unit to the user, conserves stock and keeps the invariant |
| AuthContext.Authenticate | lib/auth-context.tsx:55-63 | a profile is found exactly when some account has exactly these credentials, and it is that account's id, name and role |
| AuthContext.Profile | lib/auth-context.tsx:56-63 | the signed-in profile is the account's id, name and role, without the password |
| AuthContext.RegisterError | lib/auth-context.tsx:72-87 | refusal reasons in order: a name taken up to letter case, then a name under 3 code units, then a password under 4; accepted exactly when none applies |
| AuthContext.DefaultUsersUnique | lib/auth-context.tsx:13-17 | the default accounts have names distinct up to letter case |
| AuthContext.RegisterKeepsNamesUnique | lib/auth-context.tsx:74-96 | an accepted sign-up keeps names distinct up to letter case |
| AuthContext.RegisterKeepsIdsUnique | lib/auth-context.tsx:89-96 | an account appended under an id no account has keeps account ids distinct |
| AuthContext.RegisterThenLogin | lib/auth-context.tsx:55-100 | right after an accepted sign-up, the new credentials sign in as the new player |
| AuthContext.AuthStore.constructor | lib/auth-context.tsx:36-47 | the store starts from the default accounts with nobody signed in |
| AuthContext.AuthStore.Login | lib/auth-context.tsx:55-70 | returns true exactly when some account matches exactly; then the user becomes its profile, otherwise the user is unchanged |
| AuthContext.AuthStore.Register | lib/auth-context.tsx:72-101 | succeeds exactly when no rule refuses, reporting the first refusal; success appends exactly the new player account under the fresh id, failure changes nothing; names stay unique up to case and ids stay unique |
| AuthContext.AuthStore.Logout | lib/auth-context.tsx:103-106 | signs the user out (idempotent) |
| AuthContext.AuthStore.IsAuthenticated | lib/auth-context.tsx:115 | true exactly when someone is signed in |
| AuthPage.RegisterFormError | app/auth/page.tsx:48-56 | the form's own refusal: an empty field first, then a mismatched confirmation; none exactly when all are filled and match |
| AuthPage.ShownError | app/auth/page.tsx:69 | the store's message when it has a non-empty one, never an empty message |
| AuthPage.ShownErrorOfStore | app/auth/page.tsx:68-70 | every refusal of the store is shown with its own message |
| AuthPage.AuthForms.constructor | app/auth/page.tsx:14-22 | both forms start blank, without error or success |
| AuthPage.AuthForms.HandleLogin | app/auth/page.tsx:27-42 | an empty field shows the fill-all-fields error without calling the store; otherwise the wrong-credentials error appears exactly when the store refuses, and the user changes only on success |
| AuthPage.AuthForms.HandleRegister | app/auth/page.tsx:44-71 | the form's refusal is shown without calling the store; otherwise the store's verdict under the fresh id: success sets the flag and clears the form, failure shows the store's error and keeps the accounts |
| AdminPage.RarityColor | app/admin/page.tsx:155-170 | total: each of the five rarities has its badge, and gray is exactly what unnamed or common rarities get |
| AdminPage.RarityColorsDistinct | app/admin/page.tsx:155-170 | the four named non-common rarities get four different badges |
| AdminPage.Dedupe | app/admin/page.tsx:172 | `Array.from(new Set(xs))`: the same values, each once, in order of first occurrence |
| AdminPage.Categories | app/admin/page.tsx:172 | lists exactly the categories of the catalog, each once, in order of first use |
| AdminPage.Matches | app/admin/page.tsx:174-179 | an item passes the search only when it is in the chosen category (any for "all") and its name is at least as long as the query |
| AdminPage.FilteredItems | app/admin/page.tsx:174-179 | keeps exactly the items of the chosen category (any for "all") whose lowercased name includes the lowercased query, in catalog order, each as often as it occurs |
| AdminPage.FilteredItemsLaws | app/admin/page.tsx:174-179 | no query with "all" shows the whole catalog in order; a category only narrows what "all" shows |
| AdminPage.StagingQuantity | app/admin/page.tsx:133 | `parseInt(text) \|\| 1`: the parsed value unless it is missing or zero, then 1; never zero |
| AdminPage.StagingQuantityExamples | app/admin/page.tsx:133 | written numbers pass through, zero and digitless text become 1, and a negative number passes through |
| AdminPage.ItemFormComplete | app/admin/page.tsx:71 | the item form is complete when name, description, icon and category are all filled in |
| AdminPage.RecipeFormValid | app/admin/page.tsx:99-106 | the recipe form is valid when every field is filled in and the two ingredients differ |
| AdminPage.RecipeIngredients | app/admin/page.tsx:108-115 | two ingredients of quantity 1, the chosen items in order, distinct and non-empty when the form is valid |
| AdminPage.AdminPanel.constructor | app/admin/page.tsx:36-58 | the panel starts with blank forms, staging quantity "1" and the edit dialog closed |
| AdminPage.AdminPanel.HandleCreateItem | app/admin/page.tsx:70-96 | creates an item only when name, description, icon and category are filled in, and then resets the form |
| AdminPage.AdminPanel.HandleCreateRecipe | app/admin/page.tsx:98-125 | creates a recipe only when every field is filled in and the ingredients differ, with one unit of each, then resets the form |
| AdminPage.AdminPanel.HandleAddToStaging | app/admin/page.tsx:127-137 | nothing without a chosen item; otherwise stages it with the defaulted quantity and resets the selection |
| AdminPage.AdminPanel.HandleDistribute | app/admin/page.tsx:139-153 | distributes only when a table is chosen and staging is not empty, then clears the table choice |
| AdminPage.AdminPanel.ClearStagingOneByOne | app/admin/page.tsx:637-640 | once confirmed, removing every staged line by id leaves staging empty, as clearing it would |
| AdminPage.AdminPanel.SaveEdit | app/admin/page.tsx:842-846 | the edited item replaces exactly the catalog entries with its id, then the dialog closes |

## Left out

- The welcome entry of the initial log has no `tableId` in the source, so it is `undefined` (lib/game-context.tsx:217-224). The model records `""` there. Pages filter the log by a real table id, and no such id is empty.
- Persistence in `localStorage` (load on mount, write-back effects, JSON encoding) is I/O. The constructors model the state after a first load from empty storage.
- Timestamps are dropped: log and chat entries carry no id or time. The ids drawn from `Date.now()` are arguments (`newId`, `listingId`, `stamp`).
- AddLinesToLobby: one `stamp` serves the whole distribution and all copies of a line. The source reads the clock once per copy, so the ids it makes also depend on timing.
- The item weight and `Number.parseFloat` are floating point and are not modelled.
- React's batching and stale closures are not modelled. Each operation is one atomic step on the current state. Cross-tab write races are also outside the model.
- `alert`, `confirm`, routing and the `setTimeout` that hides the success flag are UI plumbing. The confirmation is a `confirmed` argument.
- The admin page's redirect of non-admin users is routing, not logic.
- `tables` is the static `MOCK_TABLES` list. `currentTable` is a plain state cell that `setCurrentTable` overwrites and that no modelled operation reads.
- The rest of the repository's pages and components are not part of this model.
- JsText.LowerChar: `toLowerCase` is modelled for the capitals of the Basic Latin, Latin-1 Supplement, Latin Extended-A, Cyrillic and Cyrillic Supplement blocks only. U+0130 (İ, which lowercases to two characters), Latin Extended-B, Greek, Armenian, the extended Cyrillic blocks and the other scripts keep their case. So a sign-up name that differs from a taken one only in the case of such a letter is not seen as taken (lib/auth-context.tsx:74-77).
- JsText.ParseInt: `Number.parseInt` is modelled for decimal text only. The `0x` prefix is not modelled, and neither are numbers beyond the safe integer range.
- GameContext.WorldStore.ListItemOnAuction: a listing carries the record's catalog item rather than the whole inventory record. Only the item's fields are read back from it.
- Log messages are the `LogEvent` values they render rather than the rendered Russian sentences.
