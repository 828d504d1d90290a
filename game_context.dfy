/**
 * The world store: every collection of the game as a field, and every operation of the
 * store as a method that replaces the collections it touches by the updaters of GameModel.
 * Ids and timestamps that the store draws from the clock are arguments here.
 */
module GameContext {
  import opened Common
  import opened Seqs
  import opened GameModel

  class WorldStore {
    var items: seq<Item>
    var recipes: seq<CraftRecipe>
    var lobby: seq<LobbyItem>
    var inventory: seq<InventoryItem>
    var staging: seq<StagingItem>
    var players: seq<ActivePlayer>
    var listings: seq<AuctionListing>
    var passwords: map<string, string>
    var chat: seq<ChatMessage>
    var globalChat: seq<GlobalChatMessage>
    var log: seq<LogEntry>

    /** The invariants the store's operations keep. */
    ghost predicate Valid()
      reads this`staging, this`inventory, this`players, this`listings
    {
      && StagingKeysUnique(staging)
      && InventoryValid(inventory)
      && OnePresencePerUser(players)
      && DistinctBy(listings, ListingIdOf)
    }

    /** The state after the first load from an empty storage. */
    constructor ()
      ensures Valid()
      ensures items == InitialCatalog && lobby == InitialLobby && log == InitialLog
      ensures recipes == [] && inventory == [] && staging == [] && players == [] && listings == []
      ensures passwords == map[] && chat == [] && globalChat == []
    {
      items := InitialCatalog;
      recipes := [];
      lobby := InitialLobby;
      inventory := [];
      staging := [];
      players := [];
      listings := [];
      passwords := map[];
      chat := [];
      globalChat := [];
      log := InitialLog;
    }

    // ------------------------------------------------------------ lobby and inventory

    /** A user takes a lobby item into the inventory kept for its table. */
    method PickupItem(itemId: string, userId: string, username: string)
      requires Valid()
      modifies this`lobby, this`inventory, this`log
      ensures Valid()
      ensures FindLobbyItem(old(lobby), itemId).None? ==>
        lobby == old(lobby) && inventory == old(inventory) && log == old(log)
      ensures FindLobbyItem(old(lobby), itemId).Some? ==>
        var li := FindLobbyItem(old(lobby), itemId).value;
        && lobby == WithoutLobbyItem(old(lobby), itemId)
        && inventory == AddUnit(old(inventory), li.item, userId, li.tableId)
        && Holding(inventory, Key(itemId, userId, li.tableId)) == Holding(old(inventory), Key(itemId, userId, li.tableId)) + 1
        && log == [LogEntry(PickedUp(username, li.item.name), Success, li.tableId)] + old(log)
    {
      var found := FindLobbyItem(lobby, itemId);
      if found.None? {
        return;
      }
      var li := found.value;
      lobby := WithoutLobbyItem(lobby, itemId);
      AddUnitHolding(inventory, li.item, userId, li.tableId);
      inventory := AddUnit(inventory, li.item, userId, li.tableId);
      log := [LogEntry(PickedUp(username, li.item.name), Success, li.tableId)] + log;
    }

    // ------------------------------------------------------------ chat and log

    method SendChatMessage(userId: string, username: string, message: string, tableId: string, item: Option<Item>)
      modifies this`chat
      ensures chat == old(chat) + [ChatMessage(userId, username, message, tableId, item)]
    {
      chat := chat + [ChatMessage(userId, username, message, tableId, item)];
    }

    method SendGlobalChatMessage(userId: string, username: string, message: string)
      modifies this`globalChat
      ensures globalChat == old(globalChat) + [GlobalChatMessage(userId, username, message)]
    {
      globalChat := globalChat + [GlobalChatMessage(userId, username, message)];
    }

    /** Prepends a free-form entry; a missing table id is recorded as the empty one. */
    method AddEventLog(message: string, kind: LogType, tableId: Option<string>)
      modifies this`log
      ensures log == [LogEntry(Note(message), kind, LogTable(tableId))] + old(log)
    {
      log := [LogEntry(Note(message), kind, LogTable(tableId))] + log;
    }

    // ------------------------------------------------------------ catalog

    method CreateItem(fields: ItemFields, newId: string) returns (item: Item)
      modifies this`items
      ensures item == WithId(fields, newId)
      ensures items == old(items) + [item]
      ensures (forall x :: x in old(items) ==> x.id != newId) ==> FindItem(items, newId) == Some(item)
    {
      item := WithId(fields, newId);
      FindConcat(items, [item], ItemIdIs(newId));
      items := items + [item];
    }

    method UpdateItem(itemId: string, patch: ItemPatch)
      modifies this`items
      ensures items == PatchCatalog(old(items), itemId, patch)
    {
      items := PatchCatalog(items, itemId, patch);
    }

    /** Removes the item from the catalog and from staging; the lobby, inventories and recipes keep their copies. */
    method DeleteItem(itemId: string)
      requires Valid()
      modifies this`items, this`staging
      ensures Valid()
      ensures items == DeleteFromCatalog(old(items), itemId) && FindItem(items, itemId).None?
      ensures staging == GameModel.RemoveFromStaging(old(staging), itemId) && StagedQuantity(staging, itemId).None?
    {
      RemoveFromStagingSpec(staging, itemId);
      items := DeleteFromCatalog(items, itemId);
      staging := GameModel.RemoveFromStaging(staging, itemId);
    }

    /** Appends `quantity` lobby copies of a catalog item to a table (none when the quantity is
        not positive) and logs it; an id the catalog does not know changes nothing. */
    method AddItemToLobby(itemId: string, tableId: string, quantity: int, stamp: string)
      modifies this`lobby, this`log
      ensures lobby == old(lobby) + LobbyCopies(items, itemId, quantity, tableId, stamp)
      ensures log == LobbyLog(items, itemId, quantity, tableId) + old(log)
    {
      var found := FindItem(items, itemId);
      if found.Some? {
        var item := found.value;
        var i := 0;
        while i < quantity
          invariant 0 <= i <= (if quantity > 0 then quantity else 0)
          invariant lobby == old(lobby) + Copies(item, tableId, stamp, i)
          invariant log == old(log)
        {
          var copy := LobbyItem(item.(id := LobbyId(itemId, stamp, i)), tableId);
          assert Copies(item, tableId, stamp, i + 1) == Copies(item, tableId, stamp, i) + [copy];
          lobby := lobby + [copy];
          i := i + 1;
        }
        assert Copies(item, tableId, stamp, quantity) == Copies(item, tableId, stamp, i);
        log := [LogEntry(AddedToLobby(item.name, quantity), Info, tableId)] + log;
      }
    }

    // ------------------------------------------------------------ recipes

    method CreateCraftRecipe(name: string, ingredients: seq<Ingredient>, resultItemId: string, newId: string)
      modifies this`recipes
      ensures recipes == old(recipes) + [CraftRecipe(newId, name, ingredients, resultItemId)]
    {
      recipes := recipes + [CraftRecipe(newId, name, ingredients, resultItemId)];
    }

    method DeleteCraftRecipe(recipeId: string)
      modifies this`recipes
      ensures recipes == DeleteRecipe(old(recipes), recipeId)
    {
      recipes := DeleteRecipe(recipes, recipeId);
    }

    // ------------------------------------------------------------ staging

    method AddToStaging(itemId: string, quantity: int)
      requires Valid()
      modifies this`staging
      ensures Valid()
      ensures staging == GameModel.AddToStaging(old(staging), itemId, quantity)
      ensures StagedQuantity(staging, itemId) ==
        Some(match StagedQuantity(old(staging), itemId) case None => quantity case Some(v) => v + quantity)
    {
      AddToStagingSpec(staging, itemId, quantity);
      staging := GameModel.AddToStaging(staging, itemId, quantity);
    }

    method RemoveFromStaging(itemId: string)
      requires Valid()
      modifies this`staging
      ensures Valid()
      ensures staging == GameModel.RemoveFromStaging(old(staging), itemId)
    {
      RemoveFromStagingSpec(staging, itemId);
      staging := GameModel.RemoveFromStaging(staging, itemId);
    }

    method ClearStaging()
      requires Valid()
      modifies this`staging
      ensures Valid()
      ensures staging == []
    {
      staging := [];
    }

    /** Hands every staging line to the table's lobby, in staging order, then empties staging.
        The clock is read as one stamp for the whole call. */
    method DistributeStagingToLobby(tableId: string, stamp: string)
      requires Valid()
      modifies this`lobby, this`log, this`staging
      ensures Valid()
      ensures lobby == old(lobby) + Distribution(items, old(staging), tableId, stamp)
      ensures log == DistributionLog(items, old(staging), tableId) + old(log)
      ensures |lobby| == |old(lobby)| + StagedUnits(items, old(staging))
      ensures staging == []
    {
      DistributionSpec(items, staging, tableId, stamp);
      AddLinesToLobby(staging, tableId, stamp);
      ClearStaging();
    }

    /** `addItemToLobby` for each line of `s`, in order. */
    method AddLinesToLobby(s: seq<StagingItem>, tableId: string, stamp: string)
      modifies this`lobby, this`log
      ensures lobby == old(lobby) + Distribution(items, s, tableId, stamp)
      ensures log == DistributionLog(items, s, tableId) + old(log)
    {
      var j := 0;
      while j < |s|
        invariant 0 <= j <= |s|
        invariant lobby == old(lobby) + Distribution(items, s[..j], tableId, stamp)
        invariant log == DistributionLog(items, s[..j], tableId) + old(log)
      {
        DistributedOnto(old(lobby), old(log), items, s, j, tableId, stamp);
        AddItemToLobby(s[j].itemId, tableId, s[j].quantity, stamp);
        j := j + 1;
      }
      assert s[..j] == s;
    }

    // ------------------------------------------------------------ table passwords

    method SetTablePassword(tableId: string, password: string)
      modifies this`passwords
      ensures passwords == old(passwords)[tableId := password]
      ensures CheckTablePassword(tableId, password)
    {
      passwords := passwords[tableId := password];
    }

    /** Whether the password admits to the table: always when none or the empty one is stored. */
    function CheckTablePassword(tableId: string, password: string): (ok: bool)
      reads this`passwords
      ensures ok <==> tableId !in passwords || passwords[tableId] == "" || passwords[tableId] == password
    {
      PasswordAccepts(passwords, tableId, password)
    }

    function GetTablePassword(tableId: string): (r: Option<string>)
      reads this`passwords
      ensures r.Some? <==> tableId in passwords
      ensures r.Some? ==> r.value == passwords[tableId]
    {
      StoredPassword(passwords, tableId)
    }

    // ------------------------------------------------------------ presence

    /** Moves the user to the table: any record elsewhere is dropped, one new record is appended. */
    method JoinTable(userId: string, username: string, role: Role, tableId: string)
      requires Valid()
      modifies this`players, this`log
      ensures Valid()
      ensures players == JoinPresence(old(players), ActivePlayer(userId, username, role, tableId))
      ensures Count(players, UserIs(userId)) == 1
      ensures Find(players, UserIs(userId)) == Some(ActivePlayer(userId, username, role, tableId))
      ensures log == [LogEntry(Joined(username), Info, tableId)] + old(log)
    {
      var p := ActivePlayer(userId, username, role, tableId);
      JoinPresenceSpec(players, p);
      players := JoinPresence(players, p);
      log := [LogEntry(Joined(username), Info, tableId)] + log;
    }

    /** When the user is at this table, removes all of the user's records and logs a warning. */
    method LeaveTable(userId: string, tableId: string)
      requires Valid()
      modifies this`players, this`log
      ensures Valid()
      ensures Find(old(players), PresentAt(userId, tableId)).None? ==> players == old(players) && log == old(log)
      ensures Find(old(players), PresentAt(userId, tableId)).Some? ==>
        && players == LeavePresence(old(players), userId)
        && log == [LogEntry(Left(Find(old(players), PresentAt(userId, tableId)).value.username), Warning, tableId)] + old(log)
    {
      var found := Find(players, PresentAt(userId, tableId));
      if found.Some? {
        LeavePresenceSpec(players, userId);
        players := LeavePresence(players, userId);
        log := [LogEntry(Left(found.value.username), Warning, tableId)] + log;
      }
    }

    /** Like leaving, with a different log line. */
    method KickPlayer(userId: string, tableId: string)
      requires Valid()
      modifies this`players, this`log
      ensures Valid()
      ensures Find(old(players), PresentAt(userId, tableId)).None? ==> players == old(players) && log == old(log)
      ensures Find(old(players), PresentAt(userId, tableId)).Some? ==>
        && players == LeavePresence(old(players), userId)
        && log == [LogEntry(Kicked(Find(old(players), PresentAt(userId, tableId)).value.username), Warning, tableId)] + old(log)
    {
      var found := Find(players, PresentAt(userId, tableId));
      if found.Some? {
        LeavePresenceSpec(players, userId);
        players := LeavePresence(players, userId);
        log := [LogEntry(Kicked(found.value.username), Warning, tableId)] + log;
      }
    }

    // ------------------------------------------------------------ auction

    /** Puts one unit of the user's record (item id, user, table) up for sale under a fresh id. */
    method ListItemOnAuction(userId: string, username: string, itemId: string, price: int, tableId: string,
                             listingId: string) returns (ok: bool)
      requires Valid()
      requires forall l :: l in listings ==> l.id != listingId
      modifies this`inventory, this`listings, this`log
      ensures Valid()
      ensures var rec := Find(old(inventory), HasKey(Key(itemId, userId, tableId)));
        ok <==> rec.Some? && rec.value.quantity >= 1
      ensures !ok ==> inventory == old(inventory) && listings == old(listings) && log == old(log)
      ensures ok ==>
        var rec := Find(old(inventory), HasKey(Key(itemId, userId, tableId))).value;
        && inventory == RemoveUnit(old(inventory), Key(itemId, userId, tableId))
        && listings == old(listings) + [AuctionListing(listingId, userId, username, rec.item, price, tableId)]
        && log == [LogEntry(Listed(username, rec.item.name, price), Info, tableId)] + old(log)
      ensures forall i, t :: Stock(inventory, listings, i, t) == Stock(old(inventory), old(listings), i, t)
    {
      var k := Key(itemId, userId, tableId);
      var found := Find(inventory, HasKey(k));
      if found.None? || found.value.quantity < 1 {
        return false;
      }
      var rec := found.value;
      var l := AuctionListing(listingId, userId, username, rec.item, price, tableId);
      assert HasKey(k)(rec);
      ListingConserves(inventory, listings, k, l);
      RemoveUnitSpec(inventory, k);
      DistinctByAppend(listings, l, ListingIdOf);
      inventory := RemoveUnit(inventory, k);
      listings := listings + [l];
      log := [LogEntry(Listed(username, rec.item.name, price), Info, tableId)] + log;
      ok := true;
    }

    /** Buys a listing from someone else: the listing goes, the buyer gains its unit at its table. */
    method BuyAuctionItem(buyerId: string, buyerName: string, listingId: string) returns (ok: bool)
      requires Valid()
      modifies this`inventory, this`listings, this`log
      ensures Valid()
      ensures var l := Find(old(listings), ListingIdIs(listingId));
        ok <==> l.Some? && l.value.sellerId != buyerId
      ensures !ok ==> inventory == old(inventory) && listings == old(listings) && log == old(log)
      ensures ok ==>
        var l := Find(old(listings), ListingIdIs(listingId)).value;
        && listings == WithoutListing(old(listings), listingId)
        && |listings| == |old(listings)| - 1
        && inventory == AddUnit(old(inventory), l.item, buyerId, l.tableId)
        && log == [LogEntry(Bought(buyerName, l.item.name, l.sellerName, l.price), Success, l.tableId)] + old(log)
      ensures forall i, t :: Stock(inventory, listings, i, t) == Stock(old(inventory), old(listings), i, t)
    {
      var found := Find(listings, ListingIdIs(listingId));
      if found.None? || found.value.sellerId == buyerId {
        return false;
      }
      var l := found.value;
      TakeListing(l, buyerId);
      log := [LogEntry(Bought(buyerName, l.item.name, l.sellerName, l.price), Success, l.tableId)] + log;
      ok := true;
    }

    /** Withdraws the seller's own listing: it goes, and its unit returns to the seller at its table. */
    method RemoveAuctionListing(listingId: string, userId: string) returns (ok: bool)
      requires Valid()
      modifies this`inventory, this`listings, this`log
      ensures Valid()
      ensures ok <==> Find(old(listings), SellerListing(listingId, userId)).Some?
      ensures !ok ==> inventory == old(inventory) && listings == old(listings) && log == old(log)
      ensures ok ==>
        var l := Find(old(listings), SellerListing(listingId, userId)).value;
        && listings == WithoutListing(old(listings), listingId)
        && |listings| == |old(listings)| - 1
        && inventory == AddUnit(old(inventory), l.item, userId, l.tableId)
        && log == [LogEntry(Withdrawn(l.sellerName, l.item.name), Info, l.tableId)] + old(log)
      ensures forall i, t :: Stock(inventory, listings, i, t) == Stock(old(inventory), old(listings), i, t)
    {
      var found := Find(listings, SellerListing(listingId, userId));
      if found.None? {
        return false;
      }
      var l := found.value;
      assert l.id == listingId && l.sellerId == userId;
      TakeListing(l, userId);
      log := [LogEntry(Withdrawn(l.sellerName, l.item.name), Info, l.tableId)] + log;
      ok := true;
    }

    /** The step shared by a sale and a withdrawal: drop the listing, add its unit to the user. */
    method TakeListing(l: AuctionListing, userId: string)
      requires Valid() && l in listings
      modifies this`inventory, this`listings
      ensures Valid()
      ensures listings == WithoutListing(old(listings), l.id)
      ensures |listings| == |old(listings)| - 1
      ensures inventory == AddUnit(old(inventory), l.item, userId, l.tableId)
      ensures forall i, t :: Stock(inventory, listings, i, t) == Stock(old(inventory), old(listings), i, t)
    {
      var n :| 0 <= n < |listings| && listings[n] == l;
      WithoutListingSpec(listings, n);
      ReturnConserves(inventory, listings, n, userId);
      AddUnitHolding(inventory, l.item, userId, l.tableId);
      listings := WithoutListing(listings, l.id);
      inventory := AddUnit(inventory, l.item, userId, l.tableId);
    }
  }

  /** One more staging line handed to a lobby and log that already hold the earlier lines. */
  lemma DistributedOnto(lobby0: seq<LobbyItem>, log0: seq<LogEntry>, items: seq<Item>, s: seq<StagingItem>, j: int,
                        tableId: string, stamp: string)
    requires 0 <= j < |s|
    ensures (lobby0 + Distribution(items, s[..j], tableId, stamp)) + LobbyCopies(items, s[j].itemId, s[j].quantity, tableId, stamp)
            == lobby0 + Distribution(items, s[..j + 1], tableId, stamp)
    ensures LobbyLog(items, s[j].itemId, s[j].quantity, tableId) + (DistributionLog(items, s[..j], tableId) + log0)
            == DistributionLog(items, s[..j + 1], tableId) + log0
  {
    DistributionStep(items, s, j, tableId, stamp);
    ConcatAssoc(lobby0, Distribution(items, s[..j], tableId, stamp), LobbyCopies(items, s[j].itemId, s[j].quantity, tableId, stamp));
    ConcatAssoc(LobbyLog(items, s[j].itemId, s[j].quantity, tableId), DistributionLog(items, s[..j], tableId), log0);
  }
}
