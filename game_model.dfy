/**
 * The entities of the world store and the pure updaters its operations apply to
 * each collection (the `prev => ...` bodies handed to the state setters).
 */
module GameModel {
  import opened Common
  import opened Seqs
  import opened JsText

  // ================================================================ entities

  /** A catalog item definition (its floating-point weight is not modelled). */
  datatype Item = Item(id: string, name: string, nameColor: string, description: string,
                       rarity: string, icon: string, category: string)

  /** The fields of a new item, everything but the id. */
  datatype ItemFields = ItemFields(name: string, nameColor: string, description: string,
                                   rarity: string, icon: string, category: string)

  /** A partial item: the fields an update overrides. */
  datatype ItemPatch = ItemPatch(id: Option<string>, name: Option<string>, nameColor: Option<string>,
                                 description: Option<string>, rarity: Option<string>,
                                 icon: Option<string>, category: Option<string>)

  /** A snapshot of an item lying unclaimed in a table's lobby; `item.id` is the lobby id. */
  datatype LobbyItem = LobbyItem(item: Item, tableId: string)

  /** A snapshot of an item held by a user at a table. */
  datatype InventoryItem = InventoryItem(item: Item, userId: string, tableId: string, quantity: int)

  /** What identifies an inventory record: item id, user and table. */
  datatype Key = Key(itemId: string, userId: string, tableId: string)

  datatype Ingredient = Ingredient(itemId: string, quantity: int)

  datatype CraftRecipe = CraftRecipe(id: string, name: string, ingredients: seq<Ingredient>, resultItemId: string)

  /** One line of the global staging buffer. */
  datatype StagingItem = StagingItem(itemId: string, quantity: int)

  /** A presence record (its join time is not modelled). */
  datatype ActivePlayer = ActivePlayer(userId: string, username: string, role: Role, tableId: string)

  /** One unit offered for sale (its listing time is not modelled). */
  datatype AuctionListing = AuctionListing(id: string, sellerId: string, sellerName: string,
                                           item: Item, price: int, tableId: string)

  datatype ChatMessage = ChatMessage(userId: string, username: string, message: string,
                                     tableId: string, item: Option<Item>)

  datatype GlobalChatMessage = GlobalChatMessage(userId: string, username: string, message: string)

  datatype LogType = Info | Success | Warning

  /** What a log line reports; the store renders each as a fixed Russian sentence. */
  datatype LogEvent =
    | Welcome
    | PickedUp(username: string, itemName: string)
    | AddedToLobby(itemName: string, quantity: int)
    | Joined(username: string)
    | Left(username: string)
    | Kicked(username: string)
    | Listed(username: string, itemName: string, price: int)
    | Bought(buyerName: string, itemName: string, sellerName: string, price: int)
    | Withdrawn(sellerName: string, itemName: string)
    | Note(message: string)

  datatype LogEntry = LogEntry(event: LogEvent, kind: LogType, tableId: string)

  // ================================================================ initial data

  const Sword := Item("1", "Меч воина", "#ff6b6b", "Острый меч с рунами силы", "rare", "⚔️", "Оружие")
  const Potion := Item("2", "Зелье здоровья", "#51cf66", "Восстанавливает 50 HP", "common", "🧪", "Зелья")
  const Shield := Item("3", "Щит защитника", "#4dabf7", "Прочный щит из драконьей чешуи", "epic", "🛡️", "Броня")

  /** The catalog written to an empty storage on first load. */
  const InitialCatalog: seq<Item> := [Sword, Potion, Shield]

  /** The lobby written to an empty storage on first load: a sword and a potion on table "1". */
  const InitialLobby: seq<LobbyItem> := [LobbyItem(Sword, "1"), LobbyItem(Potion, "1")]

  /** The event log a fresh store starts with (that entry has no table). */
  const InitialLog: seq<LogEntry> := [LogEntry(Welcome, Info, "")]

  // ================================================================ catalog

  /** Everything of an item but its id. */
  function FieldsOf(x: Item): ItemFields
  {
    ItemFields(x.name, x.nameColor, x.description, x.rarity, x.icon, x.category)
  }

  /** `{ id, ...item }`: a new catalog entry carries the new id and exactly the form's fields. */
  function WithId(f: ItemFields, id: string): (r: Item)
    ensures r.id == id && FieldsOf(r) == f
  {
    Item(id, f.name, f.nameColor, f.description, f.rarity, f.icon, f.category)
  }

  /** `{ ...item, ...updates }`: every field the patch carries overrides the item's. */
  function Merge(item: Item, patch: ItemPatch): (r: Item)
    ensures patch.id.None? ==> r.id == item.id
    ensures patch == EmptyPatch ==> r == item
  {
    Item(if patch.id.Some? then patch.id.value else item.id,
         if patch.name.Some? then patch.name.value else item.name,
         if patch.nameColor.Some? then patch.nameColor.value else item.nameColor,
         if patch.description.Some? then patch.description.value else item.description,
         if patch.rarity.Some? then patch.rarity.value else item.rarity,
         if patch.icon.Some? then patch.icon.value else item.icon,
         if patch.category.Some? then patch.category.value else item.category)
  }

  /** The patch the edit dialog saves: the whole edited item. */
  function FullPatch(e: Item): (p: ItemPatch)
  {
    ItemPatch(Some(e.id), Some(e.name), Some(e.nameColor), Some(e.description),
              Some(e.rarity), Some(e.icon), Some(e.category))
  }

  const EmptyPatch := ItemPatch(None, None, None, None, None, None, None)

  /** A full patch replaces the item, an empty patch keeps it. */
  lemma MergeLaws(item: Item, e: Item)
    ensures Merge(item, FullPatch(e)) == e
    ensures Merge(item, EmptyPatch) == item
  {
  }

  function ItemIdIs(id: string): Item -> bool { (x: Item) => x.id == id }
  function ItemIdIsNot(id: string): Item -> bool { (x: Item) => x.id != id }

  /** The catalog lookup by id: the first entry carrying it. */
  function FindItem(items: seq<Item>, id: string): (r: Option<Item>)
    ensures r.Some? ==> r.value in items && r.value.id == id
    ensures r.None? <==> forall x :: x in items ==> x.id != id
  {
    Find(items, ItemIdIs(id))
  }

  /** `updateItem`'s updater: merges the patch into every entry with that id. */
  function PatchCatalog(items: seq<Item>, id: string, patch: ItemPatch): (r: seq<Item>)
    ensures |r| == |items|
    ensures forall i :: 0 <= i < |items| ==> r[i] == if items[i].id == id then Merge(items[i], patch) else items[i]
  {
    seq(|items|, i requires 0 <= i < |items| => if items[i].id == id then Merge(items[i], patch) else items[i])
  }

  /** Saving an edited item `e` replaces every entry with e's id by `e` and touches nothing else;
      an id that is not in the catalog changes nothing. */
  lemma SaveEditReplaces(items: seq<Item>, e: Item)
    ensures var r := PatchCatalog(items, e.id, FullPatch(e));
      |r| == |items| && forall i :: 0 <= i < |items| ==> r[i] == if items[i].id == e.id then e else items[i]
    ensures (forall x :: x in items ==> x.id != e.id) ==> PatchCatalog(items, e.id, FullPatch(e)) == items
  {
    var r := PatchCatalog(items, e.id, FullPatch(e));
    forall i | 0 <= i < |items| ensures r[i] == if items[i].id == e.id then e else items[i] {
      MergeLaws(items[i], e);
    }
    if forall x :: x in items ==> x.id != e.id {
      assert forall i :: 0 <= i < |items| ==> items[i] in items;
    }
  }

  /** `deleteItem`'s catalog updater. */
  function DeleteFromCatalog(items: seq<Item>, id: string): (r: seq<Item>)
    ensures forall x :: x in r <==> x in items && x.id != id
    ensures forall x :: multiset(r)[x] == if x.id != id then multiset(items)[x] else 0
    ensures Subsequence(r, items)
  {
    FilterSpec(items, ItemIdIsNot(id));
    FilterMultiset(items, ItemIdIsNot(id));
    Filter(items, ItemIdIsNot(id))
  }

  /** Any element that is present is known to the catalog's `find`. */
  function KnownTo(items: seq<Item>): StagingItem -> bool
  {
    (e: StagingItem) => FindItem(items, e.itemId).Some?
  }

  // ================================================================ staging

  function StagedIs(id: string): StagingItem -> bool { (e: StagingItem) => e.itemId == id }
  function StagedIsNot(id: string): StagingItem -> bool { (e: StagingItem) => e.itemId != id }
  function StagedId(e: StagingItem): string { e.itemId }

  /** Staging keeps at most one line per item id. */
  ghost predicate StagingKeysUnique(s: seq<StagingItem>)
  {
    DistinctBy(s, StagedId)
  }

  /** The quantity staged for an item, as the first line with that id says. */
  function StagedQuantity(s: seq<StagingItem>, id: string): (r: Option<int>)
    ensures r.None? <==> forall i :: 0 <= i < |s| ==> s[i].itemId != id
  {
    match Find(s, StagedIs(id))
    case None => None
    case Some(e) => Some(e.quantity)
  }

  /** `addToStaging`'s updater: add to the line with that id, or append a new line. */
  function AddToStaging(s: seq<StagingItem>, id: string, q: int): (r: seq<StagingItem>)
    ensures |s| <= |r| <= |s| + 1
    ensures |r| == |s| + 1 ==> r[|s|] == StagingItem(id, q)
  {
    if Find(s, StagedIs(id)).Some? then Bump(s, id, q) else s + [StagingItem(id, q)]
  }

  /** The existing-line branch of the staging upsert: every line with that id gains `q`, the rest stay. */
  function Bump(s: seq<StagingItem>, id: string, q: int): (r: seq<StagingItem>)
    ensures |r| == |s|
    ensures forall j :: 0 <= j < |s| ==> r[j].itemId == s[j].itemId
    ensures forall j :: 0 <= j < |s| ==> r[j].quantity == if s[j].itemId == id then s[j].quantity + q else s[j].quantity
  {
    seq(|s|, j requires 0 <= j < |s| => if s[j].itemId == id then s[j].(quantity := s[j].quantity + q) else s[j])
  }

  /** What `addToStaging` promises: keys stay unique, the quantity of `id` grows by `q`
      (or starts at `q`), every other line keeps its quantity, and the lines keep their order. */
  lemma AddToStagingSpec(s: seq<StagingItem>, id: string, q: int)
    requires StagingKeysUnique(s)
    ensures var r := AddToStaging(s, id, q);
      && StagingKeysUnique(r)
      && StagedQuantity(r, id) == Some(match StagedQuantity(s, id) case None => q case Some(v) => v + q)
      && (forall k :: k != id ==> StagedQuantity(r, k) == StagedQuantity(s, k))
      && |r| == |s| + (if StagedQuantity(s, id).Some? then 0 else 1)
      && (forall i :: 0 <= i < |s| ==> r[i].itemId == s[i].itemId)
  {
    AddToStagingUnique(s, id, q);
    AddToStagingQuantity(s, id, q);
    forall k | k != id ensures StagedQuantity(AddToStaging(s, id, q), k) == StagedQuantity(s, k) {
      AddToStagingOthers(s, id, q, k);
    }
    if StagedQuantity(s, id).None? {
      var e := StagingItem(id, q);
      assert forall i :: 0 <= i < |s| ==> (s + [e])[i] == s[i];
    }
  }

  /** Adding to staging keeps one line per item id. */
  lemma AddToStagingUnique(s: seq<StagingItem>, id: string, q: int)
    requires StagingKeysUnique(s)
    ensures StagingKeysUnique(AddToStaging(s, id, q))
  {
    if StagedQuantity(s, id).Some? {
      DistinctBySameKeys(s, Bump(s, id, q), StagedId);
    } else {
      DistinctByAppend(s, StagingItem(id, q), StagedId);
    }
  }

  /** The quantity staged for `id` grows by `q`, or starts at `q`. */
  lemma AddToStagingQuantity(s: seq<StagingItem>, id: string, q: int)
    requires StagingKeysUnique(s)
    ensures StagedQuantity(AddToStaging(s, id, q), id) == Some(match StagedQuantity(s, id) case None => q case Some(v) => v + q)
  {
    if StagedQuantity(s, id).Some? {
      var i := StagedAt(s, id);
      BumpQuantity(s, id, q, i);
    } else {
      var e := StagingItem(id, q);
      assert AddToStaging(s, id, q) == s + [e];
      FindConcat(s, [e], StagedIs(id));
      assert Find([e], StagedIs(id)) == Some(e);
    }
  }

  /** The quantity staged for any other id stays as it was. */
  lemma AddToStagingOthers(s: seq<StagingItem>, id: string, q: int, k: string)
    requires k != id
    ensures StagedQuantity(AddToStaging(s, id, q), k) == StagedQuantity(s, k)
  {
    if StagedQuantity(s, id).Some? {
      BumpOthers(s, id, q, k);
    } else {
      FindConcat(s, [StagingItem(id, q)], StagedIs(k));
    }
  }

  lemma BumpQuantity(s: seq<StagingItem>, id: string, q: int, i: int)
    requires 0 <= i < |s| && s[i].itemId == id
    requires forall j :: 0 <= j < |s| && j != i ==> s[j].itemId != id
    ensures StagedQuantity(Bump(s, id, q), id) == Some(s[i].quantity + q)
    ensures AddToStaging(s, id, q) == Bump(s, id, q)
  {
    var r := Bump(s, id, q);
    FindUnique(r, StagedIs(id), i);
    FindUnique(s, StagedIs(id), i);
  }

  lemma BumpOthers(s: seq<StagingItem>, id: string, q: int, k: string)
    requires k != id
    ensures StagedQuantity(Bump(s, id, q), k) == StagedQuantity(s, k)
  {
    var r := Bump(s, id, q);
    assert forall j :: 0 <= j < |r| && StagedIs(k)(r[j]) ==> r[j] == s[j];
    FindPointwise(r, s, StagedIs(k));
  }

  /** With unique keys, a staged id sits at exactly one position, whose line gives its quantity. */
  lemma StagedAt(s: seq<StagingItem>, id: string) returns (i: int)
    requires StagingKeysUnique(s) && StagedQuantity(s, id).Some?
    ensures 0 <= i < |s| && s[i].itemId == id && StagedQuantity(s, id) == Some(s[i].quantity)
    ensures forall j :: 0 <= j < |s| && j != i ==> s[j].itemId != id
  {
    i :| 0 <= i < |s| && StagedIs(id)(s[i]) && Find(s, StagedIs(id)) == Some(s[i]);
    forall j | 0 <= j < |s| && j != i ensures s[j].itemId != id {
      if j < i { DistinctByAt(s, StagedId, j, i); } else { DistinctByAt(s, StagedId, i, j); }
    }
  }

  /** `removeFromStaging`'s updater (also `deleteItem`'s staging updater). */
  function RemoveFromStaging(s: seq<StagingItem>, id: string): (r: seq<StagingItem>)
    ensures forall x :: x in r <==> x in s && x.itemId != id
    ensures forall x :: multiset(r)[x] == if x.itemId != id then multiset(s)[x] else 0
    ensures Subsequence(r, s)
    ensures StagedQuantity(r, id) == None
  {
    FilterSpec(s, StagedIsNot(id));
    FilterMultiset(s, StagedIsNot(id));
    Filter(s, StagedIsNot(id))
  }

  /** Removal keeps keys unique and leaves every other line's quantity alone. */
  lemma RemoveFromStagingSpec(s: seq<StagingItem>, id: string)
    requires StagingKeysUnique(s)
    ensures StagingKeysUnique(RemoveFromStaging(s, id))
    ensures forall k :: k != id ==> StagedQuantity(RemoveFromStaging(s, id), k) == StagedQuantity(s, k)
  {
    FilterDistinctBy(s, StagedIsNot(id), StagedId);
    forall k | k != id ensures StagedQuantity(RemoveFromStaging(s, id), k) == StagedQuantity(s, k) {
      RemoveFromStagingOthers(s, id, k);
    }
  }

  lemma RemoveFromStagingOthers(s: seq<StagingItem>, id: string, k: string)
    requires StagingKeysUnique(s) && k != id
    ensures StagedQuantity(RemoveFromStaging(s, id), k) == StagedQuantity(s, k)
  {
    var r := RemoveFromStaging(s, id);
    FilterDistinctBy(s, StagedIsNot(id), StagedId);
    if StagedQuantity(s, k).Some? {
      var i := StagedAt(s, k);
      assert s[i] in r;
      var m :| 0 <= m < |r| && r[m] == s[i];
      forall j | 0 <= j < |r| && j != m ensures !StagedIs(k)(r[j]) {
        if j < m { DistinctByAt(r, StagedId, j, m); } else { DistinctByAt(r, StagedId, m, j); }
      }
      FindUnique(r, StagedIs(k), m);
    } else {
      forall j | 0 <= j < |r| ensures !StagedIs(k)(r[j]) {
        assert r[j] in s;
      }
    }
  }

  /** With unique keys, removing the first line's id removes exactly the first line. */
  lemma RemoveFirstStaged(s: seq<StagingItem>)
    requires StagingKeysUnique(s) && s != []
    ensures RemoveFromStaging(s, s[0].itemId) == s[1..]
  {
    DistinctByTail(s, StagedId);
    forall j | 0 <= j < |s| && j != 0 ensures StagedIsNot(s[0].itemId)(s[j]) {
      assert s[j] == s[1..][j - 1];
    }
    FilterDropsOne(s, StagedIsNot(s[0].itemId), 0);
    assert s[..0] + s[1..] == s[1..];
  }

  /** Adding twice to an absent id stages the sum. */
  lemma StagingAddTwice(s: seq<StagingItem>, id: string, a: int, b: int)
    requires StagingKeysUnique(s) && StagedQuantity(s, id) == None
    ensures StagedQuantity(AddToStaging(AddToStaging(s, id, a), id, b), id) == Some(a + b)
  {
    AddToStagingUnique(s, id, a);
    AddToStagingQuantity(s, id, a);
    AddToStagingQuantity(AddToStaging(s, id, a), id, b);
  }

  /** Removing and then adding stages exactly the new quantity. */
  lemma StagingRemoveThenAdd(s: seq<StagingItem>, id: string, b: int)
    requires StagingKeysUnique(s)
    ensures StagedQuantity(AddToStaging(RemoveFromStaging(s, id), id, b), id) == Some(b)
  {
    RemoveFromStagingSpec(s, id);
    AddToStagingQuantity(RemoveFromStaging(s, id), id, b);
  }

  // ================================================================ distribution

  /** The id of the `i`-th lobby copy of an item: `${itemId}-${stamp}-${i}`. */
  function LobbyId(itemId: string, stamp: string, i: nat): (r: string)
    ensures |r| > |itemId| + |stamp| + 2
    ensures r[..|itemId|] == itemId && r[|itemId|] == '-'
  {
    itemId + "-" + stamp + "-" + NatToString(i)
  }

  /** Copies made in one call differ in their index, so their ids differ. */
  lemma LobbyIdInjective(itemId: string, stamp: string, i: nat, j: nat)
    requires LobbyId(itemId, stamp, i) == LobbyId(itemId, stamp, j)
    ensures i == j
  {
    var prefix := itemId + "-" + stamp + "-";
    assert LobbyId(itemId, stamp, i) == prefix + NatToString(i);
    assert LobbyId(itemId, stamp, j) == prefix + NatToString(j);
    assert (prefix + NatToString(i))[|prefix|..] == NatToString(i);
    assert (prefix + NatToString(j))[|prefix|..] == NatToString(j);
    NatToStringInjective(i, j);
  }

  /** The lobby copies `addItemToLobby` appends for one item: `quantity` of them, none when it is not positive. */
  function Copies(item: Item, tableId: string, stamp: string, quantity: int): (r: seq<LobbyItem>)
    ensures |r| == if quantity > 0 then quantity else 0
    ensures forall x :: x in r ==> x.tableId == tableId
  {
    seq(if quantity > 0 then quantity else 0,
        i requires 0 <= i => LobbyItem(item.(id := LobbyId(item.id, stamp, i)), tableId))
  }

  /** Every copy is on the target table, is the catalog item in every field but the id,
      and no two copies share an id. */
  lemma CopiesSpec(item: Item, tableId: string, stamp: string, quantity: int)
    ensures var r := Copies(item, tableId, stamp, quantity);
      && (forall x :: x in r ==> x.tableId == tableId && x.item == item.(id := x.item.id))
      && (forall i, j :: 0 <= i < j < |r| ==> r[i].item.id != r[j].item.id)
  {
    var r := Copies(item, tableId, stamp, quantity);
    forall i, j | 0 <= i < j < |r| ensures r[i].item.id != r[j].item.id {
      if r[i].item.id == r[j].item.id {
        LobbyIdInjective(item.id, stamp, i, j);
      }
    }
  }

  /** What `addItemToLobby` appends to the lobby: copies of the catalog item, or nothing when the id is unknown. */
  function LobbyCopies(items: seq<Item>, itemId: string, quantity: int, tableId: string, stamp: string): (r: seq<LobbyItem>)
    ensures |r| == if FindItem(items, itemId).Some? && quantity > 0 then quantity else 0
    ensures forall x :: x in r ==> x.tableId == tableId
  {
    match FindItem(items, itemId)
    case None => []
    case Some(item) => Copies(item, tableId, stamp, quantity)
  }

  /** What `addItemToLobby` prepends to the log: one info line for a known item, nothing for an unknown id. */
  function LobbyLog(items: seq<Item>, itemId: string, quantity: int, tableId: string): (r: seq<LogEntry>)
    ensures |r| == if FindItem(items, itemId).Some? then 1 else 0
    ensures forall e :: e in r ==> e.kind == Info && e.tableId == tableId
  {
    match FindItem(items, itemId)
    case None => []
    case Some(item) => [LogEntry(AddedToLobby(item.name, quantity), Info, tableId)]
  }

  /** Units a staging buffer grants: the positive quantities of the lines the catalog knows. */
  function StagedUnits(items: seq<Item>, s: seq<StagingItem>): (n: nat)
  {
    if s == [] then 0
    else
      var e := s[|s| - 1];
      StagedUnits(items, s[..|s| - 1]) + (if FindItem(items, e.itemId).Some? && e.quantity > 0 then e.quantity else 0)
  }

  /** All lobby copies `distributeStagingToLobby` appends, line by line in staging order. */
  function Distribution(items: seq<Item>, s: seq<StagingItem>, tableId: string, stamp: string): (r: seq<LobbyItem>)
    ensures forall x :: x in r ==> x.tableId == tableId
  {
    if s == [] then []
    else
      var d := Distribution(items, s[..|s| - 1], tableId, stamp);
      var c := LobbyCopies(items, s[|s| - 1].itemId, s[|s| - 1].quantity, tableId, stamp);
      d + c
  }

  /** The log lines `distributeStagingToLobby` prepends, newest (last line) first:
      one info line on the target table per staging line the catalog knows. */
  function DistributionLog(items: seq<Item>, s: seq<StagingItem>, tableId: string): (r: seq<LogEntry>)
    ensures |r| <= |s|
    ensures forall e :: e in r ==> e.kind == Info && e.tableId == tableId
  {
    if s == [] then []
    else
      var last := s[|s| - 1];
      LobbyLog(items, last.itemId, last.quantity, tableId) + DistributionLog(items, s[..|s| - 1], tableId)
  }

  /** Distribution grants exactly the staged units, all on the target table, and logs one info
      line on that table per staging line the catalog knows. */
  lemma {:induction false} DistributionSpec(items: seq<Item>, s: seq<StagingItem>, tableId: string, stamp: string)
    ensures |Distribution(items, s, tableId, stamp)| == StagedUnits(items, s)
    ensures forall x :: x in Distribution(items, s, tableId, stamp) ==> x.tableId == tableId
    ensures |DistributionLog(items, s, tableId)| == Count(s, KnownTo(items))
    ensures forall x :: x in DistributionLog(items, s, tableId) ==> x.tableId == tableId && x.kind == Info
  {
    if s != [] {
      var front, last := s[..|s| - 1], s[|s| - 1];
      DistributionSpec(items, front, tableId, stamp);
      CountSnoc(s, KnownTo(items));
    }
  }

  /** Distributing one more staging line appends that line's copies and prepends its log line. */
  lemma DistributionStep(items: seq<Item>, s: seq<StagingItem>, j: int, tableId: string, stamp: string)
    requires 0 <= j < |s|
    ensures Distribution(items, s[..j + 1], tableId, stamp)
            == Distribution(items, s[..j], tableId, stamp) + LobbyCopies(items, s[j].itemId, s[j].quantity, tableId, stamp)
    ensures DistributionLog(items, s[..j + 1], tableId)
            == LobbyLog(items, s[j].itemId, s[j].quantity, tableId) + DistributionLog(items, s[..j], tableId)
  {
    assert s[..j + 1][..j] == s[..j];
  }

  /** Staging lines whose item is not in the catalog add nothing: distributing the buffer is
      distributing only its known lines. */
  lemma {:induction false} DistributionSkipsUnknown(items: seq<Item>, s: seq<StagingItem>, tableId: string, stamp: string)
    ensures Distribution(items, s, tableId, stamp) == Distribution(items, Filter(s, KnownTo(items)), tableId, stamp)
    ensures DistributionLog(items, s, tableId) == DistributionLog(items, Filter(s, KnownTo(items)), tableId)
  {
    if s != [] {
      var front, last := s[..|s| - 1], s[|s| - 1];
      assert s == front + [last];
      FilterConcat(front, [last], KnownTo(items));
      DistributionSkipsUnknown(items, front, tableId, stamp);
      var ff := Filter(front, KnownTo(items));
      if KnownTo(items)(last) {
        assert Filter([last], KnownTo(items)) == [last];
        assert (ff + [last])[..|ff|] == ff;
        assert (ff + [last])[|ff|] == last;
      } else {
        assert Filter([last], KnownTo(items)) == [];
        assert ff + [] == ff;
      }
    }
  }

  /** The scenario of staging two potions and handing them to table "1" from the initial catalog. */
  lemma DistributionExample(stamp: string)
    ensures var r := Distribution(InitialCatalog, [StagingItem("2", 2)], "1", stamp);
      |r| == 2 && forall x :: x in r ==> x.item.name == "Зелье здоровья" && x.tableId == "1"
  {
    var s := [StagingItem("2", 2)];
    PotionInInitialCatalog();
    assert s[..0] == [];
    assert LobbyCopies(InitialCatalog, "2", 2, "1", stamp) == Copies(Potion, "1", stamp, 2);
    assert Distribution(InitialCatalog, s, "1", stamp) == [] + Copies(Potion, "1", stamp, 2);
    CopiesSpec(Potion, "1", stamp, 2);
  }

  /** The same scenario writes one info line on table "1". */
  lemma DistributionLogExample()
    ensures DistributionLog(InitialCatalog, [StagingItem("2", 2)], "1") == [LogEntry(AddedToLobby("Зелье здоровья", 2), Info, "1")]
  {
    var s := [StagingItem("2", 2)];
    PotionInInitialCatalog();
    assert s[..0] == [];
  }

  lemma PotionInInitialCatalog()
    ensures FindItem(InitialCatalog, "2") == Some(Potion)
  {
    FindUnique(InitialCatalog, ItemIdIs("2"), 1);
  }

  // ================================================================ lobby

  function LobbyIdIs(id: string): LobbyItem -> bool { (x: LobbyItem) => x.item.id == id }
  function LobbyIdIsNot(id: string): LobbyItem -> bool { (x: LobbyItem) => x.item.id != id }

  /** The lobby lookup by id: the first lobby item carrying it. */
  function FindLobbyItem(lobby: seq<LobbyItem>, id: string): (r: Option<LobbyItem>)
    ensures r.Some? ==> r.value in lobby && r.value.item.id == id
    ensures r.None? <==> forall x :: x in lobby ==> x.item.id != id
  {
    Find(lobby, LobbyIdIs(id))
  }

  /** `pickupItem`'s lobby updater: drops the items with that id, keeps the rest in order. */
  function WithoutLobbyItem(lobby: seq<LobbyItem>, id: string): (r: seq<LobbyItem>)
    ensures forall x :: x in r <==> x in lobby && x.item.id != id
    ensures forall x :: multiset(r)[x] == if x.item.id != id then multiset(lobby)[x] else 0
    ensures Subsequence(r, lobby)
  {
    FilterSpec(lobby, LobbyIdIsNot(id));
    FilterMultiset(lobby, LobbyIdIsNot(id));
    Filter(lobby, LobbyIdIsNot(id))
  }

  /** When the id is carried by one lobby item only, exactly that item is removed. */
  lemma WithoutLobbyItemDropsOne(lobby: seq<LobbyItem>, i: int)
    requires 0 <= i < |lobby|
    requires forall j :: 0 <= j < |lobby| && j != i ==> lobby[j].item.id != lobby[i].item.id
    ensures WithoutLobbyItem(lobby, lobby[i].item.id) == lobby[..i] + lobby[i + 1..]
  {
    FilterDropsOne(lobby, LobbyIdIsNot(lobby[i].item.id), i);
  }

  // ================================================================ inventory

  function KeyOf(x: InventoryItem): (k: Key) { Key(x.item.id, x.userId, x.tableId) }
  function HasKey(k: Key): InventoryItem -> bool { (x: InventoryItem) => KeyOf(x) == k }

  /** One record per (item id, user, table), each holding at least one unit. */
  ghost predicate InventoryValid(inv: seq<InventoryItem>)
  {
    DistinctBy(inv, KeyOf) && forall i :: 0 <= i < |inv| ==> inv[i].quantity >= 1
  }

  /** `inventory.find` on the key of a record. */
  function HasRecord(inv: seq<InventoryItem>, k: Key): (b: bool)
    ensures b <==> exists i :: 0 <= i < |inv| && KeyOf(inv[i]) == k
  {
    Find(inv, HasKey(k)).Some?
  }

  /** Which records a unit count ranges over: one key, or one item id at one table across all users. */
  datatype Scope = OneKey(key: Key) | ItemAtTable(itemId: string, tableId: string)

  predicate InScope(k: Key, sc: Scope)
  {
    match sc
    case OneKey(key) => k == key
    case ItemAtTable(itemId, tableId) => k.itemId == itemId && k.tableId == tableId
  }

  /** The total quantity of the records in scope. */
  function Units(inv: seq<InventoryItem>, sc: Scope): (n: int)
  {
    if inv == [] then 0
    else (if InScope(KeyOf(inv[0]), sc) then inv[0].quantity else 0) + Units(inv[1..], sc)
  }

  /** What a user holds of an item at a table. */
  function Holding(inv: seq<InventoryItem>, k: Key): (n: int)
  {
    Units(inv, OneKey(k))
  }

  lemma {:induction false} UnitsConcat(a: seq<InventoryItem>, b: seq<InventoryItem>, sc: Scope)
    ensures Units(a + b, sc) == Units(a, sc) + Units(b, sc)
  {
    if a == [] {
      assert a + b == b;
    } else {
      assert (a + b)[0] == a[0] && (a + b)[1..] == a[1..] + b;
      UnitsConcat(a[1..], b, sc);
    }
  }

  /** In a valid inventory a key's holding is its record's quantity, and zero without a record;
      so a record exists exactly when the holding is at least one. */
  lemma {:induction false} HoldingOfValid(inv: seq<InventoryItem>, k: Key)
    requires InventoryValid(inv)
    ensures forall i :: 0 <= i < |inv| && KeyOf(inv[i]) == k ==> Holding(inv, k) == inv[i].quantity
    ensures !HasRecord(inv, k) ==> Holding(inv, k) == 0
    ensures HasRecord(inv, k) <==> Holding(inv, k) >= 1
  {
    if inv != [] {
      var tail := inv[1..];
      DistinctByTail(inv, KeyOf);
      assert forall i :: 0 <= i < |tail| ==> tail[i] == inv[i + 1];
      HoldingOfValid(tail, k);
      HasRecordCons(inv, k);
      if KeyOf(inv[0]) == k {
        assert !HasRecord(tail, k);
        forall i | 1 <= i < |inv| ensures KeyOf(inv[i]) != k {
          assert inv[i] == tail[i - 1];
        }
      } else {
        forall i | 1 <= i < |inv| ensures inv[i] == tail[i - 1] {}
      }
    }
  }

  /** A record exists in a non-empty inventory when the head or the tail has it. */
  lemma HasRecordCons(inv: seq<InventoryItem>, k: Key)
    requires inv != []
    ensures HasRecord(inv, k) <==> KeyOf(inv[0]) == k || HasRecord(inv[1..], k)
  {
    var tail := inv[1..];
    if HasRecord(tail, k) {
      var i :| 0 <= i < |tail| && KeyOf(tail[i]) == k;
      assert KeyOf(inv[i + 1]) == k;
    }
    if HasRecord(inv, k) && KeyOf(inv[0]) != k {
      var i :| 0 <= i < |inv| && KeyOf(inv[i]) == k;
      assert KeyOf(tail[i - 1]) == k;
    }
  }

  /** The inventory updater's `map`: the records with key `k` change quantity by `delta`. */
  function Adjust(inv: seq<InventoryItem>, k: Key, delta: int): (r: seq<InventoryItem>)
    ensures |r| == |inv|
    ensures forall i :: 0 <= i < |inv| ==>
      r[i] == if KeyOf(inv[i]) == k then inv[i].(quantity := inv[i].quantity + delta) else inv[i]
  {
    if inv == [] then []
    else
      [if KeyOf(inv[0]) == k then inv[0].(quantity := inv[0].quantity + delta) else inv[0]]
      + Adjust(inv[1..], k, delta)
  }

  /** With distinct keys, adjusting shifts the units of every scope containing `k` by `delta`,
      provided a record with key `k` exists. */
  lemma {:induction false} AdjustUnits(inv: seq<InventoryItem>, k: Key, delta: int, sc: Scope)
    requires DistinctBy(inv, KeyOf)
    ensures Units(Adjust(inv, k, delta), sc) == Units(inv, sc) + (if InScope(k, sc) && HasRecord(inv, k) then delta else 0)
  {
    if inv != [] {
      var tail := inv[1..];
      var r := Adjust(inv, k, delta);
      assert r == [r[0]] + Adjust(tail, k, delta);
      assert r[1..] == Adjust(tail, k, delta);
      DistinctByTail(inv, KeyOf);
      AdjustUnits(tail, k, delta, sc);
      HasRecordCons(inv, k);
      if KeyOf(inv[0]) == k {
        assert !HasRecord(tail, k);
      }
    }
  }

  /** The upsert shared by pickup, purchase and withdrawal: one more unit on the record
      keyed (item.id, userId, tableId), or a new record holding one unit. */
  function AddUnit(inv: seq<InventoryItem>, item: Item, userId: string, tableId: string): (r: seq<InventoryItem>)
    ensures |inv| <= |r| <= |inv| + 1
  {
    var k := Key(item.id, userId, tableId);
    if Find(inv, HasKey(k)).Some? then Adjust(inv, k, 1)
    else inv + [InventoryItem(item, userId, tableId, 1)]
  }

  /** The upsert keeps the inventory valid, adds exactly one unit to every scope containing the key
      and none elsewhere, and leaves the records of every other key as they were. */
  lemma AddUnitSpec(inv: seq<InventoryItem>, item: Item, userId: string, tableId: string)
    requires InventoryValid(inv)
    ensures var r := AddUnit(inv, item, userId, tableId);
      var k := Key(item.id, userId, tableId);
      && InventoryValid(r)
      && HasRecord(r, k)
      && (forall sc :: Units(r, sc) == Units(inv, sc) + (if InScope(k, sc) then 1 else 0))
      && (forall x :: KeyOf(x) != k ==> (x in r <==> x in inv))
  {
    var k := Key(item.id, userId, tableId);
    if HasRecord(inv, k) {
      assert AddUnit(inv, item, userId, tableId) == Adjust(inv, k, 1);
      AddUnitPresent(inv, k);
    } else {
      AddUnitAbsent(inv, item, userId, tableId);
    }
  }

  /** In particular the key's own holding grows by exactly one. */
  lemma AddUnitHolding(inv: seq<InventoryItem>, item: Item, userId: string, tableId: string)
    requires InventoryValid(inv)
    ensures InventoryValid(AddUnit(inv, item, userId, tableId))
    ensures Holding(AddUnit(inv, item, userId, tableId), Key(item.id, userId, tableId))
            == Holding(inv, Key(item.id, userId, tableId)) + 1
  {
    AddUnitSpec(inv, item, userId, tableId);
    assert InScope(Key(item.id, userId, tableId), OneKey(Key(item.id, userId, tableId)));
  }

  lemma AddUnitPresent(inv: seq<InventoryItem>, k: Key)
    requires InventoryValid(inv) && HasRecord(inv, k)
    ensures InventoryValid(Adjust(inv, k, 1))
    ensures HasRecord(Adjust(inv, k, 1), k)
    ensures forall sc :: Units(Adjust(inv, k, 1), sc) == Units(inv, sc) + (if InScope(k, sc) then 1 else 0)
    ensures forall x :: KeyOf(x) != k ==> (x in Adjust(inv, k, 1) <==> x in inv)
  {
    AdjustStaysValid(inv, k, 1);
    AdjustKeepsRecord(inv, k, 1);
    IncrementUnits(inv, k);
    AdjustShape(inv, k, 1);
  }

  /** Adding units to a key keeps every record non-empty and the keys distinct. */
  lemma AdjustStaysValid(inv: seq<InventoryItem>, k: Key, delta: int)
    requires InventoryValid(inv) && delta >= 0
    ensures InventoryValid(Adjust(inv, k, delta))
  {
    var r := Adjust(inv, k, delta);
    AdjustShape(inv, k, delta);
    forall i | 0 <= i < |r| ensures r[i].quantity >= 1 {
      assert r[i].quantity >= inv[i].quantity;
    }
  }

  /** Adjusting keeps the record of the adjusted key. */
  lemma AdjustKeepsRecord(inv: seq<InventoryItem>, k: Key, delta: int)
    requires HasRecord(inv, k)
    ensures HasRecord(Adjust(inv, k, delta), k)
  {
    var i :| 0 <= i < |inv| && KeyOf(inv[i]) == k;
    assert KeyOf(Adjust(inv, k, delta)[i]) == k;
  }

  lemma IncrementUnits(inv: seq<InventoryItem>, k: Key)
    requires InventoryValid(inv) && HasRecord(inv, k)
    ensures forall sc :: Units(Adjust(inv, k, 1), sc) == Units(inv, sc) + (if InScope(k, sc) then 1 else 0)
  {
    forall sc ensures Units(Adjust(inv, k, 1), sc) == Units(inv, sc) + (if InScope(k, sc) then 1 else 0) {
      AdjustUnits(inv, k, 1, sc);
    }
  }

  /** Adjusting keeps keys distinct and leaves the records of every other key in place. */
  lemma AdjustShape(inv: seq<InventoryItem>, k: Key, delta: int)
    ensures DistinctBy(inv, KeyOf) ==> DistinctBy(Adjust(inv, k, delta), KeyOf)
    ensures forall x :: KeyOf(x) != k ==> (x in Adjust(inv, k, delta) <==> x in inv)
  {
    var r := Adjust(inv, k, delta);
    assert forall i :: 0 <= i < |inv| ==> KeyOf(r[i]) == KeyOf(inv[i]);
    if DistinctBy(inv, KeyOf) {
      DistinctBySameKeys(inv, r, KeyOf);
    }
    forall x | KeyOf(x) != k ensures x in r <==> x in inv {
      if x in r { var j :| 0 <= j < |r| && r[j] == x; assert inv[j] == x; }
      if x in inv { var j :| 0 <= j < |inv| && inv[j] == x; assert r[j] == x; }
    }
  }

  lemma AddUnitAbsent(inv: seq<InventoryItem>, item: Item, userId: string, tableId: string)
    requires InventoryValid(inv) && !HasRecord(inv, Key(item.id, userId, tableId))
    ensures var r := AddUnit(inv, item, userId, tableId);
      var k := Key(item.id, userId, tableId);
      && r == inv + [InventoryItem(item, userId, tableId, 1)]
      && InventoryValid(r)
      && HasRecord(r, k)
      && (forall sc :: Units(r, sc) == Units(inv, sc) + (if InScope(k, sc) then 1 else 0))
  {
    var k := Key(item.id, userId, tableId);
    var e := InventoryItem(item, userId, tableId, 1);
    var r := inv + [e];
    assert r == AddUnit(inv, item, userId, tableId);
    DistinctByAppend(inv, e, KeyOf);
    assert KeyOf(r[|inv|]) == k;
    assert forall i :: 0 <= i < |inv| ==> r[i] == inv[i];
    forall sc ensures Units(r, sc) == Units(inv, sc) + (if InScope(k, sc) then 1 else 0) {
      UnitsConcat(inv, [e], sc);
      assert [e][1..] == [];
    }
  }

  /** Records that still hold something. */
  function IsStocked(x: InventoryItem): (b: bool) { x.quantity > 0 }

  /** Dropping records with no units leaves every unit count unchanged. */
  lemma {:induction false} UnitsDropEmpty(s: seq<InventoryItem>, sc: Scope)
    requires forall i :: 0 <= i < |s| ==> s[i].quantity >= 0
    ensures Units(Filter(s, IsStocked), sc) == Units(s, sc)
  {
    if s != [] {
      var tail := s[1..];
      assert forall i :: 0 <= i < |tail| ==> tail[i] == s[i + 1];
      UnitsDropEmpty(tail, sc);
      if IsStocked(s[0]) {
        var f := Filter(s, IsStocked);
        assert f[0] == s[0] && f[1..] == Filter(tail, IsStocked);
      }
    }
  }

  /** `listItemOnAuction`'s updater: one unit fewer on the key's records, then drop empty records. */
  function RemoveUnit(inv: seq<InventoryItem>, k: Key): (r: seq<InventoryItem>)
    ensures |r| <= |inv|
    ensures forall x :: x in r ==> x.quantity > 0
  {
    FilterSpec(Adjust(inv, k, -1), IsStocked);
    Filter(Adjust(inv, k, -1), IsStocked)
  }

  /** Taking one unit from a present key keeps the inventory valid, removes exactly one unit from
      every scope containing the key, and leaves the records of every other key as they were. */
  lemma RemoveUnitSpec(inv: seq<InventoryItem>, k: Key)
    requires InventoryValid(inv) && HasRecord(inv, k)
    ensures var r := RemoveUnit(inv, k);
      && InventoryValid(r)
      && (forall sc :: Units(r, sc) == Units(inv, sc) - (if InScope(k, sc) then 1 else 0))
      && (forall x :: KeyOf(x) != k ==> (x in r <==> x in inv))
  {
    RemoveUnitValid(inv, k);
    forall sc ensures Units(RemoveUnit(inv, k), sc) == Units(inv, sc) - (if InScope(k, sc) then 1 else 0) {
      RemoveUnitUnits(inv, k, sc);
    }
    RemoveUnitOthers(inv, k);
  }

  lemma RemoveUnitValid(inv: seq<InventoryItem>, k: Key)
    requires InventoryValid(inv)
    ensures InventoryValid(RemoveUnit(inv, k))
  {
    var a := Adjust(inv, k, -1);
    AdjustShape(inv, k, -1);
    FilterDistinctBy(a, IsStocked, KeyOf);
  }

  lemma RemoveUnitUnits(inv: seq<InventoryItem>, k: Key, sc: Scope)
    requires InventoryValid(inv) && HasRecord(inv, k)
    ensures Units(RemoveUnit(inv, k), sc) == Units(inv, sc) - (if InScope(k, sc) then 1 else 0)
  {
    var a := Adjust(inv, k, -1);
    forall i | 0 <= i < |a| ensures a[i].quantity >= 0 {
      assert a[i].quantity >= inv[i].quantity - 1;
    }
    AdjustUnits(inv, k, -1, sc);
    UnitsDropEmpty(a, sc);
  }

  lemma RemoveUnitOthers(inv: seq<InventoryItem>, k: Key)
    requires InventoryValid(inv)
    ensures forall x :: KeyOf(x) != k ==> (x in RemoveUnit(inv, k) <==> x in inv)
  {
    var a := Adjust(inv, k, -1);
    AdjustShape(inv, k, -1);
    FilterSpec(a, IsStocked);
    forall x | KeyOf(x) != k && x in inv ensures IsStocked(x) {
      var i :| 0 <= i < |inv| && inv[i] == x;
    }
  }

  /** Listing a unit and withdrawing it again restores every unit count of the seller's inventory. */
  lemma ListWithdrawRoundTrip(inv: seq<InventoryItem>, k: Key, item: Item)
    requires InventoryValid(inv) && HasRecord(inv, k) && item.id == k.itemId
    ensures forall sc :: Units(AddUnit(RemoveUnit(inv, k), item, k.userId, k.tableId), sc) == Units(inv, sc)
    ensures Holding(AddUnit(RemoveUnit(inv, k), item, k.userId, k.tableId), k) == Holding(inv, k)
  {
    RemoveUnitSpec(inv, k);
    AddUnitSpec(RemoveUnit(inv, k), item, k.userId, k.tableId);
  }

  /** Inventory is keyed by the lobby id: picking up two lobby copies of one catalog item
      (they carry different ids) yields two records of one unit each, not one record of two. */
  lemma TwoCopiesTwoRecords(inv: seq<InventoryItem>, a: Item, b: Item, userId: string, tableId: string)
    requires InventoryValid(inv) && a.id != b.id
    requires !HasRecord(inv, Key(a.id, userId, tableId)) && !HasRecord(inv, Key(b.id, userId, tableId))
    ensures var r := AddUnit(AddUnit(inv, a, userId, tableId), b, userId, tableId);
      Holding(r, Key(a.id, userId, tableId)) == 1 && Holding(r, Key(b.id, userId, tableId)) == 1
  {
    HoldingOfValid(inv, Key(a.id, userId, tableId));
    HoldingOfValid(inv, Key(b.id, userId, tableId));
    AddUnitSpec(inv, a, userId, tableId);
    AddUnitSpec(AddUnit(inv, a, userId, tableId), b, userId, tableId);
  }

  // ================================================================ auction

  function ListingIdOf(l: AuctionListing): string { l.id }
  function ListingIdIs(id: string): AuctionListing -> bool { (l: AuctionListing) => l.id == id }
  function ListingIdIsNot(id: string): AuctionListing -> bool { (l: AuctionListing) => l.id != id }

  /** `removeAuctionListing`'s lookup: the listing with that id, put up by that seller. */
  function SellerListing(id: string, sellerId: string): AuctionListing -> bool
  {
    (l: AuctionListing) => l.id == id && l.sellerId == sellerId
  }

  /** Listings of one item id at one table. */
  function ListedHere(itemId: string, tableId: string): AuctionListing -> bool
  {
    (l: AuctionListing) => l.item.id == itemId && l.tableId == tableId
  }

  /** Units of an item at a table that are up for sale. */
  function ListedUnits(ls: seq<AuctionListing>, itemId: string, tableId: string): (n: nat)
    ensures n <= |ls|
    ensures n == 0 <==> forall i :: 0 <= i < |ls| ==> !(ls[i].item.id == itemId && ls[i].tableId == tableId)
  {
    Count(ls, ListedHere(itemId, tableId))
  }

  /** The updater of a sale or withdrawal: drops the listings with that id, keeps the rest in order. */
  function WithoutListing(ls: seq<AuctionListing>, id: string): (r: seq<AuctionListing>)
    ensures forall l :: l in r <==> l in ls && l.id != id
    ensures forall l :: multiset(r)[l] == if l.id != id then multiset(ls)[l] else 0
    ensures Subsequence(r, ls)
  {
    FilterSpec(ls, ListingIdIsNot(id));
    FilterMultiset(ls, ListingIdIsNot(id));
    Filter(ls, ListingIdIsNot(id))
  }

  /** With unique listing ids, removing the id of the `i`-th listing removes exactly that listing:
      ids stay unique and the units listed drop by one where that listing counted. */
  lemma WithoutListingSpec(ls: seq<AuctionListing>, i: int)
    requires DistinctBy(ls, ListingIdOf) && 0 <= i < |ls|
    ensures WithoutListing(ls, ls[i].id) == ls[..i] + ls[i + 1..]
    ensures DistinctBy(WithoutListing(ls, ls[i].id), ListingIdOf)
    ensures forall itemId, t ::
              ListedUnits(WithoutListing(ls, ls[i].id), itemId, t)
              == ListedUnits(ls, itemId, t) - (if ls[i].item.id == itemId && ls[i].tableId == t then 1 else 0)
  {
    var id := ls[i].id;
    forall j | 0 <= j < |ls| && j != i ensures ListingIdIsNot(id)(ls[j]) {
      if j < i { assert ListingIdOf(ls[j]) != ListingIdOf(ls[i]); }
      else { assert ListingIdOf(ls[i]) != ListingIdOf(ls[j]); }
    }
    FilterDropsOne(ls, ListingIdIsNot(id), i);
    FilterDistinctBy(ls, ListingIdIsNot(id), ListingIdOf);
    assert ls == ls[..i] + [ls[i]] + ls[i + 1..];
    forall itemId, t ensures ListedUnits(WithoutListing(ls, id), itemId, t)
      == ListedUnits(ls, itemId, t) - (if ls[i].item.id == itemId && ls[i].tableId == t then 1 else 0)
    {
      var p := ListedHere(itemId, t);
      CountConcat(ls[..i] + [ls[i]], ls[i + 1..], p);
      CountConcat(ls[..i], [ls[i]], p);
      CountConcat(ls[..i], ls[i + 1..], p);
    }
  }

  /** Appending a listing counts it once. */
  lemma ListedUnitsAppend(ls: seq<AuctionListing>, l: AuctionListing, itemId: string, t: string)
    ensures ListedUnits(ls + [l], itemId, t) == ListedUnits(ls, itemId, t) + (if l.item.id == itemId && l.tableId == t then 1 else 0)
  {
    CountConcat(ls, [l], ListedHere(itemId, t));
    assert [l][1..] == [];
  }

  /** The units of an item at a table, held by anyone or up for sale. */
  ghost function Stock(inv: seq<InventoryItem>, ls: seq<AuctionListing>, itemId: string, t: string): int
  {
    Units(inv, ItemAtTable(itemId, t)) + ListedUnits(ls, itemId, t)
  }

  /** Listing moves one unit from the seller's record to the listings: no stock is created or lost. */
  lemma ListingConserves(inv: seq<InventoryItem>, ls: seq<AuctionListing>, k: Key, l: AuctionListing)
    requires InventoryValid(inv) && HasRecord(inv, k)
    requires l.item.id == k.itemId && l.tableId == k.tableId
    ensures forall itemId, t :: Stock(RemoveUnit(inv, k), ls + [l], itemId, t) == Stock(inv, ls, itemId, t)
  {
    RemoveUnitSpec(inv, k);
    forall itemId, t ensures Stock(RemoveUnit(inv, k), ls + [l], itemId, t) == Stock(inv, ls, itemId, t) {
      ListedUnitsAppend(ls, l, itemId, t);
    }
  }

  /** A sale or a withdrawal moves the unit of the `i`-th listing into a user's record at the
      listing's table: no stock is created or lost. */
  lemma ReturnConserves(inv: seq<InventoryItem>, ls: seq<AuctionListing>, i: int, userId: string)
    requires InventoryValid(inv) && DistinctBy(ls, ListingIdOf) && 0 <= i < |ls|
    ensures forall itemId, t ::
              Stock(AddUnit(inv, ls[i].item, userId, ls[i].tableId), WithoutListing(ls, ls[i].id), itemId, t)
              == Stock(inv, ls, itemId, t)
  {
    AddUnitSpec(inv, ls[i].item, userId, ls[i].tableId);
    WithoutListingSpec(ls, i);
  }

  // ================================================================ presence

  function UserOf(p: ActivePlayer): string { p.userId }
  function UserIs(u: string): ActivePlayer -> bool { (p: ActivePlayer) => p.userId == u }
  function UserIsNot(u: string): ActivePlayer -> bool { (p: ActivePlayer) => p.userId != u }

  /** `leaveTable`'s and `kickPlayer`'s lookup: the user's record at that table. */
  function PresentAt(u: string, t: string): ActivePlayer -> bool
  {
    (p: ActivePlayer) => p.userId == u && p.tableId == t
  }

  /** A user is at one table at most. */
  ghost predicate OnePresencePerUser(ps: seq<ActivePlayer>)
  {
    DistinctBy(ps, UserOf)
  }

  /** Removes every record of the user, at whatever table. */
  function LeavePresence(ps: seq<ActivePlayer>, u: string): (r: seq<ActivePlayer>)
    ensures forall p :: p in r <==> p in ps && p.userId != u
    ensures forall p :: multiset(r)[p] == if p.userId != u then multiset(ps)[p] else 0
    ensures Count(r, UserIs(u)) == 0
    ensures Subsequence(r, ps)
  {
    FilterSpec(ps, UserIsNot(u));
    FilterMultiset(ps, UserIsNot(u));
    Filter(ps, UserIsNot(u))
  }

  /** `joinTable`'s two updaters: drop the user's records, then append the new one. */
  function JoinPresence(ps: seq<ActivePlayer>, p: ActivePlayer): (r: seq<ActivePlayer>)
    ensures |r| >= 1 && r[|r| - 1] == p
    ensures forall x :: x in r[..|r| - 1] ==> x in ps && x.userId != p.userId
  {
    LeavePresence(ps, p.userId) + [p]
  }

  /** After joining, the user has exactly one record, the new one; everybody else's records are
      untouched; and the one-table rule is kept. */
  lemma JoinPresenceSpec(ps: seq<ActivePlayer>, p: ActivePlayer)
    ensures Count(JoinPresence(ps, p), UserIs(p.userId)) == 1
    ensures Find(JoinPresence(ps, p), UserIs(p.userId)) == Some(p)
    ensures forall x: ActivePlayer :: x.userId != p.userId ==> (x in JoinPresence(ps, p) <==> x in ps)
    ensures OnePresencePerUser(ps) ==> OnePresencePerUser(JoinPresence(ps, p))
  {
    var l := LeavePresence(ps, p.userId);
    CountConcat(l, [p], UserIs(p.userId));
    assert Count([p], UserIs(p.userId)) == 1 by { assert [p][1..] == []; }
    FindConcat(l, [p], UserIs(p.userId));
    if OnePresencePerUser(ps) {
      FilterDistinctBy(ps, UserIsNot(p.userId), UserOf);
      DistinctByAppend(l, p, UserOf);
    }
  }

  /** Leaving keeps the one-table rule. */
  lemma LeavePresenceSpec(ps: seq<ActivePlayer>, u: string)
    requires OnePresencePerUser(ps)
    ensures OnePresencePerUser(LeavePresence(ps, u))
  {
    FilterDistinctBy(ps, UserIsNot(u), UserOf);
  }

  // ================================================================ passwords

  /** `checkTablePassword`: a table without a password, or with the empty one, lets everybody in. */
  function PasswordAccepts(pw: map<string, string>, t: string, given: string): (b: bool)
    ensures t !in pw ==> b
    ensures t in pw && given == pw[t] ==> b
  {
    if t !in pw || pw[t] == "" then true else pw[t] == given
  }

  /** `getTablePassword`. */
  function StoredPassword(pw: map<string, string>, t: string): (r: Option<string>)
    ensures r.Some? <==> t in pw
  {
    if t in pw then Some(pw[t]) else None
  }

  /** After setting a table's password, that table admits exactly the holders of a non-empty one
      (and everyone when it is empty), and every other table admits as before. */
  lemma SetPasswordSpec(pw: map<string, string>, t: string, p: string, u: string, given: string)
    ensures PasswordAccepts(pw[t := p], t, given) <==> p == "" || given == p
    ensures u != t ==> PasswordAccepts(pw[t := p], u, given) == PasswordAccepts(pw, u, given)
    ensures StoredPassword(pw[t := p], t) == Some(p)
  {
  }

  /** When a table is protected, a wrong password is refused; the right one always admits. */
  lemma PasswordGate(pw: map<string, string>, t: string, given: string)
    ensures StoredPassword(pw, t).Some? && StoredPassword(pw, t).value != "" ==>
      (PasswordAccepts(pw, t, given) <==> given == StoredPassword(pw, t).value)
    ensures StoredPassword(pw, t).Some? ==> PasswordAccepts(pw, t, StoredPassword(pw, t).value)
    ensures StoredPassword(pw, t).None? ==> PasswordAccepts(pw, t, given)
  {
  }

  // ================================================================ recipes, chat, log

  function RecipeIdIsNot(id: string): CraftRecipe -> bool { (r: CraftRecipe) => r.id != id }

  /** `deleteCraftRecipe`'s updater. */
  function DeleteRecipe(rs: seq<CraftRecipe>, id: string): (r: seq<CraftRecipe>)
    ensures forall x :: x in r <==> x in rs && x.id != id
    ensures forall x :: multiset(r)[x] == if x.id != id then multiset(rs)[x] else 0
    ensures Subsequence(r, rs)
  {
    FilterSpec(rs, RecipeIdIsNot(id));
    FilterMultiset(rs, RecipeIdIsNot(id));
    Filter(rs, RecipeIdIsNot(id))
  }

  /** `tableId || ""`: a missing table id is the empty one. */
  function LogTable(tableId: Option<string>): (t: string)
    ensures tableId.Some? ==> t == tableId.value
    ensures tableId.None? ==> t == ""
  {
    match tableId
    case None => ""
    case Some(t) => t
  }
}
