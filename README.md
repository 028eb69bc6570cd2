# Storefront state engine

This project models the state behind the store's landing page (`app/page.tsx`). The page keeps these slices of state:

- a cart of game entries with quantities
- a wishlist
- a per-game download progress map, advanced by a one-second timer
- a search query, a genre filter list and a sort order, from which the visible game list is derived
- the signed-in user
- an adult-content flag
- a notification list

Each intent handler writes one modelled slice; `handleLogin` also closes the login dialog, which is left out. The cart, wishlist, download and genre-filter handlers compute the new value from the previous one. The query, sort-order, user and notification setters write a typed, selected or fixed value without reading the old one.

The model is split into these modules:

- `Catalog`: the nine-game catalog, prices in cents, `Free` as its own case.
- `Sequences`: the subsequence relation and duplicate-freedom.
- `Cart`: add, remove, set quantity, the badge and the displayed total.
- `Wishlist`: add and remove, duplicate-freedom over any sequence of intents.
- `Downloads`: start, the timer tick as a loop over the map's keys, repeated ticks.
- `View`: the ASCII lower-case substring filter, the genre whitelist, the stable price sort and the genre toggle.
- `Store`: the class `StoreState`, one field per slice. Each of its methods changes only its own slice and keeps the invariant `Valid()`. It ties the new value either to the pure function of the old one or to the written value. `Valid()` means:
  - cart ids are unique
  - wishlist ids are unique
  - no genre appears twice in the filter list
  - every progress value is in [0, 100]

Four behaviours of the code are easy to misread, and the model keeps each of them as written:

- **Starting a download** always resets it to 0. It is not a no-op while a download is running. The page only offers the button for games with no progress entry (`app/page.tsx:335-339`); the handler itself has no such guard.
- **The cart total** multiplies each price by its quantity. The string `'Free'` therefore turns the total into NaN; it is not counted as 0. The model's `Total` is `None` exactly when a free game is in the cart.
- **The `priceDesc` order** is not the reverse of `priceAsc`. The sort is stable, so games with equal keys keep their catalog order under both.
- **Toggling a genre twice** gives back the same list when the genre was absent at first. When it was present, it ends up moved to the end. That changes the list unless the genre was already last; the members and the view stay the same either way.

## Model

| member | source | states |
|---|---|---|
| Catalog.SortKey | app/page.tsx:131-132 | the sort key is negative exactly for a 'Free' price (which stands for -1) and is the price itself otherwise |
| Catalog.CatalogIdsDistinct | app/page.tsx:33-43 | the catalog has nine games with pairwise distinct ids |
| Cart.AddToCart | app/page.tsx:61-71 | definition of the add-to-cart update; its properties are stated by Cart.AddToCartSpec |
| Cart.AddToCartSpec | app/page.tsx:61-71 | adding a game keeps ids unique and adds its id. If the id was present, exactly that entry's quantity goes up by one, its other fields stay, and every other entry is unchanged. Otherwise the game is appended with quantity 1 |
| Cart.AddSameGameTwice | app/page.tsx:61-71 | adding the same game twice to an empty cart gives a single entry of quantity 2 |
| Cart.RemoveFromCart | app/page.tsx:73-75 | no entry with the id remains, the result is a subsequence of the cart, every other entry is kept, and an absent id leaves the cart unchanged |
| Cart.RemoveFromCartCounts | app/page.tsx:74 | every entry for another game keeps all of its occurrences, and entries for the id lose all of theirs |
| Cart.RemoveFromCartIds | app/page.tsx:73-75 | removing keeps ids unique and the id set loses exactly that id |
| Cart.UpdateQuantity | app/page.tsx:77-83 | definition of the set-quantity update; its properties are stated by Cart.UpdateQuantitySpec |
| Cart.UpdateQuantitySpec | app/page.tsx:77-83 | setting a quantity keeps length and order, gives every entry with that id exactly the new quantity with its game unchanged, and leaves other entries alone |
| Cart.BadgeCountsDistinctGames | app/page.tsx:193-195 | with unique ids the badge, the cart's length, equals the number of distinct games in it |
| Cart.Total | app/page.tsx:488 | the total has no numeric value (NaN) exactly when some entry's price is 'Free' |
| Cart.AddPricedRaisesTotal | app/page.tsx:61-71 | adding a priced game to a cart with a numeric total raises that total by the game's price, both when it bumps an entry and when it appends one |
| Cart.AddToCartKeepsCatalog | app/page.tsx:61-71 | adding a catalog game to a cart of catalog games gives a cart of catalog games |
| Cart.AddCatalogGameRaisesTotal | app/page.tsx:33-43 | in a cart of catalog games, adding a priced catalog game raises a numeric total by its price; catalog ids being distinct discharges the same-game premise of Cart.AddPricedRaisesTotal |
| Cart.TotalBumpOne | app/page.tsx:488 | raising one priced entry's quantity by one raises the total by that entry's price |
| Cart.FreeGameMakesTotalNaN | app/page.tsx:34 | a cart holding Fortnite twice and Cyberpunk 2077 once has no numeric total, while Cyberpunk 2077 alone totals 59.99 |
| Cart.PricedTotal | app/page.tsx:488 | corrected total with 'Free' counted as 0; on a cart with no free entry it equals the displayed total |
| Cart.PricedEntries | app/page.tsx:488 | the cart with its free entries left out: every priced entry keeps all of its occurrences and every free entry loses all of them |
| Cart.PricedTotalIsTotalOfPricedEntries | app/page.tsx:488 | the corrected total is the displayed total of the cart's priced entries |
| Cart.PricedTotalConcat | app/page.tsx:488 | the corrected total of two carts placed end to end is the sum of their corrected totals |
| Cart.TotalConcat | app/page.tsx:488 | the displayed total of two carts end to end is the sum of theirs, and NaN when either of them is NaN |
| Wishlist.AddToWishlist | app/page.tsx:85-92 | an id already present leaves the wishlist unchanged; otherwise the game is appended. Uniqueness is preserved and the id is present afterwards |
| Wishlist.RemoveFromWishlist | app/page.tsx:94-96 | the id is gone, the result is a subsequence, every other game is kept, and an absent id changes nothing |
| Wishlist.RemoveFromWishlistCounts | app/page.tsx:95 | every game with another id keeps all of its occurrences, and games with the id lose all of theirs |
| Wishlist.RemovePreservesUnique | app/page.tsx:94-96 | removing keeps wishlist ids unique |
| Wishlist.NeverDuplicates | app/page.tsx:85-96 | any sequence of add and remove intents from an empty wishlist leaves no id twice |
| Downloads.StartDownload | app/page.tsx:117-119 | starting adds the id to the keys with progress 0, leaves every other entry alone and keeps progress within [0, 100] |
| Downloads.Tick | app/page.tsx:47-53 | one tick keeps the key set, raises every entry below 100 by one and leaves the others; the loop computes `Ticked` of the previous map |
| Downloads.Ticked | app/page.tsx:48-53 | one tick keeps the key set and the bounds [0, 100], and raises each entry by at most one |
| Downloads.Ticks | app/page.tsx:45-56 | n firings of the timer keep the key set; their values are stated by Downloads.TicksSpec |
| Downloads.TicksSpec | app/page.tsx:45-56 | after n ticks an entry that started at p <= 100 is at min(p + n, 100) |
| Downloads.StartThenTicks | app/page.tsx:45-56 | n ticks after a start the download is at min(n, 100) |
| Downloads.TicksKeepBounds | app/page.tsx:45-56 | ticking keeps all progress within [0, 100] and never lowers an entry |
| Downloads.RestartResets | app/page.tsx:117-119 | starting a download that has progressed changes the map: on such a download start is not a no-op |
| Downloads.StartTwiceIsStartOnce | app/page.tsx:117-119 | starting the same download twice in a row gives the same map as starting it once, with progress 0 |
| View.LowerChar | app/page.tsx:126 | lower-casing one character maps each ASCII capital to its own lower-case letter (same position in the alphabet), leaves every other character alone, and leaves no capital |
| View.Lower | app/page.tsx:126 | `toLowerCase` keeps the length, turns every ASCII capital into its own lower-case letter, changes no other character and leaves no capital |
| View.Contains | app/page.tsx:126 | substring search holds exactly when the query occurs at some position of the name |
| View.MissingCharNotContained | app/page.tsx:126 | a query with a character absent from the name never matches |
| View.Matches | app/page.tsx:126-127 | the filter predicate; what it selects is stated by View.FilterGames |
| View.FilterGames | app/page.tsx:125-128 | the filtered list is a subsequence of the catalog holding exactly the games whose lower-cased name contains the lower-cased query and whose genre is whitelisted (an empty whitelist admits every genre) |
| View.FilterGamesCounts | app/page.tsx:125-128 | a matching game keeps all of its occurrences and any other game loses all of them |
| View.FilterKeepsAllWhenUnfiltered | app/page.tsx:125-128 | an empty query with no genre filter keeps every game |
| View.FilterDependsOnMembershipOnly | app/page.tsx:127 | two filter lists with the same members filter identically |
| View.NameLacksQueryLetter | app/page.tsx:126 | a name lacking, in both cases, a lower-case letter of the query does not match it |
| View.WitcherNameMatches | app/page.tsx:40 | the query "witcher" occurs in the lower-cased name "The Witcher 3" |
| View.WitcherMatchesOnlyTheWitcher | app/page.tsx:33-43 | of the nine catalog games only The Witcher 3 matches the query "witcher" |
| View.WitcherQueryShowsOnlyTheWitcher | app/page.tsx:125-134 | with the query "witcher", no genre filter and any sort order, the visible list is exactly the one-entry list [The Witcher 3] |
| View.FilterSingleMatch | app/page.tsx:125-128 | when exactly one position matches and its game occurs once in the list, filtering gives that one-entry list |
| View.WitcherOnceInCatalog | app/page.tsx:33-43 | The Witcher 3 occurs exactly once in the catalog |
| View.Rank | app/page.tsx:131-133 | the number the comparator subtracts; the orders it gives are stated by View.SortGames, View.SortAscending and View.SortDescending |
| View.Insert | app/page.tsx:130-134 | one insertion step adds exactly the inserted game to the multiset |
| View.InsertSorted | app/page.tsx:130-134 | inserting into a list sorted by rank keeps it sorted |
| View.InsertStable | app/page.tsx:130-134 | insertion puts the new game ahead of every game of equal rank, which is what keeps the sort stable |
| View.SortGames | app/page.tsx:130-134 | the sorted list is ordered by the comparator's key and is a permutation of its input |
| View.SortStable | app/page.tsx:130-134 | games of equal key keep their relative order (the sort is stable) |
| View.SortFeaturedIsIdentity | app/page.tsx:133 | the featured order leaves the list as it is |
| View.SortAscending | app/page.tsx:131 | ascending order has non-decreasing keys and puts every free game before every priced game |
| View.SortDescending | app/page.tsx:132 | descending order has non-increasing keys and puts every priced game before every free game |
| View.DescendingIsNotReversedAscending | app/page.tsx:131-132 | two distinct games of equal price keep the same order under both price orders, so descending is not ascending reversed |
| View.VisibleGames | app/page.tsx:125-134 | the visible list: the catalog filtered, then sorted; its properties are stated by View.VisibleGamesSpec |
| View.VisibleGamesSpec | app/page.tsx:125-134 | the visible list is ordered by the chosen key, is a permutation of the filtered list, and holds exactly the matching catalog games |
| View.DefaultViewIsWholeCatalog | app/page.tsx:15-43 | in the initial state (empty query, no filter, featured) all nine games are visible in catalog order |
| View.Without | app/page.tsx:393 | removing a genre drops it, keeps the others in order, and is the identity when it is absent |
| View.WithoutCounts | app/page.tsx:393 | every category other than the removed one keeps all of its occurrences |
| View.ToggleCategory | app/page.tsx:392-394 | toggling a present genre removes it and keeps the rest; toggling an absent one appends it |
| View.ToggleKeepsNoDuplicates | app/page.tsx:392-394 | toggling never makes a genre appear twice |
| View.ToggleTwiceFromAbsent | app/page.tsx:392-394 | toggling an absent genre twice gives back the same list |
| View.ToggleTwiceFromPresent | app/page.tsx:392-394 | toggling a present genre twice moves it to the end; the members and the visible games are unchanged |
| Store.StoreState.constructor | app/page.tsx:15-31 | every slice starts empty, signed out, featured, adult content hidden |
| Store.StoreState.VisibleGames | app/page.tsx:125-134 | the list the page shows is a permutation of the filtered catalog, holding exactly the games matching the current query and genre filters. It is ordered by the current sort order, and games of equal key keep their catalog order |
| Store.StoreState.CartBadge | app/page.tsx:193-195 | the badge counts the distinct games in the cart |
| Store.StoreState.AddToCart | app/page.tsx:61-71 | the cart becomes `Cart.AddToCart` of the old cart; the invariant is kept |
| Store.StoreState.RemoveFromCart | app/page.tsx:73-75 | the cart becomes `Cart.RemoveFromCart` of the old cart; the invariant is kept |
| Store.StoreState.UpdateCartItemQuantity | app/page.tsx:77-83 | the cart becomes `Cart.UpdateQuantity` of the old cart; the invariant is kept |
| Store.StoreState.AddToWishlist | app/page.tsx:85-92 | the wishlist becomes `Wishlist.AddToWishlist` of the old one; the invariant is kept |
| Store.StoreState.RemoveFromWishlist | app/page.tsx:94-96 | the wishlist becomes `Wishlist.RemoveFromWishlist` of the old one; the invariant is kept |
| Store.StoreState.SetSearchQuery | app/page.tsx:170 | the query becomes the typed text |
| Store.StoreState.Login | app/page.tsx:103-107 | sign-in always yields the canned user John Doe, `john@example.com` |
| Store.StoreState.Logout | app/page.tsx:109-111 | sign-out clears the user |
| Store.StoreState.StartDownload | app/page.tsx:117-119 | the progress map becomes `Downloads.StartDownload` of the old one; progress stays within [0, 100] |
| Store.StoreState.TickDownloads | app/page.tsx:45-56 | one timer firing replaces the progress map by its tick; progress stays within [0, 100] |
| Store.StoreState.ToggleAdultContent | app/page.tsx:121-123 | the flag flips and the visible games are unchanged |
| Store.StoreState.ToggleCategory | app/page.tsx:392-394 | the filter list becomes `View.ToggleCategory` of the old one and stays duplicate-free |
| Store.StoreState.SetSortOrder | app/page.tsx:278 | the sort order becomes the selected one |
| Store.StoreState.ClearNotifications | app/page.tsx:227 | the notification list becomes empty |

## Left out

- The markup, styling, icons, links, and the UI-only slices: the dialogs' open flags, the menu, the currency and language pickers, the active tab and the gift recipient. They hold no logic beyond storing a value.
- `handleSearch` and `handleGift`: the first only logs the query, the second only opens a dialog.
- The timer: its scheduling and its teardown are left out. A tick is an explicit call (`Store.StoreState.TickDownloads`), and n ticks are `Downloads.Ticks`.
- Prices are whole cents, not floating-point dollars. `toFixed(2)` formatting is not modelled. The free sort key is -100 cents, the same order as -1 dollar.
- Lower-casing covers ASCII letters only. Full Unicode case mapping is not modelled.
- Notifications: the page never adds one, so only clearing is modelled.
- The adult-content flag: nothing on the page reads it apart from the checkbox, and the model proves the view ignores it.
- Cart.AddPricedRaisesTotal: requires that an entry already in the cart for the game's id holds that same game. The page copies the old entry's fields, so the price added is the stored one. For carts built from catalog games, Cart.AddCatalogGameRaisesTotal discharges that premise from the distinct catalog ids.
- The page never checks quantities: the "-" button can drive one to 0 or below, and the model allows that too (`int` quantities).

## Findings

| source | as written | input that shows it | evidently intended | confidence | as-written member | corrected member |
|---|---|---|---|---|---|---|
| app/page.tsx:488 | the total multiplies `item.price` by the quantity, and a 'Free' price is a string, so the product and the sum are NaN | a cart holding Fortnite (price 'Free') with quantity 2 and Cyberpunk 2077 with quantity 1 shows "Total: $NaN" | a free game contributes 0, so the total is 59.99 | not executed | Cart.FreeGameMakesTotalNaN | Cart.PricedTotal |
