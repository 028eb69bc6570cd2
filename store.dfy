/** The storefront page's state slices and the intents that replace them. */
module Store {
  import opened Catalog
  import Cart
  import Wishlist
  import Downloads
  import View
  import Sequences

  /** The signed-in user. */
  datatype User = User(name: string, email: string)

  /** A notification record; the page only ever clears the list. */
  datatype Notification = Notification(message: string)

  /** The identity every sign-in produces. */
  const CannedUser: User := User("John Doe", "john@example.com")

  class StoreState {
    var cart: seq<Cart.CartItem>
    var wishlist: seq<Game>
    var searchQuery: string
    var currentUser: Option<User>
    var notifications: seq<Notification>
    var progress: map<int, int>
    var appliedFilters: seq<string>
    var sortOrder: View.SortOrder
    var showAdultContent: bool

    /** What every intent keeps: unique cart and wishlist ids, no repeated genre, progress in [0, 100]. */
    ghost predicate Valid()
      reads this
    {
      && Cart.UniqueIds(cart)
      && Wishlist.UniqueIds(wishlist)
      && Sequences.NoDuplicates(appliedFilters)
      && Downloads.WithinBounds(progress)
    }

    /** The initial state of every slice. */
    constructor ()
      ensures Valid()
      ensures cart == [] && wishlist == [] && searchQuery == "" && currentUser == None
      ensures notifications == [] && progress == map[] && appliedFilters == []
      ensures sortOrder == View.Featured && !showAdultContent
    {
      cart := [];
      wishlist := [];
      searchQuery := "";
      currentUser := None;
      notifications := [];
      progress := map[];
      appliedFilters := [];
      sortOrder := View.Featured;
      showAdultContent := false;
    }

    /** The games the page lists, derived from the query, the genre filters and the sort order. */
    function VisibleGames(): (v: seq<Game>)
      reads this
      ensures forall g :: g in v <==> g in Games && View.Matches(g, searchQuery, appliedFilters)
      ensures View.SortedByRank(sortOrder, v)
      ensures multiset(v) == multiset(View.FilterGames(Games, searchQuery, appliedFilters))
      ensures forall k :: View.WithRank(sortOrder, v, k) == View.WithRank(sortOrder, View.FilterGames(Games, searchQuery, appliedFilters), k)
    {
      View.VisibleGamesSpec(searchQuery, appliedFilters, sortOrder);
      forall k ensures View.WithRank(sortOrder, View.VisibleGames(searchQuery, appliedFilters, sortOrder), k)
          == View.WithRank(sortOrder, View.FilterGames(Games, searchQuery, appliedFilters), k) {
        View.SortStable(sortOrder, View.FilterGames(Games, searchQuery, appliedFilters), k);
      }
      View.VisibleGames(searchQuery, appliedFilters, sortOrder)
    }

    /** The cart badge: the number of entries, which is the number of distinct games in the cart. */
    function CartBadge(): (n: nat)
      reads this
      requires Valid()
      ensures n == |Cart.Ids(cart)|
    {
      Cart.BadgeCountsDistinctGames(cart);
      |cart|
    }

    method AddToCart(g: Game)
      requires Valid()
      modifies this`cart
      ensures Valid() && cart == Cart.AddToCart(old(cart), g)
    {
      Cart.AddToCartSpec(cart, g);
      cart := Cart.AddToCart(cart, g);
    }

    method RemoveFromCart(id: int)
      requires Valid()
      modifies this`cart
      ensures Valid() && cart == Cart.RemoveFromCart(old(cart), id)
    {
      Cart.RemoveFromCartIds(cart, id);
      cart := Cart.RemoveFromCart(cart, id);
    }

    method UpdateCartItemQuantity(id: int, n: int)
      requires Valid()
      modifies this`cart
      ensures Valid() && cart == Cart.UpdateQuantity(old(cart), id, n)
    {
      Cart.UpdateQuantitySpec(cart, id, n);
      cart := Cart.UpdateQuantity(cart, id, n);
    }

    method AddToWishlist(g: Game)
      requires Valid()
      modifies this`wishlist
      ensures Valid() && wishlist == Wishlist.AddToWishlist(old(wishlist), g)
    {
      wishlist := Wishlist.AddToWishlist(wishlist, g);
    }

    method RemoveFromWishlist(id: int)
      requires Valid()
      modifies this`wishlist
      ensures Valid() && wishlist == Wishlist.RemoveFromWishlist(old(wishlist), id)
    {
      Wishlist.RemovePreservesUnique(wishlist, id);
      wishlist := Wishlist.RemoveFromWishlist(wishlist, id);
    }

    /** The search box writes the query as typed. */
    method SetSearchQuery(q: string)
      requires Valid()
      modifies this`searchQuery
      ensures Valid() && searchQuery == q
    {
      searchQuery := q;
    }

    /** Sign-in always succeeds with the canned identity. */
    method Login()
      requires Valid()
      modifies this`currentUser
      ensures Valid() && currentUser == Some(CannedUser)
    {
      currentUser := Some(CannedUser);
    }

    method Logout()
      requires Valid()
      modifies this`currentUser
      ensures Valid() && currentUser == None
    {
      currentUser := None;
    }

    method StartDownload(id: int)
      requires Valid()
      modifies this`progress
      ensures Valid() && progress == Downloads.StartDownload(old(progress), id)
    {
      progress := Downloads.StartDownload(progress, id);
    }

    /** One firing of the one-second timer. */
    method TickDownloads()
      requires Valid()
      modifies this`progress
      ensures Valid() && progress == Downloads.Ticked(old(progress))
    {
      progress := Downloads.Tick(progress);
      Downloads.TicksKeepBounds(old(progress), 1);
      assert Downloads.Ticks(old(progress), 1) == progress;
    }

    /** The adult-content checkbox flips its flag and nothing in the view depends on it. */
    method ToggleAdultContent()
      requires Valid()
      modifies this`showAdultContent
      ensures Valid() && showAdultContent == !old(showAdultContent)
      ensures VisibleGames() == old(VisibleGames())
    {
      showAdultContent := !showAdultContent;
    }

    /** A genre button of the category grid. */
    method ToggleCategory(c: string)
      requires Valid()
      modifies this`appliedFilters
      ensures Valid() && appliedFilters == View.ToggleCategory(old(appliedFilters), c)
    {
      View.ToggleKeepsNoDuplicates(appliedFilters, c);
      appliedFilters := View.ToggleCategory(appliedFilters, c);
    }

    method SetSortOrder(order: View.SortOrder)
      requires Valid()
      modifies this`sortOrder
      ensures Valid() && sortOrder == order
    {
      sortOrder := order;
    }

    /** The bell button empties the notification list. */
    method ClearNotifications()
      requires Valid()
      modifies this`notifications
      ensures Valid() && notifications == []
    {
      notifications := [];
    }
  }

  /** A client of the intents: what a caller can conclude from their contracts alone. */
  method IntentScenario(g: Game)
  {
    var s := new StoreState();
    assert s.currentUser == None;
    s.Login();
    assert s.currentUser == Some(CannedUser);
    s.Logout();
    assert s.currentUser == None;

    s.AddToCart(g);
    s.AddToCart(g);
    Cart.AddSameGameTwice(g);
    assert s.cart == [Cart.CartItem(g, 2)];

    s.ToggleCategory("RPG");
    s.ToggleCategory("RPG");
    View.ToggleTwiceFromAbsent([], "RPG");
    assert s.appliedFilters == [];

    s.StartDownload(g.id);
    s.TickDownloads();
    assert s.progress[g.id] == 1;
  }
}
