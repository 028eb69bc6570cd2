/** The shopping cart: a sequence of (game, quantity) entries, at most one per game id. */
module Cart {
  import opened Catalog
  import opened Sequences

  datatype CartItem = CartItem(game: Game, quantity: int)

  /** Some entry of the cart is for game `id`. */
  predicate HasId(cart: seq<CartItem>, id: int)
  {
    exists i :: 0 <= i < |cart| && cart[i].game.id == id
  }

  /** No two entries of the cart are for the same game id. */
  predicate UniqueIds(cart: seq<CartItem>)
  {
    DistinctKeys(cart, (x: CartItem) => x.game.id)
  }

  /** The ids of the games in the cart. */
  function Ids(cart: seq<CartItem>): set<int>
  {
    set i | 0 <= i < |cart| :: cart[i].game.id
  }

  /** addToCart: bump the quantity of the entry for the game, or append a new entry of quantity 1. */
  function AddToCart(cart: seq<CartItem>, g: Game): seq<CartItem>
  {
    if HasId(cart, g.id) then
      seq(|cart|, i requires 0 <= i < |cart| =>
        if cart[i].game.id == g.id then CartItem(cart[i].game, cart[i].quantity + 1) else cart[i])
    else
      cart + [CartItem(g, 1)]
  }

  /** removeFromCart: drop every entry for game `id`. */
  function RemoveFromCart(cart: seq<CartItem>, id: int): (r: seq<CartItem>)
    ensures forall i :: 0 <= i < |r| ==> r[i].game.id != id
    ensures IsSubsequence(r, cart)
    ensures forall x :: x in cart && x.game.id != id ==> x in r
    ensures !HasId(cart, id) ==> r == cart
  {
    if cart == [] then []
    else if cart[0].game.id == id then RemoveFromCart(cart[1..], id)
    else
      var rest := RemoveFromCart(cart[1..], id);
      SubsequenceCons(cart[0], rest, cart[1..]);
      assert [cart[0]] + cart[1..] == cart;
      assert forall x :: x in cart ==> x == cart[0] || x in cart[1..];
      assert !HasId(cart, id) ==> !HasId(cart[1..], id) by {
        if HasId(cart[1..], id) {
          var i :| 0 <= i < |cart[1..]| && cart[1..][i].game.id == id;
          assert cart[i + 1].game.id == id;
        }
      }
      [cart[0]] + rest
  }

  /** Every entry for another game keeps all of its occurrences. */
  lemma {:induction false} RemoveFromCartCounts(cart: seq<CartItem>, id: int)
    ensures forall x :: multiset(RemoveFromCart(cart, id))[x] == if x.game.id == id then 0 else multiset(cart)[x]
  {
    if cart != [] {
      RemoveFromCartCounts(cart[1..], id);
      assert cart == [cart[0]] + cart[1..];
    }
  }

  /** updateCartItemQuantity: set the quantity of the entry for game `id` to exactly `n`. */
  function UpdateQuantity(cart: seq<CartItem>, id: int, n: int): seq<CartItem>
  {
    seq(|cart|, i requires 0 <= i < |cart| =>
      if cart[i].game.id == id then CartItem(cart[i].game, n) else cart[i])
  }

  /** The cart total, summed left to right as the storefront does; a 'Free' price makes it NaN (None). */
  function Total(cart: seq<CartItem>): (r: Option<int>)
    ensures r.None? <==> exists i :: 0 <= i < |cart| && cart[i].game.price.Free?
  {
    if cart == [] then Some(0)
    else
      var front := cart[..|cart| - 1];
      var last := cart[|cart| - 1];
      assert forall i :: 0 <= i < |front| ==> front[i] == cart[i];
      match (Total(front), last.game.price)
      case (None, _) => None
      case (_, Free) => None
      case (Some(t), Priced(c)) => Some(t + c * last.quantity)
  }

  /** The total the storefront evidently means, with a 'Free' entry contributing nothing;
      on a cart without free entries it is the displayed total. */
  function PricedTotal(cart: seq<CartItem>): (r: int)
    ensures (forall i :: 0 <= i < |cart| ==> cart[i].game.price.Priced?) ==> Total(cart) == Some(r)
  {
    if cart == [] then 0
    else
      var front := cart[..|cart| - 1];
      var last := cart[|cart| - 1];
      assert forall i :: 0 <= i < |front| ==> front[i] == cart[i];
      match last.game.price
      case Free => PricedTotal(front)
      case Priced(c) => PricedTotal(front) + c * last.quantity
  }

  /** Adding a game already in the cart bumps exactly its entry; a new game is appended. */
  lemma AddToCartSpec(cart: seq<CartItem>, g: Game)
    requires UniqueIds(cart)
    ensures var r := AddToCart(cart, g);
      && UniqueIds(r)
      && Ids(r) == Ids(cart) + {g.id}
      && (HasId(cart, g.id) ==>
            |r| == |cart|
            && exists k :: 0 <= k < |cart| && cart[k].game.id == g.id
                 && r[k] == CartItem(cart[k].game, cart[k].quantity + 1)
                 && forall i :: 0 <= i < |cart| && i != k ==> r[i] == cart[i])
      && (!HasId(cart, g.id) ==> r == cart + [CartItem(g, 1)])
  {
    var r := AddToCart(cart, g);
    if HasId(cart, g.id) {
      var k :| 0 <= k < |cart| && cart[k].game.id == g.id;
      assert forall i :: 0 <= i < |cart| && i != k ==> cart[i].game.id != g.id;
      assert Ids(r) == Ids(cart) by {
        assert forall i :: 0 <= i < |r| ==> r[i].game.id == cart[i].game.id;
      }
      assert g.id in Ids(cart);
    } else {
      assert forall i :: 0 <= i < |cart| ==> r[i] == cart[i];
      assert r[|cart|].game.id == g.id;
      assert Ids(r) == Ids(cart) + {g.id};
    }
  }

  /** Removal keeps ids unique and takes exactly `id` out of the id set. */
  lemma {:induction false} RemoveFromCartIds(cart: seq<CartItem>, id: int)
    requires UniqueIds(cart)
    ensures UniqueIds(RemoveFromCart(cart, id))
    ensures Ids(RemoveFromCart(cart, id)) == Ids(cart) - {id}
  {
    var r := RemoveFromCart(cart, id);
    SubsequenceDistinctKeys(r, cart, (x: CartItem) => x.game.id);
    assert forall x :: x in r ==> x in cart by { SubsequenceMembers(r, cart); }
    forall j | j in Ids(cart) - {id} ensures j in Ids(r) {
      var i :| 0 <= i < |cart| && cart[i].game.id == j;
      assert cart[i] in r;
    }
    forall j | j in Ids(r) ensures j in Ids(cart) - {id} {
      var i :| 0 <= i < |r| && r[i].game.id == j;
      assert r[i] in cart;
    }
  }

  /** Setting a quantity touches exactly the entries for `id`, and only their quantity. */
  lemma UpdateQuantitySpec(cart: seq<CartItem>, id: int, n: int)
    ensures var r := UpdateQuantity(cart, id, n);
      && |r| == |cart|
      && (forall i :: 0 <= i < |cart| ==> r[i].game == cart[i].game)
      && (forall i :: 0 <= i < |cart| && cart[i].game.id == id ==> r[i].quantity == n)
      && (forall i :: 0 <= i < |cart| && cart[i].game.id != id ==> r[i] == cart[i])
      && Ids(r) == Ids(cart)
      && (UniqueIds(cart) ==> UniqueIds(r))
      && (!HasId(cart, id) ==> r == cart)
  {
    var r := UpdateQuantity(cart, id, n);
    assert forall i :: 0 <= i < |r| ==> r[i].game.id == cart[i].game.id;
    assert Ids(r) == Ids(cart);
  }

  /** The cart badge shows |cart|, which is the number of distinct games in the cart. */
  lemma {:induction false} BadgeCountsDistinctGames(cart: seq<CartItem>)
    requires UniqueIds(cart)
    ensures |cart| == |Ids(cart)|
  {
    if cart != [] {
      var front := cart[..|cart| - 1];
      var id := cart[|cart| - 1].game.id;
      assert UniqueIds(front);
      BadgeCountsDistinctGames(front);
      assert Ids(cart) == Ids(front) + {id} by {
        assert forall i :: 0 <= i < |front| ==> front[i] == cart[i];
        assert forall j :: j in Ids(cart) ==> j in Ids(front) || j == id;
      }
      assert id !in Ids(front);
    }
  }

  /** Adding a priced game to a cart with a numeric total raises the total by its price
      (the entry already in the cart for that id, if any, holds this same game, as catalog ids are unique). */
  lemma {:induction false} AddPricedRaisesTotal(cart: seq<CartItem>, g: Game, t: int)
    requires UniqueIds(cart) && Total(cart) == Some(t) && g.price.Priced?
    requires forall i :: 0 <= i < |cart| && cart[i].game.id == g.id ==> cart[i].game == g
    ensures Total(AddToCart(cart, g)) == Some(t + g.price.cents)
  {
    if HasId(cart, g.id) {
      var k :| 0 <= k < |cart| && cart[k].game.id == g.id;
      AddExistingRaisesTotal(cart, g, k, t);
    } else {
      TotalAppend(cart, CartItem(g, 1), t);
    }
  }

  /** Every entry holds a game of the catalog, as every cart the storefront builds does. */
  predicate FromCatalog(cart: seq<CartItem>)
  {
    forall i :: 0 <= i < |cart| ==> cart[i].game in Games
  }

  /** Adding a catalog game keeps a cart of catalog games. */
  lemma AddToCartKeepsCatalog(cart: seq<CartItem>, g: Game)
    requires FromCatalog(cart) && g in Games
    ensures FromCatalog(AddToCart(cart, g))
  {
    if !HasId(cart, g.id) {
      var r := cart + [CartItem(g, 1)];
      assert forall i :: 0 <= i < |cart| ==> r[i] == cart[i];
    }
  }

  /** In a cart of catalog games the entry for a catalog game's id holds that game, because catalog ids
      are distinct; so adding a priced catalog game raises a numeric total by its price. */
  lemma AddCatalogGameRaisesTotal(cart: seq<CartItem>, g: Game, t: int)
    requires UniqueIds(cart) && FromCatalog(cart) && g in Games
    requires Total(cart) == Some(t) && g.price.Priced?
    ensures Total(AddToCart(cart, g)) == Some(t + g.price.cents)
  {
    CatalogIdsDistinct();
    forall i | 0 <= i < |cart| && cart[i].game.id == g.id
      ensures cart[i].game == g
    {
      var a :| 0 <= a < |Games| && Games[a] == cart[i].game;
      var b :| 0 <= b < |Games| && Games[b] == g;
      assert a == b;
    }
    AddPricedRaisesTotal(cart, g, t);
  }

  lemma {:induction false} AddExistingRaisesTotal(cart: seq<CartItem>, g: Game, k: int, t: int)
    requires UniqueIds(cart) && Total(cart) == Some(t) && g.price.Priced?
    requires 0 <= k < |cart| && cart[k].game == g
    ensures Total(AddToCart(cart, g)) == Some(t + g.price.cents)
  {
    var r := AddExisting(cart, g, k);
    TotalBumpOne(cart, r, k, t);
  }

  /** The result of adding a game whose entry sits at index `k` of a cart with unique ids. */
  lemma AddExisting(cart: seq<CartItem>, g: Game, k: int) returns (r: seq<CartItem>)
    requires UniqueIds(cart) && 0 <= k < |cart| && cart[k].game.id == g.id
    ensures r == AddToCart(cart, g) && |r| == |cart|
    ensures r[k] == CartItem(cart[k].game, cart[k].quantity + 1)
    ensures forall i :: 0 <= i < |cart| && i != k ==> r[i] == cart[i]
  {
    r := AddToCart(cart, g);
    assert HasId(cart, g.id);
  }

  /** Appending a priced entry adds its price times its quantity to a numeric total. */
  lemma TotalAppend(cart: seq<CartItem>, item: CartItem, t: int)
    requires Total(cart) == Some(t) && item.game.price.Priced?
    ensures Total(cart + [item]) == Some(t + item.game.price.cents * item.quantity)
  {
    var s := cart + [item];
    assert s[..|s| - 1] == cart;
    assert s[|s| - 1] == item;
  }

  /** Bumping the quantity of one priced entry raises the total by that entry's price. */
  lemma {:induction false} TotalBumpOne(s: seq<CartItem>, s': seq<CartItem>, k: int, t: int)
    requires 0 <= k < |s| == |s'| && Total(s) == Some(t)
    requires s[k].game.price.Priced?
    requires s'[k] == CartItem(s[k].game, s[k].quantity + 1)
    requires forall i :: 0 <= i < |s| && i != k ==> s'[i] == s[i]
    ensures Total(s') == Some(t + s[k].game.price.cents)
  {
    var n := |s|;
    var front, front' := s[..n - 1], s'[..n - 1];
    assert forall i :: 0 <= i < |front| ==> front[i] == s[i];
    if k == n - 1 {
      assert front' == front;
      var c := s[k].game.price.cents;
      var q := s[k].quantity;
      var t0 := Total(front).value;
      assert t == t0 + c * q;
      assert c * (q + 1) == c * q + c;
    } else {
      var t0 := Total(front).value;
      TotalBumpOne(front, front', k, t0);
      assert s'[n - 1] == s[n - 1];
    }
  }

  /** The cart with its free entries left out, in order. */
  function PricedEntries(cart: seq<CartItem>): (r: seq<CartItem>)
    ensures forall i :: 0 <= i < |r| ==> r[i].game.price.Priced?
    ensures forall x :: x in r <==> x in cart && x.game.price.Priced?
    ensures forall x :: multiset(r)[x] == if x.game.price.Priced? then multiset(cart)[x] else 0
  {
    if cart == [] then []
    else
      var front := cart[..|cart| - 1];
      var last := cart[|cart| - 1];
      assert forall x :: x in cart <==> x in front || x == last;
      var rest := PricedEntries(front);
      assert cart == front + [last];
      if last.game.price.Free? then rest
      else
        assert forall i :: 0 <= i < |rest| ==> (rest + [last])[i] == rest[i];
        rest + [last]
  }

  /** The corrected total is the displayed total of the cart's priced entries. */
  lemma {:induction false} PricedTotalIsTotalOfPricedEntries(cart: seq<CartItem>)
    ensures Total(PricedEntries(cart)) == Some(PricedTotal(cart))
  {
    if cart != [] {
      var front := cart[..|cart| - 1];
      var last := cart[|cart| - 1];
      PricedTotalIsTotalOfPricedEntries(front);
      if last.game.price.Priced? {
        assert PricedEntries(cart) == PricedEntries(front) + [last];
        assert PricedTotal(cart) == PricedTotal(front) + last.game.price.cents * last.quantity;
        TotalAppend(PricedEntries(front), last, PricedTotal(front));
      } else {
        assert PricedEntries(cart) == PricedEntries(front);
        assert PricedTotal(cart) == PricedTotal(front);
      }
    }
  }

  /** The corrected total of two carts placed end to end is the sum of their totals. */
  lemma {:induction false} PricedTotalConcat(a: seq<CartItem>, b: seq<CartItem>)
    ensures PricedTotal(a + b) == PricedTotal(a) + PricedTotal(b)
    decreases |b|
  {
    if b != [] {
      var s := a + b;
      var front := b[..|b| - 1];
      var last := b[|b| - 1];
      var d := if last.game.price.Free? then 0 else last.game.price.cents * last.quantity;
      assert PricedTotal(s) == PricedTotal(a + front) + d by {
        assert s[..|s| - 1] == a + front;
        assert s[|s| - 1] == last;
      }
      assert PricedTotal(b) == PricedTotal(front) + d;
      PricedTotalConcat(a, front);
    } else {
      assert a + b == a;
    }
  }

  /** The displayed total of two carts end to end is the sum of theirs, and NaN when either is NaN. */
  lemma {:induction false} TotalConcat(a: seq<CartItem>, b: seq<CartItem>)
    ensures Total(a + b) ==
      if Total(a).Some? && Total(b).Some? then Some(Total(a).value + Total(b).value) else None
    decreases |b|
  {
    if b != [] {
      var s := a + b;
      var front := b[..|b| - 1];
      assert s[..|s| - 1] == a + front;
      assert s[|s| - 1] == b[|b| - 1];
      TotalConcat(a, front);
    } else {
      assert a + b == a;
    }
  }

  /** Adding the same game twice to an empty cart gives one entry of quantity 2. */
  lemma AddSameGameTwice(g: Game)
    ensures AddToCart(AddToCart([], g), g) == [CartItem(g, 2)]
  {
    var once := AddToCart([], g);
    assert once == [CartItem(g, 1)];
    assert HasId(once, g.id) by { assert once[0].game.id == g.id; }
  }

  /** The example cart of two Fortnite and one Cyberpunk 2077 has no numeric total; Cyberpunk 2077 alone totals 59.99. */
  lemma FreeGameMakesTotalNaN(fortnite: Game, cyberpunk: Game)
    requires fortnite == Games[0] && cyberpunk == Games[3]
    ensures Total([CartItem(fortnite, 2), CartItem(cyberpunk, 1)]) == None
    ensures Total([CartItem(cyberpunk, 1)]) == Some(5999)
    ensures PricedTotal([CartItem(fortnite, 2), CartItem(cyberpunk, 1)]) == 5999
  {
    var c := [CartItem(fortnite, 2), CartItem(cyberpunk, 1)];
    assert c[0].game.price.Free?;
    var one := [CartItem(cyberpunk, 1)];
    assert one[..0] == [];
  }
}
