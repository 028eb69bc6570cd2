/** The wishlist: a sequence of games in which no id occurs twice. */
module Wishlist {
  import opened Catalog
  import opened Sequences

  /** Some game of the wishlist has id `id`. */
  predicate HasId(w: seq<Game>, id: int)
  {
    exists i :: 0 <= i < |w| && w[i].id == id
  }

  /** No two games of the wishlist share an id. */
  predicate UniqueIds(w: seq<Game>)
  {
    DistinctKeys(w, (g: Game) => g.id)
  }

  /** addToWishlist: append the game unless a game with its id is already listed. */
  function AddToWishlist(w: seq<Game>, g: Game): (r: seq<Game>)
    ensures HasId(w, g.id) ==> r == w
    ensures !HasId(w, g.id) ==> r == w + [g]
    ensures UniqueIds(w) ==> UniqueIds(r)
    ensures HasId(r, g.id)
  {
    if HasId(w, g.id) then w
    else
      assert (w + [g])[|w|] == g;
      w + [g]
  }

  /** removeFromWishlist: drop every game with id `id`. */
  function RemoveFromWishlist(w: seq<Game>, id: int): (r: seq<Game>)
    ensures !HasId(r, id)
    ensures IsSubsequence(r, w)
    ensures forall x :: x in w && x.id != id ==> x in r
    ensures !HasId(w, id) ==> r == w
  {
    if w == [] then []
    else if w[0].id == id then RemoveFromWishlist(w[1..], id)
    else
      var rest := RemoveFromWishlist(w[1..], id);
      SubsequenceCons(w[0], rest, w[1..]);
      assert [w[0]] + w[1..] == w;
      assert forall x :: x in w ==> x == w[0] || x in w[1..];
      assert !HasId(w, id) ==> !HasId(w[1..], id) by {
        if HasId(w[1..], id) {
          var i :| 0 <= i < |w[1..]| && w[1..][i].id == id;
          assert w[i + 1].id == id;
        }
      }
      assert !HasId([w[0]] + rest, id) by {
        forall i | 0 <= i < |[w[0]] + rest| ensures ([w[0]] + rest)[i].id != id {
          if i > 0 { assert ([w[0]] + rest)[i] == rest[i - 1]; }
        }
      }
      [w[0]] + rest
  }

  /** Every game with another id keeps all of its occurrences. */
  lemma {:induction false} RemoveFromWishlistCounts(w: seq<Game>, id: int)
    ensures forall x :: multiset(RemoveFromWishlist(w, id))[x] == if x.id == id then 0 else multiset(w)[x]
  {
    if w != [] {
      RemoveFromWishlistCounts(w[1..], id);
      assert w == [w[0]] + w[1..];
    }
  }

  /** Removal keeps the ids of the wishlist unique. */
  lemma RemovePreservesUnique(w: seq<Game>, id: int)
    requires UniqueIds(w)
    ensures UniqueIds(RemoveFromWishlist(w, id))
  {
    SubsequenceDistinctKeys(RemoveFromWishlist(w, id), w, (g: Game) => g.id);
  }

  /** One wishlist intent raised by the storefront. */
  datatype Intent = Add(game: Game) | Remove(id: int)

  /** The wishlist after applying `intents` in order, starting from `w`. */
  function Apply(w: seq<Game>, intents: seq<Intent>): seq<Game>
    decreases |intents|
  {
    if intents == [] then w
    else
      var next := match intents[0]
        case Add(g) => AddToWishlist(w, g)
        case Remove(id) => RemoveFromWishlist(w, id);
      Apply(next, intents[1..])
  }

  /** No sequence of adds and removes, from the empty wishlist, lists two games with the same id. */
  lemma NeverDuplicates(intents: seq<Intent>)
    ensures UniqueIds(Apply([], intents))
  {
    ApplyPreservesUnique([], intents);
  }

  lemma {:induction false} ApplyPreservesUnique(w: seq<Game>, intents: seq<Intent>)
    requires UniqueIds(w)
    ensures UniqueIds(Apply(w, intents))
    decreases |intents|
  {
    if intents != [] {
      match intents[0]
      case Add(g) =>
        ApplyPreservesUnique(AddToWishlist(w, g), intents[1..]);
      case Remove(id) =>
        RemovePreservesUnique(w, id);
        ApplyPreservesUnique(RemoveFromWishlist(w, id), intents[1..]);
    }
  }
}
