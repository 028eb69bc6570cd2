/** The static catalog of games the storefront shows, and the sort key on prices. */
module Catalog {

  datatype Option<T> = None | Some(value: T)

  /** A price in whole cents; the storefront writes the string 'Free' for free games. */
  datatype Price = Free | Priced(cents: nat)

  datatype Game = Game(id: int, name: string, price: Price, image: string, genre: string)

  /** The nine games of the storefront, in catalog ("featured") order. */
  const Games: seq<Game> := [
    Game(1, "Fortnite", Free, "/fortnite.jpg", "Battle Royale"),
    Game(2, "Assassin's Creed Mirage", Priced(4999), "/ac-mirage.jpg", "Action Adventure"),
    Game(3, "Alan Wake 2", Priced(5999), "/alan-wake-2.jpg", "Horror"),
    Game(4, "Cyberpunk 2077", Priced(5999), "/cyberpunk-2077.jpg", "RPG"),
    Game(5, "Hogwarts Legacy", Priced(5999), "/hogwarts-legacy.jpg", "RPG"),
    Game(6, "Red Dead Redemption 2", Priced(5999), "/rdr2.jpg", "Action Adventure"),
    Game(7, "The Witcher 3", Priced(3999), "/witcher-3.jpg", "RPG"),
    Game(8, "Rocket League", Free, "/rocket-league.jpg", "Sports"),
    Game(9, "Fall Guys", Free, "/fall-guys.jpg", "Party")
  ]

  /** The sort comparator reads 'Free' as the number -1 (dollars), that is -100 cents. */
  const FreeSortKey: int := -100

  /** The number a price contributes to the sort comparator, in cents. */
  function SortKey(p: Price): (k: int)
    ensures k < 0 <==> p.Free?
    ensures p.Priced? ==> k == p.cents
  {
    match p
    case Free => FreeSortKey
    case Priced(c) => c
  }

  /** The catalog has nine games and no two of them share an id. */
  lemma CatalogIdsDistinct()
    ensures |Games| == 9
    ensures forall i, j :: 0 <= i < j < |Games| ==> Games[i].id != Games[j].id
  {
    assert forall i :: 0 <= i < |Games| ==> Games[i].id == i + 1;
  }
}
