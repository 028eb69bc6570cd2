/** The visible-games view: the catalog filtered by search query and genres, then sorted; and the genre toggle. */
module View {
  import opened Catalog
  import opened Sequences

  datatype SortOrder = Featured | PriceAsc | PriceDesc

  // ----- case-insensitive substring search (ASCII lower-casing) -----

  /** ASCII lower-casing of one character: upper-case letters map to their lower-case letter, the rest stay. */
  function LowerChar(c: char): (r: char)
    ensures !('A' <= r <= 'Z')
    ensures 'A' <= c <= 'Z' ==> 'a' <= r <= 'z' && r as int - 'a' as int == c as int - 'A' as int
    ensures !('A' <= c <= 'Z') ==> r == c
  {
    if 'A' <= c <= 'Z' then (c as int + 32) as char else c
  }

  /** toLowerCase, restricted to ASCII letters. */
  function Lower(s: string): (r: string)
    ensures |r| == |s|
    ensures forall i :: 0 <= i < |r| ==> !('A' <= r[i] <= 'Z')
    ensures forall i :: 0 <= i < |s| && !('A' <= s[i] <= 'Z') ==> r[i] == s[i]
    ensures forall i :: 0 <= i < |s| && 'A' <= s[i] <= 'Z' ==> r[i] as int - 'a' as int == s[i] as int - 'A' as int
  {
    seq(|s|, i requires 0 <= i < |s| => LowerChar(s[i]))
  }

  /** `q` occurs in `s` starting at index `i`. */
  predicate OccursAt(s: string, q: string, i: int)
  {
    0 <= i <= |s| - |q| && s[i..i + |q|] == q
  }

  /** includes: `q` occurs in `s` as a contiguous block. */
  function Contains(s: string, q: string): (r: bool)
    ensures r <==> exists i :: OccursAt(s, q, i)
    decreases |s|
  {
    if q <= s then
      assert OccursAt(s, q, 0);
      true
    else if s == [] then
      assert forall i :: !OccursAt(s, q, i);
      false
    else
      var r := Contains(s[1..], q);
      assert r ==> exists i :: OccursAt(s, q, i) by {
        if r {
          var i :| OccursAt(s[1..], q, i);
          assert s[i + 1..i + 1 + |q|] == s[1..][i..i + |q|];
          assert OccursAt(s, q, i + 1);
        }
      }
      assert (exists i :: OccursAt(s, q, i)) ==> r by {
        if exists i :: OccursAt(s, q, i) {
          assert !OccursAt(s, q, 0);
          var i :| OccursAt(s, q, i);
          assert s[1..][i - 1..i - 1 + |q|] == s[i..i + |q|];
          assert OccursAt(s[1..], q, i - 1);
        }
      }
      r
  }

  // ----- filtering -----

  /** The filter predicate: the name matches the query and the genre passes the genre filters. */
  predicate Matches(g: Game, query: string, filters: seq<string>)
  {
    Contains(Lower(g.name), Lower(query)) && (|filters| == 0 || g.genre in filters)
  }

  /** filteredGames: the games that match, in their original order. */
  function FilterGames(games: seq<Game>, query: string, filters: seq<string>): (r: seq<Game>)
    ensures IsSubsequence(r, games)
    ensures forall g :: g in r <==> g in games && Matches(g, query, filters)
  {
    if games == [] then []
    else
      var rest := FilterGames(games[1..], query, filters);
      assert [games[0]] + games[1..] == games;
      assert forall g :: g in games <==> g == games[0] || g in games[1..];
      if Matches(games[0], query, filters) then
        SubsequenceCons(games[0], rest, games[1..]);
        [games[0]] + rest
      else
        SubsequenceSkip(games[0], rest, games[1..]);
        rest
  }

  /** Every matching game keeps all of its occurrences and every other game loses all of them. */
  lemma {:induction false} FilterGamesCounts(games: seq<Game>, query: string, filters: seq<string>)
    ensures forall g ::
      multiset(FilterGames(games, query, filters))[g] == if Matches(g, query, filters) then multiset(games)[g] else 0
  {
    if games != [] {
      FilterGamesCounts(games[1..], query, filters);
      assert games == [games[0]] + games[1..];
    }
  }

  /** With an empty query and no genre filter every game is kept, in order. */
  lemma {:induction false} FilterKeepsAllWhenUnfiltered(games: seq<Game>)
    ensures FilterGames(games, "", []) == games
  {
    if games != [] {
      FilterKeepsAllWhenUnfiltered(games[1..]);
      assert Matches(games[0], "", []) by { assert "" <= Lower(games[0].name); }
      assert [games[0]] + games[1..] == games;
    }
  }

  /** The filter reads the genre list only through membership (and emptiness, which membership fixes). */
  lemma {:induction false} FilterDependsOnMembershipOnly(games: seq<Game>, query: string, f1: seq<string>, f2: seq<string>)
    requires forall c :: c in f1 <==> c in f2
    ensures FilterGames(games, query, f1) == FilterGames(games, query, f2)
  {
    assert |f1| == 0 <==> |f2| == 0 by {
      if |f1| != 0 { assert f1[0] in f2; }
      if |f2| != 0 { assert f2[0] in f1; }
    }
    if games != [] {
      FilterDependsOnMembershipOnly(games[1..], query, f1, f2);
      assert Matches(games[0], query, f1) == Matches(games[0], query, f2);
    }
  }

  // ----- stable sorting -----

  /** The number the sort comparator subtracts: a stable sort by the comparator puts smaller ranks first.
      'featured' compares every pair as equal; 'priceDesc' subtracts in the other order, negating the key. */
  function Rank(order: SortOrder, g: Game): int
  {
    match order
    case Featured => 0
    case PriceAsc => SortKey(g.price)
    case PriceDesc => -SortKey(g.price)
  }

  predicate SortedByRank(order: SortOrder, s: seq<Game>)
  {
    forall i, j :: 0 <= i < j < |s| ==> Rank(order, s[i]) <= Rank(order, s[j])
  }

  /** The games of `s` whose rank is `k`, in their order in `s`. */
  function WithRank(order: SortOrder, s: seq<Game>, k: int): seq<Game>
  {
    if s == [] then []
    else (if Rank(order, s[0]) == k then [s[0]] else []) + WithRank(order, s[1..], k)
  }

  /** Insert `x` before the first game of `s` whose rank is not smaller. */
  function Insert(order: SortOrder, x: Game, s: seq<Game>): (r: seq<Game>)
    ensures multiset(r) == multiset(s) + multiset{x}
  {
    if s == [] then [x]
    else if Rank(order, x) <= Rank(order, s[0]) then [x] + s
    else
      assert s == [s[0]] + s[1..];
      [s[0]] + Insert(order, x, s[1..])
  }

  /** Inserting into a sorted list gives a sorted list. */
  lemma {:induction false} InsertSorted(order: SortOrder, x: Game, s: seq<Game>)
    requires SortedByRank(order, s)
    ensures SortedByRank(order, Insert(order, x, s))
  {
    if s != [] && Rank(order, x) > Rank(order, s[0]) {
      var rest := Insert(order, x, s[1..]);
      InsertSorted(order, x, s[1..]);
      assert multiset(rest) == multiset(s[1..]) + multiset{x};
      forall j | 0 <= j < |rest| ensures Rank(order, s[0]) <= Rank(order, rest[j]) {
        assert rest[j] in multiset(rest);
        if rest[j] != x {
          assert rest[j] in multiset(s[1..]);
          var m :| 0 <= m < |s[1..]| && s[1..][m] == rest[j];
          assert s[m + 1] == rest[j];
        }
      }
      assert Insert(order, x, s) == [s[0]] + rest;
    }
  }

  /** sortedGames: the stable sort of `s` by the comparator of `order` (insertion sort). */
  function SortGames(order: SortOrder, s: seq<Game>): (r: seq<Game>)
    ensures SortedByRank(order, r)
    ensures multiset(r) == multiset(s)
  {
    if s == [] then []
    else
      assert s == [s[0]] + s[1..];
      var rest := SortGames(order, s[1..]);
      InsertSorted(order, s[0], rest);
      Insert(order, s[0], rest)
  }

  /** Inserting `x` puts it ahead of every game of the same rank. */
  lemma {:induction false} InsertStable(order: SortOrder, x: Game, s: seq<Game>, k: int)
    ensures WithRank(order, Insert(order, x, s), k) ==
      (if Rank(order, x) == k then [x] else []) + WithRank(order, s, k)
  {
    if s != [] && Rank(order, x) > Rank(order, s[0]) {
      var rest := Insert(order, x, s[1..]);
      InsertStable(order, x, s[1..], k);
      assert Insert(order, x, s) == [s[0]] + rest;
      WithRankCons(order, s[0], rest, k);
      WithRankCons(order, s[0], s[1..], k);
      assert [s[0]] + s[1..] == s;
      var tail := WithRank(order, s[1..], k);
      var xs: seq<Game> := if Rank(order, x) == k then [x] else [];
      var hs: seq<Game> := if Rank(order, s[0]) == k then [s[0]] else [];
      assert WithRank(order, rest, k) == xs + tail;
      assert WithRank(order, [s[0]] + rest, k) == hs + (xs + tail);
      assert WithRank(order, s, k) == hs + tail;
      assert hs == [] || xs == [];
      SwapEmptyPrefix(hs, xs, tail);
    } else if s != [] {
      WithRankCons(order, x, s, k);
    }
  }

  /** Two prefixes of which one is empty can be swapped. */
  lemma SwapEmptyPrefix<T>(a: seq<T>, b: seq<T>, tail: seq<T>)
    requires a == [] || b == []
    ensures a + (b + tail) == b + (a + tail)
  {
    if a == [] {
      assert a + (b + tail) == b + tail;
      assert a + tail == tail;
    } else {
      assert b + tail == tail;
      assert b + (a + tail) == a + tail;
    }
  }

  lemma WithRankCons(order: SortOrder, x: Game, s: seq<Game>, k: int)
    ensures WithRank(order, [x] + s, k) == (if Rank(order, x) == k then [x] else []) + WithRank(order, s, k)
  {
    assert ([x] + s)[0] == x;
    assert ([x] + s)[1..] == s;
  }

  /** The sort is stable: the games of any one rank keep their relative order. */
  lemma {:induction false} SortStable(order: SortOrder, s: seq<Game>, k: int)
    ensures WithRank(order, SortGames(order, s), k) == WithRank(order, s, k)
  {
    if s != [] {
      SortStable(order, s[1..], k);
      InsertStable(order, s[0], SortGames(order, s[1..]), k);
    }
  }

  /** 'featured' leaves the filtered list as it is. */
  lemma {:induction false} SortFeaturedIsIdentity(s: seq<Game>)
    ensures SortGames(Featured, s) == s
  {
    if s != [] {
      SortFeaturedIsIdentity(s[1..]);
      assert [s[0]] + s[1..] == s;
    }
  }

  /** 'priceAsc' is non-decreasing in price and puts every free game before every priced game. */
  lemma SortAscending(s: seq<Game>)
    ensures var r := SortGames(PriceAsc, s);
      && (forall i, j :: 0 <= i < j < |r| ==> SortKey(r[i].price) <= SortKey(r[j].price))
      && (forall i, j :: 0 <= i < |r| && 0 <= j < |r| && r[i].price.Free? && r[j].price.Priced? ==> i < j)
  {
    var r := SortGames(PriceAsc, s);
    assert forall i, j :: 0 <= i < j < |r| ==> Rank(PriceAsc, r[i]) <= Rank(PriceAsc, r[j]);
  }

  /** 'priceDesc' is non-increasing in price and puts every free game after every priced game. */
  lemma SortDescending(s: seq<Game>)
    ensures var r := SortGames(PriceDesc, s);
      && (forall i, j :: 0 <= i < j < |r| ==> SortKey(r[i].price) >= SortKey(r[j].price))
      && (forall i, j :: 0 <= i < |r| && 0 <= j < |r| && r[i].price.Priced? && r[j].price.Free? ==> i < j)
  {
    var r := SortGames(PriceDesc, s);
    assert forall i, j :: 0 <= i < j < |r| ==> Rank(PriceDesc, r[i]) <= Rank(PriceDesc, r[j]);
  }

  /** Two games of equal price keep their order under both price sorts, so 'priceDesc' is not the reverse of 'priceAsc'. */
  lemma DescendingIsNotReversedAscending(a: Game, b: Game)
    requires a != b && a.price == b.price
    ensures SortGames(PriceAsc, [a, b]) == [a, b]
    ensures SortGames(PriceDesc, [a, b]) == [a, b]
  {
    assert [a, b][1..] == [b];
    assert SortGames(PriceAsc, [b]) == [b];
    assert SortGames(PriceDesc, [b]) == [b];
  }

  /** visibleGames: filter the catalog, then sort. */
  function VisibleGames(query: string, filters: seq<string>, order: SortOrder): seq<Game>
  {
    SortGames(order, FilterGames(Games, query, filters))
  }

  /** The view is exactly the matching catalog games, each once, in the order `order` asks for. */
  lemma VisibleGamesSpec(query: string, filters: seq<string>, order: SortOrder)
    ensures var v := VisibleGames(query, filters, order);
      && multiset(v) == multiset(FilterGames(Games, query, filters))
      && (forall g :: g in v <==> g in Games && Matches(g, query, filters))
      && SortedByRank(order, v)
      && (order == Featured ==> v == FilterGames(Games, query, filters))
  {
    var f := FilterGames(Games, query, filters);
    var v := VisibleGames(query, filters, order);
    assert forall g :: g in v <==> g in multiset(v);
    assert forall g :: g in f <==> g in multiset(f);
    if order == Featured { SortFeaturedIsIdentity(f); }
  }

  /** With no query, no genre filter and 'featured', all nine catalog games are shown in catalog order. */
  lemma DefaultViewIsWholeCatalog()
    ensures VisibleGames("", [], Featured) == Games
    ensures |VisibleGames("", [], Featured)| == 9
  {
    UnfilteredFeatured(Games);
  }

  lemma UnfilteredFeatured(games: seq<Game>)
    ensures SortGames(Featured, FilterGames(games, "", [])) == games
  {
    FilterKeepsAllWhenUnfiltered(games);
    SortFeaturedIsIdentity(games);
  }

  /** A query holding a character the text lacks does not occur in it. */
  lemma MissingCharNotContained(s: string, q: string, j: int)
    requires 0 <= j < |q| && q[j] !in s
    ensures !Contains(s, q)
  {
    forall i | 0 <= i <= |s| - |q| ensures !OccursAt(s, q, i) {
      assert s[i + j] in s;
      assert s[i..i + |q|][j] == s[i + j];
    }
  }

  /** A name lacking, in either case, a lower-case letter of the query does not match the query. */
  lemma NameLacksQueryLetter(name: string, query: string, j: int)
    requires 0 <= j < |query| && 'a' <= query[j] <= 'z'
    requires query[j] !in name && (query[j] as int - 32) as char !in name
    ensures !Contains(Lower(name), Lower(query))
  {
    forall i | 0 <= i < |name| ensures Lower(name)[i] != query[j] {
      assert name[i] != query[j];
    }
    assert Lower(query)[j] == query[j];
    MissingCharNotContained(Lower(name), Lower(query), j);
  }

  /** The query "witcher" matches the name "The Witcher 3". */
  lemma WitcherNameMatches(name: string)
    requires name == "The Witcher 3"
    ensures Contains(Lower(name), Lower("witcher"))
  {
    var s := Lower(name);
    var q := Lower("witcher");
    assert s[4..11] == q by {
      assert s[4] == q[0] == 'w';
      assert s[5] == q[1] == 'i';
      assert s[6] == q[2] == 't';
      assert s[7] == q[3] == 'c';
      assert s[8] == q[4] == 'h';
      assert s[9] == q[5] == 'e';
      assert s[10] == q[6] == 'r';
    }
    assert OccursAt(s, q, 4);
  }

  /** Fortnite and Assassin's Creed Mirage lack 'w' or 'i' in both cases, so "witcher" matches neither. */
  lemma WitcherAbsentFromGames0And1(a: string, b: string)
    requires a == "Fortnite" && b == "Assassin's Creed Mirage"
    ensures !Contains(Lower(a), Lower("witcher")) && !Contains(Lower(b), Lower("witcher"))
  {
    NameLacksQueryLetter(a, "witcher", 0);
    NameLacksQueryLetter(b, "witcher", 0);
  }

  /** Alan Wake 2 and Cyberpunk 2077 lack 'w' or 'i' in both cases, so "witcher" matches neither. */
  lemma WitcherAbsentFromGames2And3(a: string, b: string)
    requires a == "Alan Wake 2" && b == "Cyberpunk 2077"
    ensures !Contains(Lower(a), Lower("witcher")) && !Contains(Lower(b), Lower("witcher"))
  {
    NameLacksQueryLetter(a, "witcher", 1);
    NameLacksQueryLetter(b, "witcher", 0);
  }

  /** Hogwarts Legacy and Red Dead Redemption 2 lack 'w' or 'i' in both cases, so "witcher" matches neither. */
  lemma WitcherAbsentFromGames4And5(a: string, b: string)
    requires a == "Hogwarts Legacy" && b == "Red Dead Redemption 2"
    ensures !Contains(Lower(a), Lower("witcher")) && !Contains(Lower(b), Lower("witcher"))
  {
    NameLacksQueryLetter(a, "witcher", 1);
    NameLacksQueryLetter(b, "witcher", 0);
  }

  /** Rocket League and Fall Guys lack 'w' or 'i' in both cases, so "witcher" matches neither. */
  lemma WitcherAbsentFromGames7And8(a: string, b: string)
    requires a == "Rocket League" && b == "Fall Guys"
    ensures !Contains(Lower(a), Lower("witcher")) && !Contains(Lower(b), Lower("witcher"))
  {
    NameLacksQueryLetter(a, "witcher", 0);
    NameLacksQueryLetter(b, "witcher", 0);
  }

  /** Of the nine catalog games only The Witcher 3 matches the query "witcher". */
  lemma WitcherMatchesOnlyTheWitcher(i: int)
    requires 0 <= i < |Games|
    ensures Matches(Games[i], "witcher", []) <==> i == 6
  {
    if i < 2 { WitcherAbsentFromGames0And1(Games[0].name, Games[1].name); }
    else if i < 4 { WitcherAbsentFromGames2And3(Games[2].name, Games[3].name); }
    else if i < 6 { WitcherAbsentFromGames4And5(Games[4].name, Games[5].name); }
    else if i == 6 { WitcherNameMatches(Games[6].name); }
    else { WitcherAbsentFromGames7And8(Games[7].name, Games[8].name); }
  }

  /** The Witcher 3 occurs once in the catalog. */
  lemma WitcherOnceInCatalog()
    ensures multiset(Games)[Games[6]] == 1
  {
    CatalogIdsDistinct();
    assert Games == Games[..6] + [Games[6]] + Games[7..];
    assert Games[6] !in Games[..6] && Games[6] !in Games[7..];
  }

  /** A list whose multiset is a single element is that one-element list. */
  lemma SingletonList<T>(v: seq<T>, x: T)
    requires multiset(v) == multiset{x}
    ensures v == [x]
  {
    assert |v| == |multiset(v)| == 1;
    assert v[0] in multiset(v);
  }

  /** When exactly one position of a list matches and its game occurs once, the filter keeps only that game. */
  lemma FilterSingleMatch(games: seq<Game>, query: string, filters: seq<string>, k: int)
    requires 0 <= k < |games| && multiset(games)[games[k]] == 1
    requires forall i :: 0 <= i < |games| ==> (Matches(games[i], query, filters) <==> i == k)
    ensures FilterGames(games, query, filters) == [games[k]]
  {
    var r := FilterGames(games, query, filters);
    FilterGamesCounts(games, query, filters);
    forall g ensures multiset(r)[g] == multiset{games[k]}[g] {
      if g in games {
        var i :| 0 <= i < |games| && games[i] == g;
      }
    }
    assert multiset(r) == multiset{games[k]};
    SingletonList(r, games[k]);
  }

  /** Searching for "witcher" shows exactly the one-entry list [The Witcher 3], whatever the sort order. */
  lemma WitcherQueryShowsOnlyTheWitcher(order: SortOrder)
    ensures VisibleGames("witcher", [], order) == [Games[6]]
  {
    forall i | 0 <= i < |Games| ensures Matches(Games[i], "witcher", []) <==> i == 6 {
      WitcherMatchesOnlyTheWitcher(i);
    }
    WitcherOnceInCatalog();
    FilterSingleMatch(Games, "witcher", [], 6);
    VisibleGamesSpec("witcher", [], order);
    SingletonList(VisibleGames("witcher", [], order), Games[6]);
  }

  // ----- genre filter toggle -----

  /** The list without any occurrence of `c`. */
  function Without(f: seq<string>, c: string): (r: seq<string>)
    ensures c !in r
    ensures IsSubsequence(r, f)
    ensures forall x :: x in r <==> x in f && x != c
    ensures c !in f ==> r == f
  {
    if f == [] then []
    else
      var rest := Without(f[1..], c);
      assert [f[0]] + f[1..] == f;
      assert forall x :: x in f <==> x == f[0] || x in f[1..];
      if f[0] == c then
        SubsequenceSkip(f[0], rest, f[1..]);
        rest
      else
        SubsequenceCons(f[0], rest, f[1..]);
        [f[0]] + rest
  }

  /** Every category other than `c` keeps all of its occurrences. */
  lemma {:induction false} WithoutCounts(f: seq<string>, c: string)
    ensures forall x :: multiset(Without(f, c))[x] == if x == c then 0 else multiset(f)[x]
  {
    if f != [] {
      WithoutCounts(f[1..], c);
      assert f == [f[0]] + f[1..];
    }
  }

  /** The category button: remove the category if applied, append it otherwise. */
  function ToggleCategory(f: seq<string>, c: string): (r: seq<string>)
    ensures c in f ==> c !in r && IsSubsequence(r, f) && forall x :: x in f && x != c ==> x in r
    ensures c !in f ==> r == f + [c]
  {
    if c in f then Without(f, c) else f + [c]
  }

  /** Toggling never introduces a duplicate category. */
  lemma ToggleKeepsNoDuplicates(f: seq<string>, c: string)
    requires NoDuplicates(f)
    ensures NoDuplicates(ToggleCategory(f, c))
  {
    if c in f {
      SubsequenceDistinctKeys(Without(f, c), f, (x: string) => x);
    } else {
      var r := f + [c];
      assert forall i :: 0 <= i < |f| ==> r[i] == f[i] && r[i] in f;
    }
  }

  /** Toggling an absent category twice restores the list. */
  lemma ToggleTwiceFromAbsent(f: seq<string>, c: string)
    requires c !in f
    ensures ToggleCategory(ToggleCategory(f, c), c) == f
  {
    var g := f + [c];
    assert c in g;
    WithoutLast(f, c);
  }

  lemma {:induction false} WithoutLast(f: seq<string>, c: string)
    requires c !in f
    ensures Without(f + [c], c) == f
  {
    if f == [] {
      assert [c][1..] == [];
    } else {
      assert (f + [c])[1..] == f[1..] + [c];
      WithoutLast(f[1..], c);
      assert [f[0]] + f[1..] == f;
    }
  }

  /** Toggling an applied category twice moves it to the end: the same categories, so the same view. */
  lemma ToggleTwiceFromPresent(f: seq<string>, c: string, query: string, order: SortOrder)
    requires c in f
    ensures ToggleCategory(ToggleCategory(f, c), c) == Without(f, c) + [c]
    ensures forall x :: x in ToggleCategory(ToggleCategory(f, c), c) <==> x in f
    ensures VisibleGames(query, ToggleCategory(ToggleCategory(f, c), c), order) == VisibleGames(query, f, order)
  {
    var t := ToggleCategory(ToggleCategory(f, c), c);
    assert t == Without(f, c) + [c];
    assert forall x :: x in t <==> x in f;
    FilterDependsOnMembershipOnly(Games, query, t, f);
  }
}
