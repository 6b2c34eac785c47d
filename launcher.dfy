/** The client's list computations: the recently-played list, the catalogue search
    with its category filter, and the list of categories offered as filter buttons. */
module Launcher {
  import opened Wrappers
  import opened Seqs

  datatype Game = Game(id: string, title: string, description: string, thumbnail: string,
                       iframeUrl: string, category: string)

  /** The static catalogue the client ships with. */
  const Catalogue: seq<Game> := [
    Game("asdd", "AS-DD", "A mysterious data-stream challenge from the deep web.",
         "https://picsum.photos/seed/asdd/400/225",
         "https://html-classic.itch.zone/html/15867499/asdd/index.html", "Action"),
    Game("compass", "Compass", "A high-security navigation protocol recovered from a forgotten server.",
         "https://picsum.photos/seed/compass/400/225",
         "https://harshulmoon.github.io/FNAE-HTML5-1.2.3/index.html", "Arcade")
  ]

  // ---------------------------------------------------------------------------
  // Recently played games

  /** How many games the recent list remembers. */
  const MaxRecent := 5

  /** Every entry other than `gameId`. */
  function Other(gameId: string): string -> bool {
    id => id != gameId
  }

  /** `[gameId, ...recent.filter(id => id !== gameId)].slice(0, 5)`. */
  function SaveToRecent(recent: seq<string>, gameId: string): (r: seq<string>)
    ensures 1 <= |r| <= MaxRecent
    ensures |r| == Min(MaxRecent, 1 + |Filter(recent, Other(gameId))|)
    ensures r[0] == gameId && gameId !in r[1..]
    ensures r[1..] == Filter(recent, Other(gameId))[..|r| - 1]
    ensures IsSubsequence(r[1..], recent)
  {
    var kept := Filter(recent, Other(gameId));
    var moved := [gameId] + kept;
    var r := moved[..Min(MaxRecent, |moved|)];
    assert r[1..] == kept[..|r| - 1];
    assert gameId !in r[1..] by {
      forall k | 0 <= k < |r| - 1 ensures r[1..][k] != gameId {
        assert r[1..][k] == kept[k] && kept[k] in kept;
      }
    }
    PrefixIsSubsequence(kept, |r| - 1);
    SubsequenceTrans(r[1..], kept, recent);
    r
  }

  /** Saving the same game twice in a row is the same as saving it once. */
  lemma SaveToRecentIdempotent(recent: seq<string>, gameId: string)
    ensures SaveToRecent(SaveToRecent(recent, gameId), gameId) == SaveToRecent(recent, gameId)
  {
    var once := SaveToRecent(recent, gameId);
    var rest := once[1..];
    assert once == [gameId] + rest;
    FilterConcat([gameId], rest, Other(gameId));
    assert Filter([gameId], Other(gameId)) == [] by {
      assert [gameId][..0] == [];
      assert !Other(gameId)(gameId);
    }
    FilterKeepsAll(rest, Other(gameId));
    assert Filter(once, Other(gameId)) == rest;
    var moved := [gameId] + rest;
    assert moved == once;
    assert |once| <= MaxRecent;
    assert moved[..Min(MaxRecent, |moved|)] == once;
  }

  /** A recent list without duplicates stays without duplicates. */
  lemma SaveToRecentNoDuplicates(recent: seq<string>, gameId: string)
    requires NoDuplicates(recent)
    ensures NoDuplicates(SaveToRecent(recent, gameId))
  {
    var r := SaveToRecent(recent, gameId);
    var kept := Filter(recent, Other(gameId));
    FilterNoDuplicates(recent, Other(gameId));
    PrefixNoDuplicates(kept, |r| - 1);
    assert r == [gameId] + kept[..|r| - 1];
  }

  /** Every game in the new list is the saved one or was already in the list. */
  lemma SaveToRecentMembers(recent: seq<string>, gameId: string, id: string)
    ensures id in SaveToRecent(recent, gameId) ==> id == gameId || id in recent
  {
    var r := SaveToRecent(recent, gameId);
    if id in r && id != gameId {
      var k :| 0 <= k < |r| && r[k] == id;
      assert r[1..][k - 1] == id;
    }
  }

  // ---------------------------------------------------------------------------
  // Search and category filter

  /** ASCII lower-casing of one character. */
  function LowerChar(c: char): char {
    if 'A' <= c <= 'Z' then (c as int + 32) as char else c
  }

  /** `toLowerCase`, restricted to the ASCII letters. */
  function ToLower(s: string): string {
    seq(|s|, i requires 0 <= i < |s| => LowerChar(s[i]))
  }

  /** `haystack.includes(needle)`: the needle occurs as a contiguous slice. */
  predicate Includes(haystack: string, needle: string) {
    exists i :: 0 <= i <= |haystack| && needle <= haystack[i..]
  }

  /** The search box matches the title or the description, ignoring case. */
  predicate MatchesSearch(game: Game, query: string) {
    || Includes(ToLower(game.title), ToLower(query))
    || Includes(ToLower(game.description), ToLower(query))
  }

  /** No category selected (null or the empty string) admits every category. */
  predicate MatchesCategory(game: Game, activeCategory: Option<string>) {
    activeCategory.None? || activeCategory.value == "" || game.category == activeCategory.value
  }

  /** Lower-casing twice is lower-casing once. */
  lemma ToLowerIdempotent(s: string)
    ensures ToLower(ToLower(s)) == ToLower(s)
  {
    assert forall i :: 0 <= i < |s| ==> LowerChar(LowerChar(s[i])) == LowerChar(s[i]);
  }

  /** The search ignores the case of the query: a query and its lower-cased form match
      the same games. */
  lemma SearchIgnoresQueryCase(game: Game, query: string)
    ensures MatchesSearch(game, ToLower(query)) == MatchesSearch(game, query)
  {
    ToLowerIdempotent(query);
  }

  /** The empty query occurs in every title, so it matches every game. */
  lemma EmptySearchMatches(game: Game)
    ensures MatchesSearch(game, "")
  {
    assert ToLower("") == "";
    assert "" <= ToLower(game.title)[0..];
  }

  function Matching(query: string, activeCategory: Option<string>): Game -> bool {
    game => MatchesSearch(game, query) && MatchesCategory(game, activeCategory)
  }

  /** `GAMES.filter(...)`: the games that pass both the search and the category filter. */
  function FilteredGames(games: seq<Game>, query: string, activeCategory: Option<string>): (r: seq<Game>)
    ensures IsSubsequence(r, games)
    ensures forall g :: g in r <==> g in games && MatchesSearch(g, query) && MatchesCategory(g, activeCategory)
    ensures forall g :: multiset(r)[g]
                     == if MatchesSearch(g, query) && MatchesCategory(g, activeCategory) then multiset(games)[g] else 0
  {
    FilterMultiplicity(games, Matching(query, activeCategory));
    Filter(games, Matching(query, activeCategory))
  }

  /** With a category selected, every listed game belongs to it. */
  lemma FilteredGamesInCategory(games: seq<Game>, query: string, category: string)
    requires category != ""
    ensures forall g :: g in FilteredGames(games, query, Some(category)) ==> g.category == category
  {
  }

  /** An empty search and no category lists the whole catalogue, in order. */
  lemma FilteredGamesUnfiltered(games: seq<Game>)
    ensures FilteredGames(games, "", None) == games
  {
    forall g | g in games ensures Matching("", None)(g) {
      EmptySearchMatches(g);
    }
    FilterKeepsAll(games, Matching("", None));
  }

  // ---------------------------------------------------------------------------
  // Category buttons

  /** `GAMES.map(g => g.category)`. */
  function CategoryColumn(games: seq<Game>): (r: seq<string>)
    ensures |r| == |games| && forall i :: 0 <= i < |games| ==> r[i] == games[i].category
  {
    seq(|games|, i requires 0 <= i < |games| => games[i].category)
  }

  /** `Array.from(new Set(GAMES.map(g => g.category)))`. */
  function Categories(games: seq<Game>): (r: seq<string>)
    ensures NoDuplicates(r)
    ensures forall c :: c in r <==> exists g :: g in games && g.category == c
  {
    var all := CategoryColumn(games);
    assert forall c :: c in all <==> exists g :: g in games && g.category == c by {
      forall c ensures c in all <==> exists g :: g in games && g.category == c {
        if c in all {
          var i :| 0 <= i < |all| && all[i] == c;
          assert games[i] in games && games[i].category == c;
        }
        if g :| g in games && g.category == c {
          var i :| 0 <= i < |games| && games[i] == g;
          assert all[i] == c;
        }
      }
    }
    Distinct(all)
  }

  /** The shipped catalogue offers two buttons, in catalogue order. */
  lemma CatalogueCategories()
    ensures Categories(Catalogue) == ["Action", "Arcade"]
  {
    var all := CategoryColumn(Catalogue);
    assert all == ["Action", "Arcade"];
    assert all[..1] == ["Action"];
    assert all[..1][..0] == [];
    assert Distinct(all[..1][..0]) == [];
    assert Distinct(all[..1]) == ["Action"];
  }
}
