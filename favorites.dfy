/** The favorites store: the session's ordered list of saved recipes and the
    per-recipe flag `fav_<id>` that decides whether a result shows "Save to
    Favorites" or "Remove from Favorites". */
module Favorites {
  import opened Recipes
  import opened Export

  /** Some entry of `favorites` has identifier `id`. */
  predicate HasId(favorites: seq<Recipe>, id: int)
  {
    exists i :: 0 <= i < |favorites| && favorites[i].id == id
  }

  /** No identifier occurs twice. */
  predicate UniqueIds(favorites: seq<Recipe>)
  {
    forall i, j :: 0 <= i < j < |favorites| ==> favorites[i].id != favorites[j].id
  }

  /** The session flag `fav_<id>`; a flag never set reads as false. */
  function Flag(flags: map<int, bool>, id: int): bool
  {
    id in flags && flags[id]
  }

  /** The favorites list without the entries whose identifier is `id`: every
      such entry is dropped and nothing else is. */
  function RemoveId(favorites: seq<Recipe>, id: int): (r: seq<Recipe>)
    ensures |r| <= |favorites|
    ensures forall k :: 0 <= k < |r| ==> r[k].id != id
  {
    if favorites == [] then []
    else if favorites[0].id == id then RemoveId(favorites[1..], id)
    else [favorites[0]] + RemoveId(favorites[1..], id)
  }

  /** The filter keeps the order of what it keeps: filtering `a + b` filters
      `a` and `b` separately. */
  lemma {:induction false} RemoveIdAppend(a: seq<Recipe>, b: seq<Recipe>, id: int)
    ensures RemoveId(a + b, id) == RemoveId(a, id) + RemoveId(b, id)
  {
    if a == [] {
      assert a + b == b;
    } else {
      assert (a + b)[0] == a[0] && (a + b)[1..] == a[1..] + b;
      RemoveIdAppend(a[1..], b, id);
    }
  }

  /** An entry survives the filter exactly when it was there and has another
      identifier. */
  lemma {:induction false} RemoveIdMembers(favorites: seq<Recipe>, id: int, x: Recipe)
    ensures x in RemoveId(favorites, id) <==> x in favorites && x.id != id
  {
    if favorites != [] {
      RemoveIdMembers(favorites[1..], id, x);
      assert favorites == [favorites[0]] + favorites[1..];
    }
  }

  /** After the filter an identifier is present exactly when it was present
      before and is not the removed one. */
  lemma RemoveIdHasId(favorites: seq<Recipe>, id: int, other: int)
    ensures HasId(RemoveId(favorites, id), other) <==> HasId(favorites, other) && other != id
  {
    var r := RemoveId(favorites, id);
    if HasId(r, other) {
      var k :| 0 <= k < |r| && r[k].id == other;
      RemoveIdMembers(favorites, id, r[k]);
    }
    if HasId(favorites, other) && other != id {
      var k :| 0 <= k < |favorites| && favorites[k].id == other;
      RemoveIdMembers(favorites, id, favorites[k]);
      var j :| 0 <= j < |r| && r[j] == favorites[k];
    }
  }

  /** The filter keeps identifiers unique and keeps every entry's image. */
  lemma {:induction false} RemoveIdKeeps(favorites: seq<Recipe>, id: int)
    requires UniqueIds(favorites) && HasImages(favorites)
    ensures UniqueIds(RemoveId(favorites, id)) && HasImages(RemoveId(favorites, id))
  {
    if favorites != [] {
      var rest := favorites[1..];
      RemoveIdKeeps(rest, id);
      if favorites[0].id != id {
        var first := favorites[0];
        assert !HasId(rest, first.id);
        RemoveIdHasId(rest, id, first.id);
        var r := [first] + RemoveId(rest, id);
        forall i, j | 0 <= i < j < |r| ensures r[i].id != r[j].id {
          if i == 0 {
            assert r[j] == RemoveId(rest, id)[j - 1];
          }
        }
      }
    }
  }

  /** With identifiers unique, removing a present identifier drops exactly
      one entry. */
  lemma {:induction false} RemoveIdDropsOne(favorites: seq<Recipe>, id: int)
    requires UniqueIds(favorites) && HasId(favorites, id)
    ensures |RemoveId(favorites, id)| == |favorites| - 1
  {
    var rest := favorites[1..];
    if favorites[0].id == id {
      RemoveIdHasId(rest, id, id);
      RemoveIdUnchanged(rest, id);
    } else {
      var k :| 0 <= k < |favorites| && favorites[k].id == id;
      assert rest[k - 1].id == id;
      RemoveIdDropsOne(rest, id);
    }
  }

  /** Filtering out an identifier that is absent changes nothing. */
  lemma {:induction false} RemoveIdUnchanged(favorites: seq<Recipe>, id: int)
    requires !HasId(favorites, id)
    ensures RemoveId(favorites, id) == favorites
  {
    if favorites != [] {
      assert favorites[0].id != id;
      RemoveIdUnchanged(favorites[1..], id);
    }
  }

  // ---------------------------------------------------------------------------
  // The toggle as a state machine

  /** The session state the toggle reads and writes. */
  datatype Session = Session(favorites: seq<Recipe>, flags: map<int, bool>)

  /** The state of a new session: no favorites and no flag set. */
  const Init := Session([], map[])

  /** What a search result shows beside it. */
  datatype Button = NoButton | SaveButton | RemoveButton

  /** The store's invariant: a flag is set exactly for the identifiers on the
      list, no identifier is on it twice, and every favorite has an image. */
  ghost predicate Consistent(s: Session)
  {
    && (forall id :: Flag(s.flags, id) <==> HasId(s.favorites, id))
    && UniqueIds(s.favorites)
    && HasImages(s.favorites)
  }

  /** The button shown for a search result: none when the result has no image
      (it is not displayed at all), "Save" while its flag is false, "Remove"
      once it is true. */
  function Offered(s: Session, recipe: Recipe): (b: Button)
    ensures b == NoButton <==> recipe.image.None?
    ensures recipe.image.Some? ==> (b == RemoveButton <==> Flag(s.flags, recipe.id))
  {
    if recipe.image.None? then NoButton
    else if Flag(s.flags, recipe.id) then RemoveButton
    else SaveButton
  }

  /** One search result displayed, with its button clicked or not. Displaying
      it sets its flag to false if it was never set; "Save" appends the result
      and sets the flag, "Remove" filters out its identifier and clears it.
      A result without an image changes nothing; a displayed result's flag
      exists afterwards; a click inverts it; no other flag changes; and the
      list changes only on a click. */
  function Step(s: Session, recipe: Recipe, clicked: bool): (t: Session)
    ensures recipe.image.None? ==> t == s
    ensures recipe.image.Some? ==> recipe.id in t.flags
    ensures recipe.image.Some? && clicked ==> Flag(t.flags, recipe.id) == !Flag(s.flags, recipe.id)
    ensures !clicked ==> Flag(t.flags, recipe.id) == Flag(s.flags, recipe.id)
    ensures forall id :: id != recipe.id ==> Flag(t.flags, id) == Flag(s.flags, id)
    ensures !clicked ==> t.favorites == s.favorites
  {
    if recipe.image.None? then s
    else
      var flags := if recipe.id in s.flags then s.flags else s.flags[recipe.id := false];
      if !clicked then Session(s.favorites, flags)
      else if !flags[recipe.id] then Session(s.favorites + [recipe], flags[recipe.id := true])
      else Session(RemoveId(s.favorites, recipe.id), flags[recipe.id := false])
  }

  /** "Save" is offered exactly for a displayed result that is not yet a
      favorite, and "Remove" exactly for one that is. */
  lemma OfferedMatchesList(s: Session, recipe: Recipe)
    requires Consistent(s) && recipe.image.Some?
    ensures Offered(s, recipe) == SaveButton <==> !HasId(s.favorites, recipe.id)
    ensures Offered(s, recipe) == RemoveButton <==> HasId(s.favorites, recipe.id)
  {
  }

  /** Every step keeps the store consistent. */
  lemma StepKeepsConsistent(s: Session, recipe: Recipe, clicked: bool)
    requires Consistent(s)
    ensures Consistent(Step(s, recipe, clicked))
  {
    var t := Step(s, recipe, clicked);
    if recipe.image.Some? && clicked {
      var id := recipe.id;
      if !Flag(s.flags, id) {
        assert !HasId(s.favorites, id);
        forall other ensures Flag(t.flags, other) <==> HasId(t.favorites, other) {
          if other != id {
            if HasId(t.favorites, other) {
              var k :| 0 <= k < |t.favorites| && t.favorites[k].id == other;
              assert s.favorites[k].id == other;
            }
            if HasId(s.favorites, other) {
              var k :| 0 <= k < |s.favorites| && s.favorites[k].id == other;
              assert t.favorites[k].id == other;
            }
          } else {
            assert t.favorites[|s.favorites|].id == id;
          }
        }
        forall i, j | 0 <= i < j < |t.favorites| ensures t.favorites[i].id != t.favorites[j].id {
          if j == |s.favorites| {
            assert s.favorites[i].id != id;
          }
        }
      } else {
        RemoveIdKeeps(s.favorites, id);
        forall other ensures Flag(t.flags, other) <==> HasId(t.favorites, other) {
          RemoveIdHasId(s.favorites, id, other);
        }
      }
    }
  }

  /** The list after one step, seen from the list before it: "Save" appends
      the result to an unchanged list and grows it by one; "Remove" leaves no
      entry with that identifier, keeps the others in order (it is the filter
      `RemoveId`), and shrinks the
      list by exactly one; no click changes no favorite. */
  lemma StepEffect(s: Session, recipe: Recipe, clicked: bool)
    requires Consistent(s)
    ensures var t := Step(s, recipe, clicked);
      && (Offered(s, recipe) == SaveButton && clicked ==>
            t.favorites == s.favorites + [recipe] && Flag(t.flags, recipe.id)
            && |t.favorites| == |s.favorites| + 1)
      && (Offered(s, recipe) == RemoveButton && clicked ==>
            t.favorites == RemoveId(s.favorites, recipe.id)
            && !HasId(t.favorites, recipe.id) && !Flag(t.flags, recipe.id)
            && |t.favorites| == |s.favorites| - 1
            && (forall x :: x in t.favorites <==> x in s.favorites && x.id != recipe.id))
      && (!clicked ==> t.favorites == s.favorites)
  {
    if Offered(s, recipe) == RemoveButton && clicked {
      RemoveIdDropsOne(s.favorites, recipe.id);
      RemoveIdHasId(s.favorites, recipe.id, recipe.id);
      forall x ensures x in Step(s, recipe, clicked).favorites <==> x in s.favorites && x.id != recipe.id {
        RemoveIdMembers(s.favorites, recipe.id, x);
      }
    }
  }

  /** A user's interaction with one displayed result. */
  datatype Event = Event(recipe: Recipe, clicked: bool)

  /** The state after a sequence of interactions. Browsing without a click
      never changes the favorites. */
  function Run(s: Session, events: seq<Event>): (t: Session)
    ensures (forall k :: 0 <= k < |events| ==> !events[k].clicked) ==> t.favorites == s.favorites
    decreases |events|
  {
    if events == [] then s
    else Run(Step(s, events[0].recipe, events[0].clicked), events[1..])
  }

  /** Starting from a new session, any sequence of interactions leaves the
      store consistent: a flag is true exactly for the identifiers on the
      list, no identifier appears twice, and every favorite can be exported. */
  lemma {:induction false} RunKeepsConsistent(s: Session, events: seq<Event>)
    requires Consistent(s)
    ensures Consistent(Run(s, events))
    decreases |events|
  {
    if events != [] {
      StepKeepsConsistent(s, events[0].recipe, events[0].clicked);
      RunKeepsConsistent(Step(s, events[0].recipe, events[0].clicked), events[1..]);
    }
  }

  lemma ReachableConsistent(events: seq<Event>)
    ensures Consistent(Run(Init, events))
  {
    RunKeepsConsistent(Init, events);
  }

  // ---------------------------------------------------------------------------
  // The store as the page keeps it

  /** The page's session state: the favorites list and the `fav_<id>` flags,
      both updated in place by the toggle. */
  class FavoritesStore {
    var favorites: seq<Recipe>
    var flags: map<int, bool>

    function State(): Session
      reads this
    {
      Session(favorites, flags)
    }

    ghost predicate Valid()
      reads this
    {
      Consistent(State())
    }

    /** A new session's store. */
    constructor ()
      ensures Valid()
      ensures favorites == [] && flags == map[]
    {
      favorites := [];
      flags := map[];
    }

    /** Displays one search result and reacts to a click on its button. */
    method Visit(recipe: Recipe, clicked: bool) returns (shown: Button)
      requires Valid()
      modifies this
      ensures Valid()
      ensures shown == Offered(old(State()), recipe)
      ensures State() == Step(old(State()), recipe, clicked)
      ensures shown == SaveButton && clicked ==>
        favorites == old(favorites) + [recipe] && flags == old(flags)[recipe.id := true]
      ensures shown == RemoveButton && clicked ==>
        favorites == RemoveId(old(favorites), recipe.id) && flags == old(flags)[recipe.id := false]
      ensures !clicked ==> favorites == old(favorites)
    {
      StepKeepsConsistent(State(), recipe, clicked);
      if recipe.image.None? {
        shown := NoButton;
        return;
      }
      if recipe.id !in flags {
        flags := flags[recipe.id := false];
      }
      if !flags[recipe.id] {
        shown := SaveButton;
        if clicked {
          favorites := favorites + [recipe];
          flags := flags[recipe.id := true];
        }
      } else {
        shown := RemoveButton;
        if clicked {
          favorites := RemoveId(favorites, recipe.id);
          flags := flags[recipe.id := false];
        }
      }
    }

    /** The download offered under the favorites list: every favorite has its
        title/image pair, so the export is defined. */
    method Download() returns (text: string)
      requires Valid()
      ensures HasImages(favorites)
      ensures text == ExportText(favorites)
      ensures text == [] <==> favorites == []
    {
      text := DownloadFavoritesText(favorites);
    }
  }
}
