/** `MongoGameCollectionUpdater.refreshGamesCollection`: read every stored game,
    remove from the parsed app list (in place) each app some stored game equals,
    and insert what is left, if anything; a null response is rejected with
    `NoSuchElementException`. The list is taken to hold `models.Game` objects, as
    its declared type says. */
module MongoGameCollectionUpdater {
  import opened JavaLang
  import opened MongoModels

  const NoGamesMessage: string := "Error, Steam request returned no games\n"

  /** The Mongo collection of `models.Game` documents. */
  class GamesCollection {
    var documents: seq<Game>

    constructor (documents: seq<Game>)
      ensures this.documents == documents
    {
      this.documents := documents;
    }

    /** `find().into(new ArrayList<>())`: a fresh list of every stored document. */
    method Find() returns (found: seq<Game>)
      ensures found == documents
    {
      found := documents;
    }

    /** `insertMany(games)`: the games are appended as new documents. */
    method InsertMany(games: seq<Game>)
      modifies this
      ensures documents == old(documents) + games
    {
      documents := documents + games;
    }
  }

  /** The objects whose fields a comparison against `games` may read. */
  function Objects(games: seq<Game>): set<Game> {
    set g | g in games
  }

  /** `stored.contains(x)`, i.e. `indexOf(x) >= 0`: `x.equals(stored[i])` for
      i = 0, 1, ... until one is true; an exception of `equals` propagates. */
  function ContainsResult(stored: seq<Game>, x: Game): (r: Try<bool>)
    reads x, Objects(stored)
    ensures r.Threw? ==> r.exception == NullPointerException
    decreases |stored|
  {
    if stored == [] then Ok(false)
    else
      match x.Equals(StoredGame(stored[0]))
      case Threw(e) => Threw(e)
      case Ok(found) => if found then Ok(true) else ContainsResult(stored[1..], x)
  }

  /** `x` equals some stored game: it is one of them, or its appid matches one
      ignoring case. */
  predicate MatchesStored(stored: seq<Game>, x: Game)
    reads x, Objects(stored)
  {
    exists i :: 0 <= i < |stored| && (x == stored[i] ||
      (x.appid.Some? && EqualsIgnoreCase(x.appid.value, stored[i].appid)))
  }

  /** With an appid, `contains` never throws and answers whether `x` matches a
      stored game. With a null appid, it is true only when `x` is itself the
      first stored game and throws when the first stored game is another object. */
  lemma {:induction false} ContainsMeaning(stored: seq<Game>, x: Game)
    ensures x.appid.Some? ==> ContainsResult(stored, x) == Ok(MatchesStored(stored, x))
    ensures x.appid.None? && stored == [] ==> ContainsResult(stored, x) == Ok(false)
    ensures x.appid.None? && stored != [] && stored[0] == x ==> ContainsResult(stored, x) == Ok(true)
    ensures x.appid.None? && stored != [] && stored[0] != x ==> ContainsResult(stored, x) == Threw(NullPointerException)
    decreases |stored|
  {
    if stored != [] && x.appid.Some? {
      ContainsMeaning(stored[1..], x);
      if !(x == stored[0] || EqualsIgnoreCase(x.appid.value, stored[0].appid)) {
        assert MatchesStored(stored, x) == MatchesStored(stored[1..], x) by {
          if MatchesStored(stored, x) {
            var i :| 0 <= i < |stored| && (x == stored[i] || EqualsIgnoreCase(x.appid.value, stored[i].appid));
            assert stored[1..][i - 1] == stored[i];
          }
          if MatchesStored(stored[1..], x) {
            var i :| 0 <= i < |stored[1..]| && (x == stored[1..][i] || EqualsIgnoreCase(x.appid.value, stored[1..][i].appid));
            assert stored[i + 1] == stored[1..][i];
          }
        }
      }
    }
  }

  /** What `ArrayList.removeAll` leaves: the list, and the exception, if any, that
      interrupted it. */
  datatype Removal = Removal(remaining: seq<Game>, thrown: Option<Exception>)

  /** `ArrayList.batchRemove(stored, false)`: each element, front to back, is
      dropped when `stored.contains` it and kept otherwise. If `contains` throws
      at an element, that element and all after it stay in the list untouched. */
  function BatchRemove(elements: seq<Game>, stored: seq<Game>): (r: Removal)
    reads Objects(elements), Objects(stored)
    ensures r.thrown.None? || r.thrown == Some(NullPointerException)
    ensures |r.remaining| <= |elements|
    decreases |elements|
  {
    if elements == [] then Removal([], None)
    else
      assert elements[0] in Objects(elements);
      assert Objects(elements[1..]) <= Objects(elements);
      match ContainsResult(stored, elements[0])
      case Threw(e) => Removal(elements, Some(e))
      case Ok(contained) =>
        var rest := BatchRemove(elements[1..], stored);
        if contained then rest else Removal([elements[0]] + rest.remaining, rest.thrown)
  }

  /** `small` is `big` with some elements left out, the rest in their order. */
  predicate IsSubsequence(small: seq<Game>, big: seq<Game>) {
    if small == [] then true
    else if big == [] then false
    else (small[0] == big[0] && IsSubsequence(small[1..], big[1..])) || IsSubsequence(small, big[1..])
  }

  lemma {:induction false} SubsequenceOfSelf(s: seq<Game>)
    ensures IsSubsequence(s, s)
    decreases |s|
  {
    if s != [] {
      SubsequenceOfSelf(s[1..]);
    }
  }

  /** `removeAll` keeps the surviving elements in their original relative order. */
  lemma {:induction false} RemovalKeepsOrder(elements: seq<Game>, stored: seq<Game>)
    ensures IsSubsequence(BatchRemove(elements, stored).remaining, elements)
    decreases |elements|
  {
    if elements != [] {
      assert elements[0] in Objects(elements);
      assert Objects(elements[1..]) <= Objects(elements);
      RemovalKeepsOrder(elements[1..], stored);
      var rest := BatchRemove(elements[1..], stored).remaining;
      match ContainsResult(stored, elements[0])
      case Threw(_) => SubsequenceOfSelf(elements);
      case Ok(contained) =>
        if contained {
          assert rest != [] ==> IsSubsequence(rest, elements[1..]);
        } else {
          assert ([elements[0]] + rest)[1..] == rest;
        }
    }
  }

  /** When `removeAll` completes, an element stays exactly when `contains` said it
      is not stored. */
  lemma {:induction false} RemovalFilters(elements: seq<Game>, stored: seq<Game>)
    requires BatchRemove(elements, stored).thrown.None?
    ensures forall i :: 0 <= i < |elements| ==> ContainsResult(stored, elements[i]).Ok?
    ensures forall x :: x in BatchRemove(elements, stored).remaining <==>
              x in elements && ContainsResult(stored, x) == Ok(false)
    decreases |elements|
  {
    if elements != [] {
      assert elements[0] in Objects(elements);
      assert Objects(elements[1..]) <= Objects(elements);
      RemovalFilters(elements[1..], stored);
      assert forall i :: 1 <= i < |elements| ==> elements[i] == elements[1..][i - 1];
      assert forall x :: x in elements <==> x == elements[0] || x in elements[1..];
    }
  }

  /** One step of `removeAll` over an element `contains` answers for. */
  lemma RemovalStep(elements: seq<Game>, stored: seq<Game>)
    requires elements != [] && ContainsResult(stored, elements[0]).Ok?
    ensures BatchRemove(elements, stored).thrown == BatchRemove(elements[1..], stored).thrown
    ensures BatchRemove(elements, stored).remaining ==
              (if ContainsResult(stored, elements[0]).value then [] else [elements[0]])
              + BatchRemove(elements[1..], stored).remaining
  {
    assert elements[0] in Objects(elements);
  }

  /** When `contains` throws at element `k`, after answering for every element
      before it, `removeAll` ends there: the list is the survivors of the first
      `k` elements followed by element `k` and everything after it. */
  lemma {:induction false} InterruptedRemovalKeepsRest(elements: seq<Game>, stored: seq<Game>, k: nat)
    requires k < |elements|
    requires forall i :: 0 <= i < k ==> ContainsResult(stored, elements[i]).Ok?
    requires ContainsResult(stored, elements[k]).Threw?
    ensures BatchRemove(elements, stored).thrown == Some(NullPointerException)
    ensures BatchRemove(elements, stored).remaining == BatchRemove(elements[..k], stored).remaining + elements[k..]
    decreases k
  {
    if k == 0 {
      assert elements[0] in Objects(elements);
    } else {
      var prefix := elements[..k];
      assert prefix[0] == elements[0];
      assert prefix[1..] == elements[1..][..k - 1];
      assert elements[1..][k - 1..] == elements[k..];
      RemovalStep(elements, stored);
      RemovalStep(prefix, stored);
      InterruptedRemovalKeepsRest(elements[1..], stored, k - 1);
    }
  }

  /** After a completed `removeAll`, no element left equals any stored game: none
      is a stored object and none has a stored appid up to case; an element with
      a null appid is left only when nothing is stored. */
  lemma NothingStoredRemains(elements: seq<Game>, stored: seq<Game>)
    requires BatchRemove(elements, stored).thrown.None?
    ensures forall x :: x in BatchRemove(elements, stored).remaining ==>
              !MatchesStored(stored, x) && (x.appid.None? ==> stored == [])
  {
    RemovalFilters(elements, stored);
    forall x | x in BatchRemove(elements, stored).remaining
      ensures !MatchesStored(stored, x) && (x.appid.None? ==> stored == [])
    {
      ContainsMeaning(stored, x);
    }
  }

  /** The parsed app list, as the mutable `ArrayList` the response holds. */
  class GameList {
    var elements: seq<Game>

    constructor (elements: seq<Game>)
      ensures this.elements == elements
    {
      this.elements := elements;
    }

    /** `removeAll(stored)`, in place; the exception, if any, propagates after the
        list has been compacted. */
    method RemoveAll(stored: seq<Game>) returns (r: Try<bool>)
      modifies this
      ensures elements == old(BatchRemove(elements, stored)).remaining
      ensures old(BatchRemove(elements, stored)).thrown.Some? ==>
                r == Threw(old(BatchRemove(elements, stored)).thrown.value)
      ensures old(BatchRemove(elements, stored)).thrown.None? ==> r == Ok(|elements| != |old(elements)|)
    {
      var removal := BatchRemove(elements, stored);
      var before := |elements|;
      elements := removal.remaining;
      if removal.thrown.Some? {
        r := Threw(removal.thrown.value);
      } else {
        r := Ok(|elements| != before);
      }
    }
  }

  /** `GetAppListResponse.Applist`: the `apps` list, null when absent. */
  class AppList {
    var apps: GameList?

    constructor (apps: GameList?)
      ensures this.apps == apps
    {
      this.apps := apps;
    }
  }

  /** `models.GetAppListResponse`: the `applist` object, null when absent. */
  class AppListResponse {
    var applist: AppList?

    constructor (applist: AppList?)
      ensures this.applist == applist
    {
      this.applist := applist;
    }
  }

  /** The list object a non-null response leads to, if there is one. */
  function AppsOf(response: AppListResponse?): GameList?
    reads response, if response != null then {response.applist} else {}
  {
    if response == null || response.applist == null then null else response.applist.apps
  }

  /** `refreshGamesCollection`. A null response throws `NoSuchElementException`
      and a null applist or app list a null dereference, with nothing inserted.
      Otherwise the app list is filtered in place against the stored games; an
      exception of that filtering propagates with nothing inserted; an emptied
      list inserts nothing; any other list, the same filtered object, is
      inserted whole. The stored documents are only read. */
  method RefreshGamesCollection(gamesCollection: GamesCollection, allSteamApps: AppListResponse?)
    returns (r: Try<()>)
    modifies gamesCollection, if AppsOf(allSteamApps) == null then {} else {AppsOf(allSteamApps)}
    ensures allSteamApps == null ==>
              r == Threw(NoSuchElementException(NoGamesMessage)) && unchanged(gamesCollection)
    ensures allSteamApps != null && AppsOf(allSteamApps) == null ==>
              r == Threw(NullPointerException) && unchanged(gamesCollection)
    ensures AppsOf(allSteamApps) != null ==>
              var list := AppsOf(allSteamApps);
              var removal := old(BatchRemove(list.elements, gamesCollection.documents));
              && list.elements == removal.remaining
              && (removal.thrown.Some? ==> r == Threw(removal.thrown.value) && unchanged(gamesCollection))
              && (removal.thrown.None? && removal.remaining == [] ==> r == Ok(()) && unchanged(gamesCollection))
              && (removal.thrown.None? && removal.remaining != [] ==>
                    r == Ok(()) && gamesCollection.documents == old(gamesCollection.documents) + removal.remaining)
  {
    var storedGames := gamesCollection.Find();
    if allSteamApps == null {
      return Threw(NoSuchElementException(NoGamesMessage));
    }
    if allSteamApps.applist == null || allSteamApps.applist.apps == null {
      return Threw(NullPointerException);
    }
    var allGames := allSteamApps.applist.apps;
    assert allGames == AppsOf(allSteamApps);
    ghost var removal := BatchRemove(allGames.elements, storedGames);
    assert forall g :: g in Objects(storedGames) + Objects(allGames.elements) ==> unchanged(g);
    assert removal == old(BatchRemove(allGames.elements, gamesCollection.documents));
    var removed := allGames.RemoveAll(storedGames);
    if removed.Threw? {
      return Threw(removed.exception);
    }
    if allGames.elements == [] {
      r := Ok(());
    } else {
      gamesCollection.InsertMany(allSteamApps.applist.apps.elements);
      r := Ok(());
    }
  }
}
