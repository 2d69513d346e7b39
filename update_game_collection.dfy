/** The `sggc` catalogue job (`UpdateGameCollectionLambda`): scan the stored
    games, fetch Steam's app list (any failure ends the run with exit status 1),
    keep the apps whose appid is not stored yet, give each of them a fresh id of
    the form `<uuid>-<epochMillis>` and batch-write them into the `Game` table. */
module UpdateGameCollectionLambda {
  import opened JavaLang
  import opened SggcModels
  import opened EnhancedDynamoDb
  import DynamoDbUtil

  const GameTableName: string := "Game"
  const NullResponseMessage: string := "Parsed response from Steam API was null"

  /** `getNonPersistedGames`: the games of `allGames` that `persistedGames.contains`
      rejects. The leading `new HashSet<>(...)` statement builds a set nobody
      reads, so it has no counterpart here. */
  function GetNonPersistedGames(persisted: set<Game>, all: set<Game>): set<Game> {
    set g | g in all && !SetContains(persisted, g)
  }

  /** The appids of a set of games, null included. */
  function Appids(s: set<Game>): set<Option<string>> {
    set g | g in s :: g.appid
  }

  /** The diff keeps exactly the games whose appid (compared exactly, null equal
      to null) is not the appid of any persisted game. */
  lemma NonPersistedIsAppidDifference(persisted: set<Game>, all: set<Game>, g: Game)
    ensures g in GetNonPersistedGames(persisted, all) <==> g in all && g.appid !in Appids(persisted)
  {
    if g.appid in Appids(persisted) {
      var k :| k in persisted && k.appid == g.appid;
      assert Equals(g, AGame(k));
    }
  }

  /** The diff is a subset of all games; it is everything when nothing is
      persisted and nothing when there are no games. */
  lemma NonPersistedBounds(persisted: set<Game>, all: set<Game>)
    ensures GetNonPersistedGames(persisted, all) <= all
    ensures persisted == {} ==> GetNonPersistedGames(persisted, all) == all
    ensures all == {} ==> GetNonPersistedGames(persisted, all) == {}
  {
  }

  /** Every game of `all` is either new or shares its appid with a persisted
      one, never both. */
  lemma {:induction false} NonPersistedSplitsAll(persisted: set<Game>, all: set<Game>)
    ensures forall g :: g in all ==>
              (g in GetNonPersistedGames(persisted, all) <==> g.appid !in Appids(persisted))
    ensures Appids(GetNonPersistedGames(persisted, all)) !! Appids(persisted)
  {
    forall g | g in all
      ensures g in GetNonPersistedGames(persisted, all) <==> g.appid !in Appids(persisted)
    {
      NonPersistedIsAppidDifference(persisted, all, g);
    }
    forall a | a in Appids(GetNonPersistedGames(persisted, all)) ensures a !in Appids(persisted) {
      var g :| g in GetNonPersistedGames(persisted, all) && g.appid == a;
      NonPersistedIsAppidDifference(persisted, all, g);
    }
  }

  /** Filtering a second time against the same persisted games changes nothing. */
  lemma NonPersistedIdempotent(persisted: set<Game>, all: set<Game>)
    ensures GetNonPersistedGames(persisted, GetNonPersistedGames(persisted, all)) == GetNonPersistedGames(persisted, all)
  {
  }

  /** Once games carrying the appids of the new ones are stored, whatever their
      ids, the next run over the same app list finds nothing new. */
  lemma {:induction false} SecondRunFindsNothing(persisted: set<Game>, all: set<Game>, written: set<Game>)
    requires Appids(GetNonPersistedGames(persisted, all)) <= Appids(written)
    ensures GetNonPersistedGames(persisted + written, all) == {}
  {
    forall g | g in all ensures SetContains(persisted + written, g) {
      NonPersistedIsAppidDifference(persisted, all, g);
      if g.appid in Appids(persisted) {
        var k :| k in persisted && k.appid == g.appid;
        assert Equals(g, AGame(k));
      } else {
        assert g.appid in Appids(GetNonPersistedGames(persisted, all));
        var k :| k in written && k.appid == g.appid;
        assert Equals(g, AGame(k));
      }
    }
  }

  /** Appids are compared exactly: a stored "AB" does not hide a Steam "ab". */
  lemma DiffIsCaseSensitive()
    ensures var stored := Game(None, Some("AB"), None, None);
            var steam := Game(None, Some("ab"), None, None);
            GetNonPersistedGames({stored}, {steam}) == {steam}
  {
    var stored := Game(None, Some("AB"), None, None);
    var steam := Game(None, Some("ab"), None, None);
    assert !Equals(steam, AGame(stored));
    assert !SetContains({stored}, steam);
  }

  /** A subset of a `HashSet<Game>` still holds at most one game per appid. */
  lemma NonPersistedIsGameSet(persisted: set<Game>, all: set<Game>)
    requires IsGameSet(all)
    ensures IsGameSet(GetNonPersistedGames(persisted, all))
  {
  }

  /** `requestAllGamesFromSteam` of the lambda, given what `SteamAPIUtil` returned
      or threw: a null parsed response raises `IllegalArgumentException`, a null
      applist a null dereference, and otherwise the applist's `apps` (possibly null)
      is returned; exceptions of the call pass through. */
  function RequestAllGamesFromSteam(parsed: Try<Option<GetAppListResponse>>): (r: Try<Option<set<Game>>>)
    ensures parsed.Threw? ==> r == Threw(parsed.exception)
    ensures parsed == Ok(None) ==> r == Threw(IllegalArgumentException(NullResponseMessage))
    ensures r.Ok? <==> parsed.Ok? && parsed.value.Some? && parsed.value.value.applist.Some?
    ensures r.Ok? ==> r.value == parsed.value.value.applist.value.apps
    ensures parsed.Ok? && parsed.value.Some? && parsed.value.value.applist.None? ==> r == Threw(NullPointerException)
  {
    match parsed
    case Threw(e) => Threw(e)
    case Ok(None) => Threw(IllegalArgumentException(NullResponseMessage))
    case Ok(Some(response)) =>
      if response.applist.None? then Threw(NullPointerException) else Ok(response.applist.value.apps)
  }

  /** `Long.toString` of a non-negative value: its decimal digits, most significant first. */
  function DecimalString(n: nat): (s: string)
    ensures |s| > 0
    ensures forall k :: 0 <= k < |s| ==> '0' <= s[k] <= '9'
    decreases n
  {
    var digit := ['0' + (n % 10) as char];
    if n < 10 then digit else DecimalString(n / 10) + digit
  }

  /** The value parsed back from a string of decimal digits. */
  function DecimalValue(s: string): nat
    decreases |s|
  {
    if s == [] then 0 else 10 * DecimalValue(s[..|s| - 1]) + (s[|s| - 1] as int - '0' as int) % 10
  }

  /** The millisecond stamp written into an id reads back as the same number. */
  lemma {:induction false} DecimalStringRoundTrip(n: nat)
    ensures DecimalValue(DecimalString(n)) == n
    decreases n
  {
    var digit := ['0' + (n % 10) as char];
    if n >= 10 {
      DecimalStringRoundTrip(n / 10);
      assert (DecimalString(n / 10) + digit)[..|DecimalString(n)| - 1] == DecimalString(n / 10);
    }
  }

  /** The id `game.setId` receives: `UUID.randomUUID() + "-" + epochMillis`. */
  function GameId(uuid: string, millis: nat): string {
    uuid + "-" + DecimalString(millis)
  }

  /** The largest length among some strings. */
  function MaxLength(ids: seq<string>): (m: nat)
    ensures forall k :: 0 <= k < |ids| ==> |ids[k]| <= m
  {
    if ids == [] then 0
    else var rest := MaxLength(ids[1..]);
      assert forall k :: 1 <= k < |ids| ==> ids[k] == ids[1..][k - 1];
      if |ids[0]| > rest then |ids[0]| else rest
  }

  /** `UUID.randomUUID()` and the wall clock, as one oracle: every id it hands
      out is `<uuid>-<millis>` and differs from all ids handed out before, and
      the clock never goes back. */
  class IdSupplier {
    var issued: seq<string>
    var lastMillis: nat

    constructor (now: nat)
      ensures issued == [] && lastMillis == now
    {
      issued := [];
      lastMillis := now;
    }

    /** One `UUID.randomUUID() + "-" + new Date().toInstant().toEpochMilli()`. */
    method NextId() returns (id: string, uuid: string, millis: nat)
      modifies this
      ensures id == GameId(uuid, millis)
      ensures id !in old(issued)
      ensures old(lastMillis) <= millis == lastMillis
      ensures issued == old(issued) + [id]
    {
      millis :| millis >= lastMillis;
      var n := MaxLength(issued) + 1;
      var zeros := seq(n, _ => '0');
      assert |zeros| >= n;
      uuid :| |uuid| >= n;
      id := GameId(uuid, millis);
      lastMillis := millis;
      issued := issued + [id];
    }
  }

  /** An iteration order of a `HashSet`: each element once, in an order the
      model does not fix. `forEach` and `Iterables.partition` both walk the set
      in this order, which `setId` does not disturb (the hash is the appid's). */
  method IterationOrder(s: set<Game>) returns (order: seq<Game>)
    ensures |order| == |s|
    ensures forall g :: g in order <==> g in s
    ensures forall i, j :: 0 <= i < j < |order| ==> order[i] != order[j]
  {
    order := [];
    var rest := s;
    while rest != {}
      invariant rest <= s
      invariant forall g :: g in order <==> g in s && g !in rest
      invariant forall i, j :: 0 <= i < j < |order| ==> order[i] != order[j]
      invariant |order| + |rest| == |s|
      decreases |rest|
    {
      var g :| g in rest;
      order := order + [g];
      rest := rest - {g};
    }
  }

  /** `newGames.forEach(game -> game.setId(...))`: every new game, in iteration
      order, gets the next id of the supplier, one no game had before and no
      other new game gets; its appid, name and multiplayer flag stay as they were. */
  method AssignIds(games: seq<Game>, ids: IdSupplier) returns (withIds: seq<Game>, newIds: seq<string>)
    modifies ids
    ensures ids.issued == old(ids.issued) + newIds
    ensures |withIds| == |newIds| == |games|
    ensures forall i :: 0 <= i < |games| ==> withIds[i] == games[i].(id := Some(newIds[i]))
    ensures forall i :: 0 <= i < |newIds| ==> newIds[i] !in old(ids.issued)
    ensures forall i, j :: 0 <= i < j < |newIds| ==> newIds[i] != newIds[j]
  {
    withIds, newIds := [], [];
    for i := 0 to |games|
      invariant ids.issued == old(ids.issued) + newIds
      invariant |withIds| == |newIds| == i
      invariant forall k :: 0 <= k < i ==> withIds[k] == games[k].(id := Some(newIds[k]))
      invariant forall k :: 0 <= k < i ==> newIds[k] !in old(ids.issued)
      invariant forall k, l :: 0 <= k < l < i ==> newIds[k] != newIds[l]
    {
      var id, uuid, millis := ids.NextId();
      withIds, newIds := withIds + [games[i].(id := Some(id))], newIds + [id];
    }
  }

  /** How a run ends: normally after the write, through `System.exit(1)`, or with
      an exception that escapes `handleRequest`. */
  datatype Outcome = Completed | Exited(status: int) | Crashed(exception: Exception)

  /** The stored games a scan of the table returns, as the set of values. */
  function Scan(stored: multiset<Game>): (persisted: set<Game>)
    ensures forall g :: g in persisted <==> g in stored
  {
    set g | g in stored
  }

  /** The new games written by a run whose diff was `newGames`: they carry the
      appids of the new games and none of a persisted one, and storing them
      leaves nothing new for the next run over the same app list. */
  lemma {:induction false} WrittenGamesAreNew(persisted: set<Game>, all: set<Game>, order: seq<Game>, written: seq<Game>)
    requires forall g :: g in order <==> g in GetNonPersistedGames(persisted, all)
    requires |written| == |order|
    requires forall i :: 0 <= i < |order| ==> written[i].appid == order[i].appid
    ensures forall i :: 0 <= i < |written| ==> written[i].appid !in Appids(persisted)
    ensures GetNonPersistedGames(persisted + (set w | w in written), all) == {}
  {
    var newGames := GetNonPersistedGames(persisted, all);
    forall i | 0 <= i < |written| ensures written[i].appid !in Appids(persisted) {
      assert order[i] in newGames;
      NonPersistedIsAppidDifference(persisted, all, order[i]);
    }
    forall a | a in Appids(newGames) ensures a in Appids(set w | w in written) {
      var g :| g in newGames && g.appid == a;
      var i :| 0 <= i < |order| && order[i] == g;
      assert written[i] in (set w | w in written);
    }
    SecondRunFindsNothing(persisted, all, set w | w in written);
  }

  /** Distinct games of a `HashSet<Game>` have distinct appids, so the games
      written in one run do too. */
  lemma WrittenAppidsDistinct(all: set<Game>, order: seq<Game>, written: seq<Game>)
    requires IsGameSet(all)
    requires forall g :: g in order ==> g in all
    requires forall i, j :: 0 <= i < j < |order| ==> order[i] != order[j]
    requires |written| == |order|
    requires forall i :: 0 <= i < |order| ==> written[i].appid == order[i].appid
    ensures forall i, j :: 0 <= i < j < |written| ==> written[i].appid != written[j].appid
  {
  }

  /** `handleRequest`. `fetched` is what `SteamAPIUtil.requestAllSteamAppsFromSteamApi`
      returned or threw. The steps run in order: scan the table, fetch (any
      exception exits with status 1 before anything is written), diff, give each
      new game a fresh id in iteration order, and batch-write exactly those games
      into the `Game` table. A fetch that yields a null app set passes the catch
      and then fails the diff with a null dereference. */
  method HandleRequest(client: EnhancedClient<Game>, ids: IdSupplier, fetched: Try<Option<GetAppListResponse>>)
    returns (outcome: Outcome, written: seq<Game>, newIds: seq<string>,
             ghost order: seq<Game>, ghost rounds: seq<seq<Submission<Game>>>)
    modifies client, ids
    ensures RequestAllGamesFromSteam(fetched).Threw? ==>
              outcome == Exited(1) && written == [] && unchanged(client) && unchanged(ids)
    ensures RequestAllGamesFromSteam(fetched) == Ok(None) ==>
              outcome == Crashed(NullPointerException) && written == [] && unchanged(client) && unchanged(ids)
    ensures RequestAllGamesFromSteam(fetched).Ok? && RequestAllGamesFromSteam(fetched).value.Some? ==>
              var all := RequestAllGamesFromSteam(fetched).value.value;
              var newGames := GetNonPersistedGames(Scan(old(client.accepted)), all);
              && outcome == Completed
              && |order| == |newGames| && (forall g :: g in order <==> g in newGames)
              && ids.issued == old(ids.issued) + newIds
              && |written| == |newIds| == |order|
              && (forall i :: 0 <= i < |order| ==> written[i] == order[i].(id := Some(newIds[i])))
              && (forall i :: 0 <= i < |newIds| ==> newIds[i] !in old(ids.issued))
              && (forall i, j :: 0 <= i < j < |newIds| ==> newIds[i] != newIds[j])
              && (forall i :: 0 <= i < |written| ==> written[i].appid !in Appids(Scan(old(client.accepted))))
              && (IsGameSet(all) ==> forall i, j :: 0 <= i < j < |written| ==> written[i].appid != written[j].appid)
              && |rounds| == |DynamoDbUtil.Partition(written)|
              && (forall k :: 0 <= k < |rounds| ==> DynamoDbUtil.DrainsChunk(rounds[k], GameTableName, DynamoDbUtil.Partition(written)[k]))
              && client.submissions == old(client.submissions) + DynamoDbUtil.Flatten(rounds)
              && client.accepted == old(client.accepted) + multiset(written)
              && GetNonPersistedGames(Scan(client.accepted), all) == {}
  {
    written, newIds, order, rounds := [], [], [], [];
    var persisted := Scan(client.accepted);
    var allSteamGames := RequestAllGamesFromSteam(fetched);
    if allSteamGames.Threw? {
      outcome := Exited(1);
      return;
    }
    if allSteamGames.value.None? {
      outcome := Crashed(NullPointerException);
      return;
    }
    var all := allSteamGames.value.value;
    var newGames := GetNonPersistedGames(persisted, all);
    var iteration := IterationOrder(newGames);
    order := iteration;
    written, newIds := AssignIds(iteration, ids);
    rounds := DynamoDbUtil.BatchWrite(written, client, GameTableName);
    outcome := Completed;
    WrittenGamesAreNew(persisted, all, order, written);
    if IsGameSet(all) {
      WrittenAppidsDistinct(all, order, written);
    }
    assert Scan(client.accepted) == persisted + (set w | w in written);
  }
}
