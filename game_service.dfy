/** `GameService`: decides whether a game is multiplayer from its Steam details
    (true, false, or null when the details could not be fetched), and fetches
    the full app set, returning null when the request fails. */
module GameService {
  import opened JavaLang
  import opened GameCategories
  import SggcModels
  import SteamRequestSender

  /** The for-each loop over the category set with its early `return true`: it
      visits the elements in the set's iteration order, which the model leaves
      open by picking any element next. */
  ghost function ScanForMultiplayer(categories: set<GameCategory>): (found: bool)
    ensures found <==> exists c :: c in categories && c.id == Some(Multiplayer)
    decreases categories
  {
    if categories == {} then false
    else
      var c :| c in categories;
      if c.id == Some(Multiplayer) then true
      else ScanForMultiplayer(categories - {c})
  }

  /** `isGameMultiplayer` given the outcome of `requestAppDetails`: an
      ApiException or IOException gives null; other exceptions escape; a null
      category set makes the loop throw; otherwise true exactly when some
      category is MULTIPLAYER. */
  ghost function IsGameMultiplayer(game: SggcModels.Game, details: Try<GameData>): (r: Try<Option<bool>>)
    ensures details.Threw? && details.exception.IsApiOrIO() ==> r == Ok(None)
    ensures details.Threw? && !details.exception.IsApiOrIO() ==> r == Threw(details.exception)
    ensures details.Ok? && details.value.categories.None? ==> r == Threw(NullPointerException)
    ensures details.Ok? && details.value.categories.Some? ==>
              r == Ok(Some(exists c :: c in details.value.categories.value && c.id == Some(Multiplayer)))
  {
    match details
    case Threw(e) => if e.IsApiOrIO() then Ok(None) else Threw(e)
    case Ok(data) =>
      if data.categories.None? then Threw(NullPointerException)
      else Ok(Some(ScanForMultiplayer(data.categories.value)))
  }

  /** Steam's answer "no details" (`success` false) classifies as multiplayer. */
  lemma UnsuccessfulDetailsClassifyAsMultiplayer(game: SggcModels.Game, appId: string, rest: seq<(string, SteamRequestSender.AppDetails)>, data: Option<GameData>)
    ensures var body := SteamRequestSender.AppDetailsResponse([(appId, SteamRequestSender.AppDetails(Some(false), data))] + rest);
            var response := SteamRequestSender.HttpResponse(SteamRequestSender.HttpStatusOk, Some(SteamRequestSender.Parsed(body)));
            IsGameMultiplayer(game, SteamRequestSender.RequestAppDetails(appId, Ok(response))) == Ok(Some(true))
  {
    assert GameCategory(Some(Multiplayer)) in SteamRequestSender.MultiplayerFallback.categories.value;
  }

  /** Details whose categories carry only SINGLE_PLAYER, or unknown ids (which
      decode to null), or none at all, classify as not multiplayer; a MULTIPLAYER
      id ("1") anywhere classifies as multiplayer. */
  lemma ClassificationFollowsWireIds(game: SggcModels.Game, wireIds: seq<string>)
    ensures var r := IsGameMultiplayer(game, Ok(GameData(Some(DecodeCategories(wireIds)))));
            r == Ok(Some("1" in wireIds))
  {
    var cats := DecodeCategories(wireIds);
    if "1" in wireIds {
      var k :| 0 <= k < |wireIds| && wireIds[k] == "1";
      assert GameCategory(DecodeWireName(wireIds[k])) in cats;
    } else {
      forall c | c in cats ensures c.id != Some(Multiplayer) {
        var k :| 0 <= k < |wireIds| && c == GameCategory(DecodeWireName(wireIds[k]));
        assert wireIds[k] != "1";
      }
    }
  }

  /** A failed detail request leaves the classification undetermined (null). */
  lemma FailedRequestIsUndetermined(game: SggcModels.Game, appId: string)
    ensures IsGameMultiplayer(game, SteamRequestSender.RequestAppDetails(appId, Threw(IOException("")))) == Ok(None)
    ensures forall status :: status != SteamRequestSender.HttpStatusOk ==>
              IsGameMultiplayer(game, SteamRequestSender.RequestAppDetails(appId, Ok(SteamRequestSender.HttpResponse(status, None)))) == Ok(None)
  {
  }

  /** An unchecked exception from the exchange passes through `requestAppDetails`,
      which converts only IOException, and through `isGameMultiplayer`, which
      catches only ApiException and IOException. */
  lemma UncheckedExchangeFailureEscapes(game: SggcModels.Game, appId: string, e: Exception)
    requires !e.IsApiOrIO()
    ensures IsGameMultiplayer(game, SteamRequestSender.RequestAppDetails(appId, Threw(e))) == Threw(e)
  {
  }

  /** `requestAllGamesFromSteam`: an ApiException or IOException from the
      request gives null; a null response (or null applist) throws on the
      dereference; otherwise the applist's `apps`, which may itself be null. */
  function RequestAllGamesFromSteam(response: Try<Option<SggcModels.GetAppListResponse>>): (r: Try<Option<set<SggcModels.Game>>>)
    ensures response.Threw? && response.exception.IsApiOrIO() ==> r == Ok(None)
    ensures response.Threw? && !response.exception.IsApiOrIO() ==> r == Threw(response.exception)
    ensures r.Ok? && r.value.Some? ==>
              response.Ok? && response.value.Some? && response.value.value.applist.Some?
              && response.value.value.applist.value.apps == r.value
    ensures response.Ok? && (response.value.None? || response.value.value.applist.None?) ==> r == Threw(NullPointerException)
    ensures response.Ok? && response.value.Some? && response.value.value.applist.Some?
            ==> r == Ok(response.value.value.applist.value.apps)
  {
    match response
    case Threw(e) => if e.IsApiOrIO() then Ok(None) else Threw(e)
    case Ok(parsed) =>
      if parsed.None? || parsed.value.applist.None? then Threw(NullPointerException)
      else Ok(parsed.value.applist.value.apps)
  }
}
