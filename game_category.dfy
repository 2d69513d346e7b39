/** Steam's game categories as the store's detail endpoint reports them, and the
    detail record that carries them. */
module GameCategories {
  import opened JavaLang

  /** `GameCategory.SteamGameCategory`: the two categories the job knows about. */
  datatype SteamGameCategory = Multiplayer | SinglePlayer

  /** The enum's numeric `id` field. */
  function NumericId(c: SteamGameCategory): (id: int)
    ensures 1 <= id <= 2
  {
    match c
    case Multiplayer => 1
    case SinglePlayer => 2
  }

  /** The `@SerializedName` under which each constant appears on the wire. */
  function WireName(c: SteamGameCategory): string {
    match c
    case Multiplayer => "1"
    case SinglePlayer => "2"
  }

  /** Gson's reading of a category id: a serialized name it knows maps to its
      constant, anything else to null. */
  function DecodeWireName(wire: string): (c: Option<SteamGameCategory>)
    ensures c.Some? ==> WireName(c.value) == wire
  {
    if wire == "1" then Some(Multiplayer)
    else if wire == "2" then Some(SinglePlayer)
    else None
  }

  /** The numeric ids of the constants are distinct and each wire name is the
      decimal form of its constant's id, so encoding and decoding round-trip. */
  lemma CategoryCodecRoundTrip(c: SteamGameCategory, d: SteamGameCategory)
    ensures DecodeWireName(WireName(c)) == Some(c)
    ensures NumericId(c) == NumericId(d) <==> c == d
    ensures WireName(c) == (if NumericId(c) == 1 then "1" else "2")
  {
  }

  /** `GameCategory`: one category entry, identified solely by its (possibly
      null) `id`; Lombok's `@Data` equality compares that field only, so a set
      of categories holds at most one entry per id. */
  datatype GameCategory = GameCategory(id: Option<SteamGameCategory>)

  /** The category set Gson builds from the `id`s of a `categories` array. */
  function DecodeCategories(wireIds: seq<string>): set<GameCategory> {
    set k | 0 <= k < |wireIds| :: GameCategory(DecodeWireName(wireIds[k]))
  }

  /** `GameData`: the `data` object of a detail response; `categories` is null
      when the response has no `categories` array. */
  datatype GameData = GameData(categories: Option<set<GameCategory>>)
}
