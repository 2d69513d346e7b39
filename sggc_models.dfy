/** The catalogue records of the DynamoDB job: `sggc.models.Game` with its
    appid-based `equals`/`hashCode`, and the app-list response that carries a
    set of them. */
module SggcModels {
  import opened JavaLang

  /** `sggc.models.Game`, a bean whose fields may all be null. */
  datatype Game = Game(id: Option<string>, appid: Option<string>, name: Option<string>, multiplayer: Option<bool>)

  /** The argument of `equals(Object)`: null, a `Game`, or an object of another class. */
  datatype Object = Null | AGame(game: Game) | OtherObject

  /** `Objects.equals(a, b)` on two nullable strings: both null, or `a.equals(b)`,
      which compares the characters exactly (case matters). */
  function ObjectsEquals(a: Option<string>, b: Option<string>): bool {
    if a.None? then b.None? else b.Some? && a.value == b.value
  }

  /** `Game.equals`: the same object, or another `Game` whose appid is
      `Objects.equals` to this one's. */
  function Equals(g: Game, o: Object): bool {
    if o == AGame(g) then true
    else if o.Null? || o.OtherObject? then false
    else ObjectsEquals(g.appid, o.game.appid)
  }

  /** Two games are equal exactly when their appids are equal as nullable strings;
      id, name and multiplayer play no part, and null or another class is never equal. */
  lemma EqualsIsAppidEquality(g: Game, o: Object)
    ensures Equals(g, o) <==> o.AGame? && o.game.appid == g.appid
    ensures forall i, n, m :: Equals(g.(id := i, name := n, multiplayer := m), o) == Equals(g, o)
  {
  }

  /** `equals` is an equivalence relation on games. */
  lemma EqualsIsEquivalence(a: Game, b: Game, c: Game)
    ensures Equals(a, AGame(a))
    ensures Equals(a, AGame(b)) == Equals(b, AGame(a))
    ensures Equals(a, AGame(b)) && Equals(b, AGame(c)) ==> Equals(a, AGame(c))
  {
  }

  const TwoPow32: int := 0x1_0000_0000

  /** Java `int` arithmetic: the value reduced to 32-bit two's complement. */
  function WrapInt(x: int): (r: int)
    ensures -0x8000_0000 <= r < 0x8000_0000
    ensures (r - x) % TwoPow32 == 0
  {
    var m := x % TwoPow32;
    if m >= 0x8000_0000 then m - TwoPow32 else m
  }

  /** `String.hashCode`: h = 31 * h + c over the characters, in `int` arithmetic. */
  function StringHash(s: string): int
    decreases |s|
  {
    if s == [] then 0 else WrapInt(31 * StringHash(s[..|s| - 1]) + s[|s| - 1] as int)
  }

  /** `Game.hashCode`, i.e. `Objects.hash(appid)` = 31 * 1 + (appid's hash, or 0 for null). */
  function HashCode(g: Game): (h: int)
    ensures -0x8000_0000 <= h < 0x8000_0000
  {
    WrapInt(31 + (if g.appid.None? then 0 else StringHash(g.appid.value)))
  }

  /** Equal games have equal hash codes, as `HashSet` requires. */
  lemma EqualGamesHashAlike(a: Game, b: Game)
    requires Equals(a, AGame(b))
    ensures HashCode(a) == HashCode(b)
  {
  }

  /** A `HashSet<Game>` never holds two games that are `equals`, so as a set of
      values it holds at most one game per appid. */
  ghost predicate IsGameSet(s: set<Game>) {
    forall a, b :: a in s && b in s && a.appid == b.appid ==> a == b
  }

  /** `Set.contains(g)` on a `HashSet<Game>`: some element `k` with `g.equals(k)`. */
  predicate SetContains(s: set<Game>, g: Game) {
    exists k :: k in s && Equals(g, AGame(k))
  }

  /** `sggc.models.steam.Applist`: the `apps` set, null when absent from the JSON. */
  datatype Applist = Applist(apps: Option<set<Game>>)

  /** `sggc.models.steam.GetAppListResponse`: `{ applist: { apps: [...] } }`. */
  datatype GetAppListResponse = GetAppListResponse(applist: Option<Applist>)
}
