/** The records of the Mongo catalogue job: `models.Game` and the `Game` nested in
    `models.GetAppListResponse`. Both are mutable beans whose `equals` accepts the
    same reference, rejects null and other classes, and otherwise compares appids
    ignoring case, dereferencing this game's appid without a null check. */
module MongoModels {
  import opened JavaLang

  /** Lower-case mapping of one character, over ASCII. */
  function LowerChar(c: char): char {
    if 'A' <= c <= 'Z' then (c as int + 32) as char else c
  }

  /** A string with every ASCII upper-case letter lowered. */
  function Lower(s: string): (r: string)
    ensures |r| == |s|
    ensures forall k :: 0 <= k < |s| ==> r[k] == LowerChar(s[k])
  {
    seq(|s|, k requires 0 <= k < |s| => LowerChar(s[k]))
  }

  /** `s.equalsIgnoreCase(other)`: false for null, otherwise the same length and
      the same characters once both are lowered. */
  function EqualsIgnoreCase(s: string, other: Option<string>): bool {
    other.Some? && |s| == |other.value| && Lower(s) == Lower(other.value)
  }

  /** `equalsIgnoreCase` is an equivalence on non-null strings. */
  lemma EqualsIgnoreCaseIsEquivalence(a: string, b: string, c: string)
    ensures EqualsIgnoreCase(a, Some(a))
    ensures EqualsIgnoreCase(a, Some(b)) == EqualsIgnoreCase(b, Some(a))
    ensures EqualsIgnoreCase(a, Some(b)) && EqualsIgnoreCase(b, Some(c)) ==> EqualsIgnoreCase(a, Some(c))
    ensures !EqualsIgnoreCase(a, None)
  {
  }

  /** Letters that differ only in case compare equal: "AB" and "ab". */
  lemma CaseIsIgnored()
    ensures EqualsIgnoreCase("AB", Some("ab"))
    ensures "AB" != "ab"
  {
    assert Lower("AB") == "ab";
    assert Lower("ab") == "ab";
  }

  /** A string of decimal digits, as Steam appids are. */
  predicate IsDigits(s: string) {
    forall k :: 0 <= k < |s| ==> '0' <= s[k] <= '9'
  }

  /** On numeric appids ignoring case changes nothing: the Mongo identity and the
      exact identity of the DynamoDB job agree there. */
  lemma {:induction false} DigitAppidsCompareExactly(s: string, t: string)
    requires IsDigits(s)
    ensures EqualsIgnoreCase(s, Some(t)) <==> s == t
  {
    if EqualsIgnoreCase(s, Some(t)) {
      forall k | 0 <= k < |s| ensures s[k] == t[k] {
        assert Lower(s)[k] == Lower(t)[k];
      }
    }
  }

  /** The argument of `equals(Object)`: null, a `models.Game`, a nested app-list
      `Game`, or an object of another class. */
  datatype GameObject = Null | StoredGame(stored: Game) | ListedGame(listed: AppListGame) | OtherObject
  {
    /** The heap objects whose fields `equals` may read. */
    function Refs(): set<object> {
      match this
      case StoredGame(g) => {g}
      case ListedGame(g) => {g}
      case _ => {}
    }
  }

  /** `models.Game`: a Mongo document; `id` and `multiplayer` are not read from JSON. */
  class Game {
    var id: Option<string>
    var appid: Option<string>
    var name: Option<string>
    var multiplayer: Option<bool>

    constructor (appid: Option<string>, name: Option<string>)
      ensures this.appid == appid && this.name == name
      ensures id == None && multiplayer == None
    {
      this.id := None;
      this.appid := appid;
      this.name := name;
      this.multiplayer := None;
    }

    /** `equals`: true for this very object, false for null or another class, a
        null dereference when this appid is null, otherwise `equalsIgnoreCase`. */
    function Equals(o: GameObject): (r: Try<bool>)
      reads this, o.Refs()
      ensures o == StoredGame(this) ==> r == Ok(true)
      ensures o.Null? || o.ListedGame? || o.OtherObject? ==> r == Ok(false)
      ensures r.Threw? <==> o.StoredGame? && o.stored != this && appid.None?
      ensures r.Threw? ==> r.exception == NullPointerException
      ensures r == Ok(true) <==>
                o == StoredGame(this) ||
                (o.StoredGame? && appid.Some? && o.stored.appid.Some? && |appid.value| == |o.stored.appid.value|
                 && Lower(appid.value) == Lower(o.stored.appid.value))
    {
      if o == StoredGame(this) then Ok(true)
      else if o.Null? then Ok(false)
      else if !o.StoredGame? then Ok(false)
      else if appid.None? then Threw(NullPointerException)
      else Ok(EqualsIgnoreCase(appid.value, o.stored.appid))
    }
  }

  /** `GetAppListResponse.Game`, the element class of the parsed app list, with
      the same fields and the same kind of `equals`. */
  class AppListGame {
    var id: Option<string>
    var appid: Option<string>
    var name: Option<string>
    var multiplayer: Option<bool>

    constructor (appid: Option<string>, name: Option<string>)
      ensures this.appid == appid && this.name == name
      ensures id == None && multiplayer == None
    {
      this.id := None;
      this.appid := appid;
      this.name := name;
      this.multiplayer := None;
    }

    /** `equals` of the nested class: the same guards, then `equalsIgnoreCase`. */
    function Equals(o: GameObject): (r: Try<bool>)
      reads this, o.Refs()
      ensures o == ListedGame(this) ==> r == Ok(true)
      ensures o.Null? || o.StoredGame? || o.OtherObject? ==> r == Ok(false)
      ensures r.Threw? <==> o.ListedGame? && o.listed != this && appid.None?
      ensures r.Threw? ==> r.exception == NullPointerException
      ensures r == Ok(true) <==>
                o == ListedGame(this) ||
                (o.ListedGame? && appid.Some? && o.listed.appid.Some? && |appid.value| == |o.listed.appid.value|
                 && Lower(appid.value) == Lower(o.listed.appid.value))
    {
      if o == ListedGame(this) then Ok(true)
      else if o.Null? then Ok(false)
      else if !o.ListedGame? then Ok(false)
      else if appid.None? then Threw(NullPointerException)
      else Ok(EqualsIgnoreCase(appid.value, o.listed.appid))
    }
  }

  /** Only the appid takes part in `equals`: two stored games with the same appid
      answer alike against any other game, whatever their id, name or flag. */
  lemma StoredEqualsIgnoresOtherFields(a: Game, b: Game, o: Game)
    requires a != o && b != o
    requires a.appid == b.appid
    ensures a.Equals(StoredGame(o)) == b.Equals(StoredGame(o))
  {
  }

  /** Between distinct stored games with appids, `equals` is symmetric and
      transitive, and a nested app-list game is never equal to a stored one. */
  lemma StoredEqualsIsEquivalence(a: Game, b: Game, c: Game, l: AppListGame)
    requires a.appid.Some? && b.appid.Some? && c.appid.Some?
    ensures a.Equals(StoredGame(b)) == b.Equals(StoredGame(a))
    ensures a.Equals(StoredGame(b)) == Ok(true) && b.Equals(StoredGame(c)) == Ok(true) ==> a.Equals(StoredGame(c)) == Ok(true)
    ensures a.Equals(ListedGame(l)) == Ok(false) && l.Equals(StoredGame(a)) == Ok(false)
  {
    EqualsIgnoreCaseIsEquivalence(a.appid.value, b.appid.value, c.appid.value);
  }

  /** The same holds for the nested class. */
  lemma ListedEqualsIsEquivalence(a: AppListGame, b: AppListGame, c: AppListGame)
    requires a.appid.Some? && b.appid.Some? && c.appid.Some?
    ensures a.Equals(ListedGame(b)) == b.Equals(ListedGame(a))
    ensures a.Equals(ListedGame(b)) == Ok(true) && b.Equals(ListedGame(c)) == Ok(true) ==> a.Equals(ListedGame(c)) == Ok(true)
  {
    EqualsIgnoreCaseIsEquivalence(a.appid.value, b.appid.value, c.appid.value);
  }
}
