/** The seasonal effects manager (client/src/effects/index.js): which
    season a month belongs to, and the configuration table of the four
    effects. Only each effect's name and icon are modelled. */
module Seasons {
  import opened Wrappers

  datatype Season = Winter | Spring | Summer | Autumn

  /** The name and icon of a season's effect. */
  datatype Effect = Effect(name: string, icon: string)

  /** An entry of getAllSeasons. */
  datatype Entry = Entry(key: string, name: string, icon: string)

  /** The keys of the `seasons` table, in insertion order. */
  const Order: seq<Season> := [Winter, Spring, Summer, Autumn]

  function Key(s: Season): string {
    match s
    case Winter => "winter"
    case Spring => "spring"
    case Summer => "summer"
    case Autumn => "autumn"
  }

  /** The name and icon each effect file declares. */
  function EffectOf(s: Season): Effect {
    match s
    case Winter => Effect("Winter Snow", "mdi-snowflake")
    case Spring => Effect("Spring Blossoms", "mdi-flower")
    case Summer => Effect("Summer Sparkles", "mdi-white-balance-sunny")
    case Autumn => Effect("Autumn Leaves", "mdi-leaf")
  }

  /** `seasons[key]`: the season with that key, if any. */
  function SeasonByKey(key: string): (r: Option<Season>)
    ensures r.Some? ==> Key(r.value) == key
    ensures r.None? ==> forall s :: Key(s) != key
  {
    if key == "winter" then Some(Winter)
    else if key == "spring" then Some(Spring)
    else if key == "summer" then Some(Summer)
    else if key == "autumn" then Some(Autumn)
    else None
  }

  /** Keys and seasons correspond one to one. */
  lemma KeyRoundTrip(s: Season)
    ensures SeasonByKey(Key(s)) == Some(s)
  {
  }

  /** getCurrentSeason with the month (1-12) as a parameter: December to
      February is winter, then three months each for spring, summer and
      autumn; any month outside 3-11 falls to winter. */
  function CurrentSeason(month: int): (s: Season)
    ensures s == Spring <==> 3 <= month <= 5
    ensures s == Summer <==> 6 <= month <= 8
    ensures s == Autumn <==> 9 <= month <= 11
    ensures s == Winter <==> month == 12 || month == 1 || month == 2 || month < 1 || month > 12
  {
    if month == 12 || month == 1 || month == 2 then Winter
    else if 3 <= month <= 5 then Spring
    else if 6 <= month <= 8 then Summer
    else if 9 <= month <= 11 then Autumn
    else Winter
  }

  function NextSeason(s: Season): Season {
    match s
    case Winter => Spring
    case Spring => Summer
    case Summer => Autumn
    case Autumn => Winter
  }

  function NextMonth(month: int): int {
    if month == 12 then 1 else month + 1
  }

  /** Through the year the season either stays or moves to the next one,
      so the seasons come round in table order. */
  lemma SeasonsAdvance(month: int)
    requires 1 <= month <= 12
    ensures CurrentSeason(NextMonth(month)) == CurrentSeason(month)
         || CurrentSeason(NextMonth(month)) == NextSeason(CurrentSeason(month))
  {
  }

  /** getSeasonConfig: a truthy name is looked up as given (an unknown one
      yields nothing); a missing or empty name means the current season. */
  function SeasonConfig(name: Option<string>, month: int): (r: Option<Effect>)
    ensures name.Some? && name.value != "" ==> (r.Some? <==> SeasonByKey(name.value).Some?)
    ensures name.Some? && name.value != "" && r.Some? ==> r == Some(EffectOf(SeasonByKey(name.value).value))
    ensures name.None? || name.value == "" ==> r == Some(EffectOf(CurrentSeason(month)))
  {
    var key := if name.Some? && name.value != "" then name.value else Key(CurrentSeason(month));
    match SeasonByKey(key)
    case None => None
    case Some(s) => Some(EffectOf(s))
  }

  /** getAllSeasons: one entry per table key, in table order. */
  function AllSeasons(): (r: seq<Entry>)
    ensures |r| == |Order|
    ensures forall i :: 0 <= i < |r| ==> r[i] == Entry(Key(Order[i]), EffectOf(Order[i]).name, EffectOf(Order[i]).icon)
  {
    seq(|Order|, i requires 0 <= i < |Order| => Entry(Key(Order[i]), EffectOf(Order[i]).name, EffectOf(Order[i]).icon))
  }

  /** The listing holds exactly four entries, winter first and autumn
      last, each key naming a season, and asking for an entry's key gives
      back its name and icon whatever the month. */
  lemma AllSeasonsAgree(month: int)
    ensures |AllSeasons()| == 4
    ensures AllSeasons()[0].key == "winter" && AllSeasons()[1].key == "spring"
    ensures AllSeasons()[2].key == "summer" && AllSeasons()[3].key == "autumn"
    ensures forall e :: e in AllSeasons() ==> SeasonConfig(Some(e.key), month) == Some(Effect(e.name, e.icon))
  {
    forall e | e in AllSeasons() ensures SeasonConfig(Some(e.key), month) == Some(Effect(e.name, e.icon)) {
      var i :| 0 <= i < |AllSeasons()| && AllSeasons()[i] == e;
      KeyRoundTrip(Order[i]);
    }
  }

  /** Every season appears in the listing. */
  lemma EverySeasonListed(s: Season)
    ensures exists e :: e in AllSeasons() && e.key == Key(s)
  {
    var i := match s case Winter => 0 case Spring => 1 case Summer => 2 case Autumn => 3;
    assert AllSeasons()[i].key == Key(s);
  }
}
