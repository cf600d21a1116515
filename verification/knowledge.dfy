/**
 * The travel knowledge base as the program loads it from its JSON file: an
 * object keyed by city name; each city is an object whose keys are category
 * names (lists of place names) plus two reserved keys, "Days" (day key to the
 * list of that day's activities) and "Places" (place name to its details).
 */
module Knowledge {
  import opened Wrappers

  /** A JSON object: its keys in insertion order (Python dicts keep it) and its entries. */
  datatype Dict<V> = Dict(keys: seq<string>, entries: map<string, V>)
  {
    /** Exactly the keys of the entry map are listed, each once. */
    predicate Valid()
    {
      && (forall k :: k in keys ==> k in entries)
      && (forall i, j :: 0 <= i < j < |keys| ==> keys[i] != keys[j])
      && |keys| == |entries|
    }
  }

  /** A coordinate entry of a place: no key, a JSON number (booleans count, as in Python), or any other JSON value. */
  datatype Coordinate = Missing | Number(value: real) | NotNumber

  /** The details of one place; every attribute is optional. */
  datatype Place = Place(
    description: Option<string>,
    tips: Option<string>,
    latitude: Coordinate,
    longitude: Coordinate,
    image: Option<string>)

  /** A value stored under one key of a city object. */
  datatype Field =
    | Listing(names: seq<string>)                 // a JSON list of strings
    | DayTable(days: Dict<seq<string>>)           // a JSON object of day key -> activities
    | PlaceTable(places: Dict<Place>)             // a JSON object of place name -> details
    | Scalar                                      // any other JSON value

  const DaysKey: string := "Days"
  const PlacesKey: string := "Places"

  /** The keys that never name a category. */
  predicate Reserved(key: string)
  {
    key == DaysKey || key == PlacesKey
  }

  type City = Dict<Field>

  type KnowledgeBase = Dict<City>

  /**
   * The shape a loaded city has: a valid object, in which a JSON object under
   * "Days" is read as a day table and one under "Places" as a place table,
   * both valid objects themselves.
   */
  predicate CityWellFormed(c: City)
  {
    && c.Valid()
    && (DaysKey in c.entries ==> !c.entries[DaysKey].PlaceTable?)
    && (PlacesKey in c.entries ==> !c.entries[PlacesKey].DayTable?)
    && (DaysOf(c).Some? ==> DaysOf(c).value.Valid())
    && (PlacesOf(c).Some? ==> PlacesOf(c).value.Valid())
  }

  /** A loaded knowledge base: a valid object of well-formed cities. */
  predicate WellFormed(kb: KnowledgeBase)
  {
    && kb.Valid()
    && forall name :: name in kb.entries ==> CityWellFormed(kb.entries[name])
  }

  /** Both coordinate keys are present (what the route orderer tests, whatever their values). */
  predicate HasCoordinateKeys(p: Place)
  {
    p.latitude != Missing && p.longitude != Missing
  }

  /** The place's position when both coordinates are numbers (what the document builder tests). */
  function Position(p: Place): (pos: Option<(real, real)>)
    ensures pos.Some? ==> HasCoordinateKeys(p)
  {
    if p.latitude.Number? && p.longitude.Number? then Some((p.latitude.value, p.longitude.value)) else None
  }

  /** The "Places" table of a city, when the key is there and holds an object. */
  function PlacesOf(c: City): Option<Dict<Place>>
  {
    if PlacesKey in c.entries && c.entries[PlacesKey].PlaceTable? then Some(c.entries[PlacesKey].places) else None
  }

  /** The "Days" table of a city, when the key is there and holds an object. */
  function DaysOf(c: City): Option<Dict<seq<string>>>
  {
    if DaysKey in c.entries && c.entries[DaysKey].DayTable? then Some(c.entries[DaysKey].days) else None
  }
}
