/**
 * What a question retrieves: the optional location filter built from the
 * user's "lat, lon" text, the context string made of the retrieved documents,
 * and the city read off the first retrieved document. The similarity search
 * itself belongs to the vector store; here it is a list of hits the store is
 * assumed to return under the contract `StoreAnswer`.
 */
module Retrieval {
  import opened Wrappers
  import opened Text
  import opened Knowledge
  import opened Documents

  /** Half the side of the search box, in degrees (about 1.6 km). */
  const BoxHalfWidth: real := 0.015

  /** How many documents one search returns at most. */
  const MaxHits: nat := 10

  datatype Range = Range(low: real, high: real)

  /** The store's `where` clause: both attributes inside their closed ranges. */
  datatype LocationFilter = LocationFilter(latitude: Range, longitude: Range)

  function Around(center: real): (r: Range)
    ensures r.high - r.low == 2.0 * BoxHalfWidth
    ensures r.low < center < r.high
  {
    Range(center - BoxHalfWidth, center + BoxHalfWidth)
  }

  /**
   * The filter for a location text: nothing for no text or an empty one;
   * otherwise the text must split at commas into exactly two pieces, each of
   * which, stripped, Python's `float` accepts (`parse`); any failure means no
   * filter at all.
   */
  function BuildFilter(location: Option<string>, parse: string -> Option<real>): (f: Option<LocationFilter>)
    ensures location.None? || location == Some("") ==> f.None?
    ensures f.Some? ==> location.Some? && |Split(location.value, ',')| == 2
  {
    match location
    case None => None
    case Some(text) =>
      if text == "" then None
      else
        var pieces := Split(text, ',');
        if |pieces| != 2 then None
        else
          match (parse(Strip(pieces[0])), parse(Strip(pieces[1])))
          case (Some(lat), Some(lon)) => Some(LocationFilter(Around(lat), Around(lon)))
          case _ => None
  }

  /** "lat,lon" with two parseable halves gives the box around that point. */
  lemma BuildFilterAccepts(latText: string, lonText: string, parse: string -> Option<real>, lat: real, lon: real)
    requires ',' !in latText && ',' !in lonText
    requires parse(Strip(latText)) == Some(lat) && parse(Strip(lonText)) == Some(lon)
    ensures BuildFilter(Some(latText + "," + lonText), parse) == Some(LocationFilter(Around(lat), Around(lon)))
  {
    var text := latText + "," + lonText;
    assert Join([latText, lonText], [',']) == text;
    SplitJoin([latText, lonText], ',');
  }

  /** A location text without a comma never filters. */
  lemma BuildFilterNeedsComma(text: string, parse: string -> Option<real>)
    requires ',' !in text
    ensures BuildFilter(Some(text), parse) == None
  {
    SplitJoin([text], ',');
    assert Join([text], [',']) == text;
  }

  /** A location text with a half that does not parse never filters. */
  lemma BuildFilterNeedsNumbers(latText: string, lonText: string, parse: string -> Option<real>)
    requires ',' !in latText && ',' !in lonText
    requires parse(Strip(latText)).None? || parse(Strip(lonText)).None?
    ensures BuildFilter(Some(latText + "," + lonText), parse) == None
  {
    assert Join([latText, lonText], [',']) == latText + "," + lonText;
    SplitJoin([latText, lonText], ',');
  }

  predicate InRange(r: Range, x: real)
  {
    r.low <= x <= r.high
  }

  /**
   * Which stored documents a filtered search may return: those whose
   * attributes carry a position inside both ranges. Overviews, and places
   * without two numeric coordinates, carry no position and never match.
   */
  predicate Admits(f: LocationFilter, meta: Metadata)
  {
    meta.position.Some? && InRange(f.latitude, meta.position.value.0) && InRange(f.longitude, meta.position.value.1)
  }

  function Abs(x: real): real
  {
    if x < 0.0 then -x else x
  }

  /** The box is the set of positions at most 0.015 degrees off the user in each coordinate, edges included. */
  lemma AdmitsIffWithinBox(lat: real, lon: real, meta: Metadata)
    ensures Admits(LocationFilter(Around(lat), Around(lon)), meta)
            <==> meta.position.Some?
                 && Abs(meta.position.value.0 - lat) <= BoxHalfWidth
                 && Abs(meta.position.value.1 - lon) <= BoxHalfWidth
  {
  }

  /** A place exactly on the edge of the box is found; one a little beyond it is not. */
  lemma BoxEdge(lat: real, lon: real, city: string, place: string)
    ensures Admits(LocationFilter(Around(lat), Around(lon)),
                   Metadata(city, PlaceDetail, Some(place), Some((lat + 0.015, lon - 0.015))))
    ensures !Admits(LocationFilter(Around(lat), Around(lon)),
                    Metadata(city, PlaceDetail, Some(place), Some((lat + 0.0151, lon))))
  {
  }

  /**
   * What the code relies on from the store: at most ten hits, each a stored
   * document, each admitted by the filter when there is one.
   */
  predicate StoreAnswer(stored: seq<Document>, filter: Option<LocationFilter>, hits: seq<Document>)
  {
    && |hits| <= MaxHits
    && (forall h :: h in hits ==> h in stored)
    && (filter.Some? ==> forall h :: h in hits ==> Admits(filter.value, h.meta))
  }

  /** The message used when the store's answer holds no document list at all. */
  const NoInformation: string := "Bilgi bulunamadı."

  const ContextSeparator: string := "\n\n---\n\n"

  /**
   * The context handed to the model: the texts of the first query's hits
   * joined by a rule line. The placeholder appears only when the answer has
   * no list at all; an empty hit list gives an empty context.
   */
  function Context(documents: seq<seq<string>>): (c: string)
    ensures |documents| == 0 ==> c == NoInformation
    ensures |documents| > 0 && |documents[0]| == 0 ==> c == ""
    ensures |documents| > 0 ==> forall i :: 0 <= i < |documents[0]| ==> Contains(c, documents[0][i])
    ensures |documents| > 0 && |documents[0]| == 1 ==> c == documents[0][0]
    ensures |documents| > 0 && |documents[0]| >= 2 ==>
              && documents[0][0] + ContextSeparator <= c
              && var last := documents[0][|documents[0]| - 1];
                 |ContextSeparator| + |last| <= |c| && c[|c| - |ContextSeparator| - |last|..] == ContextSeparator + last
  {
    if |documents| == 0 then NoInformation
    else
      JoinContainsParts(documents[0], ContextSeparator);
      if |documents[0]| >= 2 then
        JoinEnds(documents[0], ContextSeparator);
        Join(documents[0], ContextSeparator)
      else Join(documents[0], ContextSeparator)
  }

  /**
   * The city of the first hit of the first query, read from its
   * "source_city" attribute, when there is a first hit.
   */
  function DetectCity(metadatas: seq<seq<Metadata>>): (city: Option<string>)
    ensures city.Some? <==> |metadatas| > 0 && |metadatas[0]| > 0
  {
    if |metadatas| > 0 && |metadatas[0]| > 0 then Some(metadatas[0][0].city) else None
  }

  /** The store's answer in the shape the code reads it: one list of texts and one of attributes. */
  function Answer(hits: seq<Document>): (seq<seq<string>>, seq<seq<Metadata>>)
  {
    ([seq(|hits|, i requires 0 <= i < |hits| => hits[i].text)],
     [seq(|hits|, i requires 0 <= i < |hits| => hits[i].meta)])
  }

  /**
   * The city read off the hits of a search is a city of the knowledge base
   * `built` the collection was built from, and there is one exactly when there
   * is a hit. A collection kept from an earlier run was built from whatever
   * file was loaded then, which need not be the one loaded now.
   */
  lemma DetectedCityKnown(built: KnowledgeBase, filter: Option<LocationFilter>, hits: seq<Document>)
    requires WellFormed(built)
    requires StoreAnswer(Build(built), filter, hits)
    ensures DetectCity(Answer(hits).1).Some? <==> |hits| > 0
    ensures DetectCity(Answer(hits).1).Some? ==> DetectCity(Answer(hits).1).value in built.entries
  {
    if |hits| > 0 {
      assert hits[0] in hits;
      BuildDescribes(built);
    }
  }

  /**
   * With a location filter, the context is made only of detail documents of
   * places, of the knowledge base `built` the collection was built from, whose
   * coordinates lie inside the box: overview documents carry no coordinates,
   * so the filter never admits them.
   */
  lemma FilteredHitsAreNearbyPlaces(built: KnowledgeBase, f: LocationFilter, hits: seq<Document>)
    requires WellFormed(built)
    requires StoreAnswer(Build(built), Some(f), hits)
    ensures forall i :: 0 <= i < |hits| ==>
              && Admits(f, hits[i].meta)
              && hits[i].meta.kind == PlaceDetail
              && hits[i].meta.city in built.entries
              && PlacesOf(built.entries[hits[i].meta.city]).Some?
              && hits[i].meta.place.Some?
              && hits[i].meta.place.value in PlacesOf(built.entries[hits[i].meta.city]).value.entries
  {
    BuildDescribes(built);
    forall i | 0 <= i < |hits|
      ensures Admits(f, hits[i].meta) && Describes(built, hits[i])
    {
      assert hits[i] in hits;
    }
  }
}
