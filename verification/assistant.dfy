/**
 * Answering one question: the gate that recognises an itinerary request, the
 * choice of prompt, the gate that sends the generated plan through the route
 * orderer, the image lookup for ordinary answers, and the assembly of the
 * reply. The language model, the similarity search and the file system are
 * parameters: the generation outcome, the store's hits and a file-existence
 * predicate on image paths.
 */
module Assistant {
  import opened Wrappers
  import opened Text
  import opened Knowledge
  import opened Documents
  import opened RouteOrder
  import opened Retrieval

  // ---------------------------------------------------------------------------
  // Gates
  // ---------------------------------------------------------------------------

  const DailyPlanPhrase: string := "günlük gezi planı oluştur"
  const RoutePhrase: string := "rota oluştur"

  /** The question asks for an itinerary: its lower-cased text contains either trigger phrase. */
  predicate IsRouteRequest(question: string)
  {
    Contains(Lower(question), DailyPlanPhrase) || Contains(Lower(question), RoutePhrase)
  }

  /** Any spelling of a trigger phrase that lower-cases to it makes the question an itinerary request. */
  lemma TriggerSpellings(question: string, written: string)
    requires Contains(question, written)
    requires Lower(written) == DailyPlanPhrase || Lower(written) == RoutePhrase
    ensures IsRouteRequest(question)
  {
    LoweredOccurrence(question, written);
  }

  /**
   * Python lower-cases the capital dotted İ to "i" followed by a combining
   * dot, so a text that writes the daily-plan phrase with that capital where
   * the phrase has its "i" (as in "günlük gezİ planı oluştur") no longer
   * lower-cases to the phrase.
   */
  lemma DottedCapitalMissed(head: string, tail: string)
    requires |head| == 10 && forall i :: 0 <= i < |head| ==> head[i] != 'İ'
    ensures Lower(head + ['İ'] + tail) != DailyPlanPhrase
  {
    LowerConcat(head + ['İ'], tail);
    LowerConcat(head, ['İ']);
    LowerLength(head);
    assert Lower(['İ']) == ['i', '\U{0307}'];
    assert Lower(head + ['İ'] + tail)[11] == '\U{0307}';
    assert DailyPlanPhrase[11] == ' ';
  }

  /** A name a reply may rely on: present and not the empty string, as Python's truth test demands. */
  predicate Truthy(name: Option<string>)
  {
    name.Some? && name.value != ""
  }

  /** The generated text goes through the route orderer only for itinerary requests, with a city, mentioning "Gün". */
  predicate ShouldOrderRoute(routeRequest: bool, city: Option<string>, text: string)
  {
    routeRequest && Truthy(city) && Contains(text, "Gün")
  }

  /** The city named in the prompt: the detected one, or a generic phrase. */
  function PromptCity(city: Option<string>): string
  {
    if Truthy(city) then city.value else "ilgili şehir"
  }

  /** The two prompts; their wording is fixed text around these three inputs. */
  datatype Prompt =
    | ItineraryPrompt(city: string, context: string, question: string)
    | AnswerPrompt(context: string, question: string)

  /** The prompt for a question: the three-day itinerary prompt exactly for itinerary requests. */
  function Compose(question: string, city: Option<string>, context: string): (p: Prompt)
    ensures p.ItineraryPrompt? <==> IsRouteRequest(question)
    ensures p.context == context && p.question == question
    ensures p.ItineraryPrompt? && Truthy(city) ==> p.city == city.value
    ensures p.ItineraryPrompt? && !Truthy(city) ==> p.city == "ilgili şehir"
  {
    if IsRouteRequest(question) then ItineraryPrompt(PromptCity(city), context, question)
    else AnswerPrompt(context, question)
  }

  // ---------------------------------------------------------------------------
  // Images
  // ---------------------------------------------------------------------------

  /** A place whose image goes with `response`: its name occurs in it, ignoring case, and its image file exists. */
  predicate Shows(name: string, p: Place, response: string, fileExists: string -> bool)
  {
    && Contains(Lower(response), Lower(name))
    && p.image.Some? && p.image.value != ""
    && fileExists(p.image.value)
  }

  /** A city whose "Places" key holds something other than an object: iterating it fails. */
  predicate BrokenPlaces(c: City)
  {
    PlacesKey in c.entries && PlacesOf(c).None?
  }

  /** The images of the places `t.keys[j..]`. */
  function PlaceImages(t: Dict<Place>, j: nat, response: string, fileExists: string -> bool): set<string>
    requires t.Valid() && j <= |t.keys|
    decreases |t.keys| - j
  {
    if j == |t.keys| then {}
    else
      assert t.keys[j] in t.keys;
      var p := t.entries[t.keys[j]];
      var rest := PlaceImages(t, j + 1, response, fileExists);
      if Shows(t.keys[j], p, response, fileExists) then {p.image.value} + rest else rest
  }

  /** Every image found among the places `t.keys[j..]` belongs to one of them that goes with `response`. */
  lemma {:induction false} PlaceImagesSound(t: Dict<Place>, j: nat, response: string, fileExists: string -> bool, img: string)
    requires t.Valid() && j <= |t.keys|
    requires img in PlaceImages(t, j, response, fileExists)
    ensures exists k :: j <= k < |t.keys| && t.keys[k] in t.entries
                        && Shows(t.keys[k], t.entries[t.keys[k]], response, fileExists)
                        && t.entries[t.keys[k]].image.value == img
    decreases |t.keys| - j
  {
    assert t.keys[j] in t.keys;
    var p := t.entries[t.keys[j]];
    if !(Shows(t.keys[j], p, response, fileExists) && p.image.value == img) {
      PlaceImagesSound(t, j + 1, response, fileExists, img);
      var k :| j + 1 <= k < |t.keys| && t.keys[k] in t.entries
               && Shows(t.keys[k], t.entries[t.keys[k]], response, fileExists)
               && t.entries[t.keys[k]].image.value == img;
      assert j <= k;
    }
  }

  /** The image of the `k`-th place, when it goes with `response`, is found by the lookup from any earlier place. */
  lemma {:induction false} PlaceImagesComplete(t: Dict<Place>, j: nat, k: nat, response: string, fileExists: string -> bool)
    requires t.Valid() && j <= k < |t.keys|
    requires t.keys[k] in t.entries
    requires Shows(t.keys[k], t.entries[t.keys[k]], response, fileExists)
    ensures t.entries[t.keys[k]].image.value in PlaceImages(t, j, response, fileExists)
    decreases k - j
  {
    if j == k {
      PlaceImagesStep(t, j, response, fileExists);
    } else {
      PlaceImagesComplete(t, j + 1, k, response, fileExists);
      PlaceImagesGrow(t, j, response, fileExists);
    }
  }

  /** The scan from a place finds everything the scan from the next place finds. */
  lemma PlaceImagesGrow(t: Dict<Place>, j: nat, response: string, fileExists: string -> bool)
    requires t.Valid() && j < |t.keys|
    ensures PlaceImages(t, j + 1, response, fileExists) <= PlaceImages(t, j, response, fileExists)
  {
    assert t.keys[j] in t.keys;
  }

  /** One step of the place scan: it keeps what the rest finds and adds the current place's image when it goes with `response`. */
  lemma PlaceImagesStep(t: Dict<Place>, j: nat, response: string, fileExists: string -> bool)
    requires t.Valid() && j < |t.keys|
    ensures t.keys[j] in t.entries
    ensures PlaceImages(t, j + 1, response, fileExists) <= PlaceImages(t, j, response, fileExists)
    ensures Shows(t.keys[j], t.entries[t.keys[j]], response, fileExists)
            ==> t.entries[t.keys[j]].image.value in PlaceImages(t, j, response, fileExists)
  {
    assert t.keys[j] in t.keys;
  }

  /** The images of one city: nothing without "Places", its places' images when "Places" is an object. */
  function CityImages(c: City, response: string, fileExists: string -> bool): (r: Option<set<string>>)
    requires CityWellFormed(c)
    ensures r.None? <==> BrokenPlaces(c)
  {
    if PlacesKey !in c.entries then Some({})
    else
      match PlacesOf(c)
      case None => None
      case Some(t) => Some(PlaceImages(t, 0, response, fileExists))
  }

  /** The `k`-th city of the knowledge base, in file order. */
  function CityAt(kb: KnowledgeBase, k: nat): (c: City)
    requires WellFormed(kb) && k < |kb.keys|
    ensures CityWellFormed(c)
  {
    assert kb.keys[k] in kb.keys;
    kb.entries[kb.keys[k]]
  }

  /** Some city from the `j`-th on has a "Places" value that is not an object. */
  predicate BrokenFrom(kb: KnowledgeBase, j: nat)
    requires WellFormed(kb)
  {
    exists k :: j <= k < |kb.keys| && BrokenPlaces(CityAt(kb, k))
  }

  /** The image lookup over the cities `kb.keys[j..]`: it fails at the first city whose "Places" is not an object. */
  function ImagesFrom(kb: KnowledgeBase, j: nat, response: string, fileExists: string -> bool): Option<set<string>>
    requires WellFormed(kb) && j <= |kb.keys|
    decreases |kb.keys| - j
  {
    if j == |kb.keys| then Some({})
    else
      match CityImages(CityAt(kb, j), response, fileExists)
      case None => None
      case Some(here) =>
        match ImagesFrom(kb, j + 1, response, fileExists)
        case None => None
        case Some(more) => Some(here + more)
  }

  /** One step of the lookup: it fails at the `j`-th city or later. */
  lemma ImagesFromStep(kb: KnowledgeBase, j: nat, response: string, fileExists: string -> bool)
    requires WellFormed(kb) && j < |kb.keys|
    ensures ImagesFrom(kb, j, response, fileExists).None?
            <==> BrokenPlaces(CityAt(kb, j)) || ImagesFrom(kb, j + 1, response, fileExists).None?
  {
  }

  /** A broken city from the `j`-th on is the `j`-th one or one after it. */
  lemma BrokenFromStep(kb: KnowledgeBase, j: nat)
    requires WellFormed(kb) && j < |kb.keys|
    ensures BrokenFrom(kb, j) <==> BrokenPlaces(CityAt(kb, j)) || BrokenFrom(kb, j + 1)
  {
    if BrokenFrom(kb, j) {
      BrokenFromSplits(kb, j);
    }
    if BrokenPlaces(CityAt(kb, j)) || BrokenFrom(kb, j + 1) {
      BrokenFromJoins(kb, j);
    }
  }

  /** A broken city from the `j`-th on is the `j`-th one or comes later. */
  lemma BrokenFromSplits(kb: KnowledgeBase, j: nat)
    requires WellFormed(kb) && j < |kb.keys|
    requires BrokenFrom(kb, j)
    ensures BrokenPlaces(CityAt(kb, j)) || BrokenFrom(kb, j + 1)
  {
    var k :| j <= k < |kb.keys| && BrokenPlaces(CityAt(kb, k));
    if k != j {
      assert j + 1 <= k < |kb.keys| && BrokenPlaces(CityAt(kb, k));
    }
  }

  /** A broken `j`-th city, or a broken later one, is a broken city from the `j`-th on. */
  lemma BrokenFromJoins(kb: KnowledgeBase, j: nat)
    requires WellFormed(kb) && j < |kb.keys|
    requires BrokenPlaces(CityAt(kb, j)) || BrokenFrom(kb, j + 1)
    ensures BrokenFrom(kb, j)
  {
    if BrokenPlaces(CityAt(kb, j)) {
      assert j <= j < |kb.keys|;
    } else {
      var k :| j + 1 <= k < |kb.keys| && BrokenPlaces(CityAt(kb, k));
      assert j <= k < |kb.keys|;
    }
  }

  /** The lookup from the `j`-th city fails exactly when some city from there on has a broken "Places". */
  lemma {:induction false} ImagesFromFails(kb: KnowledgeBase, j: nat, response: string, fileExists: string -> bool)
    requires WellFormed(kb) && j <= |kb.keys|
    ensures ImagesFrom(kb, j, response, fileExists).None? <==> BrokenFrom(kb, j)
    decreases |kb.keys| - j
  {
    if j < |kb.keys| {
      ImagesFromFails(kb, j + 1, response, fileExists);
      ImagesFromFailsStep(kb, j, response, fileExists);
    } else {
      assert ImagesFrom(kb, j, response, fileExists) == Some({});
    }
  }

  /** If the lookup from the next city fails exactly on a broken city, so does the lookup from this one. */
  lemma ImagesFromFailsStep(kb: KnowledgeBase, j: nat, response: string, fileExists: string -> bool)
    requires WellFormed(kb) && j < |kb.keys|
    requires ImagesFrom(kb, j + 1, response, fileExists).None? <==> BrokenFrom(kb, j + 1)
    ensures ImagesFrom(kb, j, response, fileExists).None? <==> BrokenFrom(kb, j)
  {
    ImagesFromStep(kb, j, response, fileExists);
    BrokenFromStep(kb, j);
  }

  /** The image paths that go with an ordinary answer `response`, or `None` when the lookup fails. */
  function Images(kb: KnowledgeBase, response: string, fileExists: string -> bool): (r: Option<set<string>>)
    requires WellFormed(kb)
    ensures r.None? <==> exists k :: 0 <= k < |kb.keys| && BrokenPlaces(CityAt(kb, k))
  {
    ImagesFromFails(kb, 0, response, fileExists);
    ImagesFrom(kb, 0, response, fileExists)
  }

  /** The image of the `m`-th place of the `k`-th city, when that place goes with `response`. */
  ghost predicate PicturedAt(kb: KnowledgeBase, k: nat, m: nat, response: string, fileExists: string -> bool, img: string)
    requires WellFormed(kb)
  {
    && k < |kb.keys|
    && PlacesOf(CityAt(kb, k)).Some?
    && var t := PlacesOf(CityAt(kb, k)).value;
       && m < |t.keys|
       && t.keys[m] in t.entries
       && Shows(t.keys[m], t.entries[t.keys[m]], response, fileExists)
       && t.entries[t.keys[m]].image.value == img
  }

  /** An image of some place of some city, in the sense of `Shows`. */
  ghost predicate Pictured(kb: KnowledgeBase, response: string, fileExists: string -> bool, img: string)
    requires WellFormed(kb)
  {
    exists k: nat, m: nat :: PicturedAt(kb, k, m, response, fileExists, img)
  }

  /** The images of one city are pictures of its places. */
  lemma CityImagesPictured(kb: KnowledgeBase, j: nat, response: string, fileExists: string -> bool, img: string)
    requires WellFormed(kb) && j < |kb.keys|
    requires CityImages(CityAt(kb, j), response, fileExists).Some?
    requires img in CityImages(CityAt(kb, j), response, fileExists).value
    ensures Pictured(kb, response, fileExists, img)
  {
    var t := PlacesOf(CityAt(kb, j)).value;
    PlaceImagesSound(t, 0, response, fileExists, img);
    var m :| 0 <= m < |t.keys| && t.keys[m] in t.entries && Shows(t.keys[m], t.entries[t.keys[m]], response, fileExists)
             && t.entries[t.keys[m]].image.value == img;
    assert PicturedAt(kb, j, m, response, fileExists, img);
  }

  /** Every image the lookup finds is a picture of a place of the knowledge base. */
  lemma {:induction false} ImagesFromSound(kb: KnowledgeBase, j: nat, response: string, fileExists: string -> bool)
    requires WellFormed(kb) && j <= |kb.keys|
    requires ImagesFrom(kb, j, response, fileExists).Some?
    ensures forall img :: img in ImagesFrom(kb, j, response, fileExists).value ==> Pictured(kb, response, fileExists, img)
    decreases |kb.keys| - j
  {
    if j < |kb.keys| {
      ImagesFromSound(kb, j + 1, response, fileExists);
      forall img | img in ImagesFrom(kb, j, response, fileExists).value
        ensures Pictured(kb, response, fileExists, img)
      {
        if img in CityImages(CityAt(kb, j), response, fileExists).value {
          CityImagesPictured(kb, j, response, fileExists, img);
        }
      }
    }
  }

  /** The lookup from an earlier city finds everything the lookup from a later one does. */
  lemma ImagesFromGrows(kb: KnowledgeBase, j: nat, response: string, fileExists: string -> bool)
    requires WellFormed(kb) && j < |kb.keys|
    requires ImagesFrom(kb, j, response, fileExists).Some?
    ensures ImagesFrom(kb, j + 1, response, fileExists).Some?
    ensures ImagesFrom(kb, j + 1, response, fileExists).value <= ImagesFrom(kb, j, response, fileExists).value
  {
  }

  /** The lookup from a city finds the pictures of that city's places. */
  lemma ImagesFromHere(kb: KnowledgeBase, k: nat, m: nat, response: string, fileExists: string -> bool, img: string)
    requires WellFormed(kb) && k < |kb.keys|
    requires ImagesFrom(kb, k, response, fileExists).Some?
    requires PicturedAt(kb, k, m, response, fileExists, img)
    ensures img in ImagesFrom(kb, k, response, fileExists).value
  {
    var t := PlacesOf(CityAt(kb, k)).value;
    PlaceImagesComplete(t, 0, m, response, fileExists);
  }

  /** The lookup from the `j`-th city finds everything the lookup from any later city does. */
  lemma {:induction false} ImagesFromMonotone(kb: KnowledgeBase, j: nat, k: nat, response: string, fileExists: string -> bool)
    requires WellFormed(kb) && j <= k <= |kb.keys|
    requires ImagesFrom(kb, j, response, fileExists).Some?
    ensures ImagesFrom(kb, k, response, fileExists).Some?
    ensures ImagesFrom(kb, k, response, fileExists).value <= ImagesFrom(kb, j, response, fileExists).value
    decreases k - j
  {
    if j < k {
      ImagesFromGrows(kb, j, response, fileExists);
      ImagesFromMonotone(kb, j + 1, k, response, fileExists);
      var far, next, here := ImagesFrom(kb, k, response, fileExists).value,
                             ImagesFrom(kb, j + 1, response, fileExists).value,
                             ImagesFrom(kb, j, response, fileExists).value;
      assert far <= next <= here;
    }
  }

  /**
   * When the lookup does not fail, it finds exactly the existing, non-empty
   * images of the places, in any city, whose names occur in the answer
   * ignoring case.
   */
  lemma ImagesExactly(kb: KnowledgeBase, response: string, fileExists: string -> bool, img: string)
    requires WellFormed(kb)
    requires Images(kb, response, fileExists).Some?
    ensures img in Images(kb, response, fileExists).value <==> Pictured(kb, response, fileExists, img)
  {
    ImagesFromSound(kb, 0, response, fileExists);
    if Pictured(kb, response, fileExists, img) {
      var k: nat, m: nat :| PicturedAt(kb, k, m, response, fileExists, img);
      ImagesFromMonotone(kb, 0, k, response, fileExists);
      ImagesFromHere(kb, k, m, response, fileExists, img);
    }
  }

  // ---------------------------------------------------------------------------
  // The reply
  // ---------------------------------------------------------------------------

  /** What the similarity search did: it raised (embedding the question or querying the store), or it returned hits. */
  datatype Search = SearchRaises | Found(hits: seq<Document>)

  /** What the language model did: it raised, returned no parts at all, or returned a text. */
  datatype Generation = GenerationRaises | NoParts | Generated(text: string)

  /** The answer text: the generated text, an ordered route, or the orderer's refusal. */
  datatype Body = Plain(text: string) | Ordered(route: seq<string>) | Refusal(failure: RouteFailure)

  /**
   * The reply: an answer with its images and the context used; the generic
   * error message (every exception of the request ends here) with the
   * context reached so far; or the start-up failure message.
   */
  datatype Reply =
    | Answered(body: Body, images: set<string>, context: string)
    | ErrorReply(context: string)
    | NotReady

  /** The context reported when the request fails before the store has answered. */
  const NoContext: string := "Bağlam bulunamadı."

  /** The text shown for an answer body. */
  function Message(body: Body): string
  {
    match body
    case Plain(text) => text
    case Ordered(route) => if |route| == 0 then "" else RouteReport(route)
    case Refusal(f) => RefusalMessage(f)
  }

  /** The message used when the model returns no parts. */
  const NoAnswerMessage: string := "Gemini'den bir cevap alınamadı. Lütfen tekrar deneyin."

  /**
   * The route step for a generated text: the orderer's outcome for a plan
   * that qualifies, the text itself otherwise; `None` when the orderer raises.
   */
  function RouteStep(kb: KnowledgeBase, routeRequest: bool, city: Option<string>, text: string): (b: Option<Body>)
    requires WellFormed(kb)
    ensures !ShouldOrderRoute(routeRequest, city, text) ==> b == Some(Plain(text))
    ensures ShouldOrderRoute(routeRequest, city, text) ==>
              (b.None? <==> OrderRoute(kb, city.value, text).RouteRaises?)
    ensures ShouldOrderRoute(routeRequest, city, text) && OrderRoute(kb, city.value, text).Routed? ==>
              b == Some(Ordered(OrderRoute(kb, city.value, text).route))
    ensures ShouldOrderRoute(routeRequest, city, text) && OrderRoute(kb, city.value, text).Refused? ==>
              b == Some(Refusal(OrderRoute(kb, city.value, text).failure))
    ensures b.Some? && b.value.Ordered? ==> ShouldOrderRoute(routeRequest, city, text)
    ensures b.Some? && b.value.Ordered? ==> OrderRoute(kb, city.value, text) == Routed(b.value.route)
    ensures b.Some? && b.value.Refusal? ==> OrderRoute(kb, city.value, text) == Refused(b.value.failure)
    ensures b.None? ==> OrderRoute(kb, city.value, text) == RouteRaises
  {
    if ShouldOrderRoute(routeRequest, city, text) then
      match OrderRoute(kb, city.value, text)
      case Routed(route) => Some(Ordered(route))
      case Refused(f) => Some(Refusal(f))
      case RouteRaises => None
    else Some(Plain(text))
  }

  /**
   * The image step and the reply: images are looked up only for ordinary
   * questions against a non-empty knowledge base; a failing lookup ends in
   * the generic error reply.
   */
  function Attach(kb: KnowledgeBase, routeRequest: bool, context: string, body: Body, fileExists: string -> bool): (r: Reply)
    requires WellFormed(kb)
    ensures r.Answered? || r.ErrorReply?
    ensures r.context == context
    ensures r.Answered? ==> r.body == body
    ensures r.ErrorReply? <==> |kb.keys| > 0 && !routeRequest && Images(kb, Message(body), fileExists).None?
    ensures r.Answered? && (routeRequest || |kb.keys| == 0) ==> r.images == {}
    ensures r.Answered? && !routeRequest && |kb.keys| > 0 ==>
              forall img :: img in r.images <==> Pictured(kb, Message(body), fileExists, img)
  {
    if |kb.keys| > 0 && !routeRequest then
      match Images(kb, Message(body), fileExists)
      case None => ErrorReply(context)
      case Some(images) =>
        forall img ensures img in images <==> Pictured(kb, Message(body), fileExists, img) {
          ImagesExactly(kb, Message(body), fileExists, img);
        }
        Answered(body, images, context)
    else Answered(body, {}, context)
  }

  /**
   * What a generated `text` becomes, stated without the steps: the error
   * reply exactly when the orderer raises on a qualifying plan or, for an
   * ordinary question, when some city's "Places" is not an object; otherwise
   * the text itself or the orderer's outcome, with no images for an itinerary
   * request and exactly the pictured places' images for an ordinary one.
   */
  ghost predicate Outcome(kb: KnowledgeBase, routeRequest: bool, city: Option<string>, context: string, text: string,
                          fileExists: string -> bool, r: Reply)
    requires WellFormed(kb)
  {
    && (r.Answered? || r.ErrorReply?)
    && r.context == context
    && (r.ErrorReply? <==>
          if ShouldOrderRoute(routeRequest, city, text) then OrderRoute(kb, city.value, text).RouteRaises?
          else !routeRequest && BrokenFrom(kb, 0))
    && (r.Answered? && !ShouldOrderRoute(routeRequest, city, text) ==> r.body == Plain(text))
    && (r.Answered? && ShouldOrderRoute(routeRequest, city, text) && OrderRoute(kb, city.value, text).Routed? ==>
          r.body == Ordered(OrderRoute(kb, city.value, text).route))
    && (r.Answered? && ShouldOrderRoute(routeRequest, city, text) && OrderRoute(kb, city.value, text).Refused? ==>
          r.body == Refusal(OrderRoute(kb, city.value, text).failure))
    && (r.Answered? && routeRequest ==> r.images == {})
    && (r.Answered? && !routeRequest ==> forall img :: img in r.images <==> Pictured(kb, text, fileExists, img))
  }

  /** No city means no pictures. */
  lemma NothingPictured(kb: KnowledgeBase, response: string, fileExists: string -> bool, img: string)
    requires WellFormed(kb) && |kb.keys| == 0
    ensures !Pictured(kb, response, fileExists, img)
  {
  }

  /** The steps after generation, for a generated text. */
  function Finish(kb: KnowledgeBase, routeRequest: bool, city: Option<string>, context: string, text: string,
                  fileExists: string -> bool): (r: Reply)
    requires WellFormed(kb)
    ensures Outcome(kb, routeRequest, city, context, text, fileExists, r)
  {
    match RouteStep(kb, routeRequest, city, text)
    case None => ErrorReply(context)
    case Some(body) =>
      forall img ensures !(|kb.keys| == 0 && Pictured(kb, text, fileExists, img)) {
        if |kb.keys| == 0 {
          NothingPictured(kb, text, fileExists, img);
        }
      }
      Attach(kb, routeRequest, context, body, fileExists)
  }

  /**
   * One question, as the code is written: the start-up gate, the search, the
   * generation, then `Finish`. When the model returns no parts the generated
   * text is never bound, and reading it raises.
   */
  function AskAsWritten(kb: KnowledgeBase, ready: bool, question: string, search: Search, generation: Generation,
                        fileExists: string -> bool): (r: Reply)
    requires WellFormed(kb)
    ensures !ready <==> r.NotReady?
    ensures ready && search.SearchRaises? ==> r == ErrorReply(NoContext)
    ensures ready && search.Found? ==> r.context == Context(Answer(search.hits).0)
    ensures ready && search.Found? && !generation.Generated? ==> r.ErrorReply?
    ensures ready && search.Found? && generation.Generated? ==>
              Outcome(kb, IsRouteRequest(question), DetectCity(Answer(search.hits).1), Context(Answer(search.hits).0),
                      generation.text, fileExists, r)
  {
    if !ready then NotReady
    else
      match search
      case SearchRaises => ErrorReply(NoContext)
      case Found(hits) =>
        var answer := Answer(hits);
        var context := Context(answer.0);
        var city := DetectCity(answer.1);
        match generation
        case GenerationRaises => ErrorReply(context)
        case NoParts => ErrorReply(context)
        case Generated(text) => Finish(kb, IsRouteRequest(question), city, context, text, fileExists)
  }

  /** Whatever the question and the hits, a generation without parts ends in the generic error reply. */
  lemma NoPartsAlwaysFails(kb: KnowledgeBase, question: string, hits: seq<Document>, fileExists: string -> bool)
    requires WellFormed(kb)
    ensures AskAsWritten(kb, true, question, Found(hits), NoParts, fileExists) == ErrorReply(Context(Answer(hits).0))
  {
  }

  /**
   * One question, with the missing-parts case handled as intended: the
   * no-answer message becomes the answer text and the route step is skipped.
   */
  function Ask(kb: KnowledgeBase, ready: bool, question: string, search: Search, generation: Generation,
               fileExists: string -> bool): (r: Reply)
    requires WellFormed(kb)
    ensures !ready <==> r.NotReady?
    ensures ready && search.SearchRaises? ==> r == ErrorReply(NoContext)
    ensures ready && search.Found? ==> r.context == Context(Answer(search.hits).0)
    ensures ready && search.Found? && generation.GenerationRaises? ==> r.ErrorReply?
    ensures ready && search.Found? && generation.Generated? ==>
              Outcome(kb, IsRouteRequest(question), DetectCity(Answer(search.hits).1), Context(Answer(search.hits).0),
                      generation.text, fileExists, r)
  {
    if !ready then NotReady
    else
      match search
      case SearchRaises => ErrorReply(NoContext)
      case Found(hits) =>
        var answer := Answer(hits);
        var context := Context(answer.0);
        var city := DetectCity(answer.1);
        match generation
        case GenerationRaises => ErrorReply(context)
        case NoParts => Attach(kb, IsRouteRequest(question), context, Plain(NoAnswerMessage), fileExists)
        case Generated(text) => Finish(kb, IsRouteRequest(question), city, context, text, fileExists)
  }

  /** The intended handling changes only the missing-parts case. */
  lemma AskDiffersOnlyOnNoParts(kb: KnowledgeBase, ready: bool, question: string, search: Search, generation: Generation,
                                fileExists: string -> bool)
    requires WellFormed(kb)
    ensures AskAsWritten(kb, ready, question, search, generation, fileExists) != Ask(kb, ready, question, search, generation, fileExists)
            ==> ready && search.Found? && generation.NoParts?
  {
  }

  /**
   * With the intended handling, a generation without parts answers with the
   * no-answer message, unless the question is an ordinary one and some
   * city's "Places" is not an object; the answer carries the images of the
   * places the message names.
   */
  lemma NoPartsAnswersNoAnswerMessage(kb: KnowledgeBase, question: string, hits: seq<Document>, fileExists: string -> bool)
    requires WellFormed(kb)
    ensures var r := Ask(kb, true, question, Found(hits), NoParts, fileExists);
            r.ErrorReply? || (r.Answered? && r.body == Plain(NoAnswerMessage))
    ensures Ask(kb, true, question, Found(hits), NoParts, fileExists).ErrorReply?
            <==> !IsRouteRequest(question) && BrokenFrom(kb, 0)
  {
  }

  /**
   * An ordered route is returned exactly for an itinerary request whose
   * detected city is a non-empty name, whose generated text mentions "Gün",
   * and whose plan the orderer turns into a route (`OrderRouteIsGreedy` says
   * what that route is); such a reply carries no images.
   */
  lemma OrderedReplies(kb: KnowledgeBase, question: string, hits: seq<Document>, text: string, fileExists: string -> bool)
    requires WellFormed(kb)
    ensures var r := Ask(kb, true, question, Found(hits), Generated(text), fileExists);
            var city := DetectCity(Answer(hits).1);
            r.Answered? && r.body.Ordered?
            <==> ShouldOrderRoute(IsRouteRequest(question), city, text) && OrderRoute(kb, city.value, text).Routed?
    ensures var r := Ask(kb, true, question, Found(hits), Generated(text), fileExists);
            var city := DetectCity(Answer(hits).1);
            r.Answered? && r.body.Ordered? ==>
              && city.value in kb.entries
              && r.images == {}
              && r.body.route == OrderRoute(kb, city.value, text).route
  {
  }
}
