# Travel assistant core, modelled in Dafny

The modelled program is a retrieval-augmented travel assistant (`app.py`). It
answers questions about cities from a JSON knowledge base. The model covers its
deterministic core:

- **Document builder** (`Documents`, `DayOrder`). On first start, the
  knowledge base becomes one overview document per city and one detail
  document per place. A single run-wide counter numbers them all. Day keys are
  sorted: digit keys by their integer value, the others after them. A place's
  categories are the list-valued, non-reserved keys that name it. A place
  carries a position attribute only when both of its coordinates are numbers.
- **Location filter and retrieval** (`Retrieval`). A `"lat,lon"` text becomes
  an inclusive box of ±0.015 degrees. Any malformed text gives no filter
  rather than an error. The retrieved texts are joined into the prompt
  context, and the city of the first hit is taken as the detected city.
- **Route orderer** (`RouteOrder`). Place names are pulled out of a generated
  day plan, at most one new name per sentence. They are then reordered by a
  greedy nearest-neighbour walk over squared Euclidean distance. The model
  includes the three refusal messages and the numbered route report.
- **Request gates and reply** (`Assistant`).
  - A question is an itinerary request when its lower-cased text contains
    either trigger phrase.
  - The route orderer runs only for such a request, with a detected city, on
    a text that mentions "Gün".
  - Images are looked up only for other questions.
  - Every exception of a request ends in the generic error reply.
- **Shared modules.** `Text` holds the Python string operations the code
  relies on (`in`, `lower`, `split`, `strip`, `join`, `replace`, `isdigit`).
  `Knowledge` holds the shape of the loaded JSON. `Wrappers` holds `Option`.

The model treats the language model, the embedding model, the vector store and
the file system as parameters:

- the generation outcome (`Generation`: it raised, returned no parts, or returned a text);
- the outcome of the search (`Search`: embedding the question or querying the store raised, or the store returned hits, under the contract `StoreAnswer`);
- a file-existence predicate on image paths;
- the parse of a coordinate text.

JSON objects are `Dict` values, which keep Python's key insertion order.

Some behaviour of the code is easy to misread. When the store returns an
empty hit list, the context is the empty string. The "Bilgi bulunamadı."
placeholder appears only when the answer holds no document list at all. An empty-string place name chosen as the
nearest stop is treated as "nothing found", as Python's truth test does
(`Walk`). The greedy-route guarantee is therefore stated for mention lists
without an empty name (`NoEmptyName`).

## Model

| member | source | states |
|---|---|---|
| Text.ContainsIffOccurs | app.py:61 | Python's substring test holds exactly when the pattern occurs at some position |
| Text.LoweredOccurrence | app.py:330 | a text containing `w` still contains `w` after both are lower-cased |
| Text.LowerLength | app.py:330 | lower-casing keeps the length of a text without the capital dotted İ |
| Text.LowerConcat | app.py:330 | lower-casing distributes over concatenation |
| Text.JoinContainsParts | app.py:315 | a joined text contains every part |
| Text.JoinEnds | app.py:315 | a join of two or more parts starts with the first part followed by the separator and ends with the separator followed by the last part |
| Text.Split | app.py:277 | `split` gives at least one piece, no piece holds the separator, and joining the pieces gives back the text |
| Text.SplitJoin | app.py:277 | splitting a join of separator-free parts gives back exactly those parts |
| Text.ReplaceChar | app.py:57 | `replace` of one character changes exactly the occurrences of that character and keeps the length |
| Text.StripSpec | app.py:278-279 | `strip` removes only whitespace, from both ends, and leaves no whitespace at either end |
| Text.Decimal | app.py:193 | the decimal rendering of a counter is all digits, reads back as the same number, and has no leading zero except for "0" itself |
| DayOrder.SortDays | app.py:185 | the sorted day keys are ordered by rank (integer value, non-digit keys last), are a permutation of the keys, and keep the original order among keys of equal rank |
| DayOrder.InsertSorted | app.py:185 | inserting a key into a rank-sorted list keeps it sorted |
| DayOrder.InsertWithRank | app.py:185 | insertion places a key in front of the keys of its rank already present; the sort inserts each key into the sorted rest of the list, so the original order within a rank is kept |
| DayOrder.DigitKeysFirst | app.py:185 | in the sorted keys, digit keys precede the others and appear in ascending numeric order |
| Documents.IdTextInjective | app.py:193 | two different ids never render to the same id string |
| Documents.LinesContain | app.py:183-189 | a text built line by line contains every line followed by its line break |
| Documents.DayLines | app.py:184-186 | one day line per key of the "Days" object, and none when "Days" is missing or not an object |
| Documents.DayLinesListEveryDay | app.py:185-186 | every day key gets its line "**d. Gün:** activities joined by commas" |
| Documents.DayLinesInDayOrder | app.py:185-186 | the day lines follow a rearrangement of the day keys that is sorted by day number, with equal-ranked keys kept in their key order, and line i renders the i-th day of it |
| Documents.CategoryKeys | app.py:188-189 | the category keys are exactly the keys that are neither "Days" nor "Places" and hold a list, without repeats |
| Documents.CategoryKeysInOrder | app.py:188-189 | each category key sits at a position of the key list, these positions strictly ascend, and every key position that holds a category is among them, so the category keys keep key order |
| Documents.CategorySectionLines | app.py:188-189 | line i of the section is the category line of the i-th category key, listing that category's places |
| Documents.OverviewHead | app.py:183-187 | the overview starts with "# Şehir: " and the city, a blank line and "## Günlük Planlar", then the day lines in order, then a blank line |
| Documents.OverviewListsCategories | app.py:187-189 | the overview ends with the "## Aktivite Kategorileri" heading followed by exactly one line per category key, in category-key order, each listing that category's places |
| Documents.PlaceListsCategories | app.py:199-206 | a place text has a "Kategoriler:" line exactly when the place has a category, and it is then the last line; description and tip lines appear when those attributes are present |
| Documents.PlaceCategories | app.py:202-205 | a place's categories are exactly the non-reserved, list-valued keys whose list names it |
| Documents.CityEntries | app.py:181-227 | a city contributes its overview first, then one entry per place in key order when "Places" is an object |
| Documents.LayoutFrom | app.py:181-227 | the build yields one document per city plus one per place of each city |
| Documents.CityInLayoutFrom | app.py:181-194 | every city contributes its overview entry |
| Documents.LayoutRenderable | app.py:181-227 | every entry of the build refers to a known city and, for a detail, one of its places |
| Documents.Layout | app.py:181-227 | the document count is the number of cities plus the number of places of cities whose "Places" is an object |
| Documents.Build | app.py:179-227 | the n-th document carries counter n, so one counter runs across all cities and both kinds |
| Documents.Columns | app.py:235 | the three lists handed to the store are aligned with the documents |
| Documents.BuildDescribes | app.py:192-221 | each document names a known city; an overview carries no place and no position; a detail carries a position exactly when both coordinates are numbers |
| Documents.BuildIdsDistinct | app.py:193-226 | no two documents share an id |
| Documents.PlaceInLayoutFrom | app.py:197-198 | every place of a city with a "Places" object gets a detail entry |
| Documents.BuildPlaceAt | app.py:196-227 | the document built from a place entry carries that city and that place name, and its text is the place text rendered from that place's entry and the categories that list it |
| Documents.PlaceCovered | app.py:196-227 | every place of every city with a "Places" object has a detail document whose text renders that place's entry and categories |
| Documents.CityCovered | app.py:181-194 | every city of the knowledge base has an overview document whose text is that city's overview text and whose metadata names the city and the overview type |
| RouteOrder.Sentences | app.py:57 | line breaks become spaces and the text is cut at every full stop; no piece contains a full stop or line break |
| RouteOrder.FirstFresh | app.py:60-63 | within a sentence, the first place in key order that occurs and is not yet taken is chosen; none when no such place exists |
| RouteOrder.Extract | app.py:59-63 | each sentence adds at most one name; names already taken stay in front; new names are place keys; no duplicates |
| RouteOrder.Mentions | app.py:56-63 | the mentions are distinct place keys, at most one per sentence |
| RouteOrder.TracedSkip | app.py:59-63 | a first sentence without an untaken place name adds nothing, and the other sentences add what they added before |
| RouteOrder.TracedTake | app.py:59-63 | a first sentence with an untaken place name adds the first such name in key order, ahead of what the other sentences add |
| RouteOrder.ExtractTraced | app.py:59-63 | each added name comes from its own sentence; those sentences come in text order; each adds its first untaken name in key order given the names before it; every other sentence holds no untaken name |
| RouteOrder.MentionsTraced | app.py:56-63 | each mention occurs in a sentence of the plan, later mentions come from later sentences, and each is the first untaken place name of its sentence |
| RouteOrder.ExtractNothing | app.py:59-63 | extraction adds nothing exactly when no sentence contains an untaken place name |
| RouteOrder.MentionsEmpty | app.py:59-66 | the plan mentions no place exactly when no sentence contains any place name |
| RouteOrder.MentionsKnown | app.py:60-62 | every mention is a key of the place table |
| RouteOrder.SquaredDistance | app.py:43-45 | the squared distance is non-negative and zero from a point to itself |
| RouteOrder.ScanStep | app.py:84-91 | one iteration of the search keeps the best-so-far invariant |
| RouteOrder.ScanFrom | app.py:84-91 | the search fails exactly when a looked-at place or the current position has non-numeric coordinates; otherwise it finds nothing exactly when no place has both keys |
| RouteOrder.Nearest | app.py:81-91 | the pick is a place with minimal distance, strictly closer than every earlier candidate, so ties go to the earliest |
| RouteOrder.RemoveAt | app.py:97 | removing the chosen stop keeps the others in order and drops exactly one occurrence |
| RouteOrder.RemoveAtKeeps | app.py:97 | removing a stop leaves distinct names that are all keys of the place table |
| RouteOrder.WalkMoves | app.py:93-97 | when the search picks a named place, the walk appends it, drops it from the remaining places and continues from its position |
| RouteOrder.Walk | app.py:80-100 | the walk keeps the route so far as a prefix and its result is a permutation of route plus remaining places |
| RouteOrder.Unvisited | app.py:76 | the not-yet-visited places are mentioned places, none of them visited, without repeats |
| RouteOrder.UnvisitedComplete | app.py:76 | every mentioned place not yet visited is still to be visited |
| RouteOrder.UnvisitedKeepsOrder | app.py:76 | the places still to be visited keep their mention order |
| RouteOrder.UnvisitedIgnores | app.py:97 | visiting a name outside the list leaves the unvisited list unchanged |
| RouteOrder.UnvisitedStep | app.py:97 | visiting the i-th unvisited place is the same as removing it from the remaining list |
| RouteOrder.UnvisitedNone | app.py:76 | before any visit, the remaining list is the mention list itself |
| RouteOrder.IndexOf | app.py:97 | the first position of a name in a list |
| RouteOrder.KnownUnvisited | app.py:85 | every unvisited place is a key of the place table |
| RouteOrder.GreedyStepsExtend | app.py:94 | appending a stop keeps the earlier greedy steps greedy |
| RouteOrder.GreedyFinish | app.py:98-100 | appending the remaining places, none with both keys, completes a nearest-neighbour route |
| RouteOrder.GreedyAdvance | app.py:93-97 | appending the nearest remaining place is a greedy step and leaves the rest as the unvisited list |
| RouteOrder.WalkGreedy | app.py:80-100 | for mentions without an empty name, a successful walk gives a greedy nearest-neighbour route through the mentions |
| RouteOrder.OrderRoute | app.py:47-100 | an unknown city, an empty knowledge base or a missing "Places" gives the insufficient-data refusal; a non-object "Places" fails; the unparsable refusal carries the text |
| RouteOrder.OrderRouteRefusals | app.py:65-72 | the plan is refused as unparsable exactly when it mentions no place, and for missing coordinates exactly when the first mention lacks a coordinate key |
| RouteOrder.OrderRouteIsGreedy | app.py:68-100 | a route starts at the first mention and is a permutation of the mentions; when no mentioned place is named by the empty string it is also a greedy nearest-neighbour route |
| RouteOrder.WalkNeverRaises | app.py:86-87 | with numeric coordinates wherever both keys are present, the walk never fails |
| RouteOrder.OrderRouteNeverRaises | app.py:47-100 | with a "Places" object and numeric coordinates wherever both keys are present, the orderer never fails |
| RouteOrder.StopLines | app.py:103-104 | one line per stop, the i-th numbered i+1 |
| RouteOrder.RouteReportNamesStart | app.py:102 | the report's heading names the starting place |
| RouteOrder.RouteReportListsStops | app.py:102-104 | the report contains every numbered stop line |
| RouteOrder.RefusalMessage | app.py:51-72 | each refusal message contains the city, the raw plan text or the start place it is about |
| Retrieval.Around | app.py:281-284 | each range is 0.03 degrees wide and contains the user's coordinate strictly inside |
| Retrieval.BuildFilter | app.py:275-288 | no location or an empty one gives no filter; a filter requires exactly two comma-separated pieces |
| Retrieval.BuildFilterAccepts | app.py:277-286 | two parseable halves give the box around that point |
| Retrieval.BuildFilterNeedsComma | app.py:277-288 | a text without a comma gives no filter and no error |
| Retrieval.BuildFilterNeedsNumbers | app.py:278-288 | a half that does not parse gives no filter and no error |
| Retrieval.AdmitsIffWithinBox | app.py:281-284 | the filter admits exactly the positions at most 0.015 degrees off in each coordinate, edges included |
| Retrieval.BoxEdge | app.py:281-284 | a place exactly on the box edge is admitted; one just beyond it is not |
| Retrieval.Context | app.py:315 | the context is the placeholder only without a document list, empty for an empty hit list, exactly the text of a single hit, and otherwise starts with the first hit's text and the "---" separator, ends with the separator and the last hit's text, and contains every hit's text |
| Retrieval.DetectCity | app.py:319-323 | a city is detected exactly when there is a first hit |
| Retrieval.DetectedCityKnown | app.py:298-323 | a detected city is a city of the knowledge base the collection was built from, and one is detected exactly when the search has a hit |
| Retrieval.FilteredHitsAreNearbyPlaces | app.py:300-305 | with a location filter, every hit is a detail document of a place of the knowledge base the collection was built from, with a position inside the box |
| Assistant.TriggerSpellings | app.py:330 | any spelling of a trigger phrase that lower-cases to it makes the question an itinerary request |
| Assistant.DottedCapitalMissed | app.py:330 | a text that writes the daily-plan phrase with a capital dotted İ in place of its "i" no longer lower-cases to the phrase, since Python lower-cases İ to two characters |
| Assistant.Compose | app.py:328-366 | the itinerary prompt is chosen exactly for itinerary requests and names the detected city when it is a non-empty name, else "ilgili şehir"; both prompts carry the context and the question |
| Assistant.CityImages | app.py:391-392 | a city's lookup fails exactly when its "Places" is present but not an object |
| Assistant.PlaceImagesSound | app.py:392-396 | every image found among a city's places is the image of one of them whose name occurs in the answer ignoring case and whose non-empty image file exists |
| Assistant.PlaceImagesStep | app.py:392-396 | one place of the scan keeps the images the later places give and adds its own image when it goes with the answer |
| Assistant.PlaceImagesGrow | app.py:392-396 | the scan from a place finds everything the scan from the next place finds |
| Assistant.CityAt | app.py:390 | the cities visited are well-formed |
| Assistant.ImagesFromStep | app.py:390-392 | the lookup fails at the current city or at a later one |
| Assistant.BrokenFromStep | app.py:390-392 | a broken city from here on is this one or a later one |
| Assistant.ImagesFromFailsStep | app.py:390-392 | if the lookup from the next city fails exactly on a broken city, so does the lookup from this one |
| Assistant.ImagesFromFails | app.py:389-392 | the lookup fails exactly when some city's "Places" is not an object |
| Assistant.Images | app.py:389-396 | the image lookup fails exactly when some city has a non-object "Places" |
| Assistant.CityImagesPictured | app.py:392-396 | every image found for a city is the picture of one of its places |
| Assistant.ImagesFromSound | app.py:389-396 | every image found is the picture of some place that goes with the answer |
| Assistant.PlaceImagesComplete | app.py:392-396 | the image of every place that goes with the answer is found by the scan of its city from any earlier place |
| Assistant.ImagesFromGrows | app.py:390 | looking through one more city can only add images |
| Assistant.ImagesFromHere | app.py:392-396 | the lookup starting at a city finds the pictures of that city's places |
| Assistant.ImagesFromMonotone | app.py:390 | the lookup from an earlier city finds everything the lookup from a later one finds |
| Assistant.ImagesExactly | app.py:389-396 | when the lookup succeeds, it finds exactly the pictures of places in any city that go with the answer |
| Assistant.RouteStep | app.py:383-386 | for a route request with a non-empty detected city and a text containing "Gün", the step gives the orderer's route or refusal and fails exactly when the orderer raises; otherwise it gives the text unchanged |
| Assistant.Attach | app.py:389-410 | images come only for other questions against a non-empty knowledge base and are exactly the matching pictures; a failing lookup gives the error reply with the context |
| Assistant.NothingPictured | app.py:389 | with no city there is no picture, so skipping the lookup on an empty knowledge base loses nothing |
| Assistant.Finish | app.py:383-403 | the error reply exactly when the orderer raises on a qualifying plan or, for an ordinary question, some city's "Places" is not an object; otherwise the text or the orderer's outcome, no images for an itinerary request and exactly the pictured places' images otherwise |
| Assistant.AskAsWritten | app.py:256-410 | not-ready exactly on start-up failure; a failing search gives the error reply with "Bağlam bulunamadı."; afterwards the retrieved context is kept, a failing or empty generation gives the error reply, and a generated text ends as `Finish` states |
| Assistant.NoPartsAlwaysFails | app.py:372-383 | as written, a generation without parts always ends in the generic error reply |
| Assistant.Ask | app.py:256-410 | the corrected request: as written, except that a generation without parts goes on with the no-answer message |
| Assistant.AskDiffersOnlyOnNoParts | app.py:372-386 | the corrected request differs from the code only when the model returns no parts |
| Assistant.NoPartsAnswersNoAnswerMessage | app.py:372-396 | corrected, a generation without parts answers with the no-answer message, and fails exactly for an ordinary question when some city's "Places" is not an object |
| Assistant.OrderedReplies | app.py:383-389 | an ordered route is returned exactly when the gate opens and the orderer succeeds; it belongs to a known city and carries no images |

## Left out

- The Gradio interface, start-up orchestration and the global state (app.py:412-516, 113-170) are left out: they are user interface and process plumbing. Start-up success is a `ready` flag, so a failed load of the JSON file or of a model appears only as the not-ready reply.
- The calls to Gemini, the embedding model and the vector store are left out (app.py:139, 154, 168-172, 231-235, 292-312, 370), since they are external services. Their results enter as parameters. The store's answer is constrained only by `StoreAnswer`: at most ten hits, each a stored document and each admitted by the filter. Similarity ranking is not modelled.
- The wording of the two prompts (app.py:331-366) is not modelled: `Compose` keeps only its inputs.
- Log output, timing, and the classification of exception messages (app.py:405-409) are left out. Every exception becomes the same `ErrorReply`, with the context known at that point.
- `os.path.exists` is a parameter `fileExists`, because it is file-system I/O.
- Python's `float()` on the two halves of the location text is a parameter `parse`, because floating-point parsing and IEEE rounding are out of scope. Coordinates are Dafny `real`, so infinities and NaN do not arise.
- JSON booleans count as numbers in Python (`isinstance(True, int)`). The model folds them into `Number` and does not distinguish them.
- Lower-casing is modelled for ASCII, the Latin-1 capitals, Ğ, Ş and İ. Other characters are left unchanged. `isdigit` is modelled for ASCII digits only. Python's full Unicode tables are out of scope.
- Knowledge-base values of unexpected JSON types inside a place or a day list are outside the data model: a non-string description, a day whose activities are not a list of strings, or a place entry that is not an object. The code would render or reject such values in ways tied to Python's formatting.
- RouteOrder.SquaredDistance: states non-negativity and zero distance to the same point, but not the converse that zero distance means the same point.
- RouteOrder.WalkGreedy: the greedy property is stated only for place lists without an empty name (`NoEmptyName`). When the nearest place is named by the empty string, `if best_next_place:` (app.py:93) treats it as "no place found" and appends the rest unordered, so the route is then not greedy.
- RouteOrder.OrderRouteIsGreedy: its greedy clause holds only when no mentioned place is named by the empty string, for the reason given for `WalkGreedy`. The start and permutation clauses hold for every route.
- Retrieval.DetectedCityKnown: holds for the knowledge base the collection was built from. A collection kept on disk from an earlier run (app.py:172, 238-239) may have been built from another file, so the detected city may not be a city of the file loaded now; the model promises nothing about that case.
- Retrieval.FilteredHitsAreNearbyPlaces: stated, like `DetectedCityKnown`, for the knowledge base the collection was built from.
- Category lists holding something other than strings make `join` raise while the documents are built (app.py:186, 189). The data model holds category and day lists as lists of strings, so that failure is not represented.
- `list_models.py` is left out: it only lists the available Gemini models.

## Findings

| source | as written | input that shows it | evidently intended | confidence | as-written member | corrected member |
|---|---|---|---|---|---|---|
| app.py:372-386 | when the model returns no parts, only `full_response` is set; the route gate and the `else` branch then read `llm_text_output`, which was never bound, so the request raises and ends in the generic error reply | any question for which `response.parts` is empty | answer with the "Gemini'den bir cevap alınamadı…" message (with images looked up as usual) | not executed; the unbound-name error follows from Python's scoping rules | Assistant.NoPartsAlwaysFails | Assistant.NoPartsAnswersNoAnswerMessage |
