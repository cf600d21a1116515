/**
 * Building the retrieval documents from the knowledge base (the loop that
 * fills the vector collection on first start): one overview document per city
 * and one detail document per place, all numbered by a single counter that
 * runs across the whole build.
 */
module Documents {
  import opened Wrappers
  import opened Text
  import opened Knowledge
  import opened DayOrder

  /** The "type" attribute: "Genel Plan" for a city overview, "Yer Detayı" for a place. */
  datatype DocKind = Overview | PlaceDetail

  /** The attributes stored with a document; a position only when both coordinates are numbers. */
  datatype Metadata = Metadata(city: string, kind: DocKind, place: Option<string>, position: Option<(real, real)>)

  /** A document id: `doc_city_<n>` or `doc_place_<n>`, with `n` from the run-wide counter. */
  datatype DocId = DocId(kind: DocKind, counter: nat)

  datatype Document = Document(text: string, meta: Metadata, id: DocId)

  function KindName(kind: DocKind): string
  {
    match kind
    case Overview => "Genel Plan"
    case PlaceDetail => "Yer Detayı"
  }

  function IdText(id: DocId): string
  {
    (if id.kind == Overview then "doc_city_" else "doc_place_") + Decimal(id.counter)
  }

  /** Different ids never render to the same string. */
  lemma IdTextInjective(a: DocId, b: DocId)
    ensures IdText(a) == IdText(b) ==> a == b
  {
    var sa, sb := IdText(a), IdText(b);
    assert sa[4] == (if a.kind == Overview then 'c' else 'p');
    assert sb[4] == (if b.kind == Overview then 'c' else 'p');
    if sa == sb {
      var n := |sa| - |Decimal(a.counter)|;
      assert Decimal(a.counter) == sa[n..] == Decimal(b.counter);
    }
  }

  // ---------------------------------------------------------------------------
  // Document texts: lists of lines, each line followed by a line break
  // ---------------------------------------------------------------------------

  /** The text of a list of lines: every line followed by a line break. */
  function Lines(ls: seq<string>): string
  {
    if ls == [] then "" else ls[0] + "\n" + Lines(ls[1..])
  }

  /** Every line, with its line break, occurs in the text of the lines. */
  lemma {:induction false} LinesContain(ls: seq<string>, i: nat)
    requires i < |ls|
    ensures Contains(Lines(ls), ls[i] + "\n")
    decreases i
  {
    if i == 0 {
      ContainsInMiddle("", ls[0] + "\n", Lines(ls[1..]));
      assert "" + (ls[0] + "\n") + Lines(ls[1..]) == Lines(ls);
    } else {
      LinesContain(ls[1..], i - 1);
      ContainsAfter(ls[0] + "\n", Lines(ls[1..]), ls[i] + "\n");
    }
  }

  // ---------------------------------------------------------------------------
  // Overview document
  // ---------------------------------------------------------------------------

  /** One day of the plan: `**<day>. Gün:** <activities, comma-separated>`. */
  function DayLine(day: string, activities: seq<string>): string
  {
    "**" + day + ". Gün:** " + Join(activities, ", ")
  }

  /** The day lines of a city, in sorted day order; none without a "Days" object. */
  function DayLines(c: City): (ls: seq<string>)
    requires CityWellFormed(c)
    ensures DaysOf(c).None? ==> ls == []
    ensures DaysOf(c).Some? ==> |ls| == |DaysOf(c).value.keys|
  {
    match DaysOf(c)
    case Some(d) =>
      var order := SortDays(d.keys);
      assert |order| == |multiset(order)| == |multiset(d.keys)| == |d.keys|;
      assert forall k :: k in order ==> k in d.entries by {
        forall k | k in order ensures k in d.entries {
          assert k in multiset(order);
        }
      }
      seq(|order|, i requires 0 <= i < |order| => DayLine(order[i], d.entries[order[i]]))
    case None => []
  }

  /**
   * The day section lists the days in the overview's day order: line `i` is
   * the line of the `i`-th key of an ordering of the day keys that is sorted
   * by rank, keeps the original order within a rank and holds every key once.
   */
  lemma DayLinesInDayOrder(c: City)
    requires CityWellFormed(c) && DaysOf(c).Some?
    ensures var d, ls := DaysOf(c).value, DayLines(c);
            exists order ::
              && Sorted(order)
              && multiset(order) == multiset(d.keys)
              && (forall rank :: WithRank(order, rank) == WithRank(d.keys, rank))
              && |order| == |ls|
              && forall i :: 0 <= i < |order| ==> order[i] in d.entries && ls[i] == DayLine(order[i], d.entries[order[i]])
  {
    var d := DaysOf(c).value;
    var order := SortDays(d.keys);
    forall i | 0 <= i < |order| ensures order[i] in d.entries {
      assert order[i] in multiset(order);
    }
  }

  /** Every day of a "Days" object has its line in the day section. */
  lemma DayLinesListEveryDay(c: City, day: string)
    requires CityWellFormed(c) && DaysOf(c).Some? && day in DaysOf(c).value.keys
    ensures day in DaysOf(c).value.entries
    ensures DayLine(day, DaysOf(c).value.entries[day]) in DayLines(c)
  {
    var d := DaysOf(c).value;
    var order := SortDays(d.keys);
    assert day in multiset(d.keys);
    assert day in multiset(order);
    var i :| 0 <= i < |order| && order[i] == day;
    assert DayLines(c)[i] == DayLine(day, d.entries[day]);
  }

  /** A key names a category: not reserved, and its value is a list. */
  predicate IsCategory(c: City, key: string)
  {
    key in c.entries && !Reserved(key) && c.entries[key].Listing?
  }

  /** The category keys among `keys`, keeping their order. */
  function CategoryKeys(c: City, keys: seq<string>): (r: seq<string>)
    ensures forall k :: k in r <==> k in keys && IsCategory(c, k)
    ensures (forall i, j :: 0 <= i < j < |keys| ==> keys[i] != keys[j]) ==> forall i, j :: 0 <= i < j < |r| ==> r[i] != r[j]
  {
    if keys == [] then []
    else (if IsCategory(c, keys[0]) then [keys[0]] else []) + CategoryKeys(c, keys[1..])
  }

  /** Where each category key sits in `keys`. */
  function CategoryPositions(c: City, keys: seq<string>): seq<nat>
  {
    if keys == [] then []
    else if IsCategory(c, keys[0]) then [0] + Shift(CategoryPositions(c, keys[1..]))
    else Shift(CategoryPositions(c, keys[1..]))
  }

  /** `pos` lists, in ascending order, exactly the positions of the category keys of `keys`, and `r` holds those keys. */
  predicate FilteredAt(c: City, keys: seq<string>, r: seq<string>, pos: seq<nat>)
  {
    && |pos| == |r|
    && (forall a :: 0 <= a < |pos| ==> pos[a] < |keys| && keys[pos[a]] == r[a])
    && (forall a, b :: 0 <= a < b < |pos| ==> pos[a] < pos[b])
    && (forall m :: 0 <= m < |keys| && IsCategory(c, keys[m]) ==> m in pos)
  }

  /**
   * The category keys are `keys` filtered in key order: the a-th one sits at
   * the a-th of ascending positions of `keys`, and every category key of
   * `keys` sits at one of them.
   */
  lemma {:induction false} CategoryKeysInOrder(c: City, keys: seq<string>)
    ensures FilteredAt(c, keys, CategoryKeys(c, keys), CategoryPositions(c, keys))
    decreases |keys|
  {
    if keys != [] {
      var tail, rest := CategoryKeys(c, keys[1..]), CategoryPositions(c, keys[1..]);
      CategoryKeysInOrder(c, keys[1..]);
      FilteredShift(c, keys, tail, rest, Shift(rest));
      if IsCategory(c, keys[0]) {
        assert CategoryKeys(c, keys) == [keys[0]] + tail;
        assert CategoryPositions(c, keys) == [0] + Shift(rest);
        FilteredTake(c, keys, tail, Shift(rest));
      } else {
        assert CategoryKeys(c, keys) == [] + tail == tail;
        assert CategoryPositions(c, keys) == Shift(rest);
      }
    }
  }

  /** The positions of a filtering of the tail, plus one, are a filtering of `keys` apart from its head. */
  lemma {:induction false} FilteredShift(c: City, keys: seq<string>, tail: seq<string>, rest: seq<nat>, shifted: seq<nat>)
    requires keys != [] && FilteredAt(c, keys[1..], tail, rest)
    requires shifted == Shift(rest)
    ensures |shifted| == |tail|
    ensures forall a :: 0 <= a < |shifted| ==> 0 < shifted[a] < |keys| && keys[shifted[a]] == tail[a]
    ensures forall a, b :: 0 <= a < b < |shifted| ==> shifted[a] < shifted[b]
    ensures forall m :: 1 <= m < |keys| && IsCategory(c, keys[m]) ==> m in shifted
    ensures !IsCategory(c, keys[0]) ==> FilteredAt(c, keys, tail, shifted)
  {
    forall a | 0 <= a < |shifted| ensures keys[shifted[a]] == tail[a] {
      assert keys[shifted[a]] == keys[1..][rest[a]];
    }
    forall m | 1 <= m < |keys| && IsCategory(c, keys[m]) ensures m in shifted {
      assert keys[1..][m - 1] == keys[m];
      var a :| 0 <= a < |rest| && rest[a] == m - 1;
      assert shifted[a] == m;
    }
  }

  /** A category key at the head goes in front, at position 0. */
  lemma {:induction false} FilteredTake(c: City, keys: seq<string>, tail: seq<string>, shifted: seq<nat>)
    requires keys != [] && IsCategory(c, keys[0]) && |shifted| == |tail|
    requires forall a :: 0 <= a < |shifted| ==> 0 < shifted[a] < |keys| && keys[shifted[a]] == tail[a]
    requires forall a, b :: 0 <= a < b < |shifted| ==> shifted[a] < shifted[b]
    requires forall m :: 1 <= m < |keys| && IsCategory(c, keys[m]) ==> m in shifted
    ensures FilteredAt(c, keys, [keys[0]] + tail, [0] + shifted)
  {
    var r, pos := [keys[0]] + tail, [0] + shifted;
    forall a | 0 < a < |pos| ensures pos[a] == shifted[a - 1] && r[a] == tail[a - 1] {
    }
    forall m | 0 <= m < |keys| && IsCategory(c, keys[m]) ensures m in pos {
      if m > 0 {
        var a :| 0 <= a < |shifted| && shifted[a] == m;
        assert pos[a + 1] == m;
      }
    }
  }

  /** One category with its places: `**<category>:** <places, comma-separated>`. */
  function CategoryLine(category: string, places: seq<string>): string
  {
    "**" + category + ":** " + Join(places, ", ")
  }

  /** One line per category key of the city, in key order. */
  function CategorySection(c: City): seq<string>
  {
    var cats := CategoryKeys(c, c.keys);
    assert forall i :: 0 <= i < |cats| ==> cats[i] in cats;
    seq(|cats|, i requires 0 <= i < |cats| => CategoryLine(cats[i], c.entries[cats[i]].names))
  }

  /** The lines of an overview: its heading, the day lines, then the category lines under their heading. */
  function OverviewOf(name: string, dayLines: seq<string>, categoryLines: seq<string>): seq<string>
  {
    ["# Şehir: " + name, "", "## Günlük Planlar"] + dayLines + ["", "## Aktivite Kategorileri"] + categoryLines
  }

  function OverviewLines(name: string, c: City): seq<string>
    requires CityWellFormed(c)
  {
    OverviewOf(name, DayLines(c), CategorySection(c))
  }

  /** The overview opens with the city heading and the day heading, then the day lines and a blank line. */
  lemma OverviewHead(name: string, c: City)
    requires CityWellFormed(c)
    ensures var ls, days := OverviewLines(name, c), DayLines(c);
            && |ls| > 3 + |days|
            && ls[..3] == ["# Şehir: " + name, "", "## Günlük Planlar"]
            && ls[3..3 + |days|] == days
            && ls[3 + |days|] == ""
  {
    OverviewStartsWith(name, DayLines(c), CategorySection(c));
  }

  /**
   * The overview ends with its category section: under the section heading,
   * one line per category key of the city, in category-key order, and no
   * other line.
   */
  lemma {:induction false} OverviewListsCategories(name: string, c: City)
    requires CityWellFormed(c)
    ensures var ls, cats := OverviewLines(name, c), CategoryKeys(c, c.keys);
            && |ls| == 5 + |DayLines(c)| + |cats|
            && ls[|ls| - |cats| - 1] == "## Aktivite Kategorileri"
            && forall i :: 0 <= i < |cats| ==>
                 IsCategory(c, cats[i]) && ls[|ls| - |cats| + i] == CategoryLine(cats[i], c.entries[cats[i]].names)
  {
    OverviewEndsWith(name, DayLines(c), CategorySection(c));
    assert |CategorySection(c)| == |CategoryKeys(c, c.keys)|;
    forall i | 0 <= i < |CategoryKeys(c, c.keys)| {
      OverviewCategoryAt(name, c, i);
    }
  }

  /** The i-th category line of the overview. */
  lemma {:induction false} OverviewCategoryAt(name: string, c: City, i: nat)
    requires CityWellFormed(c) && i < |CategoryKeys(c, c.keys)|
    ensures var ls, cats := OverviewLines(name, c), CategoryKeys(c, c.keys);
            && |ls| == 5 + |DayLines(c)| + |cats|
            && IsCategory(c, cats[i])
            && ls[|ls| - |cats| + i] == CategoryLine(cats[i], c.entries[cats[i]].names)
  {
    CategorySectionAt(c, i);
    OverviewLineAt(name, DayLines(c), CategorySection(c), i);
  }

  /** Line i of the category section lists the places of the i-th category key. */
  lemma CategorySectionLines(c: City)
    ensures var cats := CategoryKeys(c, c.keys);
            && |CategorySection(c)| == |cats|
            && forall i :: 0 <= i < |cats| ==>
                 IsCategory(c, cats[i]) && CategorySection(c)[i] == CategoryLine(cats[i], c.entries[cats[i]].names)
  {
    forall i | 0 <= i < |CategoryKeys(c, c.keys)| {
      CategorySectionAt(c, i);
    }
  }

  lemma CategorySectionAt(c: City, i: nat)
    requires i < |CategoryKeys(c, c.keys)|
    ensures var cats := CategoryKeys(c, c.keys);
            && |CategorySection(c)| == |cats|
            && IsCategory(c, cats[i])
            && CategorySection(c)[i] == CategoryLine(cats[i], c.entries[cats[i]].names)
  {
    assert CategoryKeys(c, c.keys)[i] in CategoryKeys(c, c.keys);
  }

  lemma OverviewEndsWith(name: string, dayLines: seq<string>, categoryLines: seq<string>)
    ensures var ls := OverviewOf(name, dayLines, categoryLines);
            && |ls| == 5 + |dayLines| + |categoryLines|
            && ls[|ls| - |categoryLines| - 1] == "## Aktivite Kategorileri"
  {
  }

  lemma OverviewLineAt(name: string, dayLines: seq<string>, categoryLines: seq<string>, i: nat)
    requires i < |categoryLines|
    ensures var ls := OverviewOf(name, dayLines, categoryLines);
            |ls| == 5 + |dayLines| + |categoryLines| && ls[|ls| - |categoryLines| + i] == categoryLines[i]
  {
  }

  lemma OverviewStartsWith(name: string, dayLines: seq<string>, categoryLines: seq<string>)
    ensures var ls := OverviewOf(name, dayLines, categoryLines);
            && |ls| == 5 + |dayLines| + |categoryLines|
            && ls[..3] == ["# Şehir: " + name, "", "## Günlük Planlar"]
            && ls[3..3 + |dayLines|] == dayLines
            && ls[3 + |dayLines|] == ""
  {
  }

  function OverviewText(name: string, c: City): string
    requires CityWellFormed(c)
  {
    Strip(Lines(OverviewLines(name, c)))
  }

  // ---------------------------------------------------------------------------
  // Place documents
  // ---------------------------------------------------------------------------

  /** The category keys among `keys` whose list contains `place`, in key order. */
  function PlaceCategories(c: City, place: string, keys: seq<string>): (r: seq<string>)
    requires forall k :: k in keys ==> k in c.entries
    ensures forall k :: k in r <==> k in keys && IsCategory(c, k) && place in c.entries[k].names
    ensures |r| <= |keys|
  {
    if keys == [] then []
    else
      (if IsCategory(c, keys[0]) && place in c.entries[keys[0]].names then [keys[0]] else [])
      + PlaceCategories(c, place, keys[1..])
  }

  /** `Kategoriler: <categories, comma-separated>`. */
  function CategoriesLine(categories: seq<string>): string
  {
    "Kategoriler: " + Join(categories, ", ")
  }

  /** The lines of a place document: heading, a blank line, then description, tips and categories when present. */
  function PlaceLines(cityName: string, placeName: string, p: Place, categories: seq<string>): seq<string>
  {
    ["# Yer: " + placeName + " (" + cityName + ")", ""]
    + (match p.description case Some(d) => ["Açıklama: " + d] case None => [])
    + (match p.tips case Some(t) => ["İpucu: " + t] case None => [])
    + (if categories != [] then [CategoriesLine(categories)] else [])
  }

  /**
   * A place document has a categories line exactly when the place has
   * categories, and then as its last line; it has a description line and a
   * tips line for the attributes that are present.
   */
  lemma PlaceListsCategories(cityName: string, placeName: string, p: Place, categories: seq<string>)
    ensures CategoriesLine(categories) in PlaceLines(cityName, placeName, p, categories) <==> categories != []
    ensures categories != [] ==>
              var ls := PlaceLines(cityName, placeName, p, categories); ls[|ls| - 1] == CategoriesLine(categories)
    ensures p.description.Some? ==> "Açıklama: " + p.description.value in PlaceLines(cityName, placeName, p, categories)
    ensures p.tips.Some? ==> "İpucu: " + p.tips.value in PlaceLines(cityName, placeName, p, categories)
  {
    var ls := PlaceLines(cityName, placeName, p, categories);
    var line := CategoriesLine(categories);
    if categories == [] {
      assert line[0] == 'K' && |line| > 0;
      forall i | 0 <= i < |ls| ensures ls[i] != line {
        assert ls[i] == "" || ls[i][0] in {'#', 'A', 'İ'};
      }
    }
  }

  function PlaceText(cityName: string, placeName: string, p: Place, categories: seq<string>): string
  {
    Strip(Lines(PlaceLines(cityName, placeName, p, categories)))
  }

  // ---------------------------------------------------------------------------
  // The build: which documents, in which order, then what each one says
  // ---------------------------------------------------------------------------

  /** One step of the build loop: the overview of a city, or the details of one of its places. */
  datatype Entry =
    | CityEntry(city: string)
    | PlaceEntry(city: string, place: string)

  /** How many detail documents a city yields: its places, when "Places" holds an object. */
  function PlaceCount(c: City): nat
  {
    match PlacesOf(c)
    case Some(t) => |t.keys|
    case None => 0
  }

  /** A city's entries: its overview, then one entry per place, in key order, when "Places" holds an object. */
  function CityEntries(kb: KnowledgeBase, city: string): (es: seq<Entry>)
    requires city in kb.entries
    ensures |es| == 1 + PlaceCount(kb.entries[city])
    ensures es[0] == CityEntry(city)
    ensures PlacesOf(kb.entries[city]).Some? ==>
              forall j :: 0 <= j < |PlacesOf(kb.entries[city]).value.keys| ==>
                es[j + 1] == PlaceEntry(city, PlacesOf(kb.entries[city]).value.keys[j])
  {
    match PlacesOf(kb.entries[city])
    case Some(t) => [CityEntry(city)] + seq(|t.keys|, j requires 0 <= j < |t.keys| => PlaceEntry(city, t.keys[j]))
    case None => [CityEntry(city)]
  }

  /** Every name in `names` is a city of the knowledge base. */
  predicate AllKnown(kb: KnowledgeBase, names: seq<string>)
  {
    forall i :: 0 <= i < |names| ==> names[i] in kb.entries
  }

  function TotalPlaces(kb: KnowledgeBase, names: seq<string>): nat
    requires AllKnown(kb, names)
  {
    if names == [] then 0 else PlaceCount(kb.entries[names[0]]) + TotalPlaces(kb, names[1..])
  }

  /** The entries for the cities `names`, in order. */
  function LayoutFrom(kb: KnowledgeBase, names: seq<string>): (es: seq<Entry>)
    requires AllKnown(kb, names)
    ensures |es| == |names| + TotalPlaces(kb, names)
    decreases |names|
  {
    if names == [] then []
    else CityEntries(kb, names[0]) + LayoutFrom(kb, names[1..])
  }

  /** An entry the knowledge base can render: a known city, and a place of that city. */
  predicate Renderable(kb: KnowledgeBase, e: Entry)
  {
    && e.city in kb.entries
    && (e.PlaceEntry? ==> PlacesOf(kb.entries[e.city]).Some? && e.place in PlacesOf(kb.entries[e.city]).value.entries)
  }

  lemma CityEntriesRenderable(kb: KnowledgeBase, city: string)
    requires WellFormed(kb)
    requires city in kb.entries
    ensures forall e :: e in CityEntries(kb, city) ==> Renderable(kb, e)
  {
    var es := CityEntries(kb, city);
    forall e | e in es ensures Renderable(kb, e) {
      var i :| 0 <= i < |es| && es[i] == e;
      if i > 0 {
        var t := PlacesOf(kb.entries[city]).value;
        assert e == PlaceEntry(city, t.keys[i - 1]);
        assert t.keys[i - 1] in t.keys;
      }
    }
  }

  /** Every entry of the layout names a known city and, for details, one of its places. */
  lemma {:induction false} LayoutRenderable(kb: KnowledgeBase, names: seq<string>)
    requires WellFormed(kb)
    requires AllKnown(kb, names)
    ensures forall e :: e in LayoutFrom(kb, names) ==> Renderable(kb, e)
    decreases |names|
  {
    if names != [] {
      CityEntriesRenderable(kb, names[0]);
      LayoutRenderable(kb, names[1..]);
    }
  }

  /** The order of the build loop: every city in key order, each overview followed by its places. */
  function Layout(kb: KnowledgeBase): (es: seq<Entry>)
    requires WellFormed(kb)
    ensures |es| == |kb.keys| + TotalPlaces(kb, kb.keys)
    ensures forall e :: e in es ==> Renderable(kb, e)
  {
    assert AllKnown(kb, kb.keys) by {
      forall i | 0 <= i < |kb.keys| ensures kb.keys[i] in kb.entries {
        assert kb.keys[i] in kb.keys;
      }
    }
    LayoutRenderable(kb, kb.keys);
    LayoutFrom(kb, kb.keys)
  }

  /** The document of one entry, numbered `n`: its text, its attributes and its id. */
  function Render(kb: KnowledgeBase, e: Entry, n: nat): Document
    requires WellFormed(kb) && Renderable(kb, e)
  {
    var c := kb.entries[e.city];
    match e
    case CityEntry(city) =>
      Document(OverviewText(city, c), Metadata(city, Overview, None, None), DocId(Overview, n))
    case PlaceEntry(city, place) =>
      var p := PlacesOf(c).value.entries[place];
      Document(
        PlaceText(city, place, p, PlaceCategories(c, place, c.keys)),
        Metadata(city, PlaceDetail, Some(place), Position(p)),
        DocId(PlaceDetail, n))
  }

  /**
   * All documents of the knowledge base, in the order the loop appends them.
   * There is one per city plus one per place of every city whose "Places" is an
   * object; the single counter numbers them 0, 1, 2, ... whatever city they belong to.
   */
  function Build(kb: KnowledgeBase): (docs: seq<Document>)
    requires WellFormed(kb)
    ensures |docs| == |kb.keys| + TotalPlaces(kb, kb.keys)
    ensures forall i :: 0 <= i < |docs| ==> docs[i].id.counter == i
  {
    var es := Layout(kb);
    seq(|es|, i requires 0 <= i < |es| => Render(kb, es[i], i))
  }

  /** The three parallel lists handed to the collection: texts, attributes, id strings. */
  function Columns(docs: seq<Document>): (cols: (seq<string>, seq<Metadata>, seq<string>))
    ensures |cols.0| == |cols.1| == |cols.2| == |docs|
    ensures forall i :: 0 <= i < |docs| ==>
              cols.0[i] == docs[i].text && cols.1[i] == docs[i].meta && cols.2[i] == IdText(docs[i].id)
  {
    (seq(|docs|, i requires 0 <= i < |docs| => docs[i].text),
     seq(|docs|, i requires 0 <= i < |docs| => docs[i].meta),
     seq(|docs|, i requires 0 <= i < |docs| => IdText(docs[i].id)))
  }

  /**
   * What a built document says about the knowledge base: it belongs to a known
   * city and its id kind matches its type; an overview carries neither place nor
   * position; a detail document names a place of that city and carries a
   * position exactly when both of the place's coordinates are numbers.
   */
  ghost predicate Describes(kb: KnowledgeBase, d: Document)
  {
    && d.meta.city in kb.entries
    && d.id.kind == d.meta.kind
    && match d.meta.kind
       case Overview =>
         d.meta.place.None? && d.meta.position.None?
       case PlaceDetail =>
         var c := kb.entries[d.meta.city];
         && d.meta.place.Some?
         && PlacesOf(c).Some?
         && d.meta.place.value in PlacesOf(c).value.entries
         && var p := PlacesOf(c).value.entries[d.meta.place.value];
         && (d.meta.position.Some? <==> p.latitude.Number? && p.longitude.Number?)
         && (d.meta.position.Some? ==> d.meta.position.value == (p.latitude.value, p.longitude.value))
  }

  /**
   * Every document of the build describes its city or place faithfully; in
   * particular a detail document has a position exactly when the place has two
   * numeric coordinates, never just one.
   */
  lemma BuildDescribes(kb: KnowledgeBase)
    requires WellFormed(kb)
    ensures forall d :: d in Build(kb) ==> Describes(kb, d)
  {
    var docs := Build(kb);
    forall d | d in docs ensures Describes(kb, d) {
      var i :| 0 <= i < |docs| && docs[i] == d;
      var e := Layout(kb)[i];
      assert e in Layout(kb);
      assert d == Render(kb, e, i);
    }
  }

  /** No two documents of a build share an id string. */
  lemma BuildIdsDistinct(kb: KnowledgeBase, i: int, j: int)
    requires WellFormed(kb)
    requires 0 <= i < j < |Build(kb)|
    ensures Columns(Build(kb)).2[i] != Columns(Build(kb)).2[j]
  {
    var docs := Build(kb);
    if IdText(docs[i].id) == IdText(docs[j].id) {
      IdTextInjective(docs[i].id, docs[j].id);
    }
  }

  /** The overview entry of every city of `names` appears among their entries. */
  lemma {:induction false} CityInLayoutFrom(kb: KnowledgeBase, names: seq<string>, k: nat)
    requires AllKnown(kb, names)
    requires k < |names|
    ensures CityEntry(names[k]) in LayoutFrom(kb, names)
    decreases k
  {
    if k == 0 {
      assert LayoutFrom(kb, names)[0] == CityEntry(names[0]);
    } else {
      assert names[1..][k - 1] == names[k];
      CityInLayoutFrom(kb, names[1..], k - 1);
    }
  }

  /** The detail entry of `place` appears among the entries of the cities `names`. */
  lemma {:induction false} PlaceInLayoutFrom(kb: KnowledgeBase, names: seq<string>, k: nat, place: string)
    requires AllKnown(kb, names)
    requires k < |names|
    requires PlacesOf(kb.entries[names[k]]).Some? && place in PlacesOf(kb.entries[names[k]]).value.keys
    ensures PlaceEntry(names[k], place) in LayoutFrom(kb, names)
    decreases k
  {
    if k == 0 {
      var t := PlacesOf(kb.entries[names[0]]).value;
      var j :| 0 <= j < |t.keys| && t.keys[j] == place;
      assert CityEntries(kb, names[0])[j + 1] == PlaceEntry(names[0], place);
      assert LayoutFrom(kb, names)[j + 1] == PlaceEntry(names[0], place);
    } else {
      assert names[1..][k - 1] == names[k];
      PlaceInLayoutFrom(kb, names[1..], k - 1, place);
    }
  }

  /** Every city gets its overview document, whose text is the city's overview text. */
  lemma CityCovered(kb: KnowledgeBase, city: string)
    requires WellFormed(kb)
    requires city in kb.keys
    ensures city in kb.entries
    ensures exists i :: 0 <= i < |Build(kb)| &&
              Build(kb)[i] == Document(OverviewText(city, kb.entries[city]), Metadata(city, Overview, None, None), DocId(Overview, i))
  {
    var k :| 0 <= k < |kb.keys| && kb.keys[k] == city;
    var es := Layout(kb);
    CityInLayoutFrom(kb, kb.keys, k);
    var i :| 0 <= i < |es| && es[i] == CityEntry(city);
    assert es[i] in es;
    assert Build(kb)[i] == Render(kb, es[i], i);
  }

  /**
   * Every place of every city whose "Places" is an object gets its own detail
   * document, whose text is the place's text with its categories.
   */
  lemma PlaceCovered(kb: KnowledgeBase, city: string, place: string)
    requires WellFormed(kb)
    requires city in kb.keys
    requires PlacesOf(kb.entries[city]).Some? && place in PlacesOf(kb.entries[city]).value.keys
    ensures place in PlacesOf(kb.entries[city]).value.entries
    ensures exists i :: 0 <= i < |Build(kb)| && Build(kb)[i].meta.city == city && Build(kb)[i].meta.place == Some(place)
              && Build(kb)[i].text == PlaceText(city, place, PlacesOf(kb.entries[city]).value.entries[place],
                                                PlaceCategories(kb.entries[city], place, kb.entries[city].keys))
  {
    var k :| 0 <= k < |kb.keys| && kb.keys[k] == city;
    var es := Layout(kb);
    PlaceInLayoutFrom(kb, kb.keys, k, place);
    var i :| 0 <= i < |es| && es[i] == PlaceEntry(city, place);
    BuildPlaceAt(kb, i, city, place);
  }

  /** The document built from a place entry carries that city and place, and the place's text with its categories. */
  lemma BuildPlaceAt(kb: KnowledgeBase, i: nat, city: string, place: string)
    requires WellFormed(kb)
    requires i < |Layout(kb)| && Layout(kb)[i] == PlaceEntry(city, place)
    ensures city in kb.entries && PlacesOf(kb.entries[city]).Some? && place in PlacesOf(kb.entries[city]).value.entries
    ensures i < |Build(kb)| && Build(kb)[i].meta.city == city && Build(kb)[i].meta.place == Some(place)
    ensures Build(kb)[i].text == PlaceText(city, place, PlacesOf(kb.entries[city]).value.entries[place],
                                           PlaceCategories(kb.entries[city], place, kb.entries[city].keys))
  {
    var e := Layout(kb)[i];
    assert e in Layout(kb);
    assert Build(kb)[i] == Render(kb, e, i);
  }
}
