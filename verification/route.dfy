/**
 * The route orderer: it reads which places of a city the generated day plan
 * mentions, sentence by sentence, and reorders them by walking from the first
 * one to the nearest unvisited one each time (squared straight-line distance on
 * the raw coordinates).
 */
module RouteOrder {
  import opened Wrappers
  import opened Text
  import opened Knowledge

  // ---------------------------------------------------------------------------
  // Reading the mentioned places out of the plan text
  // ---------------------------------------------------------------------------

  /** The plan text with line breaks turned into spaces, cut at every full stop. */
  function Sentences(text: string): (ss: seq<string>)
    ensures |ss| >= 1
    ensures forall i :: 0 <= i < |ss| ==> '.' !in ss[i] && '\n' !in ss[i]
    ensures Join(ss, ".") == ReplaceChar(text, '\n', ' ')
  {
    var flat := ReplaceChar(text, '\n', ' ');
    var ss := Split(flat, '.');
    assert forall i :: 0 <= i < |ss| ==> '\n' !in ss[i] by {
      forall i | 0 <= i < |ss| ensures '\n' !in ss[i] {
        if '\n' in ss[i] {
          var k :| 0 <= k < |ss[i]| && ss[i][k] == '\n';
          NoLineBreakInJoin(ss, i, k, flat);
        }
      }
    }
    ss
  }

  /** A character of a piece of a joined text is a character of that text. */
  lemma NoLineBreakInJoin(ss: seq<string>, i: nat, k: nat, flat: string)
    requires i < |ss| && k < |ss[i]|
    requires Join(ss, ".") == flat
    requires forall m :: 0 <= m < |flat| ==> flat[m] != '\n'
    ensures ss[i][k] != '\n'
  {
    JoinContainsParts(ss, ".");
    ContainsIffOccurs(flat, ss[i]);
    var m :| OccursAt(flat, ss[i], m);
    assert flat[m + k] == ss[i][k];
  }

  /** A place name that `sentence` mentions and that has not been taken yet. */
  predicate Fresh(sentence: string, name: string, taken: seq<string>)
  {
    Contains(sentence, name) && name !in taken
  }

  /** The first of `names` from position `j` on that is fresh for `sentence`. */
  function FirstFreshFrom(names: seq<string>, sentence: string, taken: seq<string>, j: nat): (r: Option<nat>)
    requires j <= |names|
    ensures r.Some? ==> j <= r.value < |names| && Fresh(sentence, names[r.value], taken)
    ensures r.Some? ==> forall m :: j <= m < r.value ==> !Fresh(sentence, names[m], taken)
    ensures r.None? ==> forall m :: j <= m < |names| ==> !Fresh(sentence, names[m], taken)
    decreases |names| - j
  {
    if j == |names| then None
    else if Fresh(sentence, names[j], taken) then Some(j)
    else FirstFreshFrom(names, sentence, taken, j + 1)
  }

  /**
   * The inner loop over the place table's keys: the first key, in key order,
   * that the sentence contains and that is not on the list yet.
   */
  function FirstFresh(names: seq<string>, sentence: string, taken: seq<string>): (r: Option<nat>)
    ensures r.Some? ==> r.value < |names| && Fresh(sentence, names[r.value], taken)
    ensures r.Some? ==> forall m :: 0 <= m < r.value ==> !Fresh(sentence, names[m], taken)
    ensures r.None? <==> forall m :: 0 <= m < |names| ==> !Fresh(sentence, names[m], taken)
  {
    FirstFreshFrom(names, sentence, taken, 0)
  }

  predicate Distinct(s: seq<string>)
  {
    forall i, j :: 0 <= i < j < |s| ==> s[i] != s[j]
  }

  /**
   * The outer loop over the sentences: each sentence adds at most one place
   * name to `taken`, so the list keeps its order of first mention and never
   * repeats a name.
   */
  function Extract(sentences: seq<string>, names: seq<string>, taken: seq<string>): (found: seq<string>)
    ensures |taken| <= |found| <= |taken| + |sentences|
    ensures found[..|taken|] == taken
    ensures forall k :: |taken| <= k < |found| ==> found[k] in names
    ensures Distinct(taken) ==> Distinct(found)
    decreases |sentences|
  {
    if sentences == [] then taken
    else match FirstFresh(names, sentences[0], taken)
      case None => Extract(sentences[1..], names, taken)
      case Some(i) => Extract(sentences[1..], names, taken + [names[i]])
  }

  /** The places of `names` the plan mentions, in the order of their first mention. */
  function Mentions(text: string, names: seq<string>): (found: seq<string>)
    ensures Distinct(found)
    ensures forall k :: 0 <= k < |found| ==> found[k] in names
    ensures |found| <= |Sentences(text)|
  {
    Extract(Sentences(text), names, [])
  }

  /** For each name `Extract` adds, the index of the sentence that adds it. */
  function Sources(sentences: seq<string>, names: seq<string>, taken: seq<string>): seq<nat>
    decreases |sentences|
  {
    if sentences == [] then []
    else match FirstFresh(names, sentences[0], taken)
      case None => Shift(Sources(sentences[1..], names, taken))
      case Some(i) => [0] + Shift(Sources(sentences[1..], names, taken + [names[i]]))
  }

  /**
   * `found` is what the sentence loop makes of `taken`, with the a-th added
   * name coming from sentence `pos[a]`: the adding sentences come in text
   * order; each adds the first name, in key order, that it contains and that
   * is not taken before it; and every other sentence contains no name that is
   * not taken by then.
   */
  predicate Traced(sentences: seq<string>, names: seq<string>, taken: seq<string>, found: seq<string>, pos: seq<nat>)
  {
    TracedShape(|sentences|, taken, found, pos)
    && TracedAdds(sentences, names, |taken|, found, pos)
    && TracedSilent(sentences, names, |taken|, found, pos)
  }

  /** `found` extends `taken` by one name per position, and the positions ascend below `count`. */
  predicate TracedShape(count: nat, taken: seq<string>, found: seq<string>, pos: seq<nat>)
  {
    && |taken| <= |found| && |pos| == |found| - |taken|
    && found[..|taken|] == taken
    && (forall a :: 0 <= a < |pos| ==> pos[a] < count)
    && (forall a, b :: 0 <= a < b < |pos| ==> pos[a] < pos[b])
  }

  /** Sentence `pos[a]` adds the a-th new name of `found`, given the names before it. */
  predicate TracedAdds(sentences: seq<string>, names: seq<string>, start: nat, found: seq<string>, pos: seq<nat>)
  {
    forall a :: 0 <= a < |pos| && pos[a] < |sentences| && start + a < |found| ==>
      Adds(names, sentences[pos[a]], found[..start + a], found[start + a])
  }

  /** Given the names taken `before`, `sentence` adds `name`. */
  predicate Adds(names: seq<string>, sentence: string, before: seq<string>, name: string)
  {
    var f := FirstFresh(names, sentence, before);
    f.Some? && names[f.value] == name
  }

  /** Every sentence between the adding ones adds nothing, given the names taken by then. */
  predicate TracedSilent(sentences: seq<string>, names: seq<string>, start: nat, found: seq<string>, pos: seq<nat>)
  {
    forall a, s :: 0 <= a <= |pos| && 0 <= s < |sentences| && Between(pos, a, s) && start + a <= |found| ==>
      FirstFresh(names, sentences[s], found[..start + a]).None?
  }

  /** Sentence `s` comes after the sentence that adds the (a-1)-th name and before the one that adds the a-th. */
  predicate Between(pos: seq<nat>, a: int, s: int)
  {
    0 <= a <= |pos| && 0 <= s && (a < |pos| ==> s < pos[a]) && (0 < a ==> pos[a - 1] < s)
  }

  /** A first sentence that adds nothing shifts the trace of the others by one. */
  lemma TracedSkip(sentences: seq<string>, names: seq<string>, taken: seq<string>, found: seq<string>, pos: seq<nat>)
    requires sentences != [] && FirstFresh(names, sentences[0], taken).None?
    requires Traced(sentences[1..], names, taken, found, pos)
    ensures Traced(sentences, names, taken, found, Shift(pos))
  {
    SkipAdds(sentences, names, |taken|, found, pos);
    SkipSilent(sentences, names, taken, found, pos);
  }

  lemma SkipAdds(sentences: seq<string>, names: seq<string>, start: nat, found: seq<string>, pos: seq<nat>)
    requires sentences != []
    requires TracedAdds(sentences[1..], names, start, found, pos)
    ensures TracedAdds(sentences, names, start, found, Shift(pos))
  {
    var q := Shift(pos);
    forall a | 0 <= a < |q| && q[a] < |sentences| && start + a < |found|
      ensures var f := FirstFresh(names, sentences[q[a]], found[..start + a]);
              f.Some? && names[f.value] == found[start + a]
    {
      assert sentences[q[a]] == sentences[1..][pos[a]];
    }
  }

  lemma SkipSilent(sentences: seq<string>, names: seq<string>, taken: seq<string>, found: seq<string>, pos: seq<nat>)
    requires sentences != [] && FirstFresh(names, sentences[0], taken).None?
    requires |taken| <= |found| && found[..|taken|] == taken
    requires TracedSilent(sentences[1..], names, |taken|, found, pos)
    ensures TracedSilent(sentences, names, |taken|, found, Shift(pos))
  {
    var q := Shift(pos);
    forall a, s | Between(q, a, s) && s < |sentences| && |taken| + a <= |found|
      ensures FirstFresh(names, sentences[s], found[..|taken| + a]).None?
    {
      if s == 0 {
        assert a == 0;
        assert found[..|taken| + a] == taken;
      } else {
        assert sentences[s] == sentences[1..][s - 1];
        assert Between(pos, a, s - 1);
      }
    }
  }

  /** A first sentence that adds a name puts that name first in the trace and shifts the rest by one. */
  lemma {:induction false} TracedTake(sentences: seq<string>, names: seq<string>, taken: seq<string>, i: nat, found: seq<string>, pos: seq<nat>)
    requires sentences != [] && FirstFresh(names, sentences[0], taken) == Some(i) && i < |names|
    requires Traced(sentences[1..], names, taken + [names[i]], found, pos)
    ensures Traced(sentences, names, taken, found, [0] + Shift(pos))
  {
    var next := taken + [names[i]];
    assert found[..|taken|] == found[..|next|][..|taken|] == taken;
    assert found[|taken|] == found[..|next|][|taken|] == names[i];
    TakeShape(|sentences|, taken, next, found, pos);
    TakeAdds(sentences, names, taken, i, found, pos);
    TakeSilent(sentences, names, |taken|, found, pos);
  }

  lemma {:induction false} TakeShape(count: nat, taken: seq<string>, next: seq<string>, found: seq<string>, pos: seq<nat>)
    requires 0 < count && |next| == |taken| + 1 && |taken| <= |found| && found[..|taken|] == taken
    requires TracedShape(count - 1, next, found, pos)
    ensures TracedShape(count, taken, found, [0] + Shift(pos))
  {
    var q := [0] + Shift(pos);
    forall a, b | 0 <= a < b < |q| ensures q[a] < q[b] {
      if 0 < a {
        assert q[a] == pos[a - 1] + 1 && q[b] == pos[b - 1] + 1;
      }
    }
  }

  lemma TakeAdds(sentences: seq<string>, names: seq<string>, taken: seq<string>, i: nat, found: seq<string>, pos: seq<nat>)
    requires sentences != [] && FirstFresh(names, sentences[0], taken) == Some(i) && i < |names|
    requires |taken| < |found| && found[..|taken|] == taken && found[|taken|] == names[i]
    requires TracedAdds(sentences[1..], names, |taken| + 1, found, pos)
    ensures TracedAdds(sentences, names, |taken|, found, [0] + Shift(pos))
  {
    var q := [0] + Shift(pos);
    forall a | 0 <= a < |q| && q[a] < |sentences| && |taken| + a < |found|
      ensures Adds(names, sentences[q[a]], found[..|taken| + a], found[|taken| + a])
    {
      TakeAddsAt(sentences, names, taken, i, found, pos, q, a);
    }
  }

  lemma {:induction false} TakeAddsAt(sentences: seq<string>, names: seq<string>, taken: seq<string>, i: nat, found: seq<string>, pos: seq<nat>, q: seq<nat>, a: nat)
    requires sentences != [] && FirstFresh(names, sentences[0], taken) == Some(i) && i < |names|
    requires |taken| < |found| && found[..|taken|] == taken && found[|taken|] == names[i]
    requires TracedAdds(sentences[1..], names, |taken| + 1, found, pos)
    requires q == [0] + Shift(pos) && a < |q| && q[a] < |sentences| && |taken| + a < |found|
    ensures Adds(names, sentences[q[a]], found[..|taken| + a], found[|taken| + a])
  {
    if 0 < a {
      var b := a - 1;
      assert q[a] == pos[b] + 1 && pos[b] < |sentences[1..]|;
      assert sentences[q[a]] == sentences[1..][pos[b]];
      assert |taken| + a == (|taken| + 1) + b;
      assert Adds(names, sentences[1..][pos[b]], found[..(|taken| + 1) + b], found[(|taken| + 1) + b]);
    } else {
      assert sentences[q[a]] == sentences[0];
    }
  }

  lemma TakeSilent(sentences: seq<string>, names: seq<string>, start: nat, found: seq<string>, pos: seq<nat>)
    requires sentences != []
    requires TracedSilent(sentences[1..], names, start + 1, found, pos)
    ensures TracedSilent(sentences, names, start, found, [0] + Shift(pos))
  {
    var q := [0] + Shift(pos);
    forall a, s | Between(q, a, s) && s < |sentences| && start + a <= |found|
      ensures FirstFresh(names, sentences[s], found[..start + a]).None?
    {
      assert 0 < a && 0 < s;
      assert 1 < a ==> q[a - 1] == pos[a - 2] + 1;
      assert sentences[s] == sentences[1..][s - 1];
      assert start + a == (start + 1) + (a - 1);
      assert Between(pos, a - 1, s - 1);
    }
  }

  /** `Extract` is the sentence loop: `Sources` traces every name it adds back to its sentence. */
  lemma {:induction false} ExtractTraced(sentences: seq<string>, names: seq<string>, taken: seq<string>)
    ensures Traced(sentences, names, taken, Extract(sentences, names, taken), Sources(sentences, names, taken))
    decreases |sentences|
  {
    if sentences != [] {
      match FirstFresh(names, sentences[0], taken)
      case None =>
        ExtractTraced(sentences[1..], names, taken);
        TracedSkip(sentences, names, taken, Extract(sentences[1..], names, taken), Sources(sentences[1..], names, taken));
      case Some(i) =>
        var next := taken + [names[i]];
        ExtractTraced(sentences[1..], names, next);
        TracedTake(sentences, names, taken, i, Extract(sentences[1..], names, next), Sources(sentences[1..], names, next));
    }
  }

  /**
   * The mentions of a plan, traced to its sentences: the k-th mention comes
   * from a sentence that contains it, later mentions from later sentences,
   * and each is the first untaken place name, in key order, of its sentence.
   */
  lemma MentionsTraced(text: string, names: seq<string>)
    ensures Traced(Sentences(text), names, [], Mentions(text, names), Sources(Sentences(text), names, []))
    ensures forall k :: 0 <= k < |Mentions(text, names)| ==>
              exists s :: 0 <= s < |Sentences(text)| && Contains(Sentences(text)[s], Mentions(text, names)[k])
  {
    var ss, found := Sentences(text), Mentions(text, names);
    ExtractTraced(ss, names, []);
    var pos := Sources(ss, names, []);
    forall k | 0 <= k < |found|
      ensures exists s :: 0 <= s < |ss| && Contains(ss[s], found[k])
    {
      var f := FirstFresh(names, ss[pos[k]], found[..k]);
      assert Fresh(ss[pos[k]], names[f.value], found[..k]);
    }
  }

  /** Nothing is extracted exactly when no sentence contains a fresh name. */
  lemma {:induction false} ExtractNothing(sentences: seq<string>, names: seq<string>, taken: seq<string>)
    ensures Extract(sentences, names, taken) == taken
            <==> forall s, m :: 0 <= s < |sentences| && 0 <= m < |names| ==> !Fresh(sentences[s], names[m], taken)
    decreases |sentences|
  {
    if sentences != [] {
      ExtractNothing(sentences[1..], names, taken);
      match FirstFresh(names, sentences[0], taken)
      case None =>
        assert forall s :: 0 < s < |sentences| ==> sentences[s] == sentences[1..][s - 1];
      case Some(i) =>
        var found := Extract(sentences[1..], names, taken + [names[i]]);
        assert |found| > |taken|;
    }
  }

  /** The plan yields no places exactly when no sentence mentions any of them. */
  lemma MentionsEmpty(text: string, names: seq<string>)
    ensures Mentions(text, names) == []
            <==> forall s, m :: 0 <= s < |Sentences(text)| && 0 <= m < |names| ==> !Contains(Sentences(text)[s], names[m])
  {
    ExtractNothing(Sentences(text), names, []);
  }

  // ---------------------------------------------------------------------------
  // One search for the nearest remaining place
  // ---------------------------------------------------------------------------

  type Point = (real, real)

  /** The squared distance the orderer compares: no square root, no earth curvature. */
  function SquaredDistance(a: Point, b: Point): (d: real)
    ensures d >= 0.0
    ensures a == b ==> d == 0.0
  {
    var dx, dy := a.0 - b.0, a.1 - b.1;
    assert dx * dx >= 0.0 && dy * dy >= 0.0;
    dx * dx + dy * dy
  }

  /** Every name of `names` is a key of the place table. */
  predicate Known(table: Dict<Place>, names: seq<string>)
  {
    forall k :: 0 <= k < |names| ==> names[k] in table.entries
  }

  /** A place the search looks at: one with both coordinate keys. */
  predicate Located(table: Dict<Place>, name: string)
    requires name in table.entries
  {
    HasCoordinateKeys(table.entries[name])
  }

  /**
   * Looking at this place makes the distance computation fail: it has both
   * keys, but its coordinates or those of the current position are not numbers.
   */
  predicate Clash(table: Dict<Place>, cur: Option<Point>, name: string)
    requires name in table.entries
  {
    Located(table, name) && (cur.None? || Position(table.entries[name]).None?)
  }

  /** The distance from `cur` to a place with numeric coordinates. */
  function DistanceTo(table: Dict<Place>, cur: Point, name: string): real
    requires name in table.entries && Position(table.entries[name]).Some?
  {
    SquaredDistance(cur, Position(table.entries[name]).value)
  }

  /**
   * `rem[i]` is the place the search settles on: no located place is strictly
   * closer, and every located place before it is strictly farther (the search
   * replaces its best candidate only on a strictly smaller distance).
   */
  predicate NearestAt(table: Dict<Place>, cur: Point, rem: seq<string>, i: int)
    requires Known(table, rem)
  {
    && 0 <= i < |rem|
    && Position(table.entries[rem[i]]).Some?
    && (forall k :: 0 <= k < |rem| && Position(table.entries[rem[k]]).Some? ==>
          DistanceTo(table, cur, rem[i]) <= DistanceTo(table, cur, rem[k]))
    && (forall k :: 0 <= k < i && Position(table.entries[rem[k]]).Some? ==>
          DistanceTo(table, cur, rem[i]) < DistanceTo(table, cur, rem[k]))
  }

  /** The outcome of one search: the distance computation failed, or the best candidate, if any. */
  datatype Scan = ScanRaises | Best(pick: Option<nat>)

  /** What the search has established about the places before `j`. */
  predicate ScannedUpTo(table: Dict<Place>, cur: Option<Point>, rem: seq<string>, j: nat, best: Option<nat>)
    requires Known(table, rem) && j <= |rem|
  {
    && (forall k :: 0 <= k < j ==> !Clash(table, cur, rem[k]))
    && (best.None? ==> forall k :: 0 <= k < j ==> !Located(table, rem[k]))
    && (best.Some? ==> cur.Some? && best.value < j && NearestAt(table, cur.value, rem[..j], best.value))
  }

  /** The best candidate after looking at the located, numeric place `rem[j]`. */
  function Improve(table: Dict<Place>, cur: Point, rem: seq<string>, j: nat, best: Option<nat>): Option<nat>
    requires Known(table, rem) && j < |rem| && Position(table.entries[rem[j]]).Some?
    requires best.Some? ==> best.value < |rem| && Position(table.entries[rem[best.value]]).Some?
  {
    if best.None? || DistanceTo(table, cur, rem[j]) < DistanceTo(table, cur, rem[best.value]) then Some(j)
    else best
  }

  /** Looking at one more place keeps what the search has established. */
  lemma ScanStep(table: Dict<Place>, cur: Option<Point>, rem: seq<string>, j: nat, best: Option<nat>)
    requires Known(table, rem) && j < |rem|
    requires ScannedUpTo(table, cur, rem, j, best)
    requires !Clash(table, cur, rem[j])
    ensures !Located(table, rem[j]) ==> ScannedUpTo(table, cur, rem, j + 1, best)
    ensures Located(table, rem[j]) ==>
              && cur.Some? && Position(table.entries[rem[j]]).Some?
              && ScannedUpTo(table, cur, rem, j + 1, Improve(table, cur.value, rem, j, best))
  {
    assert rem[..j + 1][..j] == rem[..j];
    assert forall k :: 0 <= k < j ==> rem[..j + 1][k] == rem[..j][k];
  }

  /** The search loop from position `j` on, with best candidate `best` so far. */
  function ScanFrom(table: Dict<Place>, cur: Option<Point>, rem: seq<string>, j: nat, best: Option<nat>): (r: Scan)
    requires Known(table, rem) && j <= |rem|
    requires ScannedUpTo(table, cur, rem, j, best)
    ensures r.ScanRaises? <==> exists k :: j <= k < |rem| && Clash(table, cur, rem[k])
    ensures r == Best(None) <==> best.None? && forall k :: j <= k < |rem| ==> !Located(table, rem[k])
    ensures r.Best? && r.pick.Some? ==> cur.Some? && NearestAt(table, cur.value, rem, r.pick.value)
    decreases |rem| - j
  {
    if j == |rem| then
      assert rem[..j] == rem;
      Best(best)
    else if Clash(table, cur, rem[j]) then
      ScanRaises
    else
      ScanStep(table, cur, rem, j, best);
      if !Located(table, rem[j]) then ScanFrom(table, cur, rem, j + 1, best)
      else ScanFrom(table, cur, rem, j + 1, Improve(table, cur.value, rem, j, best))
  }

  /**
   * One pass of the search over the remaining places from the current
   * position: it fails when a located place or the current position has a
   * non-numeric coordinate, finds nothing when no remaining place is located,
   * and otherwise settles on the first of the nearest located places.
   */
  function Nearest(table: Dict<Place>, cur: Option<Point>, rem: seq<string>): (r: Scan)
    requires Known(table, rem)
    ensures r.ScanRaises? <==> exists k :: 0 <= k < |rem| && Clash(table, cur, rem[k])
    ensures r == Best(None) <==> forall k :: 0 <= k < |rem| ==> !Located(table, rem[k])
    ensures r.Best? && r.pick.Some? ==> cur.Some? && NearestAt(table, cur.value, rem, r.pick.value)
  {
    ScanFrom(table, cur, rem, 0, None)
  }

  // ---------------------------------------------------------------------------
  // The walk: repeatedly move to the nearest remaining place
  // ---------------------------------------------------------------------------

  /**
   * `s` without its `i`-th element. On a list without repetitions, which the
   * remaining places always are, this is Python's `list.remove` of that element.
   */
  function RemoveAt(s: seq<string>, i: nat): (r: seq<string>)
    requires i < |s|
    ensures |r| == |s| - 1
    ensures forall k :: 0 <= k < i ==> r[k] == s[k]
    ensures forall k :: i <= k < |r| ==> r[k] == s[k + 1]
    ensures multiset(s) == multiset(r) + multiset{s[i]}
  {
    assert s == s[..i] + [s[i]] + s[i + 1..];
    s[..i] + s[i + 1..]
  }

  /** Removing one place from the remaining list keeps it a list of distinct, known places. */
  lemma RemoveAtKeeps(table: Dict<Place>, s: seq<string>, i: nat)
    requires Known(table, s) && Distinct(s) && i < |s|
    ensures Known(table, RemoveAt(s, i)) && Distinct(RemoveAt(s, i))
  {
    var r := RemoveAt(s, i);
    forall a, b | 0 <= a < b < |r| ensures r[a] != r[b] {
      var a', b' := if a < i then a else a + 1, if b < i then b else b + 1;
      assert r[a] == s[a'] && r[b] == s[b'] && a' < b';
    }
    forall k | 0 <= k < |r| ensures r[k] in table.entries {
      assert r[k] == s[if k < i then k else k + 1];
    }
  }

  /** Appending all remaining places keeps the route as a prefix and adds exactly those places. */
  lemma AppendRest(route: seq<string>, rem: seq<string>)
    ensures |route + rem| == |route| + |rem| && (route + rem)[..|route|] == route
    ensures multiset(route + rem) == multiset(route) + multiset(rem)
  {
    assert (route + rem)[..|route|] == route;
  }

  /** What the walk promises after a move to `rem[i]` carries back to the walk before the move. */
  lemma MoveKeeps(route: seq<string>, rem: seq<string>, i: nat, w: seq<string>)
    requires i < |rem|
    requires |w| == |route + [rem[i]]| + |RemoveAt(rem, i)| && w[..|route| + 1] == route + [rem[i]]
    requires multiset(w) == multiset(route + [rem[i]]) + multiset(RemoveAt(rem, i))
    ensures |w| == |route| + |rem| && w[..|route|] == route
    ensures multiset(w) == multiset(route) + multiset(rem)
  {
    assert w[..|route|] == (w[..|route| + 1])[..|route|];
    assert (route + [rem[i]])[..|route|] == route;
    assert multiset(route + [rem[i]]) == multiset(route) + multiset{rem[i]};
  }

  /** The outcome of the walk: the route, or the failure of a distance computation. */
  datatype Walked = WalkRaises | Walked(route: seq<string>)

  /**
   * The while loop: from `cur`, with `route` walked so far and `rem` still to
   * place. When the search finds nothing, or settles on a place whose name is
   * the empty string (which Python's truth test treats like finding nothing),
   * the rest is appended in its current order and the walk stops.
   */
  function Walk(table: Dict<Place>, cur: Option<Point>, rem: seq<string>, route: seq<string>): (w: Walked)
    requires Known(table, rem) && Distinct(rem)
    ensures w.Walked? ==> |w.route| == |route| + |rem| && w.route[..|route|] == route
    ensures w.Walked? ==> multiset(w.route) == multiset(route) + multiset(rem)
    decreases |rem|
  {
    if rem == [] then
      AppendRest(route, rem);
      Walked(route)
    else
      match Nearest(table, cur, rem)
      case ScanRaises => WalkRaises
      case Best(None) =>
        AppendRest(route, rem);
        Walked(route + rem)
      case Best(Some(i)) =>
        var next := rem[i];
        if next == "" then
          AppendRest(route, rem);
          Walked(route + rem)
        else
          RemoveAtKeeps(table, rem, i);
          match Walk(table, Position(table.entries[next]), RemoveAt(rem, i), route + [next])
          case WalkRaises => WalkRaises
          case Walked(r) =>
            MoveKeeps(route, rem, i, r);
            Walked(r)
  }

  // ---------------------------------------------------------------------------
  // What the walk promises: a greedy nearest-neighbour order
  // ---------------------------------------------------------------------------

  /** The places of `all` not in `visited`, in the order of `all`. */
  function Unvisited(all: seq<string>, visited: seq<string>): (r: seq<string>)
    ensures |r| <= |all|
    ensures forall k :: 0 <= k < |r| ==> r[k] in all && r[k] !in visited
    ensures Distinct(all) ==> Distinct(r)
  {
    if all == [] then []
    else if all[0] in visited then Unvisited(all[1..], visited)
    else [all[0]] + Unvisited(all[1..], visited)
  }

  /** Visiting a place that is not in `all` changes nothing. */
  lemma {:induction false} UnvisitedIgnores(all: seq<string>, visited: seq<string>, x: string)
    requires x !in all
    ensures Unvisited(all, visited + [x]) == Unvisited(all, visited)
    decreases |all|
  {
    if all != [] {
      assert all[0] in visited + [x] <==> all[0] in visited;
      UnvisitedIgnores(all[1..], visited, x);
    }
  }

  /** A first place already visited is skipped, before and after one more visit. */
  lemma UnvisitedSkip(all: seq<string>, visited: seq<string>, x: string)
    requires all != [] && all[0] in visited
    ensures Unvisited(all, visited) == Unvisited(all[1..], visited)
    ensures Unvisited(all, visited + [x]) == Unvisited(all[1..], visited + [x])
  {
    assert all[0] in visited + [x];
  }

  /** A first place neither visited nor being visited stays in front. */
  lemma UnvisitedKeep(all: seq<string>, visited: seq<string>, x: string)
    requires all != [] && all[0] !in visited && all[0] != x
    ensures Unvisited(all, visited) == [all[0]] + Unvisited(all[1..], visited)
    ensures Unvisited(all, visited + [x]) == [all[0]] + Unvisited(all[1..], visited + [x])
  {
    assert all[0] !in visited + [x];
  }

  /** Removing from behind the head leaves the head in place. */
  lemma RemoveAtBehind(h: string, s: seq<string>, i: nat)
    requires 1 <= i <= |s|
    ensures RemoveAt([h] + s, i) == [h] + RemoveAt(s, i - 1)
  {
  }

  /** Visiting the `i`-th unvisited place removes exactly that place from the unvisited list. */
  lemma {:induction false} UnvisitedStep(all: seq<string>, visited: seq<string>, i: nat)
    requires Distinct(all)
    requires i < |Unvisited(all, visited)|
    ensures Unvisited(all, visited + [Unvisited(all, visited)[i]]) == RemoveAt(Unvisited(all, visited), i)
    decreases |all|
  {
    var u := Unvisited(all, visited);
    var x := u[i];
    var rest := Unvisited(all[1..], visited);
    assert x in all;
    if all[0] in visited {
      UnvisitedSkip(all, visited, x);
      UnvisitedStep(all[1..], visited, i);
    } else if i == 0 {
      assert u == [all[0]] + rest;
      assert x == all[0] && x !in all[1..];
      assert all[0] in visited + [x];
      UnvisitedIgnores(all[1..], visited, x);
    } else {
      assert u == [all[0]] + rest && x == rest[i - 1];
      assert all[0] != x;
      UnvisitedKeep(all, visited, x);
      UnvisitedStep(all[1..], visited, i - 1);
      RemoveAtBehind(all[0], rest, i);
    }
  }

  /** The position of `x` in `s`. */
  function IndexOf(s: seq<string>, x: string): (k: nat)
    requires x in s
    ensures k < |s| && s[k] == x
    ensures forall m :: 0 <= m < k ==> s[m] != x
  {
    if s[0] == x then 0 else 1 + IndexOf(s[1..], x)
  }

  /** Every place of `all` not yet visited is still to be visited. */
  lemma {:induction false} UnvisitedComplete(all: seq<string>, visited: seq<string>, x: string)
    requires x in all && x !in visited
    ensures x in Unvisited(all, visited)
    decreases |all|
  {
    if all[0] != x {
      assert x in all[1..];
      UnvisitedComplete(all[1..], visited, x);
    }
  }

  /** Behind a distinct head, positions in `all` are one more than in its tail. */
  lemma IndexOfTail(all: seq<string>, y: string)
    requires Distinct(all) && all != [] && y in all[1..]
    ensures y != all[0] && IndexOf(all, y) == 1 + IndexOf(all[1..], y)
  {
    var k :| 0 <= k < |all[1..]| && all[1..][k] == y;
    assert all[k + 1] == y;
  }

  /** The places of `r` all belong to `all` and come in the order they have there. */
  predicate InOrderOf(all: seq<string>, r: seq<string>)
  {
    (forall k :: 0 <= k < |r| ==> r[k] in all)
    && forall i, j :: 0 <= i < j < |r| ==> IndexOf(all, r[i]) < IndexOf(all, r[j])
  }

  /** An order kept in the tail of `all` is kept in `all`. */
  lemma InOrderOfTail(all: seq<string>, rest: seq<string>)
    requires Distinct(all) && all != [] && InOrderOf(all[1..], rest)
    ensures InOrderOf(all, rest)
    ensures forall k :: 0 <= k < |rest| ==> rest[k] != all[0] && IndexOf(all, rest[k]) == 1 + IndexOf(all[1..], rest[k])
  {
    forall k | 0 <= k < |rest|
      ensures rest[k] in all && rest[k] != all[0] && IndexOf(all, rest[k]) == 1 + IndexOf(all[1..], rest[k])
    {
      IndexOfTail(all, rest[k]);
    }
  }

  /** ... and with the head of `all` put in front of it. */
  lemma InOrderOfHead(all: seq<string>, rest: seq<string>)
    requires all != [] && InOrderOf(all, rest)
    requires forall k :: 0 <= k < |rest| ==> rest[k] != all[0]
    ensures InOrderOf(all, [all[0]] + rest)
  {
    var r := [all[0]] + rest;
    forall i, j | 0 <= i < j < |r|
      ensures IndexOf(all, r[i]) < IndexOf(all, r[j])
    {
      assert r[j] == rest[j - 1];
      if 0 < i {
        assert r[i] == rest[i - 1];
      }
    }
  }

  /** The unvisited places keep the order they have in `all`. */
  lemma {:induction false} UnvisitedKeepsOrder(all: seq<string>, visited: seq<string>)
    requires Distinct(all)
    ensures InOrderOf(all, Unvisited(all, visited))
    decreases |all|
  {
    if all != [] {
      var rest := Unvisited(all[1..], visited);
      UnvisitedKeepsOrder(all[1..], visited);
      InOrderOfTail(all, rest);
      if all[0] !in visited {
        InOrderOfHead(all, rest);
      }
    }
  }

  /**
   * Moving from place `from` to place `to` is greedy after `visited`: `to` is
   * the place the search settles on, from the position of `from`, among the
   * places of `all` not yet visited, listed in the order of `all`.
   */
  predicate GreedyMove(table: Dict<Place>, all: seq<string>, visited: seq<string>, from: string, to: string)
    requires Known(table, all) && from in table.entries
  {
    var u := Unvisited(all, visited);
    && Position(table.entries[from]).Some?
    && to in u
    && NearestAt(table, Position(table.entries[from]).value, u, IndexOf(u, to))
  }

  /** Step `k` of route `r`, from stop `k - 1` to stop `k`, is greedy. */
  predicate GreedyStep(table: Dict<Place>, all: seq<string>, r: seq<string>, k: nat)
    requires Known(table, all) && Known(table, r) && 1 <= k < |r|
  {
    GreedyMove(table, all, r[..k], r[k - 1], r[k])
  }

  /** Every name of `all` is a key of the table. */
  lemma KnownUnvisited(table: Dict<Place>, all: seq<string>, visited: seq<string>)
    requires Known(table, all)
    ensures Known(table, Unvisited(all, visited))
  {
    var u := Unvisited(all, visited);
    forall k | 0 <= k < |u| ensures u[k] in table.entries {
      var j :| 0 <= j < |all| && all[j] == u[k];
    }
  }

  /**
   * `r` is a nearest-neighbour route through `all`: after the start, the
   * first `m` stops are greedy steps, and the rest are the places not yet
   * visited, in mention order, none of them with both coordinate keys.
   */
  ghost predicate GreedyRoute(table: Dict<Place>, all: seq<string>, r: seq<string>)
    requires Known(table, all)
  {
    && 1 <= |r|
    && Known(table, r)
    && exists m ::
         && 1 <= m <= |r|
         && (forall k :: 1 <= k < m ==> GreedyStep(table, all, r, k))
         && r[m..] == Unvisited(all, r[..m])
         && (forall q :: m <= q < |r| ==> !Located(table, r[q]))
  }
  /** No place of `names` is called the empty string. */
  predicate NoEmptyName(names: seq<string>)
  {
    forall k :: 0 <= k < |names| ==> names[k] != ""
  }

  /** Extending a route by one stop keeps the earlier steps greedy. */
  lemma GreedyStepsExtend(table: Dict<Place>, all: seq<string>, route: seq<string>, next: string)
    requires Known(table, all) && Known(table, route) && next in table.entries
    requires forall k :: 1 <= k < |route| ==> GreedyStep(table, all, route, k)
    ensures Known(table, route + [next])
    ensures forall k :: 1 <= k < |route| ==> GreedyStep(table, all, route + [next], k)
  {
    var r := route + [next];
    assert forall k :: 0 <= k < |route| ==> route[k] == r[k];
    forall k | 1 <= k < |route| ensures GreedyStep(table, all, r, k) {
      assert r[..k] == route[..k];
      assert GreedyStep(table, all, route, k);
    }
  }

  /** A route whose remaining places are all unlocated is complete once they are appended. */
  lemma GreedyFinish(table: Dict<Place>, all: seq<string>, route: seq<string>, rem: seq<string>)
    requires Known(table, all) && 1 <= |route| && Known(table, route) && Known(table, rem)
    requires rem == Unvisited(all, route)
    requires forall k :: 1 <= k < |route| ==> GreedyStep(table, all, route, k)
    requires forall k :: 0 <= k < |rem| ==> !Located(table, rem[k])
    ensures GreedyRoute(table, all, route + rem)
  {
    var r := route + rem;
    assert r[..|route|] == route && r[|route|..] == rem;
    assert forall q :: |route| <= q < |r| ==> r[q] == rem[q - |route|];
    assert forall k :: 0 <= k < |route| ==> r[k] == route[k];
    forall k | 1 <= k < |route| ensures GreedyStep(table, all, r, k) {
      assert r[..k] == route[..k];
      assert GreedyStep(table, all, route, k);
    }
  }

  /** A step to the place the search settles on is greedy, and leaves the rest unvisited. */
  lemma GreedyAdvance(table: Dict<Place>, all: seq<string>, cur: Point, rem: seq<string>, route: seq<string>, i: nat)
    requires Known(table, all) && Distinct(all)
    requires 1 <= |route| && Known(table, route)
    requires rem == Unvisited(all, route) && Known(table, rem) && Distinct(rem)
    requires Position(table.entries[route[|route| - 1]]) == Some(cur)
    requires forall k :: 1 <= k < |route| ==> GreedyStep(table, all, route, k)
    requires NearestAt(table, cur, rem, i)
    ensures Known(table, route + [rem[i]])
    ensures RemoveAt(rem, i) == Unvisited(all, route + [rem[i]])
    ensures forall k :: 1 <= k < |route| + 1 ==> GreedyStep(table, all, route + [rem[i]], k)
  {
    var next := rem[i];
    var r := route + [next];
    UnvisitedStep(all, route, i);
    GreedyStepsExtend(table, all, route, next);
    assert r[..|route|] == route;
    assert IndexOf(rem, next) == i;
    assert GreedyStep(table, all, r, |route|);
  }

  /** When the search settles on a named place, the walk moves there and continues. */
  lemma WalkMoves(table: Dict<Place>, cur: Option<Point>, rem: seq<string>, route: seq<string>)
    requires Known(table, rem) && Distinct(rem)
    ensures var n := Nearest(table, cur, rem);
            n.Best? && n.pick.Some? && n.pick.value < |rem| && rem[n.pick.value] != "" ==>
              && Known(table, RemoveAt(rem, n.pick.value)) && Distinct(RemoveAt(rem, n.pick.value))
              && Walk(table, cur, rem, route)
                 == Walk(table, Position(table.entries[rem[n.pick.value]]), RemoveAt(rem, n.pick.value), route + [rem[n.pick.value]])
  {
    var n := Nearest(table, cur, rem);
    if n.Best? && n.pick.Some? && n.pick.value < |rem| && rem[n.pick.value] != "" {
      RemoveAtKeeps(table, rem, n.pick.value);
    }
  }

  /**
   * The walk, started with the unvisited places of `all` after `route` and at
   * the position of the last stop, completes `route` to a greedy route.
   */
  lemma {:induction false} WalkGreedy(table: Dict<Place>, all: seq<string>, cur: Option<Point>, rem: seq<string>, route: seq<string>)
    requires Known(table, all) && Distinct(all) && NoEmptyName(all)
    requires 1 <= |route| && Known(table, route)
    requires rem == Unvisited(all, route) && Known(table, rem) && Distinct(rem)
    requires cur == Position(table.entries[route[|route| - 1]])
    requires forall k :: 1 <= k < |route| ==> GreedyStep(table, all, route, k)
    ensures Walk(table, cur, rem, route).Walked? ==> GreedyRoute(table, all, Walk(table, cur, rem, route).route)
    decreases |rem|
  {
    if rem == [] {
      GreedyFinish(table, all, route, rem);
      assert route + rem == route;
    } else {
      match Nearest(table, cur, rem)
      case ScanRaises =>
      case Best(None) =>
        GreedyFinish(table, all, route, rem);
      case Best(Some(i)) =>
        var next := rem[i];
        assert next in all;
        WalkMoves(table, cur, rem, route);
        GreedyAdvance(table, all, cur.value, rem, route, i);
        WalkGreedy(table, all, Position(table.entries[next]), RemoveAt(rem, i), route + [next]);
    }
  }

  // ---------------------------------------------------------------------------
  // The whole orderer
  // ---------------------------------------------------------------------------

  /** Why the orderer gives up, each with its own message. */
  datatype RouteFailure =
    | InsufficientPlaceData(city: string)
    | UnparsableRoute(text: string)
    | MissingCoordinates(start: string)

  /** The orderer's result; `RouteRaises` is an exception that ends the whole request. */
  datatype RouteResult = Routed(route: seq<string>) | Refused(failure: RouteFailure) | RouteRaises

  /** The place table of `city`, when the city exists and has a "Places" key. */
  predicate HasPlaces(kb: KnowledgeBase, city: string)
  {
    city in kb.entries && PlacesKey in kb.entries[city].entries
  }

  /**
   * The route for `city` from the generated plan `text`. An empty knowledge
   * base, an unknown city or a city without "Places" is refused; a "Places"
   * value that is not an object fails on `.keys()`; a plan that mentions no
   * place is refused, and so is a first place lacking a coordinate key.
   * Otherwise the walk starts at the first place mentioned.
   */
  function OrderRoute(kb: KnowledgeBase, city: string, text: string): (r: RouteResult)
    requires WellFormed(kb)
    ensures r == Refused(InsufficientPlaceData(city)) <==> !HasPlaces(kb, city)
    ensures r.Refused? && r.failure.UnparsableRoute? ==> r.failure.text == text
    ensures HasPlaces(kb, city) && PlacesOf(kb.entries[city]).None? ==> r == RouteRaises
    ensures r.Routed? ==> HasPlaces(kb, city) && PlacesOf(kb.entries[city]).Some?
  {
    if |kb.keys| == 0 || !HasPlaces(kb, city) then Refused(InsufficientPlaceData(city))
    else
      match PlacesOf(kb.entries[city])
      case None => RouteRaises
      case Some(table) =>
        var mentions := Mentions(text, table.keys);
        if mentions == [] then Refused(UnparsableRoute(text))
        else
          MentionsKnown(table, text);
          var start := mentions[0];
          if !HasCoordinateKeys(table.entries[start]) then Refused(MissingCoordinates(start))
          else
            match Walk(table, Position(table.entries[start]), mentions[1..], [start])
            case WalkRaises => RouteRaises
            case Walked(route) => Routed(route)
  }

  /** The numbered line of the `i`-th stop, counting from 1. */
  function StopLine(route: seq<string>, i: nat): string
    requires i < |route|
  {
    Decimal(i + 1) + ". " + route[i] + "\n"
  }

  const ReportOpening: string := "**\U{1F5FA}\U{FE0F} Önerilen Optimal Rota (Başlangıç: "
  const ReportClosing: string := ")**:\n"

  /** The numbered lines of all stops, in route order. */
  function StopLines(route: seq<string>): (lines: seq<string>)
    ensures |lines| == |route|
    ensures forall i :: 0 <= i < |route| ==> lines[i] == StopLine(route, i)
  {
    seq(|route|, i requires 0 <= i < |route| => StopLine(route, i))
  }

  /** The text the orderer returns for a route: a heading naming the start, then one numbered line per stop. */
  function RouteReport(route: seq<string>): string
    requires |route| >= 1
  {
    ReportOpening + route[0] + ReportClosing + Join(StopLines(route), "")
  }

  /** The report names the starting place. */
  lemma RouteReportNamesStart(route: seq<string>)
    requires |route| >= 1
    ensures Contains(RouteReport(route), route[0])
  {
    var rest := ReportClosing + Join(StopLines(route), "");
    ContainsInMiddle(ReportOpening, route[0], rest);
    assert RouteReport(route) == ReportOpening + route[0] + rest;
  }

  /** The report lists every stop under its number. */
  lemma RouteReportListsStops(route: seq<string>)
    requires |route| >= 1
    ensures forall i :: 0 <= i < |route| ==> Contains(RouteReport(route), StopLine(route, i))
  {
    var lines := StopLines(route);
    JoinContainsParts(lines, "");
    forall i | 0 <= i < |route| ensures Contains(RouteReport(route), StopLine(route, i)) {
      ContainsAfter(ReportOpening + route[0] + ReportClosing, Join(lines, ""), lines[i]);
    }
  }

  /** The text of a refusal; each names what it is about. */
  function RefusalMessage(f: RouteFailure): (msg: string)
    ensures f.InsufficientPlaceData? ==> Contains(msg, f.city)
    ensures f.UnparsableRoute? ==> Contains(msg, f.text)
    ensures f.MissingCoordinates? ==> Contains(msg, f.start)
  {
    match f
    case InsufficientPlaceData(city) =>
      var pre := "\U{274C} Rota oluşturmak için yeterli yer detayı bilgisi (";
      var post := " için) bulunamadı.";
      ContainsInMiddle(pre, city, post);
      pre + city + post
    case UnparsableRoute(text) =>
      var pre := "\U{26A0}\U{FE0F} Rota metni ayrıştırılamadı. LLM'den gelen formatı kontrol edin:\n";
      ContainsInMiddle(pre, text, "");
      assert pre + text + "" == pre + text;
      pre + text
    case MissingCoordinates(start) =>
      var pre := "\U{274C} Başlangıç yerinin (";
      var post := ") koordinatları eksik. Sıralama yapılamaz.";
      ContainsInMiddle(pre, start, post);
      pre + start + post
  }

  // ---------------------------------------------------------------------------
  // What the orderer promises
  // ---------------------------------------------------------------------------

  /** A list none of whose names has been visited is its own unvisited list. */
  lemma {:induction false} UnvisitedNone(s: seq<string>, visited: seq<string>)
    requires forall k :: 0 <= k < |s| ==> s[k] !in visited
    ensures Unvisited(s, visited) == s
    decreases |s|
  {
    if s != [] {
      UnvisitedNone(s[1..], visited);
      assert s == [s[0]] + s[1..];
    }
  }

  /** The mentions all come from the table. */
  lemma MentionsKnown(table: Dict<Place>, text: string)
    requires table.Valid()
    ensures Known(table, Mentions(text, table.keys))
  {
    var mentions := Mentions(text, table.keys);
    forall k | 0 <= k < |mentions| ensures mentions[k] in table.entries {
      var j :| 0 <= j < |table.keys| && table.keys[j] == mentions[k];
      assert table.keys[j] in table.keys;
    }
  }

  /** The walk from the first mention, through the rest, gives a greedy route. */
  lemma WalkFromStart(table: Dict<Place>, mentions: seq<string>)
    requires Known(table, mentions) && Distinct(mentions) && |mentions| >= 1
    ensures Known(table, mentions[1..]) && Distinct(mentions[1..])
    ensures var w := Walk(table, Position(table.entries[mentions[0]]), mentions[1..], [mentions[0]]);
            w.Walked? ==>
              && w.route[0] == mentions[0]
              && multiset(w.route) == multiset(mentions)
              && (NoEmptyName(mentions) ==> GreedyRoute(table, mentions, w.route))
  {
    var start := mentions[0];
    assert mentions == [start] + mentions[1..];
    assert Known(table, [start]);
    UnvisitedNone(mentions[1..], [start]);
    assert Unvisited(mentions, [start]) == mentions[1..];
    if NoEmptyName(mentions) {
      WalkGreedy(table, mentions, Position(table.entries[start]), mentions[1..], [start]);
    }
  }

  /**
   * A route the orderer returns starts at the first place the plan mentions,
   * visits every mentioned place exactly once, and is a nearest-neighbour
   * route through them, unless some mentioned place is named by the empty
   * string.
   */
  lemma OrderRouteIsGreedy(kb: KnowledgeBase, city: string, text: string)
    requires WellFormed(kb)
    requires OrderRoute(kb, city, text).Routed?
    ensures HasPlaces(kb, city) && PlacesOf(kb.entries[city]).Some?
    ensures var table := PlacesOf(kb.entries[city]).value;
            var mentions := Mentions(text, table.keys);
            var route := OrderRoute(kb, city, text).route;
            && Known(table, mentions)
            && |mentions| >= 1
            && route[0] == mentions[0]
            && multiset(route) == multiset(mentions)
            && (NoEmptyName(mentions) ==> GreedyRoute(table, mentions, route))
  {
    var table := PlacesOf(kb.entries[city]).value;
    MentionsKnown(table, text);
    WalkFromStart(table, Mentions(text, table.keys));
  }

  /**
   * For a city with a place table, the two later refusals: the plan is
   * unparsable exactly when it mentions no place, and the start lacks
   * coordinates exactly when the first place mentioned misses a coordinate key.
   */
  lemma OrderRouteRefusals(kb: KnowledgeBase, city: string, text: string)
    requires WellFormed(kb)
    requires HasPlaces(kb, city) && PlacesOf(kb.entries[city]).Some?
    ensures var mentions := Mentions(text, PlacesOf(kb.entries[city]).value.keys);
            OrderRoute(kb, city, text) == Refused(UnparsableRoute(text)) <==> mentions == []
    ensures var table := PlacesOf(kb.entries[city]).value;
            var mentions := Mentions(text, table.keys);
            mentions != [] ==>
              && mentions[0] in table.entries
              && (OrderRoute(kb, city, text) == Refused(MissingCoordinates(mentions[0]))
                  <==> !HasCoordinateKeys(table.entries[mentions[0]]))
  {
    MentionsKnown(PlacesOf(kb.entries[city]).value, text);
  }

  /** Where every located place has numeric coordinates, the walk from a numeric position never fails. */
  lemma {:induction false} WalkNeverRaises(table: Dict<Place>, cur: Point, rem: seq<string>, route: seq<string>)
    requires Known(table, rem) && Distinct(rem)
    requires forall k :: 0 <= k < |rem| && Located(table, rem[k]) ==> Position(table.entries[rem[k]]).Some?
    ensures Walk(table, Some(cur), rem, route).Walked?
    decreases |rem|
  {
    if rem != [] {
      match Nearest(table, Some(cur), rem)
      case ScanRaises =>
        assert false;
      case Best(None) =>
      case Best(Some(i)) =>
        var next := rem[i];
        if next != "" {
          WalkNeverRaises(table, Position(table.entries[next]).value, RemoveAt(rem, i), route + [next]);
        }
    }
  }

  /**
   * When "Places" is an object and every place with both coordinate keys has
   * numbers there, the orderer never fails with an exception.
   */
  lemma OrderRouteNeverRaises(kb: KnowledgeBase, city: string, text: string)
    requires WellFormed(kb)
    requires HasPlaces(kb, city) ==> PlacesOf(kb.entries[city]).Some?
    requires HasPlaces(kb, city) ==>
               var table := PlacesOf(kb.entries[city]).value;
               forall name :: name in table.entries && HasCoordinateKeys(table.entries[name]) ==>
                 Position(table.entries[name]).Some?
    ensures OrderRoute(kb, city, text) != RouteRaises
  {
    if HasPlaces(kb, city) {
      var table := PlacesOf(kb.entries[city]).value;
      var mentions := Mentions(text, table.keys);
      MentionsKnown(table, text);
      if mentions != [] && HasCoordinateKeys(table.entries[mentions[0]]) {
        WalkNeverRaises(table, Position(table.entries[mentions[0]]).value, mentions[1..], [mentions[0]]);
      }
    }
  }
}
