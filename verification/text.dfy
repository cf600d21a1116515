/**
 * The handful of Python string operations the assistant relies on, written out
 * over `seq<char>`: substring test (`p in s`), `str.split` on one character,
 * `str.join`, `str.strip()`, `str.replace` of one character, `str.lower()`,
 * `str.isdigit()` / `int(...)` on day keys, and decimal rendering of counters;
 * and one helper on positions that the proofs about filtering share.
 */
module Text {

  // ---------------------------------------------------------------------------
  // Substring test
  // ---------------------------------------------------------------------------

  /** `p` occurs in `s` as a contiguous block starting at index `i`. */
  predicate OccursAt(s: string, p: string, i: int)
  {
    0 <= i && i + |p| <= |s| && s[i..i + |p|] == p
  }

  /** Python's `p in s` for strings; the empty string occurs in every string. */
  predicate Contains(s: string, p: string)
    decreases |s|
  {
    if |p| > |s| then false
    else s[..|p|] == p || (0 < |s| && Contains(s[1..], p))
  }

  /** The scanning definition agrees with "there is a position where `p` starts". */
  lemma {:induction false} ContainsIffOccurs(s: string, p: string)
    ensures Contains(s, p) <==> exists i :: OccursAt(s, p, i)
    decreases |s|
  {
    if |p| > |s| {
    } else if s[..|p|] == p {
      assert OccursAt(s, p, 0);
    } else {
      assert 0 < |s|;
      ContainsIffOccurs(s[1..], p);
      if Contains(s[1..], p) {
        var i :| OccursAt(s[1..], p, i);
        assert s[1..][i..i + |p|] == s[i + 1..i + 1 + |p|];
        assert OccursAt(s, p, i + 1);
      }
      if exists i :: OccursAt(s, p, i) {
        var i :| OccursAt(s, p, i);
        assert i != 0;
        assert s[1..][i - 1..i - 1 + |p|] == s[i..i + |p|];
        assert OccursAt(s[1..], p, i - 1);
      }
    }
  }

  /** Whatever surrounds `p`, the result contains it. */
  lemma ContainsInMiddle(a: string, p: string, b: string)
    ensures Contains(a + p + b, p)
  {
    assert (a + p + b)[|a|..|a| + |p|] == p;
    assert OccursAt(a + p + b, p, |a|);
    ContainsIffOccurs(a + p + b, p);
  }

  /** Text put in front keeps every block of what follows. */
  lemma ContainsAfter(a: string, b: string, p: string)
    requires Contains(b, p)
    ensures Contains(a + b, p)
  {
    ContainsIffOccurs(b, p);
    var k :| OccursAt(b, p, k);
    assert (a + b)[|a| + k..|a| + k + |p|] == b[k..k + |p|];
    assert OccursAt(a + b, p, |a| + k);
    ContainsIffOccurs(a + b, p);
  }

  // ---------------------------------------------------------------------------
  // Lower-casing
  // ---------------------------------------------------------------------------

  /**
   * Python's `str.lower()` on one character, for the letters a Turkish travel
   * text uses: ASCII capitals, the Latin-1 capitals (Ç, Ö, Ü, ...), Ğ and Ş.
   * Capital dotted İ lowers to TWO characters, `i` followed by the combining
   * dot above, exactly as Python does; dotless capital I lowers to `i`, not `ı`.
   */
  function LowerChar(c: char): string
  {
    if 'A' <= c <= 'Z' then [(c as int + 32) as char]
    else if 'À' <= c <= 'Þ' && c != '×' then [(c as int + 32) as char]
    else if c == 'Ğ' then ['ğ']
    else if c == 'Ş' then ['ş']
    else if c == 'İ' then ['i', '\U{0307}']
    else [c]
  }

  /** Python's `str.lower()`, character by character. */
  function Lower(s: string): string
  {
    if s == [] then [] else LowerChar(s[0]) + Lower(s[1..])
  }

  /** Lower-casing distributes over concatenation. */
  lemma {:induction false} LowerConcat(a: string, b: string)
    ensures Lower(a + b) == Lower(a) + Lower(b)
  {
    if a == [] {
      assert a + b == b;
    } else {
      assert (a + b)[0] == a[0];
      assert (a + b)[1..] == a[1..] + b;
      LowerConcat(a[1..], b);
    }
  }

  /** Without a capital dotted İ, lower-casing keeps the length. */
  lemma {:induction false} LowerLength(s: string)
    requires forall i :: 0 <= i < |s| ==> s[i] != 'İ'
    ensures |Lower(s)| == |s|
  {
    if s != [] {
      LowerLength(s[1..]);
    }
  }

  /**
   * Case-insensitive matching as the program does it (`p in s.lower()` with a
   * lower-case `p`): any spelling `w` of the phrase that lowers to it counts.
   */
  lemma {:induction false} LoweredOccurrence(s: string, w: string)
    requires Contains(s, w)
    ensures Contains(Lower(s), Lower(w))
  {
    ContainsIffOccurs(s, w);
    var i :| OccursAt(s, w, i);
    var a, b := s[..i], s[i + |w|..];
    assert s == a + w + b;
    LowerConcat(a + w, b);
    LowerConcat(a, w);
    ContainsInMiddle(Lower(a), Lower(w), Lower(b));
  }

  // ---------------------------------------------------------------------------
  // Join, split, replace
  // ---------------------------------------------------------------------------

  /** Python's `sep.join(parts)`. */
  function Join(parts: seq<string>, sep: string): string
  {
    if |parts| == 0 then ""
    else if |parts| == 1 then parts[0]
    else parts[0] + sep + Join(parts[1..], sep)
  }

  /** A join of two or more parts starts with the first part and ends with the last, each next to a separator. */
  lemma {:induction false} JoinEnds(parts: seq<string>, sep: string)
    requires |parts| >= 2
    ensures parts[0] + sep <= Join(parts, sep)
    ensures var j, last := Join(parts, sep), parts[|parts| - 1];
            |sep| + |last| <= |j| && j[|j| - |sep| - |last|..] == sep + last
    decreases |parts|
  {
    var tail := Join(parts[1..], sep);
    assert Join(parts, sep) == parts[0] + sep + tail;
    if |parts| > 2 {
      JoinEnds(parts[1..], sep);
    } else {
      assert tail == parts[1];
    }
  }

  /** Every part is a block of the joined string. */
  lemma JoinContainsParts(parts: seq<string>, sep: string)
    ensures forall i :: 0 <= i < |parts| ==> Contains(Join(parts, sep), parts[i])
  {
    forall i | 0 <= i < |parts| {
      JoinContainsPart(parts, sep, i);
    }
  }

  lemma {:induction false} JoinContainsPart(parts: seq<string>, sep: string, i: nat)
    requires i < |parts|
    ensures Contains(Join(parts, sep), parts[i])
    decreases |parts|
  {
    if |parts| == 1 {
      ContainsInMiddle("", parts[0], "");
      assert "" + parts[0] + "" == parts[0];
    } else {
      var rest := Join(parts[1..], sep);
      assert Join(parts, sep) == parts[0] + sep + rest;
      if i == 0 {
        ContainsInMiddle("", parts[0], sep + rest);
        assert "" + parts[0] + (sep + rest) == Join(parts, sep);
      } else {
        JoinContainsPart(parts[1..], sep, i - 1);
        ContainsAfter(parts[0] + sep, rest, parts[i]);
      }
    }
  }

  /**
   * Python's `s.split(sep)` for a one-character separator: the pieces between
   * separators, empty ones included, so a string with n separators gives n + 1
   * pieces.
   */
  function Split(s: string, sep: char): (pieces: seq<string>)
    ensures |pieces| >= 1
    ensures forall i :: 0 <= i < |pieces| ==> sep !in pieces[i]
    ensures Join(pieces, [sep]) == s
  {
    if s == [] then [""]
    else
      var rest := Split(s[1..], sep);
      if s[0] == sep then
        assert s == [sep] + s[1..];
        [""] + rest
      else
        var pieces := [[s[0]] + rest[0]] + rest[1..];
        assert pieces[1..] == rest[1..];
        assert |rest| > 1 ==> Join(rest, [sep]) == rest[0] + [sep] + Join(rest[1..], [sep]);
        assert s == [s[0]] + s[1..];
        pieces
  }

  /** Splitting a join of separator-free pieces gives the pieces back. */
  lemma {:induction false} SplitJoin(parts: seq<string>, sep: char)
    requires |parts| >= 1
    requires forall i :: 0 <= i < |parts| ==> sep !in parts[i]
    ensures Split(Join(parts, [sep]), sep) == parts
    decreases |parts|, |parts[0]|
  {
    var s := Join(parts, [sep]);
    if |parts[0]| == 0 {
      if |parts| == 1 {
      } else {
        assert s == [sep] + Join(parts[1..], [sep]);
        SplitJoin(parts[1..], sep);
        assert s[1..] == Join(parts[1..], [sep]);
        assert [""] + parts[1..] == parts;
      }
    } else {
      var c := parts[0][0];
      var parts' := [parts[0][1..]] + parts[1..];
      assert parts'[1..] == parts[1..];
      assert forall i :: 0 <= i < |parts'| ==> sep !in parts'[i];
      SplitJoin(parts', sep);
      assert parts[0] == [c] + parts[0][1..];
      if |parts| == 1 {
        assert s == [c] + Join(parts', [sep]);
      } else {
        assert s == [c] + Join(parts', [sep]);
      }
      assert s[0] == c && s[1..] == Join(parts', [sep]);
      assert c != sep;
      assert [[c] + parts'[0]] + parts'[1..] == parts;
    }
  }

  /** Python's `s.replace(from, to)` for single characters. */
  function ReplaceChar(s: string, from: char, to: char): (r: string)
    ensures |r| == |s|
    ensures forall i :: 0 <= i < |s| ==> r[i] == (if s[i] == from then to else s[i])
  {
    if s == [] then [] else [if s[0] == from then to else s[0]] + ReplaceChar(s[1..], from, to)
  }

  // ---------------------------------------------------------------------------
  // Whitespace stripping
  // ---------------------------------------------------------------------------

  /** Python's `str.isspace()` on one character (its full list of whitespace). */
  predicate IsSpace(c: char)
  {
    ('\t' <= c <= '\r') || ('\U{1C}' <= c <= '\U{1F}') || c == ' ' || c == '\U{85}'
    || c == '\U{A0}' || c == '\U{1680}' || ('\U{2000}' <= c <= '\U{200A}') || c == '\U{2028}'
    || c == '\U{2029}' || c == '\U{202F}' || c == '\U{205F}' || c == '\U{3000}'
  }

  predicate AllSpace(s: string)
  {
    forall i :: 0 <= i < |s| ==> IsSpace(s[i])
  }

  /** Drops leading whitespace. */
  function TrimStart(s: string): string
  {
    if |s| > 0 && IsSpace(s[0]) then TrimStart(s[1..]) else s
  }

  /** Drops trailing whitespace. */
  function TrimEnd(s: string): string
  {
    if |s| > 0 && IsSpace(s[|s| - 1]) then TrimEnd(s[..|s| - 1]) else s
  }

  /** Python's `s.strip()`. */
  function Strip(s: string): string
  {
    TrimEnd(TrimStart(s))
  }

  /** `TrimStart` leaves a suffix that does not start with whitespace, having dropped only whitespace. */
  lemma {:induction false} TrimStartSpec(s: string)
    ensures |TrimStart(s)| <= |s| && TrimStart(s) == s[|s| - |TrimStart(s)|..]
    ensures AllSpace(s[..|s| - |TrimStart(s)|])
    ensures TrimStart(s) == [] || !IsSpace(TrimStart(s)[0])
  {
    if |s| > 0 && IsSpace(s[0]) {
      TrimStartSpec(s[1..]);
      var r := TrimStart(s[1..]);
      assert s[..|s| - |r|] == [s[0]] + s[1..][..|s[1..]| - |r|];
    }
  }

  /** `TrimEnd` leaves a prefix that does not end with whitespace, having dropped only whitespace. */
  lemma {:induction false} TrimEndSpec(s: string)
    ensures |TrimEnd(s)| <= |s| && TrimEnd(s) == s[..|TrimEnd(s)|]
    ensures AllSpace(s[|TrimEnd(s)|..])
    ensures TrimEnd(s) == [] || !IsSpace(TrimEnd(s)[|TrimEnd(s)| - 1])
  {
    if |s| > 0 && IsSpace(s[|s| - 1]) {
      var t := s[..|s| - 1];
      TrimEndSpec(t);
      var r := TrimEnd(t);
      assert s[|r|..] == t[|r|..] + [s[|s| - 1]];
    }
  }

  /**
   * `Strip(s)` is the block of `s` left after removing whitespace at both ends:
   * everything dropped is whitespace, and the result neither starts nor ends
   * with whitespace.
   */
  lemma StripSpec(s: string)
    ensures exists i :: 0 <= i && i + |Strip(s)| <= |s| && Strip(s) == s[i..i + |Strip(s)|]
                        && AllSpace(s[..i]) && AllSpace(s[i + |Strip(s)|..])
    ensures Strip(s) == [] || (!IsSpace(Strip(s)[0]) && !IsSpace(Strip(s)[|Strip(s)| - 1]))
  {
    var t := TrimStart(s);
    var r := TrimEnd(t);
    TrimStartSpec(s);
    TrimEndSpec(t);
    var i := |s| - |t|;
    assert r == s[i..i + |r|];
    assert s[i + |r|..] == t[|r|..];
  }

  // ---------------------------------------------------------------------------
  // Decimal numbers
  // ---------------------------------------------------------------------------

  predicate IsDigit(c: char)
  {
    '0' <= c <= '9'
  }

  /** Python's `str.isdigit()`, for ASCII digits: non-empty and all digits. */
  predicate IsDigits(s: string)
  {
    |s| > 0 && forall i :: 0 <= i < |s| ==> IsDigit(s[i])
  }

  /** Python's `int(s)` on a digit string (leading zeros allowed). */
  function DecimalValue(s: string): nat
    requires forall i :: 0 <= i < |s| ==> IsDigit(s[i])
  {
    if s == [] then 0
    else
      assert IsDigit(s[|s| - 1]);
      DecimalValue(s[..|s| - 1]) * 10 + (s[|s| - 1] as int - '0' as int)
  }

  /** Python's `f"{n}"` for a natural number: its decimal digits, which read back as `n`. */
  function Decimal(n: nat): (s: string)
    ensures IsDigits(s)
    ensures DecimalValue(s) == n
    ensures |s| >= 1 && (s[0] == '0' ==> s == "0")
  {
    if n < 10 then
      [('0' as int + n) as char]
    else
      var prefix := Decimal(n / 10);
      var s := prefix + [('0' as int + n % 10) as char];
      assert s[..|s| - 1] == prefix;
      s
  }

  // ---------------------------------------------------------------------------
  // Positions
  // ---------------------------------------------------------------------------

  /** Every index plus one: positions in `s[1..]` as positions in `s`. */
  function Shift(pos: seq<nat>): (r: seq<nat>)
    ensures |r| == |pos| && forall a :: 0 <= a < |pos| ==> r[a] == pos[a] + 1
  {
    seq(|pos|, a requires 0 <= a < |pos| => pos[a] + 1)
  }
}
