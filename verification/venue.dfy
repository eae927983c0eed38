/** The venue text of a fixture card in `my-app/components/matches.jsx`: `normalizeVenueName`
    and the `name, city` line built from it. Strings are sequences of characters; JavaScript's
    regular expressions are modelled by the positions where they match. */
module VenueName {
  import opened Wrappers

  /** JavaScript's whitespace: what `\s` matches in a regular expression and what
      `String.prototype.trim` removes (the WhiteSpace and LineTerminator characters of
      ECMAScript; both use the same set). */
  predicate IsWhitespace(c: char) {
    || c == '\t' || c == '\n' || c == '\U{000B}' || c == '\U{000C}' || c == '\r' || c == ' '
    || c == '\U{00A0}' || c == '\U{1680}' || ('\U{2000}' <= c <= '\U{200A}')
    || c == '\U{2028}' || c == '\U{2029}' || c == '\U{202F}' || c == '\U{205F}'
    || c == '\U{3000}' || c == '\U{FEFF}'
  }

  /** The characters a regular-expression `.` does not match. */
  predicate IsLineTerminator(c: char) {
    c == '\n' || c == '\r' || c == '\U{2028}' || c == '\U{2029}'
  }

  predicate NoOuterWhitespace(s: string) {
    s == [] || (!IsWhitespace(s[0]) && !IsWhitespace(s[|s| - 1]))
  }

  // ---------------------------------------------------------------------------------------
  // Line 12: `replace(/\s*\$$.*\$$$/, '')`

  /** The pattern of line 12 matching from position `i`: a whitespace run `s[i..k]`, a `$` at
      `k`, then `.*` over `s[k + 1..m]` and a second `$` at `m`; the end anchor after the first
      `$` puts `k` at the last position, and the two after the second put `m` there too. */
  predicate MarkerMatch(s: string, i: nat, k: nat, m: nat) {
    && i <= k < m < |s|
    && (forall p :: i <= p < k ==> IsWhitespace(s[p]))
    && s[k] == '$'
    && (forall p :: k + 1 <= p < m ==> !IsLineTerminator(s[p]))
    && s[m] == '$'
    && k + 1 == |s|
    && m + 1 == |s|
  }

  /** The first end anchor leaves no character for the second `$` to match, so the pattern
      matches no string and the replacement of line 12 never changes anything. */
  lemma MarkerNeverMatches(s: string)
    ensures forall i, k, m :: !MarkerMatch(s, i, k, m)
  {
  }

  // ---------------------------------------------------------------------------------------
  // Line 13: `replace(/St\.\s*/, 'St ')`

  /** `St.` begins at position `i`. */
  predicate SaintAt(s: string, i: int) {
    0 <= i && i + 3 <= |s| && s[i] == 'S' && s[i + 1] == 't' && s[i + 2] == '.'
  }

  predicate HasSaint(s: string) {
    exists i | 0 <= i < |s| :: SaintAt(s, i)
  }

  /** `i` is the leftmost `St.` of `s`: where the regular expression matches. */
  predicate FirstSaint(s: string, i: int) {
    SaintAt(s, i) && forall j | 0 <= j < i :: !SaintAt(s, j)
  }

  /** The leftmost `St.` at or after `from`, if any. */
  function FindSaintFrom(s: string, from: nat): (r: Option<nat>)
    decreases |s| - from
    ensures r.Some? ==> from <= r.value < |s| && SaintAt(s, r.value)
    ensures r.Some? ==> forall j | from <= j < r.value :: !SaintAt(s, j)
    ensures r.None? ==> forall j | from <= j < |s| :: !SaintAt(s, j)
  {
    if from >= |s| then None
    else if SaintAt(s, from) then Some(from)
    else FindSaintFrom(s, from + 1)
  }

  function FindSaint(s: string): (r: Option<nat>)
    ensures r.Some? ==> FirstSaint(s, r.value)
    ensures r.None? <==> !HasSaint(s)
  {
    FindSaintFrom(s, 0)
  }

  lemma FirstSaintUnique(s: string, i: int, j: int)
    requires FirstSaint(s, i) && FirstSaint(s, j)
    ensures i == j
  {
  }

  /** The end of the longest whitespace run that starts at `j` (the greedy `\s*`). */
  function SkipWhitespace(s: string, j: nat): (k: nat)
    requires j <= |s|
    decreases |s| - j
    ensures j <= k <= |s|
    ensures forall p | j <= p < k :: IsWhitespace(s[p])
    ensures k == |s| || !IsWhitespace(s[k])
  {
    if j < |s| && IsWhitespace(s[j]) then SkipWhitespace(s, j + 1) else j
  }

  /** Rewrites the first `St.` and the whitespace after it to `St `; later ones stay. */
  function ReplaceSaint(s: string): (r: string)
    ensures r == s <==> !HasSaint(s)
  {
    match FindSaint(s)
    case None => s
    case Some(i) =>
      var r := s[..i] + "St " + s[SkipWhitespace(s, i + 3)..];
      assert r[i + 2] != s[i + 2];
      r
  }

  /** What line 13 does, stated without reference to a search: for the leftmost `St.` at `i`
      and the maximal whitespace run `s[i + 3..k]` after it, the result is `s[..i] + "St "`
      followed by `s[k..]` unchanged. */
  lemma ReplaceSaintFirst(s: string, i: nat, k: nat)
    requires FirstSaint(s, i)
    requires i + 3 <= k <= |s|
    requires forall p | i + 3 <= p < k :: IsWhitespace(s[p])
    requires k == |s| || !IsWhitespace(s[k])
    ensures ReplaceSaint(s) == s[..i] + "St " + s[k..]
  {
    assert HasSaint(s);
    FirstSaintUnique(s, i, FindSaint(s).value);
    RunEndUnique(s, i + 3, k, SkipWhitespace(s, i + 3));
  }

  /** A whitespace run starting at `j` has only one maximal end. */
  lemma RunEndUnique(s: string, j: nat, k1: nat, k2: nat)
    requires j <= k1 <= |s| && j <= k2 <= |s|
    requires forall p | j <= p < k1 :: IsWhitespace(s[p])
    requires forall p | j <= p < k2 :: IsWhitespace(s[p])
    requires k1 == |s| || !IsWhitespace(s[k1])
    requires k2 == |s| || !IsWhitespace(s[k2])
    ensures k1 == k2
  {
  }

  // ---------------------------------------------------------------------------------------
  // Line 14: `replace(/James[’']/, 'James’')`

  const CurlyApostrophe: char := '\U{2019}'

  /** `James` followed by a straight or a curly apostrophe begins at position `i`. */
  predicate JamesAt(s: string, i: int) {
    && 0 <= i && i + 6 <= |s|
    && s[i] == 'J' && s[i + 1] == 'a' && s[i + 2] == 'm' && s[i + 3] == 'e' && s[i + 4] == 's'
    && (s[i + 5] == '\'' || s[i + 5] == CurlyApostrophe)
  }

  predicate HasJames(s: string) {
    exists i | 0 <= i < |s| :: JamesAt(s, i)
  }

  /** `i` is the leftmost `James'` or `James’` of `s`: where the regular expression matches. */
  predicate FirstJames(s: string, i: int) {
    JamesAt(s, i) && forall j | 0 <= j < i :: !JamesAt(s, j)
  }

  /** The leftmost `James'`/`James’` at or after `from`, if any. */
  function FindJamesFrom(s: string, from: nat): (r: Option<nat>)
    decreases |s| - from
    ensures r.Some? ==> from <= r.value < |s| && JamesAt(s, r.value)
    ensures r.Some? ==> forall j | from <= j < r.value :: !JamesAt(s, j)
    ensures r.None? ==> forall j | from <= j < |s| :: !JamesAt(s, j)
  {
    if from >= |s| then None
    else if JamesAt(s, from) then Some(from)
    else FindJamesFrom(s, from + 1)
  }

  function FindJames(s: string): (r: Option<nat>)
    ensures r.Some? ==> FirstJames(s, r.value)
    ensures r.None? <==> !HasJames(s)
  {
    FindJamesFrom(s, 0)
  }

  lemma FirstJamesUnique(s: string, i: int, j: int)
    requires FirstJames(s, i) && FirstJames(s, j)
    ensures i == j
  {
  }

  /** Rewrites the apostrophe of the first `James'`/`James’` to the curly one; everything
      else, later matches included, stays. */
  function ReplaceJames(s: string): (r: string)
    ensures |r| == |s|
    ensures !HasJames(s) ==> r == s
    ensures forall i | FirstJames(s, i) ::
      r[i + 5] == CurlyApostrophe && forall p | 0 <= p < |s| && p != i + 5 :: r[p] == s[p]
  {
    match FindJames(s)
    case None => s
    case Some(i) =>
      var r := s[..i] + "James" + [CurlyApostrophe] + s[i + 6..];
      assert forall j | FirstJames(s, j) :: j == i by {
        forall j | FirstJames(s, j)
          ensures j == i
        {
          FirstJamesUnique(s, i, j);
        }
      }
      r
  }

  /** A string is left alone by line 14 exactly when its first `James` match already has the
      curly apostrophe, or it has none. */
  lemma ReplaceJamesFixed(s: string)
    ensures ReplaceJames(s) == s <==>
      forall i | FirstJames(s, i) :: s[i + 5] == CurlyApostrophe
  {
    match FindJames(s)
    case None =>
    case Some(j) =>
      var r := ReplaceJames(s);
      forall i | FirstJames(s, i)
        ensures i == j
      {
        FirstJamesUnique(s, i, j);
      }
      if s[j + 5] == CurlyApostrophe {
        assert forall p | 0 <= p < |s| :: r[p] == s[p];
        assert r == s;
      }
  }

  /** Unlike line 13, line 14 is idempotent. */
  lemma ReplaceJamesIdempotent(s: string)
    ensures ReplaceJames(ReplaceJames(s)) == ReplaceJames(s)
  {
    var r := ReplaceJames(s);
    match FindJames(s)
    case None =>
    case Some(j) =>
      assert FirstJames(s, j);
      assert FirstJames(r, j) by {
        forall q | 0 <= q < j
          ensures !JamesAt(r, q)
        {
          assert q + 6 <= |s| ==> forall p | q <= p <= q + 5 :: r[p] == s[p];
          assert JamesAt(r, q) == JamesAt(s, q);
        }
      }
      forall i | FirstJames(r, i)
        ensures r[i + 5] == CurlyApostrophe
      {
        FirstJamesUnique(r, i, j);
      }
      ReplaceJamesFixed(r);
  }

  // ---------------------------------------------------------------------------------------
  // Line 15: `trim()`

  function TrimStart(s: string): (r: string)
    ensures |r| <= |s| && r == s[|s| - |r|..]
    ensures forall p :: 0 <= p < |s| - |r| ==> IsWhitespace(s[p])
    ensures r == [] || !IsWhitespace(r[0])
  {
    if |s| > 0 && IsWhitespace(s[0]) then TrimStart(s[1..]) else s
  }

  function TrimEnd(s: string): (r: string)
    ensures |r| <= |s| && r == s[..|r|]
    ensures forall p :: |r| <= p < |s| ==> IsWhitespace(s[p])
    ensures r == [] || !IsWhitespace(r[|r| - 1])
  {
    if |s| > 0 && IsWhitespace(s[|s| - 1]) then TrimEnd(s[..|s| - 1]) else s
  }

  /** Removes leading and trailing whitespace. */
  function Trim(s: string): (r: string)
    ensures NoOuterWhitespace(r)
    ensures |r| <= |s|
    ensures NoOuterWhitespace(s) ==> r == s
    ensures r == [] <==> forall p :: 0 <= p < |s| ==> IsWhitespace(s[p])
  {
    TrimEnd(TrimStart(s))
  }

  /** The trimmed string is the part of `s` between a whitespace prefix and a whitespace
      suffix. */
  lemma TrimSlice(s: string) returns (a: nat, b: nat)
    ensures a <= b <= |s| && Trim(s) == s[a..b]
    ensures forall p :: 0 <= p < a ==> IsWhitespace(s[p])
    ensures forall p :: b <= p < |s| ==> IsWhitespace(s[p])
  {
    var t := TrimStart(s);
    var e := TrimEnd(t);
    a := |s| - |t|;
    b := a + |e|;
    SliceOfSuffix(s, a, |e|);
    WhitespaceTailShift(s, t, a, |e|);
  }

  /** A prefix of a suffix is a slice. */
  lemma SliceOfSuffix(s: string, a: nat, n: nat)
    requires a + n <= |s|
    ensures s[a..][..n] == s[a..a + n]
  {
  }

  /** Whitespace from position `k` of the suffix `t` of `s` that starts at `a` is whitespace
      from position `a + k` of `s`. */
  lemma WhitespaceTailShift(s: string, t: string, a: nat, k: nat)
    requires a <= |s| && t == s[a..] && k <= |t|
    requires forall p :: k <= p < |t| ==> IsWhitespace(t[p])
    ensures forall p :: a + k <= p < |s| ==> IsWhitespace(s[p])
  {
    forall p | a + k <= p < |s|
      ensures IsWhitespace(s[p])
    {
      assert s[p] == t[p - a];
    }
  }

  // ---------------------------------------------------------------------------------------
  // Lines 10-16: the whole function

  /** `normalizeVenueName`: an absent or empty name gives the empty string; otherwise line 12
      (which never matches, see `MarkerNeverMatches`), the first `St.` rewrite, the first
      `James` apostrophe rewrite and a trim, in that order. */
  function NormalizeVenueName(name: Option<string>): (r: string)
    ensures name.None? || name == Some([]) ==> r == []
    ensures NoOuterWhitespace(r)
  {
    match name
    case None => []
    case Some(n) => if n == [] then [] else Trim(ReplaceJames(ReplaceSaint(n)))
  }

  /** A name of the form `St. James'` followed by text that does not end in whitespace
      becomes `St James’` followed by the same text. With the rest ` Park (Newcastle)` this is
      the stadium line 14 is written for; the parenthesis stays, since line 12 never matches. */
  lemma NormalizeSaintJames(rest: string)
    requires rest == [] || !IsWhitespace(rest[|rest| - 1])
    ensures NormalizeVenueName(Some("St. James'" + rest)) == "St James" + [CurlyApostrophe] + rest
  {
    RewriteSaintJames(rest);
    NoOuterWhitespaceConcat("St James" + [CurlyApostrophe], rest);
  }

  /** A string with no outer whitespace, extended by one that does not end in whitespace,
      has no outer whitespace. */
  lemma NoOuterWhitespaceConcat(x: string, y: string)
    requires x != [] && NoOuterWhitespace(x)
    requires y == [] || !IsWhitespace(y[|y| - 1])
    ensures NoOuterWhitespace(x + y)
  {
    assert (x + y)[0] == x[0];
    if y != [] {
      assert (x + y)[|x + y| - 1] == y[|y| - 1];
    }
  }

  /** The two rewrites on a name that starts with `St. James'`. */
  lemma RewriteSaintJames(rest: string)
    ensures ReplaceJames(ReplaceSaint("St. James'" + rest)) == "St James" + [CurlyApostrophe] + rest
  {
    assert "St. " + "James'" == "St. James'";
    assert "St " + "James'" == "St James'";
    ConcatAssoc("St. ", "James'", rest);
    ConcatAssoc("St ", "James'", rest);
    SaintPrefix("James'" + rest);
    JamesPrefix(rest);
  }

  /** Concatenation is associative. */
  lemma ConcatAssoc(x: string, y: string, z: string)
    ensures x + (y + z) == (x + y) + z
  {
  }

  /** A name that starts with `St.`, one space and then a non-blank character loses the dot
      and keeps everything else. */
  lemma SaintPrefix(tail: string)
    requires tail == [] || !IsWhitespace(tail[0])
    ensures ReplaceSaint("St. " + tail) == "St " + tail
  {
    var s := "St. " + tail;
    assert FirstSaint(s, 0);
    ReplaceSaintFirst(s, 0, 4);
    assert s[4..] == tail;
  }

  /** In a name that starts with `St James'`, the straight apostrophe becomes curly and
      nothing else changes. */
  lemma JamesPrefix(rest: string)
    ensures ReplaceJames("St James'" + rest) == "St James" + [CurlyApostrophe] + rest
  {
    var t := "St James'" + rest;
    var e := "St James" + [CurlyApostrophe] + rest;
    assert FirstJames(t, 3);
    var r := ReplaceJames(t);
    assert |r| == |e|;
    forall p | 0 <= p < |r|
      ensures r[p] == e[p]
    {
      if p != 8 {
        assert r[p] == t[p];
      }
    }
  }

  /** Only the first `St.` is rewritten, so normalizing twice can differ from normalizing
      once: `St. St. X` becomes `St St. X` and then `St St X`. */
  lemma NormalizeNotIdempotent(s: string)
    requires s == "St. St. X"
    ensures NormalizeVenueName(Some(s)) == "St St. X"
    ensures NormalizeVenueName(Some(NormalizeVenueName(Some(s)))) == "St St X"
  {
    NormalizeFirstStStX(s);
    NormalizeSecondStStX("St St. X");
  }

  /** Normalizing `St. St. X` once gives `St St. X`. */
  lemma NormalizeFirstStStX(s: string)
    requires s == "St. St. X"
    ensures NormalizeVenueName(Some(s)) == "St St. X"
  {
    FirstPassStStX(s);
    RestOfPassStStX("St St. X");
  }

  /** Normalizing `St St. X` gives `St St X`. */
  lemma NormalizeSecondStStX(t: string)
    requires t == "St St. X"
    ensures NormalizeVenueName(Some(t)) == "St St X"
  {
    SecondPassStStX(t);
    RestOfPassStStX("St St X");
  }

  /** The first pass of the example rewrites the leading `St. `. */
  lemma FirstPassStStX(s: string)
    requires s == "St. St. X"
    ensures ReplaceSaint(s) == "St St. X"
  {
    assert FirstSaint(s, 0);
    ReplaceSaintFirst(s, 0, 4);
    assert s[..0] + "St " + s[4..] == "St St. X";
  }

  /** The second pass of the example rewrites the remaining `St. `. */
  lemma SecondPassStStX(t: string)
    requires t == "St St. X"
    ensures ReplaceSaint(t) == "St St X"
  {
    assert FirstSaint(t, 3);
    ReplaceSaintFirst(t, 3, 7);
    assert t[..3] + "St " + t[7..] == "St St X";
  }

  /** Neither string of the example contains `James` or outer whitespace, so the apostrophe
      rewrite and the trim keep them. */
  lemma RestOfPassStStX(t: string)
    requires t == "St St. X" || t == "St St X"
    ensures Trim(ReplaceJames(t)) == t
  {
    assert !HasJames(t);
    assert NoOuterWhitespace(t);
  }

  /** Normalizing a second time changes nothing when the first result has no `St.` left:
      the apostrophe rewrite and the trim are stable. */
  lemma NormalizeStable(name: string)
    ensures !HasSaint(NormalizeVenueName(Some(name))) ==>
      NormalizeVenueName(Some(NormalizeVenueName(Some(name)))) == NormalizeVenueName(Some(name))
  {
    var r := NormalizeVenueName(Some(name));
    if name != [] && r != [] && !HasSaint(r) {
      NormalizedJamesFixed(name);
      assert ReplaceSaint(r) == r;
    }
  }

  /** The apostrophe rewrite leaves a normalized name unchanged. */
  lemma NormalizedJamesFixed(name: string)
    ensures ReplaceJames(NormalizeVenueName(Some(name))) == NormalizeVenueName(Some(name))
  {
    if name != [] {
      var u := ReplaceJames(ReplaceSaint(name));
      ReplaceJamesIdempotent(ReplaceSaint(name));
      var a, b := TrimSlice(u);
      JamesSliceFixed(u, a, b);
    }
  }

  lemma JamesSliceFixed(u: string, a: nat, b: nat)
    requires ReplaceJames(u) == u
    requires a <= b <= |u|
    requires forall p | 0 <= p < a :: IsWhitespace(u[p])
    requires forall p | b <= p < |u| :: IsWhitespace(u[p])
    ensures ReplaceJames(u[a..b]) == u[a..b]
  {
    var r := u[a..b];
    ReplaceJamesFixed(u);
    forall q | FirstJames(r, q)
      ensures r[q + 5] == CurlyApostrophe
    {
      FirstJamesInSlice(u, a, b, q);
    }
    ReplaceJamesFixed(r);
  }

  /** The first `James` match of a slice surrounded by whitespace is the first match of the
      whole string, shifted. */
  lemma FirstJamesInSlice(u: string, a: nat, b: nat, q: int)
    requires a <= b <= |u|
    requires forall p | 0 <= p < a :: IsWhitespace(u[p])
    requires forall p | b <= p < |u| :: IsWhitespace(u[p])
    requires FirstJames(u[a..b], q)
    ensures FindJames(u) == Some(q + a)
  {
    var r := u[a..b];
    assert JamesAt(u, q + a);
    var p := FindJames(u).value;
    assert u[p] == 'J' && u[p + 5] != ' ';
    assert JamesAt(r, p - a);
  }

  // ---------------------------------------------------------------------------------------
  // Line 78: `[normalizeVenueName(name), city].filter(Boolean).join(', ')`

  /** The parts that are not empty (`filter(Boolean)` on strings). */
  function NonEmpty(parts: seq<string>): (r: seq<string>)
    ensures |r| <= |parts|
    ensures forall i :: 0 <= i < |r| ==> r[i] != []
  {
    if |parts| == 0 then []
    else if parts[0] == [] then NonEmpty(parts[1..])
    else [parts[0]] + NonEmpty(parts[1..])
  }

  /** `join(sep)`. */
  function Join(parts: seq<string>, sep: string): string {
    if |parts| == 0 then []
    else if |parts| == 1 then parts[0]
    else parts[0] + sep + Join(parts[1..], sep)
  }

  /** The venue line of a card (line 78): the normalized name and the city, each left out
      when empty, with a comma between them when both are there; it is empty only when both
      are. */
  function VenueLine(name: Option<string>, city: Option<string>): (r: string)
    ensures var n, c := NormalizeVenueName(name), city.GetOr([]);
      && (r == [] <==> n == [] && c == [])
      && (n != [] && c != [] ==> r == n + ", " + c)
      && (n == [] ==> r == c)
      && (c == [] ==> r == n)
  {
    var n, c := NormalizeVenueName(name), city.GetOr([]);
    JoinTwo(n, c, ", ");
    Join(NonEmpty([n, c]), ", ")
  }

  /** Dropping the empty strings of a two-element list and joining the rest. */
  lemma JoinTwo(n: string, c: string, sep: string)
    ensures var r := Join(NonEmpty([n, c]), sep);
      && (r == [] <==> n == [] && c == [])
      && (n != [] && c != [] ==> r == n + sep + c)
      && (n == [] ==> r == c)
      && (c == [] ==> r == n)
  {
    var parts := [n, c];
    assert parts[1..] == [c];
    assert [c][1..] == [];
    assert NonEmpty([]) == [];
    if n != [] && c != [] {
      assert NonEmpty(parts) == [n, c];
      assert [n, c][1..] == [c];
    } else if n != [] {
      assert NonEmpty(parts) == [n];
    } else if c != [] {
      assert NonEmpty(parts) == [c];
    } else {
      assert NonEmpty(parts) == [];
    }
  }
}
