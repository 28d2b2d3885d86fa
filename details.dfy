/**
 * The page scrapers of `get_video_details` and `extract_view_count`
 * (youtube_ai_assistant.py:39-48, 346-395). Each regular expression these use
 * has the shape `MARKER(C+)SUFFIX`, where `C` is a character class and SUFFIX
 * starts with a character outside `C`; such a pattern is modelled as a
 * dedicated scanner rather than a regular-expression engine.
 */
module Details {
  import opened Wrappers
  import opened Text

  /** `[^"]` and `\d`. */
  datatype CharClass = NotQuote | Digit

  predicate InClass(c: char, cls: CharClass)
  {
    match cls
    case NotQuote => c != '"'
    case Digit => IsDigit(c)
  }

  /** Length of the maximal run of `cls` characters starting at `from`. */
  function RunLen(s: string, from: nat, cls: CharClass): (n: nat)
    requires from <= |s|
    ensures from + n <= |s|
    ensures forall k :: from <= k < from + n ==> InClass(s[k], cls)
    ensures from + n == |s| || !InClass(s[from + n], cls)
    decreases |s| - from
  {
    if from == |s| || !InClass(s[from], cls) then 0 else 1 + RunLen(s, from + 1, cls)
  }

  /** The greedy reading of `MARKER(C+)SUFFIX` succeeds at position `i`: the
      marker, then the maximal run of `cls` characters (at least one), then the suffix. */
  predicate MatchAt(s: string, marker: string, cls: CharClass, suffix: string, i: nat)
  {
    OccursAt(s, marker, i)
    && var st := i + |marker|;
    var n := RunLen(s, st, cls);
    n >= 1 && OccursAt(s, suffix, st + n)
  }

  /** A run of exactly `k >= 1` characters of `cls` sits between the marker at `i`
      and the suffix. */
  predicate RunBetween(s: string, marker: string, cls: CharClass, suffix: string, i: nat, k: int)
  {
    OccursAt(s, marker, i) && 1 <= k <= |s| - i - |marker|
    && (forall j :: i + |marker| <= j < i + |marker| + k ==> InClass(s[j], cls))
    && OccursAt(s, suffix, i + |marker| + k)
  }

  /** The pattern in the plain sense of regular expressions: some non-empty run
      of `cls` characters, not necessarily maximal, sits between marker and suffix. */
  ghost predicate PatternAt(s: string, marker: string, cls: CharClass, suffix: string, i: nat)
  {
    exists k :: RunBetween(s, marker, cls, suffix, i, k)
  }

  /** A run that the suffix can follow is the maximal run, when the suffix
      starts outside the class. */
  lemma RunBetweenIsMaximal(s: string, marker: string, cls: CharClass, suffix: string, i: nat, k: int)
    requires suffix != [] && !InClass(suffix[0], cls)
    requires RunBetween(s, marker, cls, suffix, i, k)
    ensures k == RunLen(s, i + |marker|, cls)
  {
    var st := i + |marker|;
    var n := RunLen(s, st, cls);
    assert s[st + k] == suffix[0] by {
      assert s[st + k..st + k + |suffix|][0] == s[st + k];
    }
  }

  /** When the suffix starts outside the class, backtracking cannot help: the
      pattern matches at `i` exactly when the greedy reading does, and then the
      only possible run is the maximal one. */
  lemma GreedyIsPattern(s: string, marker: string, cls: CharClass, suffix: string, i: nat)
    requires suffix != [] && !InClass(suffix[0], cls)
    ensures PatternAt(s, marker, cls, suffix, i) <==> MatchAt(s, marker, cls, suffix, i)
    ensures forall k :: RunBetween(s, marker, cls, suffix, i, k) ==> k == RunLen(s, i + |marker|, cls)
  {
    forall k | RunBetween(s, marker, cls, suffix, i, k)
      ensures k == RunLen(s, i + |marker|, cls)
    {
      RunBetweenIsMaximal(s, marker, cls, suffix, i, k);
    }
    if MatchAt(s, marker, cls, suffix, i) {
      var n := RunLen(s, i + |marker|, cls);
      assert RunBetween(s, marker, cls, suffix, i, n);
    }
  }

  /** `re.search`: the leftmost position at or after `from` where the pattern matches. */
  function Search(s: string, marker: string, cls: CharClass, suffix: string, from: nat): (r: Option<nat>)
    ensures r.Some? ==> from <= r.value && MatchAt(s, marker, cls, suffix, r.value)
    ensures r.Some? ==> forall j :: from <= j < r.value ==> !MatchAt(s, marker, cls, suffix, j)
    ensures r.None? ==> forall j :: from <= j ==> !MatchAt(s, marker, cls, suffix, j)
    decreases |s| - from
  {
    if from > |s| then None
    else if MatchAt(s, marker, cls, suffix, from) then Some(from)
    else Search(s, marker, cls, suffix, from + 1)
  }

  /** `match.group(1)` of the leftmost match, if there is one. */
  function Capture(s: string, marker: string, cls: CharClass, suffix: string): (r: Option<string>)
    ensures r.Some? ==> |r.value| >= 1 && forall k :: 0 <= k < |r.value| ==> InClass(r.value[k], cls)
  {
    match Search(s, marker, cls, suffix, 0)
    case None => None
    case Some(i) =>
      var st := i + |marker|;
      Some(s[st..st + RunLen(s, st, cls)])
  }

  /** Three consecutive slices that read `x`, `y` and `z` read `x + y + z` together. */
  lemma SliceOfThree(s: string, a: nat, x: string, y: string, z: string)
    requires a + |x| + |y| + |z| <= |s|
    requires s[a..a + |x|] == x && s[a + |x|..a + |x| + |y|] == y
    requires s[a + |x| + |y|..a + |x| + |y| + |z|] == z
    ensures s[a..a + |x| + |y| + |z|] == x + y + z
  {
    var b, c, d := a + |x|, a + |x| + |y|, a + |x| + |y| + |z|;
    assert s[a..d] == s[a..b] + s[b..c] + s[c..d];
  }

  /** The capture is the run of the leftmost match: the page reads marker,
      capture, suffix at a position before which the pattern matches nowhere,
      and there is no capture exactly when the pattern matches nowhere. */
  lemma CaptureIsLeftmost(s: string, marker: string, cls: CharClass, suffix: string)
    ensures Capture(s, marker, cls, suffix).None? <==>
              forall j :: 0 <= j ==> !MatchAt(s, marker, cls, suffix, j)
    ensures Capture(s, marker, cls, suffix).Some? ==>
      var v := Capture(s, marker, cls, suffix).value;
      exists i: nat :: MatchAt(s, marker, cls, suffix, i)
        && (forall j :: 0 <= j < i ==> !MatchAt(s, marker, cls, suffix, j))
        && s[i..i + |marker| + |v| + |suffix|] == marker + v + suffix
  {
    if Capture(s, marker, cls, suffix).Some? {
      var i := LeftmostMatch(s, marker, cls, suffix);
    }
  }

  /** The position of the leftmost match, where the page reads marker, capture
      and suffix. */
  lemma LeftmostMatch(s: string, marker: string, cls: CharClass, suffix: string) returns (i: nat)
    requires Capture(s, marker, cls, suffix).Some?
    ensures MatchAt(s, marker, cls, suffix, i)
    ensures forall j :: 0 <= j < i ==> !MatchAt(s, marker, cls, suffix, j)
    ensures var v := Capture(s, marker, cls, suffix).value;
      s[i..i + |marker| + |v| + |suffix|] == marker + v + suffix
  {
    i := Search(s, marker, cls, suffix, 0).value;
    var v := Capture(s, marker, cls, suffix).value;
    var st := i + |marker|;
    var n := RunLen(s, st, cls);
    assert v == s[st..st + n];
    assert s[i..st] == marker;
    assert s[st + n..st + n + |suffix|] == suffix;
    SliceOfThree(s, i, marker, v, suffix);
  }

  const TitleMarker: string := "\"title\":\""
  const AuthorMarker: string := "\"author\":\""
  const DateMarker: string := "<meta itemprop=\"datePublished\" content=\""
  const DurationMarker: string := "<meta itemprop=\"duration\" content=\""
  const ViewCountMarker: string := "\"viewCount\":\""
  const Quote: string := "\""
  const TagEnd: string := "\">"
  const NotAvailable: string := "N/A"

  /** A scraped field: its capture, or `"N/A"` when the pattern matches nowhere. */
  function FieldOrDefault(html: string, marker: string, suffix: string): (r: string)
    ensures Capture(html, marker, NotQuote, suffix).None? ==> r == NotAvailable
    ensures Capture(html, marker, NotQuote, suffix).Some? ==>
      r == Capture(html, marker, NotQuote, suffix).value && r != [] && forall k :: 0 <= k < |r| ==> r[k] != '"'
  {
    match Capture(html, marker, NotQuote, suffix)
    case None => NotAvailable
    case Some(v) => v
  }

  /** `extract_view_count` after the fetch: the number spelled by the digits of
      the first `"viewCount":"<digits>"`, or 0. */
  function ViewCount(html: string): (n: nat)
    ensures Capture(html, ViewCountMarker, Digit, Quote).None? ==> n == 0
    ensures Capture(html, ViewCountMarker, Digit, Quote).Some? ==>
      var ds := Capture(html, ViewCountMarker, Digit, Quote).value;
      AllDigits(ds) && n == DigitsValue(ds)
  {
    match Capture(html, ViewCountMarker, Digit, Quote)
    case None => 0
    case Some(ds) => assert AllDigits(ds); DigitsValue(ds)
  }

  // ---------------------------------------------------------------------------
  // Duration formatting
  // ---------------------------------------------------------------------------

  /** One optional group `(\d+U)?` of `PT(\d+H)?(\d+M)?(\d+S)?` read at `pos`:
      the digits and the unit letter, and the position after them, or the empty
      fragment and `pos` when the maximal digit run is empty or not followed by `unit`. */
  function Fragment(d: string, pos: nat, unit: char): (r: (string, nat))
    requires pos <= |d|
    ensures pos <= r.1 <= |d| && r.0 == d[pos..r.1]
    ensures r.0 == [] || (|r.0| >= 2 && AllDigits(r.0[..|r.0| - 1]) && r.0[|r.0| - 1] == unit)
    ensures r.0 != [] <==> var n := RunLen(d, pos, Digit); n >= 1 && pos + n < |d| && d[pos + n] == unit
  {
    var n := RunLen(d, pos, Digit);
    if n >= 1 && pos + n < |d| && d[pos + n] == unit then
      var f := d[pos..pos + n + 1];
      assert f[..|f| - 1] == d[pos..pos + n];
      (f, pos + n + 1)
    else ("", pos)
  }

  /** The optional group is taken exactly when it can match: some non-empty
      digit run at `pos` is followed by the unit letter. */
  lemma FragmentTaken(d: string, pos: nat, unit: char)
    requires pos <= |d| && !IsDigit(unit)
    ensures Fragment(d, pos, unit).0 != [] <==> GroupPresent(d, pos, unit)
  {
    var n := RunLen(d, pos, Digit);
    if n >= 1 && pos + n < |d| && d[pos + n] == unit {
      assert UnitAfterDigits(d, pos, unit, pos + n);
    }
    if GroupPresent(d, pos, unit) {
      GroupIsGreedy(d, pos, unit);
    }
  }

  /** Digits from `pos` up to `k`, at least one, and the unit letter at `k`. */
  predicate UnitAfterDigits(d: string, pos: nat, unit: char, k: nat)
  {
    pos < k < |d| && (forall j :: pos <= j < k ==> IsDigit(d[j])) && d[k] == unit
  }

  /** The group `(\d+U)` can match at `pos`. */
  ghost predicate GroupPresent(d: string, pos: nat, unit: char)
  {
    exists k: nat :: UnitAfterDigits(d, pos, unit, k)
  }

  /** Wherever the group can match, the greedy digit run ends at its unit letter. */
  lemma GroupIsGreedy(d: string, pos: nat, unit: char)
    requires GroupPresent(d, pos, unit) && !IsDigit(unit)
    ensures var n := RunLen(d, pos, Digit); n >= 1 && pos + n < |d| && d[pos + n] == unit
  {
    var k: nat :| UnitAfterDigits(d, pos, unit, k);
    RunUpTo(d, pos, unit, k);
  }

  /** The three fragments, hours, minutes and seconds, in order. */
  function Fragments(d: string): (r: (string, string, string))
    requires StartsWith(d, "PT")
  {
    var h := Fragment(d, 2, 'H');
    var m := Fragment(d, h.1, 'M');
    var s := Fragment(d, m.1, 'S');
    (h.0, m.0, s.0)
  }

  /** The number of spaces `s` starts with. */
  function LeadingSpaces(s: string): (n: nat)
    ensures n <= |s| && (forall k :: 0 <= k < n ==> s[k] == ' ') && (n == |s| || s[n] != ' ')
  {
    if s != [] && s[0] == ' ' then 1 + LeadingSpaces(s[1..]) else 0
  }

  /** `s.strip()` for strings whose only whitespace is the space character. */
  function StripSpaces(s: string): (r: string)
    ensures |r| <= |s|
    ensures r == [] || (r[0] != ' ' && r[|r| - 1] != ' ')
    decreases |s|
  {
    if s == [] then []
    else if s[0] == ' ' then StripSpaces(s[1..])
    else if s[|s| - 1] == ' ' then StripSpaces(s[..|s| - 1])
    else s
  }

  /** `r` is the infix of `s` left after cutting the leading spaces and then
      the trailing ones. */
  predicate InfixAfterSpaces(s: string, r: string)
  {
    var n := LeadingSpaces(s);
    n + |r| <= |s| && r == s[n..n + |r|] && forall k :: n + |r| <= k < |s| ==> s[k] == ' '
  }

  /** Stripping keeps exactly that infix. */
  lemma {:induction false} StripSpacesInfix(s: string)
    ensures InfixAfterSpaces(s, StripSpaces(s))
    decreases |s|
  {
    if s == [] {
    } else if s[0] == ' ' {
      StripSpacesInfix(s[1..]);
      InfixPastLeading(s, StripSpaces(s[1..]));
    } else if s[|s| - 1] == ' ' {
      StripSpacesInfix(s[..|s| - 1]);
      InfixPastTrailing(s, StripSpaces(s[..|s| - 1]));
    }
  }

  lemma InfixPastLeading(s: string, r: string)
    requires s != [] && s[0] == ' ' && InfixAfterSpaces(s[1..], r)
    ensures InfixAfterSpaces(s, r)
  {
    var n := LeadingSpaces(s[1..]);
    assert LeadingSpaces(s) == n + 1;
    assert s[1..][n..n + |r|] == s[n + 1..n + 1 + |r|];
  }

  lemma InfixPastTrailing(s: string, r: string)
    requires s != [] && s[0] != ' ' && s[|s| - 1] == ' ' && InfixAfterSpaces(s[..|s| - 1], r)
    ensures InfixAfterSpaces(s, r)
  {
    var t := s[..|s| - 1];
    assert t[0] == s[0];
    assert LeadingSpaces(s) == 0 == LeadingSpaces(t);
    assert t[..|r|] == s[..|r|];
  }

  /** `f"{hours} {minutes} {seconds}".strip()`. The pattern is anchored at the
      start by `re.match`; a duration not starting with `PT` makes the match
      `None` and `match.group` fail, which the caller models. */
  function FormatDuration(d: string): string
    requires StartsWith(d, "PT")
  {
    var f := Fragments(d);
    StripSpaces(f.0 + " " + f.1 + " " + f.2)
  }

  /** Every space removed. */
  function RemoveSpaces(s: string): string
  {
    if s == [] then [] else if s[0] == ' ' then RemoveSpaces(s[1..]) else [s[0]] + RemoveSpaces(s[1..])
  }

  lemma {:induction false} RemoveSpacesAppend(a: string, b: string)
    ensures RemoveSpaces(a + b) == RemoveSpaces(a) + RemoveSpaces(b)
    decreases |a|
  {
    if a == [] {
      assert a + b == b;
    } else {
      assert (a + b)[0] == a[0];
      assert (a + b)[1..] == a[1..] + b;
      RemoveSpacesAppend(a[1..], b);
    }
  }

  lemma {:induction false} RemoveSpacesNone(s: string)
    requires forall k :: 0 <= k < |s| ==> s[k] != ' '
    ensures RemoveSpaces(s) == s
    decreases |s|
  {
    if s != [] {
      RemoveSpacesNone(s[1..]);
    }
  }

  /** Stripping only removes spaces. */
  lemma {:induction false} StripKeepsNonSpaces(s: string)
    ensures RemoveSpaces(StripSpaces(s)) == RemoveSpaces(s)
    decreases |s|
  {
    if s == [] {
    } else if s[0] == ' ' {
      StripKeepsNonSpaces(s[1..]);
    } else if s[|s| - 1] == ' ' {
      var f := s[..|s| - 1];
      StripKeepsNonSpaces(f);
      assert s == f + " ";
      RemoveSpacesAppend(f, " ");
    }
  }

  /** A fragment holds no space. */
  lemma FragmentHasNoSpace(d: string, pos: nat, unit: char)
    requires pos <= |d| && unit != ' '
    ensures RemoveSpaces(Fragment(d, pos, unit).0) == Fragment(d, pos, unit).0
  {
    var f := Fragment(d, pos, unit).0;
    if f != [] {
      forall k | 0 <= k < |f|
        ensures f[k] != ' '
      {
        if k < |f| - 1 {
          assert f[..|f| - 1][k] == f[k];
        }
      }
    }
    RemoveSpacesNone(f);
  }

  /** The fragments follow `PT` in the input, in order. */
  lemma FragmentsArePrefix(d: string)
    requires StartsWith(d, "PT")
    ensures var f := Fragments(d); StartsWith(d, "PT" + f.0 + f.1 + f.2)
  {
    var h := Fragment(d, 2, 'H');
    var m := Fragment(d, h.1, 'M');
    var s := Fragment(d, m.1, 'S');
    SlicesJoin(d, 2, h.1, m.1, s.1);
  }

  lemma SlicesJoin(d: string, a: nat, b: nat, c: nat, e: nat)
    requires a <= b <= c <= e <= |d|
    ensures d[..e] == d[..a] + d[a..b] + d[b..c] + d[c..e]
  {
  }

  /** Spaces removed from the joined fragments leave the fragments. */
  lemma JoinedFragments(h: string, m: string, s: string)
    requires RemoveSpaces(h) == h && RemoveSpaces(m) == m && RemoveSpaces(s) == s
    ensures RemoveSpaces(h + " " + m + " " + s) == h + m + s
  {
    DropSpace(h);
    KeepPart(h + " ", m);
    DropSpace(h + " " + m);
    KeepPart(h + " " + m + " ", s);
  }

  lemma DropSpace(x: string)
    ensures RemoveSpaces(x + " ") == RemoveSpaces(x)
  {
    RemoveSpacesAppend(x, " ");
    assert RemoveSpaces(" ") == [];
  }

  lemma KeepPart(x: string, y: string)
    requires RemoveSpaces(y) == y
    ensures RemoveSpaces(x + y) == RemoveSpaces(x) + y
  {
    RemoveSpacesAppend(x, y);
  }

  /** The formatted duration loses only spaces: without them it is the three
      fragments, which follow `PT` in the input (`FragmentsArePrefix`); and it
      neither starts nor ends with a space. */
  lemma FormatDurationKeepsFragments(d: string)
    requires StartsWith(d, "PT")
    ensures var f := Fragments(d); RemoveSpaces(FormatDuration(d)) == f.0 + f.1 + f.2
    ensures FormatDuration(d) == [] || (FormatDuration(d)[0] != ' ' && FormatDuration(d)[|FormatDuration(d)| - 1] != ' ')
  {
    var h := Fragment(d, 2, 'H');
    var m := Fragment(d, h.1, 'M');
    var s := Fragment(d, m.1, 'S');
    assert RemoveSpaces(FormatDuration(d)) == h.0 + m.0 + s.0 by {
      FragmentHasNoSpace(d, 2, 'H');
      FragmentHasNoSpace(d, h.1, 'M');
      FragmentHasNoSpace(d, m.1, 'S');
      StripKeepsNonSpaces(h.0 + " " + m.0 + " " + s.0);
      JoinedFragments(h.0, m.0, s.0);
    }
  }

  /** With all three components present the result is the three fragments
      separated by single spaces. */
  lemma FormatDurationFull(d: string)
    requires StartsWith(d, "PT")
    requires var f := Fragments(d); f.0 != [] && f.1 != [] && f.2 != []
    ensures var f := Fragments(d); FormatDuration(d) == f.0 + " " + f.1 + " " + f.2
  {
    var (h, m, s) := Fragments(d);
    var all := h + " " + m + " " + s;
    assert all[0] == h[0] && h[0] != ' ' by {
      assert h[..|h| - 1][0] == h[0] || |h| == 1;
    }
    assert all[|all| - 1] == 'S';
  }

  /** A missing minutes component between present hours and seconds leaves an
      inner double space (so `PT1H30S` becomes `1H  30S`). */
  lemma FormatDurationGap(d: string)
    requires StartsWith(d, "PT")
    requires var f := Fragments(d); f.0 != [] && f.1 == [] && f.2 != []
    ensures var f := Fragments(d); FormatDuration(d) == f.0 + "  " + f.2
  {
    var (h, m, s) := Fragments(d);
    var all := h + " " + m + " " + s;
    assert all == h + "  " + s;
    assert all[0] == h[0] && h[0] != ' ' by {
      assert h[..|h| - 1][0] == h[0] || |h| == 1;
    }
    assert all[|all| - 1] == 'S';
  }

  /** A duration with none of the three components formats as the empty string. */
  lemma FormatDurationEmpty(d: string)
    requires StartsWith(d, "PT")
    requires Fragments(d) == ("", "", "")
    ensures FormatDuration(d) == ""
  {
    assert "" + " " + "" + " " + "" == "  ";
    assert StripSpaces("  ") == StripSpaces(" ");
  }

  /** Digits running up to a non-digit at `k` make the maximal digit run. */
  lemma RunUpTo(d: string, pos: nat, unit: char, k: nat)
    requires UnitAfterDigits(d, pos, unit, k) && !IsDigit(unit)
    ensures RunLen(d, pos, Digit) == k - pos
  {
  }

  /** The shape of a `(\d+U)` fragment, or the empty fragment. */
  predicate FragmentShaped(f: string, unit: char)
  {
    f == [] || (|f| >= 2 && AllDigits(f[..|f| - 1]) && f[|f| - 1] == unit)
  }

  /** A non-empty fragment shaped for `unit`, as read at `pos`. */
  predicate FragmentHere(d: string, pos: nat, f: string, unit: char)
  {
    f != [] && FragmentShaped(f, unit) && pos + |f| <= |d| && d[pos..pos + |f|] == f
  }

  /** A fragment for `unit` is read as itself. */
  lemma ReadShaped(d: string, pos: nat, f: string, unit: char)
    requires FragmentHere(d, pos, f, unit) && !IsDigit(unit)
    ensures Fragment(d, pos, unit) == (f, pos + |f|)
  {
    var k := pos + |f| - 1;
    forall j | pos <= j < k
      ensures IsDigit(d[j])
    {
      assert d[j] == f[j - pos] == f[..|f| - 1][j - pos];
    }
    assert d[k] == f[|f| - 1];
    RunUpTo(d, pos, unit, k);
  }

  /** A fragment for another unit leaves the group for `unit` empty. */
  lemma ReadOther(d: string, pos: nat, f: string, other: char, unit: char)
    requires FragmentHere(d, pos, f, other) && !IsDigit(other) && other != unit
    ensures Fragment(d, pos, unit) == ("", pos)
  {
    var k := pos + |f| - 1;
    forall j | pos <= j < k
      ensures IsDigit(d[j])
    {
      assert d[j] == f[j - pos] == f[..|f| - 1][j - pos];
    }
    assert d[k] == f[|f| - 1];
    RunUpTo(d, pos, other, k);
  }

  /** No fragment at the end of the input. */
  lemma ReadEnd(d: string, unit: char)
    ensures Fragment(d, |d|, unit) == ("", |d|)
  {
  }

  /** The four consecutive parts of a duration. */
  lemma DurationLayout(h: string, m: string, s: string)
    ensures var d := "PT" + h + m + s;
      |d| == 2 + |h| + |m| + |s|
      && d[2..2 + |h|] == h && d[2 + |h|..2 + |h| + |m|] == m && d[2 + |h| + |m|..] == s
  {
    var d := "PT" + h + m + s;
    assert d == ("PT" + h) + m + s;
    ConcatParts("PT" + h, m, s);
    ConcatParts("PT", h, []);
    assert ("PT" + h + [])[2..2 + |h|] == h;
  }

  /** The input reads `PT`, then `h`, `m` and `s`, and nothing more. */
  predicate SpelledAs(d: string, h: string, m: string, s: string)
  {
    |d| == 2 + |h| + |m| + |s| && d[..2] == "PT"
    && d[2..2 + |h|] == h && d[2 + |h|..2 + |h| + |m|] == m && d[2 + |h| + |m|..] == s
  }

  /** The hours group of a spelled duration. */
  lemma ReadHours(d: string, h: string, m: string, s: string)
    requires SpelledAs(d, h, m, s)
    requires FragmentShaped(h, 'H') && FragmentShaped(m, 'M') && FragmentShaped(s, 'S')
    ensures Fragment(d, 2, 'H') == (h, 2 + |h|)
  {
    if h != [] {
      ReadShaped(d, 2, h, 'H');
    } else if m != [] {
      ReadOther(d, 2, m, 'M', 'H');
    } else if s != [] {
      ReadOther(d, 2, s, 'S', 'H');
    } else {
      ReadEnd(d, 'H');
    }
  }

  /** The minutes group of a spelled duration. */
  lemma ReadMinutes(d: string, h: string, m: string, s: string)
    requires SpelledAs(d, h, m, s)
    requires FragmentShaped(m, 'M') && FragmentShaped(s, 'S')
    ensures Fragment(d, 2 + |h|, 'M') == (m, 2 + |h| + |m|)
  {
    if m != [] {
      ReadShaped(d, 2 + |h|, m, 'M');
    } else if s != [] {
      ReadOther(d, 2 + |h|, s, 'S', 'M');
    } else {
      ReadEnd(d, 'M');
    }
  }

  /** The seconds group of a spelled duration. */
  lemma ReadSeconds(d: string, h: string, m: string, s: string)
    requires SpelledAs(d, h, m, s)
    requires FragmentShaped(s, 'S')
    ensures Fragment(d, 2 + |h| + |m|, 'S') == (s, |d|)
  {
    if s != [] {
      ReadShaped(d, 2 + |h| + |m|, s, 'S');
    } else {
      ReadEnd(d, 'S');
    }
  }

  /** A duration spelled from well-formed fragments reads back exactly those
      fragments, whichever of them are present. */
  lemma FragmentsOfSpelled(d: string, h: string, m: string, s: string)
    requires SpelledAs(d, h, m, s)
    requires FragmentShaped(h, 'H') && FragmentShaped(m, 'M') && FragmentShaped(s, 'S')
    ensures StartsWith(d, "PT") && Fragments(d) == (h, m, s)
  {
    ReadHours(d, h, m, s);
    ReadMinutes(d, h, m, s);
    ReadSeconds(d, h, m, s);
    FragmentsUnfold(d, 2 + |h|, 2 + |h| + |m|);
  }

  lemma FragmentsUnfold(d: string, p: nat, q: nat)
    requires StartsWith(d, "PT") && Fragment(d, 2, 'H').1 == p && p <= |d|
    requires Fragment(d, p, 'M').1 == q && q <= |d|
    ensures Fragments(d) == (Fragment(d, 2, 'H').0, Fragment(d, p, 'M').0, Fragment(d, q, 'S').0)
  {
  }

  /** `"PT" + h + m + s` is spelled as its parts. */
  lemma Spelled(h: string, m: string, s: string)
    ensures SpelledAs("PT" + h + m + s, h, m, s)
  {
    DurationLayout(h, m, s);
    var d := "PT" + h + m + s;
    assert d == "PT" + (h + m + s);
  }

  lemma StripNoop(s: string)
    requires s != [] && s[0] != ' ' && s[|s| - 1] != ' '
    ensures StripSpaces(s) == s
  {
  }

  lemma FullLiterals()
    ensures "PT1H2M30S" == "PT" + "1H" + "2M" + "30S"
    ensures "1H" + " " + "2M" + " " + "30S" == "1H 2M 30S"
    ensures FragmentShaped("1H", 'H') && FragmentShaped("2M", 'M') && FragmentShaped("30S", 'S')
  {
    assert "30S"[..2] == "30";
  }

  lemma GapLiterals()
    ensures "PT1H30S" == "PT" + "1H" + "" + "30S"
    ensures "1H" + " " + "" + " " + "30S" == "1H  30S"
    ensures FragmentShaped("1H", 'H') && FragmentShaped("", 'M') && FragmentShaped("30S", 'S')
  {
    assert "30S"[..2] == "30";
  }

  /** `PT1H2M30S` becomes `1H 2M 30S`. */
  lemma DurationFullExample()
    ensures FormatDuration("PT1H2M30S") == "1H 2M 30S"
  {
    FullLiterals();
    Spelled("1H", "2M", "30S");
    FragmentsOfSpelled("PT1H2M30S", "1H", "2M", "30S");
    StripNoop("1H 2M 30S");
  }

  /** `PT1H30S` becomes `1H  30S`, with the inner double space left by the
      missing minutes. */
  lemma DurationGapExample()
    ensures FormatDuration("PT1H30S") == "1H  30S"
  {
    GapLiterals();
    Spelled("1H", "", "30S");
    FragmentsOfSpelled("PT1H30S", "1H", "", "30S");
    StripNoop("1H  30S");
  }

  lemma SecondsLiterals()
    ensures "PT45S" == "PT" + "" + "" + "45S"
    ensures "" + " " + "" + " " + "45S" == "  45S"
    ensures FragmentShaped("", 'H') && FragmentShaped("", 'M') && FragmentShaped("45S", 'S')
    ensures "  45S"[1..] == " 45S" && " 45S"[1..] == "45S"
  {
    assert "45S"[..2] == "45";
  }

  /** `PT45S` becomes `45S`: both separators are stripped from the front. */
  lemma DurationSecondsExample()
    ensures FormatDuration("PT45S") == "45S"
  {
    SecondsLiterals();
    Spelled("", "", "45S");
    FragmentsOfSpelled("PT45S", "", "", "45S");
    StripNoop("45S");
  }

  lemma MinutesLiterals()
    ensures "PT2M" == "PT" + "" + "2M" + ""
    ensures "" + " " + "2M" + " " + "" == " 2M "
    ensures FragmentShaped("", 'H') && FragmentShaped("2M", 'M') && FragmentShaped("", 'S')
    ensures " 2M "[1..] == "2M " && "2M "[..2] == "2M"
  {
  }

  /** `PT2M` becomes `2M`: one separator is stripped from each end. */
  lemma DurationMinutesExample()
    ensures FormatDuration("PT2M") == "2M"
  {
    MinutesLiterals();
    Spelled("", "2M", "");
    FragmentsOfSpelled("PT2M", "", "2M", "");
    StripNoop("2M");
  }

  // ---------------------------------------------------------------------------
  // get_video_details
  // ---------------------------------------------------------------------------

  datatype VideoDetails = VideoDetails(title: string, channelName: string, uploadDate: string, duration: string)

  /** `get_video_details` after the fetch. `None` is the `AttributeError` that a
      scraped duration other than `N/A` and not starting with `PT` raises. */
  function ScrapeDetails(html: string): (r: Option<VideoDetails>)
    ensures var dur := FieldOrDefault(html, DurationMarker, TagEnd);
      r.None? <==> dur != NotAvailable && !StartsWith(dur, "PT")
    ensures r.Some? ==>
      r.value.title == FieldOrDefault(html, TitleMarker, Quote)
      && r.value.channelName == FieldOrDefault(html, AuthorMarker, Quote)
      && r.value.uploadDate == FieldOrDefault(html, DateMarker, TagEnd)
    ensures r.Some? ==> var dur := FieldOrDefault(html, DurationMarker, TagEnd);
      (dur == NotAvailable ==> r.value.duration == NotAvailable)
      && (dur != NotAvailable ==> r.value.duration == FormatDuration(dur))
  {
    var title := FieldOrDefault(html, TitleMarker, Quote);
    var channel := FieldOrDefault(html, AuthorMarker, Quote);
    var date := FieldOrDefault(html, DateMarker, TagEnd);
    var dur := FieldOrDefault(html, DurationMarker, TagEnd);
    if dur == NotAvailable then Some(VideoDetails(title, channel, date, NotAvailable))
    else if StartsWith(dur, "PT") then Some(VideoDetails(title, channel, date, FormatDuration(dur)))
    else None
  }
}
