/**
 * Archive naming (youtube_ai_assistant.py:443-456, 742-780): the title
 * sanitizer, the video id taken from a watch URL, and the object keys and
 * bodies written to the transcript bucket.
 */
module Archive {
  import opened Wrappers
  import opened Text

  // ---------------------------------------------------------------------------
  // sanitize_title
  // ---------------------------------------------------------------------------

  /** Drops the leading run of characters outside `[A-Za-z0-9]`. */
  function DropNonAlnum(s: string): (r: string)
    ensures |r| <= |s| && r == s[|s| - |r|..]
    ensures r == [] || IsAlnum(r[0])
    ensures s != [] && !IsAlnum(s[0]) ==> |r| < |s|
    ensures forall i :: 0 <= i < |s| - |r| ==> !IsAlnum(s[i])
  {
    if s == [] || IsAlnum(s[0]) then s
    else
      var r := DropNonAlnum(s[1..]);
      assert s[1..][|s| - 1 - |r|..] == s[|s| - |r|..];
      assert forall i :: 1 <= i < |s| - |r| ==> s[i] == s[1..][i - 1];
      r
  }

  /** `re.sub(r'[^A-Za-z0-9]+', '_', s)`: every maximal run of characters
      outside `[A-Za-z0-9]` (underscores included) becomes a single `_`. */
  function ReplaceRuns(s: string): string
    decreases |s|
  {
    if s == [] then []
    else if IsAlnum(s[0]) then [s[0]] + ReplaceRuns(s[1..])
    else "_" + ReplaceRuns(DropNonAlnum(s))
  }

  /** Drops the leading run of underscores. */
  function DropUnderscores(s: string): (r: string)
    ensures |r| <= |s| && r == s[|s| - |r|..]
    ensures r == [] || r[0] != '_'
    ensures s != [] && s[0] == '_' ==> |r| < |s|
  {
    if s == [] || s[0] != '_' then s else DropUnderscores(s[1..])
  }

  /** `re.sub(r'_{2,}', '_', s)`: every run of two or more underscores becomes
      one (a run of one is left as it is, which is the same thing). */
  function CollapseUnderscores(s: string): string
    decreases |s|
  {
    if s == [] then []
    else if s[0] == '_' then "_" + CollapseUnderscores(DropUnderscores(s))
    else [s[0]] + CollapseUnderscores(s[1..])
  }

  /** `s.rstrip('_')`; the code guards it with `endswith('_')`, which changes nothing. */
  function StripTrailing(s: string): string
    decreases |s|
  {
    if s != [] && s[|s| - 1] == '_' then StripTrailing(s[..|s| - 1]) else s
  }

  /** `sanitize_title`. */
  function SanitizeTitle(title: string): string
  {
    StripTrailing(CollapseUnderscores(ReplaceRuns(title)))
  }

  /** Only `[A-Za-z0-9_]`, and never two underscores in a row. */
  predicate Clean(s: string)
  {
    (forall i :: 0 <= i < |s| ==> IsAlnum(s[i]) || s[i] == '_')
    && (forall i :: 0 <= i < |s| - 1 ==> !(s[i] == '_' && s[i + 1] == '_'))
  }

  /** The alphanumeric characters of `s`, in order. */
  function Alnums(s: string): string
  {
    if s == [] then [] else if IsAlnum(s[0]) then [s[0]] + Alnums(s[1..]) else Alnums(s[1..])
  }

  lemma {:induction false} AlnumsAppend(a: string, b: string)
    ensures Alnums(a + b) == Alnums(a) + Alnums(b)
    decreases |a|
  {
    if a == [] {
      assert a + b == b;
    } else {
      assert (a + b)[0] == a[0];
      assert (a + b)[1..] == a[1..] + b;
      AlnumsAppend(a[1..], b);
    }
  }

  lemma {:induction false} AlnumsNone(s: string)
    requires forall i :: 0 <= i < |s| ==> !IsAlnum(s[i])
    ensures Alnums(s) == []
    decreases |s|
  {
    if s != [] {
      AlnumsNone(s[1..]);
    }
  }

  /** The first substitution yields a clean string that starts with `_` exactly
      when the input starts outside `[A-Za-z0-9]`. */
  lemma {:induction false} ReplaceRunsShape(s: string)
    ensures Clean(ReplaceRuns(s))
    ensures s != [] ==> ReplaceRuns(s) != [] && (ReplaceRuns(s)[0] == '_' <==> !IsAlnum(s[0]))
    decreases |s|
  {
    if s == [] {
    } else if IsAlnum(s[0]) {
      ReplaceRunsShape(s[1..]);
      assert ([s[0]] + ReplaceRuns(s[1..]))[1..] == ReplaceRuns(s[1..]);
    } else {
      var d := DropNonAlnum(s);
      ReplaceRunsShape(d);
      assert ("_" + ReplaceRuns(d))[1..] == ReplaceRuns(d);
    }
  }

  /** The first substitution keeps every alphanumeric character, in order. */
  lemma {:induction false} ReplaceRunsAlnums(s: string)
    ensures Alnums(ReplaceRuns(s)) == Alnums(s)
    decreases |s|
  {
    if s == [] {
    } else if IsAlnum(s[0]) {
      ReplaceRunsAlnums(s[1..]);
      AlnumsAppend([s[0]], ReplaceRuns(s[1..]));
    } else {
      var d := DropNonAlnum(s);
      ReplaceRunsAlnums(d);
      AlnumsAppend("_", ReplaceRuns(d));
      DroppedPrefix(s);
    }
  }

  /** What `DropNonAlnum` drops holds no alphanumeric character. */
  lemma DroppedPrefix(s: string)
    ensures Alnums(DropNonAlnum(s)) == Alnums(s)
  {
    var d := DropNonAlnum(s);
    var front := s[..|s| - |d|];
    assert s == front + d;
    AlnumsAppend(front, d);
    forall i | 0 <= i < |front| ensures !IsAlnum(front[i]) {
      assert front[i] == s[i];
    }
    AlnumsNone(front);
  }

  /** On a clean string the first substitution changes nothing. */
  lemma {:induction false} ReplaceRunsOfClean(s: string)
    requires Clean(s)
    ensures ReplaceRuns(s) == s
    decreases |s|
  {
    if s != [] {
      CleanTail(s);
      ReplaceRunsOfClean(s[1..]);
      if !IsAlnum(s[0]) {
        assert s[0] == '_';
        assert s[1..] == [] || IsAlnum(s[1..][0]) by {
          if |s| > 1 {
            assert !(s[0] == '_' && s[1] == '_');
            assert s[1..][0] == s[1];
          }
        }
        assert DropNonAlnum(s) == DropNonAlnum(s[1..]);
      }
    }
  }

  lemma CleanTail(s: string)
    requires Clean(s) && s != []
    ensures Clean(s[1..])
  {
    forall i | 0 <= i < |s| - 1 ensures IsAlnum(s[1..][i]) || s[1..][i] == '_' {
      assert s[1..][i] == s[i + 1];
    }
    forall i | 0 <= i < |s| - 2 ensures !(s[1..][i] == '_' && s[1..][i + 1] == '_') {
      assert s[1..][i] == s[i + 1] && s[1..][i + 1] == s[i + 2];
    }
  }

  /** On a string without two underscores in a row (in particular, on whatever
      the first substitution yields) the second substitution changes nothing. */
  lemma {:induction false} CollapseOfClean(s: string)
    requires forall i :: 0 <= i < |s| - 1 ==> !(s[i] == '_' && s[i + 1] == '_')
    ensures CollapseUnderscores(s) == s
    decreases |s|
  {
    if s != [] {
      CollapseOfClean(s[1..]);
      if s[0] == '_' {
        assert DropUnderscores(s) == s[1..];
      }
    }
  }

  /** Stripping keeps a prefix, which ends in the last character that is not `_`. */
  lemma {:induction false} StripTrailingShape(s: string)
    ensures |StripTrailing(s)| <= |s| && StripTrailing(s) == s[..|StripTrailing(s)|]
    ensures StripTrailing(s) == [] || StripTrailing(s)[|StripTrailing(s)| - 1] != '_'
    ensures forall k :: 0 <= k < |s| && s[k] != '_' ==> k < |StripTrailing(s)|
    ensures s == [] || s[|s| - 1] != '_' ==> StripTrailing(s) == s
    decreases |s|
  {
    if s != [] && s[|s| - 1] == '_' {
      StripTrailingShape(s[..|s| - 1]);
    }
  }

  /** A prefix of a clean string is clean. */
  lemma CleanPrefix(s: string, n: nat)
    requires Clean(s) && n <= |s|
    ensures Clean(s[..n])
  {
  }

  /** Stripping trailing underscores loses no alphanumeric character. */
  lemma StripKeepsAlnums(a: string)
    ensures Alnums(StripTrailing(a)) == Alnums(a)
  {
    StripTrailingShape(a);
    var r := StripTrailing(a);
    var tail := a[|r|..];
    assert a == r + tail;
    AlnumsAppend(r, tail);
    forall i | 0 <= i < |tail|
      ensures !IsAlnum(tail[i])
    {
      assert a[|r| + i] == tail[i];
    }
    AlnumsNone(tail);
  }

  /** The sanitized title holds only `[A-Za-z0-9_]`, never two underscores in a
      row and no trailing underscore, and keeps every alphanumeric character of
      the title in order. */
  lemma SanitizeTitleShape(title: string)
    ensures Clean(SanitizeTitle(title))
    ensures var r := SanitizeTitle(title); r == [] || r[|r| - 1] != '_'
    ensures Alnums(SanitizeTitle(title)) == Alnums(title)
  {
    var a := ReplaceRuns(title);
    ReplaceRunsShape(title);
    CollapseOfClean(a);
    StripTrailingShape(a);
    CleanPrefix(a, |StripTrailing(a)|);
    ReplaceRunsAlnums(title);
    StripKeepsAlnums(a);
  }

  /** A title that starts outside `[A-Za-z0-9]` but holds some alphanumeric
      character keeps its leading underscore: only the trailing one is stripped. */
  lemma LeadingUnderscoreKept(title: string, k: nat)
    requires title != [] && !IsAlnum(title[0])
    requires k < |title| && IsAlnum(title[k])
    ensures SanitizeTitle(title) != [] && SanitizeTitle(title)[0] == '_'
  {
    var a := ReplaceRuns(title);
    ReplaceRunsShape(title);
    ReplaceRunsAlnums(title);
    CollapseOfClean(a);
    assert SanitizeTitle(title) == StripTrailing(a);
    StripTrailingShape(a);
    AlnumsFind(title, k);
    var j := AlnumsFindInverse(a);
    var r := StripTrailing(a);
    assert j < |r|;
    assert r[0] == a[0];
  }

  /** Some alphanumeric character makes the alphanumeric projection non-empty. */
  lemma {:induction false} AlnumsFind(s: string, k: nat)
    requires k < |s| && IsAlnum(s[k])
    ensures Alnums(s) != []
    decreases |s|
  {
    if !IsAlnum(s[0]) {
      AlnumsFind(s[1..], k - 1);
    }
  }

  /** A non-empty alphanumeric projection comes from some alphanumeric character. */
  lemma {:induction false} AlnumsFindInverse(s: string) returns (j: nat)
    requires Alnums(s) != []
    ensures j < |s| && IsAlnum(s[j])
    decreases |s|
  {
    if IsAlnum(s[0]) {
      j := 0;
    } else {
      var j' := AlnumsFindInverse(s[1..]);
      j := j' + 1;
    }
  }

  /** Sanitizing twice is sanitizing once. */
  lemma SanitizeIdempotent(title: string)
    ensures SanitizeTitle(SanitizeTitle(title)) == SanitizeTitle(title)
  {
    var r := SanitizeTitle(title);
    SanitizeTitleShape(title);
    ReplaceRunsOfClean(r);
    CollapseOfClean(r);
    StripTrailingShape(r);
  }

  /** A clean string without a trailing underscore is its own sanitized form. */
  lemma SanitizeFixpoint(s: string)
    requires Clean(s) && (s == [] || s[|s| - 1] != '_')
    ensures SanitizeTitle(s) == s
  {
    ReplaceRunsOfClean(s);
    CollapseOfClean(s);
    StripTrailingShape(s);
  }

  /** A leading alphanumeric word passes through the first substitution. */
  lemma {:induction false} ReplaceRunsWord(a: string, rest: string)
    requires forall i :: 0 <= i < |a| ==> IsAlnum(a[i])
    ensures ReplaceRuns(a + rest) == a + ReplaceRuns(rest)
    decreases |a|
  {
    if a == [] {
      assert a + rest == rest;
    } else {
      ReplaceRunsWord(a[1..], rest);
      ReplaceRunsLetter(a[0], a[1..] + rest);
      AppendAssoc([a[0]], a[1..], rest);
      AppendAssoc([a[0]], a[1..], ReplaceRuns(rest));
      assert [a[0]] + a[1..] == a;
    }
  }

  lemma ReplaceRunsLetter(c: char, t: string)
    requires IsAlnum(c)
    ensures ReplaceRuns([c] + t) == [c] + ReplaceRuns(t)
  {
    assert ([c] + t)[1..] == t;
  }

  /** A leading run of separators, up to an alphanumeric or the end, is dropped whole. */
  lemma DropSeparators(sep: string, rest: string)
    requires forall i :: 0 <= i < |sep| ==> !IsAlnum(sep[i])
    requires rest == [] || IsAlnum(rest[0])
    ensures DropNonAlnum(sep + rest) == rest
  {
    var s := sep + rest;
    var r := DropNonAlnum(s);
    if rest != [] {
      assert s[|sep|] == rest[0];
    }
    assert s[|sep|..] == rest;
  }

  /** A leading run of separators becomes a single `_`. */
  lemma ReplaceRunsSeparator(sep: string, rest: string)
    requires sep != [] && forall i :: 0 <= i < |sep| ==> !IsAlnum(sep[i])
    requires rest == [] || IsAlnum(rest[0])
    ensures ReplaceRuns(sep + rest) == "_" + ReplaceRuns(rest)
  {
    assert (sep + rest)[0] == sep[0];
    DropSeparators(sep, rest);
  }

  /** One word and the separator run after it, ahead of the next word. */
  lemma WordThenSeparator(w: string, sep: string, rest: string)
    requires w != [] && forall i :: 0 <= i < |w| ==> IsAlnum(w[i])
    requires sep != [] && forall i :: 0 <= i < |sep| ==> !IsAlnum(sep[i])
    requires rest == [] || IsAlnum(rest[0])
    ensures ReplaceRuns(w + (sep + rest)) == w + ("_" + ReplaceRuns(rest))
    ensures IsAlnum((w + (sep + rest))[0])
  {
    ReplaceRunsWord(w, sep + rest);
    ReplaceRunsSeparator(sep, rest);
  }

  lemma ExampleSplit()
    ensures "AWS re:Invent 2024!!" == "AWS" + (" " + ("re" + (":" + ("Invent" + (" " + ("2024" + ("!!" + "")))))))
  {
  }

  lemma ExampleJoined()
    ensures "AWS" + ("_" + ("re" + ("_" + ("Invent" + ("_" + ("2024" + ("_" + ""))))))) == "AWS_re_Invent_2024_"
  {
  }

  /** The separator runs ` `, `:`, ` ` and `!!` each become one `_`. */
  lemma ExampleReplaced()
    ensures ReplaceRuns("AWS re:Invent 2024!!") == "AWS_re_Invent_2024_"
  {
    ExampleSplit();
    ExampleJoined();
    var t4 := "2024" + ("!!" + "");
    var t3 := "Invent" + (" " + t4);
    var t2 := "re" + (":" + t3);
    WordThenSeparator("2024", "!!", "");
    WordThenSeparator("Invent", " ", t4);
    WordThenSeparator("re", ":", t3);
    WordThenSeparator("AWS", " ", t2);
  }

  /** No two underscores in a row, so the second substitution changes nothing. */
  lemma ExampleCollapsed()
    ensures CollapseUnderscores("AWS_re_Invent_2024_") == "AWS_re_Invent_2024_"
  {
    var u := "AWS_re_Invent_2024_";
    assert forall i :: 0 <= i < |u| - 1 ==> !(u[i] == '_' && u[i + 1] == '_');
    CollapseOfClean(u);
  }

  /** The one trailing underscore is stripped. */
  lemma ExampleStripped()
    ensures StripTrailing("AWS_re_Invent_2024_") == "AWS_re_Invent_2024"
  {
    var u := "AWS_re_Invent_2024_";
    assert u[..|u| - 1] == "AWS_re_Invent_2024";
    StripTrailingShape("AWS_re_Invent_2024");
  }

  /** The title of the conference itself: `AWS re:Invent 2024!!` becomes
      `AWS_re_Invent_2024`. */
  lemma SanitizeExample()
    ensures SanitizeTitle("AWS re:Invent 2024!!") == "AWS_re_Invent_2024"
  {
    ExampleReplaced();
    ExampleCollapsed();
    ExampleStripped();
  }

  // ---------------------------------------------------------------------------
  // Video id and object keys
  // ---------------------------------------------------------------------------

  /** Where `url.split("v=")[1]` lies: from just after the first `v=` up to the
      next `v=` at or after that point, or up to the end; `None` when the URL has
      no `v=`. */
  function SplitBounds(url: string): (r: Option<(nat, nat)>)
    ensures r.None? <==> !Contains(url, "v=")
    ensures r.Some? ==> var (a, b) := r.value;
      2 <= a <= b <= |url|
      && OccursAt(url, "v=", a - 2)
      && (forall p :: 0 <= p < a - 2 ==> !OccursAt(url, "v=", p))
      && (forall p :: a <= p < b ==> !OccursAt(url, "v=", p))
      && (b == |url| || OccursAt(url, "v=", b))
  {
    match IndexOf(url, "v=", 0)
    case None => None
    case Some(i) =>
      match IndexOf(url, "v=", i + 2)
      case None => Some((i + 2, |url|))
      case Some(j) => Some((i + 2, j))
  }

  /** `url.split("v=")[1]`; `None` is the `IndexError` of a URL without `v=`. */
  function SplitSecond(url: string): (r: Option<string>)
    ensures r.None? <==> !Contains(url, "v=")
  {
    match SplitBounds(url)
    case None => None
    case Some((a, b)) => Some(url[a..b])
  }

  /** The piece holds no `v=` of its own. */
  lemma SplitSecondNoMarker(url: string)
    requires SplitSecond(url).Some?
    ensures !Contains(SplitSecond(url).value, "v=")
  {
    var (a, b) := SplitBounds(url).value;
    var id := url[a..b];
    forall q | 0 <= q <= |id| - 2
      ensures !OccursAt(id, "v=", q)
    {
      OccursAtSlice(url, "v=", a, b, q);
    }
  }

  /** The id used in summary keys: one leading `_` removed, if present. */
  function SummaryVideoId(url: string): (r: Option<string>)
    ensures r.Some? <==> Contains(url, "v=")
    ensures r.Some? ==> var piece := SplitSecond(url).value;
      (StartsWith(piece, "_") ==> r.value == piece[1..])
      && (!StartsWith(piece, "_") ==> r.value == piece)
  {
    match SplitSecond(url)
    case None => None
    case Some(piece) => if StartsWith(piece, "_") then Some(piece[1..]) else Some(piece)
  }

  const SummaryFolder: string := "youtube_transcripts_with_summary/"

  /** `youtube_transcripts_with_summary/{sanitized_title}_{video_id}.txt`. */
  function SummaryKey(title: string, url: string): (r: Option<string>)
  {
    match SummaryVideoId(url)
    case None => None
    case Some(id) => Some(SummaryFolder + SanitizeTitle(title) + "_" + id + ".txt")
  }

  /** The summary key exists exactly for URLs with `v=`; it lies in the summary
      folder, names the sanitized title, then `_`, then the id, and ends `.txt`. */
  lemma SummaryKeyParts(title: string, url: string)
    ensures SummaryKey(title, url).Some? <==> Contains(url, "v=")
    ensures SummaryKey(title, url).Some? ==>
      var k := SummaryKey(title, url).value;
      var n := |SummaryFolder| + |SanitizeTitle(title)|;
      var id := SummaryVideoId(url).value;
      |k| == n + 1 + |id| + 4
      && StartsWith(k, SummaryFolder)
      && k[|SummaryFolder|..n] == SanitizeTitle(title)
      && k[n] == '_'
      && k[n + 1..n + 1 + |id|] == id
      && EndsWith(k, ".txt")
  {
    if SummaryKey(title, url).Some? {
      KeyLayout(SummaryFolder, SanitizeTitle(title), SummaryVideoId(url).value);
    }
  }

  /** The layout of `folder + name + "_" + id + ".txt"`. */
  lemma KeyLayout(folder: string, name: string, id: string)
    ensures var k := folder + name + "_" + id + ".txt";
      var n := |folder| + |name|;
      |k| == n + 1 + |id| + 4
      && StartsWith(k, folder)
      && k[|folder|..n] == name
      && k[n] == '_'
      && k[n + 1..n + 1 + |id|] == id
      && EndsWith(k, ".txt")
  {
    var head := folder + name + "_";
    var k := head + id + ".txt";
    ConcatParts(head, id, ".txt");
    ConcatParts(folder, name, "_");
    assert k[..|folder|] == head[..|folder|];
    assert k[|folder|..|folder| + |name|] == head[|folder|..|folder| + |name|];
    assert k[|folder| + |name|] == head[|folder| + |name|];
  }

  /** `Title: {title}\n\nTranscript: {transcript}\n\nSummary: {summary}`. */
  function SummaryBody(title: string, transcript: string, summary: string): string
  {
    "Title: " + title + "\n\nTranscript: " + transcript + "\n\nSummary: " + summary
  }

  /** The summary body places its three parts at fixed offsets: the title right
      after `Title: `, the transcript after the title and `\n\nTranscript: `, and
      the summary at the end after `\n\nSummary: `. */
  lemma SummaryBodyParts(title: string, transcript: string, summary: string)
    ensures var b := SummaryBody(title, transcript, summary);
      var t0 := 7;
      var t1 := t0 + |title| + 14;
      var s0 := |b| - |summary|;
      |b| == 7 + |title| + 14 + |transcript| + 11 + |summary|
      && b[..t0] == "Title: " && b[t0..t0 + |title|] == title
      && b[t0 + |title|..t1] == "\n\nTranscript: "
      && b[t1..t1 + |transcript|] == transcript
      && b[t1 + |transcript|..s0] == "\n\nSummary: "
      && b[s0..] == summary
  {
    var b := SummaryBody(title, transcript, summary);
    var t1 := 7 + |title| + 14;
    assert b == "Title: " + title + "\n\nTranscript: " + transcript + "\n\nSummary: " + summary;
    assert b[..7] == "Title: ";
    assert b[7..7 + |title|] == title;
    assert b[7 + |title|..t1] == "\n\nTranscript: ";
    assert b[t1..t1 + |transcript|] == transcript;
    assert b[t1 + |transcript|..|b| - |summary|] == "\n\nSummary: ";
    assert b[|b| - |summary|..] == summary;
  }

  /** The older `upload_to_s3` key, `youtube_transcripts/video-{video_id}.txt`,
      where the id keeps any leading `_`. */
  function TranscriptKey(url: string): (r: Option<string>)
  {
    match SplitSecond(url)
    case None => None
    case Some(id) => Some("youtube_transcripts/video-" + id + ".txt")
  }

  /** The older key exists exactly for URLs with `v=` and frames the untrimmed id. */
  lemma TranscriptKeyParts(url: string)
    ensures TranscriptKey(url).Some? <==> Contains(url, "v=")
    ensures TranscriptKey(url).Some? ==>
      var k := TranscriptKey(url).value;
      var id := SplitSecond(url).value;
      |k| == 26 + |id| + 4 && k[..26] == "youtube_transcripts/video-"
      && k[26..26 + |id|] == id && k[26 + |id|..] == ".txt"
  {
    if TranscriptKey(url).Some? {
      var k := TranscriptKey(url).value;
      var id := SplitSecond(url).value;
      ConcatParts("youtube_transcripts/video-", id, ".txt");
    }
  }

  /** The older body, `Title: {title}\n\nTranscript:\n{transcript}`. */
  function TranscriptBody(title: string, transcript: string): string
  {
    "Title: " + title + "\n\nTranscript:\n" + transcript
  }

  /** The older body puts the title after `Title: ` and the transcript last,
      after `\n\nTranscript:\n`. */
  lemma TranscriptBodyParts(title: string, transcript: string)
    ensures var b := TranscriptBody(title, transcript);
      |b| == 7 + |title| + 14 + |transcript|
      && b[..7] == "Title: " && b[7..7 + |title|] == title
      && b[7 + |title|..7 + |title| + 14] == "\n\nTranscript:\n"
      && b[7 + |title| + 14..] == transcript
  {
    var b := TranscriptBody(title, transcript);
    assert b == "Title: " + title + "\n\nTranscript:\n" + transcript;
    assert b[..7] == "Title: ";
    assert b[7..7 + |title|] == title;
    assert b[7 + |title|..7 + |title| + 14] == "\n\nTranscript:\n";
    assert b[7 + |title| + 14..] == transcript;
  }
}
