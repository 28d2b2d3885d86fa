/**
 * The two textual projections of a fetched transcript (youtube_ai_assistant.py:222-264):
 * the sentence reflow of `get_sentences_from_youtube_transcript` and the timestamped
 * listing built by `process_youtube_url`.
 *
 * A segment's start offset is a natural number of hundredths of a second, so
 * `start // 60` and `round(start % 60, 2)` are exact.
 */
module Transcript {
  import opened Wrappers
  import opened Text

  datatype Segment = Segment(start: nat, text: string)

  /** Python's `text.endswith(".")`. */
  predicate EndsWithPeriod(t: string) { |t| > 0 && t[|t| - 1] == '.' }

  function TextsOf(segs: seq<Segment>): (r: seq<string>)
    ensures |r| == |segs| && forall i :: 0 <= i < |segs| ==> r[i] == segs[i].text
  {
    if segs == [] then [] else [segs[0].text] + TextsOf(segs[1..])
  }

  // ---------------------------------------------------------------------------
  // Sentence reflow
  // ---------------------------------------------------------------------------

  /** Length of the leading group: up to and including the first text ending in
      a period, or everything when no text does. */
  function GroupLen(t: seq<string>): (n: nat)
    requires t != []
    ensures 1 <= n <= |t|
    ensures forall j :: 0 <= j < n - 1 ==> !EndsWithPeriod(t[j])
    ensures n < |t| ==> EndsWithPeriod(t[n - 1])
  {
    if EndsWithPeriod(t[0]) || |t| == 1 then 1 else 1 + GroupLen(t[1..])
  }

  /** The in-order partition of the texts into the groups the generator joins. */
  function Groups(t: seq<string>): seq<seq<string>>
    decreases |t|
  {
    if t == [] then [] else var n := GroupLen(t); [t[..n]] + Groups(t[n..])
  }

  function Flatten(gs: seq<seq<string>>): seq<string>
  {
    if gs == [] then [] else gs[0] + Flatten(gs[1..])
  }

  /** `" ".join(group).replace("\n", " ")`. */
  function Sentence(g: seq<string>): string
  {
    ReplaceChar(Join(" ", g), '\n', ' ')
  }

  /** Any per-group rendering applied to each group in order. */
  function MapGroups(f: seq<string> -> string, gs: seq<seq<string>>): seq<string>
  {
    if gs == [] then [] else [f(gs[0])] + MapGroups(f, gs[1..])
  }

  /** One rendering per group, in order. */
  lemma {:induction false} MapGroupsAt(f: seq<string> -> string, gs: seq<seq<string>>)
    ensures |MapGroups(f, gs)| == |gs|
    ensures forall i :: 0 <= i < |gs| ==> MapGroups(f, gs)[i] == f(gs[i])
    decreases |gs|
  {
    if gs != [] {
      MapGroupsAt(f, gs[1..]);
    }
  }

  /** The sentences of a sequence of groups. */
  function SentencesOf(gs: seq<seq<string>>): seq<string>
  {
    MapGroups(Sentence, gs)
  }

  /** A group as the generator accumulates it: non-empty, and only its last text
      may end in a period. */
  predicate OpenGroup(g: seq<string>)
  {
    g != [] && forall j :: 0 <= j < |g| - 1 ==> !EndsWithPeriod(g[j])
  }

  /** The groups are a partition: concatenated, they give back the input. */
  lemma {:induction false} GroupsPartition(t: seq<string>)
    ensures Flatten(Groups(t)) == t
    decreases |t|
  {
    if t != [] {
      var n := GroupLen(t);
      GroupsPartition(t[n..]);
      GroupsUnfold(t);
      FlattenCons(t[..n], Groups(t[n..]));
      SplitAt(t, n);
    }
  }

  lemma GroupsUnfold(t: seq<string>)
    requires t != []
    ensures Groups(t) == [t[..GroupLen(t)]] + Groups(t[GroupLen(t)..])
  {
  }

  lemma SplitAt<T>(t: seq<T>, n: nat)
    requires n <= |t|
    ensures t[..n] + t[n..] == t
  {
  }

  lemma FlattenCons(g: seq<string>, gs: seq<seq<string>>)
    ensures Flatten([g] + gs) == g + Flatten(gs)
  {
    assert ([g] + gs)[1..] == gs;
  }

  /** A group whose last text ends in a period. */
  predicate ClosedGroup(g: seq<string>)
  {
    g != [] && EndsWithPeriod(g[|g| - 1])
  }

  /** Every group is non-empty and only its last text may end in a period;
      every group but the last ends with a text that ends in a period. */
  lemma {:induction false} GroupsShape(t: seq<string>)
    ensures forall i :: 0 <= i < |Groups(t)| ==> OpenGroup(Groups(t)[i])
    ensures forall i :: 0 <= i < |Groups(t)| - 1 ==> ClosedGroup(Groups(t)[i])
    decreases |t|
  {
    if t != [] {
      var n := GroupLen(t);
      var gs := Groups(t[n..]);
      GroupsShape(t[n..]);
      FirstGroupShape(t);
      assert Groups(t) == [t[..n]] + gs;
      forall i | 0 <= i < |Groups(t)|
        ensures OpenGroup(Groups(t)[i])
      {
        if i > 0 {
          assert Groups(t)[i] == gs[i - 1];
        }
      }
      forall i | 0 <= i < |Groups(t)| - 1
        ensures ClosedGroup(Groups(t)[i])
      {
        if i > 0 {
          assert Groups(t)[i] == gs[i - 1];
        } else {
          assert t[n..] != [];
        }
      }
    }
  }

  /** The leading group is open, and closed when texts follow it. */
  lemma FirstGroupShape(t: seq<string>)
    requires t != []
    ensures OpenGroup(t[..GroupLen(t)])
    ensures GroupLen(t) < |t| ==> ClosedGroup(t[..GroupLen(t)])
  {
  }

  /** When the last text ends in a period, so does the last group. */
  lemma {:induction false} LastGroupClosed(t: seq<string>)
    requires t != [] && EndsWithPeriod(t[|t| - 1])
    ensures Groups(t) != [] && ClosedGroup(Groups(t)[|Groups(t)| - 1])
    decreases |t|
  {
    var n := GroupLen(t);
    if n < |t| {
      LastGroupClosed(t[n..]);
    } else {
      assert t[n..] == [] && t[..n] == t;
      assert Groups(t) == [t];
    }
  }

  /** The generator's state after consuming some texts: `acc` holds what it yielded
      so far, `cur` the open group; the result is what it yields in all. The group
      rendering `f` is a parameter, so that the proof below holds for any of them. */
  function Reflow(f: seq<string> -> string, rest: seq<string>, cur: seq<string>, acc: seq<string>): seq<string>
    decreases |rest|
  {
    if rest == [] then (if cur == [] then acc else acc + [f(cur)])
    else if EndsWithPeriod(rest[0]) then Reflow(f, rest[1..], [], acc + [f(cur + [rest[0]])])
    else Reflow(f, rest[1..], cur + [rest[0]], acc)
  }

  /** After an open run of texts without a period, the first group reaches up to
      the next period-terminated text. */
  lemma {:induction false} GroupLenAfterOpen(cur: seq<string>, rest: seq<string>)
    requires forall j :: 0 <= j < |cur| ==> !EndsWithPeriod(cur[j])
    requires rest != [] && EndsWithPeriod(rest[0])
    ensures GroupLen(cur + rest) == |cur| + 1
    decreases |cur|
  {
    if cur != [] {
      assert (cur + rest)[0] == cur[0];
      assert (cur + rest)[1..] == cur[1..] + rest;
      GroupLenAfterOpen(cur[1..], rest);
    }
  }

  /** Closing an open run at a period-terminated text splits off exactly one group. */
  lemma GroupsAfterClose(cur: seq<string>, rest: seq<string>)
    requires forall j :: 0 <= j < |cur| ==> !EndsWithPeriod(cur[j])
    requires rest != [] && EndsWithPeriod(rest[0])
    ensures Groups(cur + rest) == [cur + [rest[0]]] + Groups(rest[1..])
  {
    var all := cur + rest;
    GroupLenAfterOpen(cur, rest);
    assert all[..|cur| + 1] == cur + [rest[0]];
    assert all[|cur| + 1..] == rest[1..];
  }

  /** The generator yields exactly the renderings of the groups of what it reads. */
  lemma {:induction false} ReflowIsGroups(f: seq<string> -> string, rest: seq<string>, cur: seq<string>, acc: seq<string>)
    requires forall j :: 0 <= j < |cur| ==> !EndsWithPeriod(cur[j])
    ensures Reflow(f, rest, cur, acc) == acc + MapGroups(f, Groups(cur + rest))
    decreases |rest|
  {
    if rest == [] {
      ReflowEnd(f, cur, acc);
    } else if EndsWithPeriod(rest[0]) {
      ReflowIsGroups(f, rest[1..], [], acc + [f(cur + [rest[0]])]);
      ReflowClose(f, rest, cur, acc);
    } else {
      ReflowIsGroups(f, rest[1..], cur + [rest[0]], acc);
      assert (cur + [rest[0]]) + rest[1..] == cur + rest;
    }
  }

  lemma ReflowEnd(f: seq<string> -> string, cur: seq<string>, acc: seq<string>)
    requires forall j :: 0 <= j < |cur| ==> !EndsWithPeriod(cur[j])
    ensures Reflow(f, [], cur, acc) == acc + MapGroups(f, Groups(cur + []))
  {
    assert cur + [] == cur;
    if cur != [] {
      assert GroupLen(cur) == |cur|;
      assert cur[..|cur|] == cur && cur[|cur|..] == [];
      assert Groups(cur) == [cur];
    }
  }

  lemma ReflowClose(f: seq<string> -> string, rest: seq<string>, cur: seq<string>, acc: seq<string>)
    requires forall j :: 0 <= j < |cur| ==> !EndsWithPeriod(cur[j])
    requires rest != [] && EndsWithPeriod(rest[0])
    requires var a := acc + [f(cur + [rest[0]])];
      Reflow(f, rest[1..], [], a) == a + MapGroups(f, Groups([] + rest[1..]))
    ensures Reflow(f, rest, cur, acc) == acc + MapGroups(f, Groups(cur + rest))
  {
    var g := cur + [rest[0]];
    var gs := Groups(rest[1..]);
    assert [] + rest[1..] == rest[1..];
    assert Reflow(f, rest, cur, acc) == (acc + [f(g)]) + MapGroups(f, gs);
    MapGroupsCons(f, g, gs);
    GroupsAfterClose(cur, rest);
    AppendAssoc(acc, [f(g)], MapGroups(f, gs));
  }

  lemma MapGroupsCons(f: seq<string> -> string, g: seq<string>, gs: seq<seq<string>>)
    ensures MapGroups(f, [g] + gs) == [f(g)] + MapGroups(f, gs)
  {
    assert ([g] + gs)[1..] == gs;
  }

  /** `get_sentences_from_youtube_transcript`, consumed fully by `list(...)`. */
  method ReflowSentences(transcript: seq<Segment>) returns (sentences: seq<string>)
    ensures sentences == SentencesOf(Groups(TextsOf(transcript)))
  {
    ghost var t := TextsOf(transcript);
    sentences := [];
    var current: seq<string> := [];
    var i := 0;
    while i < |transcript|
      invariant 0 <= i <= |transcript|
      invariant Reflow(Sentence, t[i..], current, sentences) == Reflow(Sentence, t, [], [])
    {
      var text := transcript[i].text;
      assert t[i..][0] == text && t[i..][1..] == t[i + 1..];
      current := current + [text];
      if EndsWithPeriod(text) {
        sentences := sentences + [Sentence(current)];
        current := [];
      }
      i := i + 1;
    }
    if current != [] {
      sentences := sentences + [Sentence(current)];
    }
    ReflowIsGroups(Sentence, t, [], []);
    assert [] + t == t;
  }

  /** No reflowed sentence contains a newline. */
  lemma NoNewlineInSentences(gs: seq<seq<string>>)
    ensures |SentencesOf(gs)| == |gs|
    ensures forall i, k :: 0 <= i < |SentencesOf(gs)| && 0 <= k < |SentencesOf(gs)[i]| ==> SentencesOf(gs)[i][k] != '\n'
  {
    MapGroupsAt(Sentence, gs);
    forall i | 0 <= i < |gs| {
      ReplaceCharAt(Join(" ", gs[i]), '\n', ' ');
    }
  }

  /** An empty transcript gives no sentences. */
  lemma EmptyGivesNoSentences()
    ensures SentencesOf(Groups(TextsOf([]))) == []
  {
  }

  // ---------------------------------------------------------------------------
  // Timestamped rendering
  // ---------------------------------------------------------------------------

  const Header: string := "start - text\n"

  /** `int(start_seconds // 60)`. */
  function Minutes(start: nat): nat { start / 6000 }

  /** `int(round(start_seconds % 60, 2))`. */
  function Seconds(start: nat): nat { (start % 6000) / 100 }

  /** `f"{minutes:02}:{int(seconds):02}"`. */
  function Stamp(start: nat): string
  {
    Pad2(Minutes(start)) + ":" + Pad2(Seconds(start))
  }

  /** The minute and second fields of a stamp are whole minutes and below-60
      seconds that add up to the offset's whole seconds, and each field reads
      back as its number. */
  lemma StampMeaning(start: nat)
    ensures Seconds(start) < 60
    ensures Minutes(start) * 60 + Seconds(start) == start / 100
    ensures var s := Stamp(start); var m := |Pad2(Minutes(start))|;
      m >= 2 && m < |s| && s[m] == ':' && AllDigits(s[..m]) && AllDigits(s[m + 1..])
      && DigitsValue(s[..m]) == Minutes(start) && DigitsValue(s[m + 1..]) == Seconds(start)
  {
    var s := Stamp(start);
    var m := |Pad2(Minutes(start))|;
    assert s[..m] == Pad2(Minutes(start));
    assert s[m + 1..] == Pad2(Seconds(start));
  }

  /** `f"{start_time} - \"{entry['text']}\"\n"`. */
  function Line(seg: Segment): string
  {
    Stamp(seg.start) + " - \"" + seg.text + "\"\n"
  }

  /** The header followed by one line per segment, in input order. */
  function Listing(segs: seq<Segment>): string
  {
    if segs == [] then Header else Listing(segs[..|segs| - 1]) + Line(segs[|segs| - 1])
  }

  function CountChar(s: string, c: char): nat
  {
    if s == [] then 0 else (if s[0] == c then 1 else 0) + CountChar(s[1..], c)
  }

  lemma {:induction false} CountCharAppend(a: string, b: string, c: char)
    ensures CountChar(a + b, c) == CountChar(a, c) + CountChar(b, c)
    decreases |a|
  {
    if a == [] {
      assert a + b == b;
    } else {
      assert (a + b)[0] == a[0];
      assert (a + b)[1..] == a[1..] + b;
      CountCharAppend(a[1..], b, c);
    }
  }

  lemma {:induction false} CountCharNone(s: string, c: char)
    requires forall k :: 0 <= k < |s| ==> s[k] != c
    ensures CountChar(s, c) == 0
    decreases |s|
  {
    if s != [] { CountCharNone(s[1..], c); }
  }

  /** A line holds exactly one newline, its terminator, when the text holds none. */
  lemma LineHasOneNewline(seg: Segment)
    requires forall k :: 0 <= k < |seg.text| ==> seg.text[k] != '\n'
    ensures CountChar(Line(seg), '\n') == 1
  {
    var st := Stamp(seg.start);
    var mid := " - \"";
    var tail := "\"\n";
    assert forall k :: 0 <= k < |st| ==> st[k] != '\n' by {
      var a, b := Pad2(Minutes(seg.start)), Pad2(Seconds(seg.start));
      assert st == a + ":" + b;
      forall k | 0 <= k < |st| ensures st[k] != '\n' {
        if k < |a| { assert st[k] == a[k]; }
        else if k > |a| { assert st[k] == b[k - |a| - 1]; }
      }
    }
    CountCharNone(st, '\n');
    CountCharNone(mid, '\n');
    CountCharNone(seg.text, '\n');
    CountCharAppend(st, mid, '\n');
    CountCharAppend(st + mid, seg.text, '\n');
    CountCharAppend(st + mid + seg.text, tail, '\n');
    assert CountChar(tail, '\n') == 1 by {
      assert tail[1..] == "\n" && ("\n")[1..] == [];
    }
  }

  /** Exactly one line per segment: without newlines inside the texts, the
      listing holds one newline for the header and one per segment. */
  lemma {:induction false} OneLinePerSegment(segs: seq<Segment>)
    requires forall i, k :: 0 <= i < |segs| && 0 <= k < |segs[i].text| ==> segs[i].text[k] != '\n'
    ensures CountChar(Listing(segs), '\n') == |segs| + 1
    decreases |segs|
  {
    if segs == [] {
      HeaderHasOneNewline();
    } else {
      var front := segs[..|segs| - 1];
      var last := segs[|segs| - 1];
      assert forall i, k :: 0 <= i < |front| && 0 <= k < |front[i].text| ==> front[i].text[k] != '\n' by {
        forall i, k | 0 <= i < |front| && 0 <= k < |front[i].text| ensures front[i].text[k] != '\n' {
          assert front[i] == segs[i];
        }
      }
      OneLinePerSegment(front);
      LineHasOneNewline(last);
      assert Listing(segs) == Listing(front) + Line(last);
      CountCharAppend(Listing(front), Line(last), '\n');
    }
  }

  /** The header is one line. */
  lemma HeaderHasOneNewline()
    ensures CountChar(Header, '\n') == 1
  {
    CountCharNone("start - text", '\n');
    CountCharAppend("start - text", "\n", '\n');
    assert "start - text" + "\n" == Header;
  }

  lemma ListingSnoc(segs: seq<Segment>, i: nat)
    requires i < |segs|
    ensures Listing(segs[..i + 1]) == Listing(segs[..i]) + Line(segs[i])
  {
    assert segs[..i + 1][..i] == segs[..i];
  }

  /** The `transcript_data += ...` loop of `process_youtube_url`. */
  method RenderTimestamped(transcript: seq<Segment>) returns (data: string)
    ensures data == Listing(transcript)
  {
    data := Header;
    var i := 0;
    while i < |transcript|
      invariant 0 <= i <= |transcript|
      invariant data == Listing(transcript[..i])
    {
      ListingSnoc(transcript, i);
      data := data + Line(transcript[i]);
      i := i + 1;
    }
    assert transcript[..i] == transcript;
  }

  /** `process_youtube_url` after the fetch: no result for an empty transcript,
      otherwise the timestamped listing and the sentences joined by newlines. */
  method ProcessTranscript(transcript: seq<Segment>) returns (r: Option<(string, string)>)
    ensures transcript == [] <==> r.None?
    ensures r.Some? ==> r.value.0 == Listing(transcript)
    ensures r.Some? ==> r.value.1 == Join("\n", SentencesOf(Groups(TextsOf(transcript))))
  {
    if transcript == [] {
      return None;
    }
    var data := RenderTimestamped(transcript);
    var sentences := ReflowSentences(transcript);
    r := Some((data, Join("\n", sentences)));
  }

  /** The worked example, "Hello" at 0 s and "world." at 2.5 s: its listing. */
  lemma HelloWorldListing()
    ensures Listing([Segment(0, "Hello"), Segment(250, "world.")])
         == Header + "00:00 - \"Hello\"\n" + "00:02 - \"world.\"\n"
  {
    var s0, s1 := Segment(0, "Hello"), Segment(250, "world.");
    HelloLine();
    WorldLine();
    assert Listing([s0, s1]) == Listing([s0]) + Line(s1) by {
      assert [s0, s1][..1] == [s0];
    }
    assert Listing([s0]) == Header + Line(s0) by {
      assert [s0][..0] == [];
    }
  }

  /** The first line of the worked example. */
  lemma HelloLine()
    ensures Line(Segment(0, "Hello")) == "00:00 - \"Hello\"\n"
  {
    StampExample(0, 0);
  }

  /** The second line of the worked example. */
  lemma WorldLine()
    ensures Line(Segment(250, "world.")) == "00:02 - \"world.\"\n"
  {
    StampExample(250, 2);
  }

  lemma StampExample(start: nat, sec: nat)
    requires start < 1000 && sec < 10 && start / 100 == sec
    ensures Stamp(start) == "00:0" + [DigitChar(sec)]
  {
    assert Minutes(start) == 0 && Seconds(start) == sec;
    assert Decimal(0) == "0";
    assert Decimal(sec) == [DigitChar(sec)];
  }

  /** The worked example: its sentence rendering. */
  lemma HelloWorldSentences()
    ensures Join("\n", SentencesOf(Groups(TextsOf([Segment(0, "Hello"), Segment(250, "world.")])))) == "Hello world."
  {
    var t: seq<string> := ["Hello", "world."];
    assert TextsOf([Segment(0, "Hello"), Segment(250, "world.")]) == t;
    HelloWorldOneGroup(t);
    HelloWorldSentence(t);
    MapGroupsAt(Sentence, [t]);
    assert SentencesOf([t]) == ["Hello world."];
  }

  lemma HelloWorldOneGroup(t: seq<string>)
    requires t == ["Hello", "world."]
    ensures Groups(t) == [t]
  {
    assert GroupLen(t) == 2;
    GroupsUnfold(t);
    assert t[2..] == [] && t[..2] == t;
  }

  lemma HelloWorldSentence(t: seq<string>)
    requires t == ["Hello", "world."]
    ensures Sentence(t) == "Hello world."
  {
    assert Join(" ", t) == "Hello world." by {
      assert t[1..] == ["world."];
    }
    ReplaceCharAbsent("Hello world.", '\n', ' ');
  }
}
