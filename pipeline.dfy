/**
 * The three table-driven flows: `generate_summary`
 * (youtube_ai_assistant.py:556-740), `process_dynamodb_and_upload_with_summary`
 * (youtube_ai_assistant.py:783-815) and `get_video_urls`
 * (youtube_ai_assistant.py:67-103).
 *
 * Each scan is given as its pages of items, in order; the scan's filter is
 * applied to each item as DynamoDB would. Python's `str()` of a non-string
 * value is a parameter `show`, the page fetch of the view-count flow a
 * parameter `fetch`, and the model endpoint and `json.loads` the parameters of
 * `InvokeModel`. An exception that escapes to a flow's outer `try` ends that
 * flow: its state then records `aborted`.
 */
module Pipeline {
  import opened Wrappers
  import opened Text
  import opened Values
  import opened Ledger
  import opened Enrichment
  import opened Archive
  import opened Details

  /** The items of all pages, in scan order. */
  function Concat(pages: seq<seq<Record>>): seq<Record>
  {
    if pages == [] then [] else Concat(pages[..|pages| - 1]) + pages[|pages| - 1]
  }

  lemma ConcatSnoc(pages: seq<seq<Record>>, p: nat)
    requires p < |pages|
    ensures Concat(pages[..p + 1]) == Concat(pages[..p]) + pages[p]
  {
    assert pages[..p + 1][..p] == pages[..p];
  }

  /** A scan: `step` applied to each item in order, from state `st`. */
  function Run<S>(step: (S, Record) -> S, st: S, rs: seq<Record>): S
  {
    if rs == [] then st else step(Run(step, st, rs[..|rs| - 1]), rs[|rs| - 1])
  }

  lemma RunSnoc<S>(step: (S, Record) -> S, st: S, rs: seq<Record>, r: Record)
    ensures Run(step, st, rs + [r]) == step(Run(step, st, rs), r)
  {
    assert (rs + [r])[..|rs|] == rs;
  }

  /** The states in which `step` changes nothing. */
  ghost predicate Halts<S(!new)>(step: (S, Record) -> S, halted: S -> bool)
  {
    forall st, r :: halted(st) ==> step(st, r) == st
  }

  /** Once a scan has halted, later items change nothing. */
  lemma {:induction false} RunHalted<S(!new)>(step: (S, Record) -> S, halted: S -> bool, st: S, rs: seq<Record>, more: seq<Record>)
    requires Halts(step, halted) && halted(Run(step, st, rs))
    ensures Run(step, st, rs + more) == Run(step, st, rs)
    decreases |more|
  {
    if more == [] {
      assert rs + more == rs;
    } else {
      var front := more[..|more| - 1];
      RunHalted(step, halted, st, rs, front);
      assert (rs + more)[..|rs + more| - 1] == rs + front;
    }
  }

  /** A scan that halts at item `i` of page `p` ends in the state it halted in. */
  lemma FinishHalted<S(!new)>(step: (S, Record) -> S, halted: S -> bool, s0: S, pages: seq<seq<Record>>, p: nat, i: nat)
    requires p < |pages| && i < |pages[p]|
    requires Halts(step, halted) && halted(Run(step, s0, Concat(pages[..p]) + pages[p][..i + 1]))
    ensures Run(step, s0, Concat(pages)) == Run(step, s0, Concat(pages[..p]) + pages[p][..i + 1])
  {
    ConcatSplit(pages, p, i);
    RunHalted(step, halted, s0, Concat(pages[..p]) + pages[p][..i + 1], pages[p][i + 1..] + Concat(pages[p + 1..]));
  }

  lemma SnocSlice<T>(a: seq<T>, xs: seq<T>, i: nat)
    requires i < |xs|
    ensures a + xs[..i + 1] == (a + xs[..i]) + [xs[i]]
  {
    assert xs[..i + 1] == xs[..i] + [xs[i]];
  }

  /** Python's `str(v)` inside an f-string: a string is itself. */
  function TextOf(show: Value -> string, v: Value): string
  {
    if v.Str? then v.s else show(v)
  }

  lemma StartsWithTrans(a: string, b: string, c: string)
    requires StartsWith(a, b) && StartsWith(b, c)
    ensures StartsWith(a, c)
  {
    assert a[..|c|] == a[..|b|][..|c|];
  }

  // ---------------------------------------------------------------------------
  // generate_summary
  // ---------------------------------------------------------------------------

  const TranscriptJoint: string := " - Transcript: "

  /** The loop state: the table, the current `prompt`, every prompt sent so
      far, and whether an exception ended the flow. */
  datatype SummaryState = SummaryState(items: Items, prompt: string, prompts: seq<string>, aborted: bool)

  /** The attribute assignments `SET k1 = :k1, ...` performs with the values of
      `ValuesOf(fields)`: each key gets the value of its last occurrence. */
  function Assigned(fields: seq<(string, Value)>): map<string, Value>
  {
    if fields == [] then map[]
    else Assigned(fields[..|fields| - 1])[fields[|fields| - 1].0 := fields[|fields| - 1].1]
  }

  /** The assignments are exactly those the expression's placeholders bind. */
  lemma {:induction false} AssignedMatchesValues(fields: seq<(string, Value)>)
    ensures forall k :: k in Assigned(fields) <==> (":" + k) in ValuesOf(fields)
    ensures forall k :: k in Assigned(fields) ==> Assigned(fields)[k] == ValuesOf(fields)[":" + k]
    decreases |fields|
  {
    if fields != [] {
      var front := fields[..|fields| - 1];
      var last := fields[|fields| - 1];
      AssignedMatchesValues(front);
      forall k
        ensures (k in Assigned(fields) <==> (":" + k) in ValuesOf(fields))
        ensures k in Assigned(fields) ==> Assigned(fields)[k] == ValuesOf(fields)[":" + k]
      {
        if k != last.0 {
          PlaceholderInjective(k, last.0);
        }
      }
    }
  }

  /** One item of the summary scan. */
  function SummaryStep(show: Value -> string, ask: string -> Option<Value>,
                       st: SummaryState, r: Record): SummaryState
  {
    if st.aborted || !SummaryScanFilter(r) || !SummaryGate(r) then st
    // `item['video_url']` is read before the inner `try`.
    else if KeyAttribute !in r then st.(aborted := true)
    else
      var p := st.prompt + TranscriptJoint + TextOf(show, AttrOr(r, "transcript", Str("")));
      ApplyReply(st.(prompt := p, prompts := st.prompts + [p]), r[KeyAttribute], ask(p))
  }

  /** What the model's reply does to the state once the prompt is sent. */
  function ApplyReply(sent: SummaryState, key: Value, reply: Option<Value>): SummaryState
  {
    if reply.None? || !Truthy(reply.value) then sent
    // `.items()` on a reply that is not an object raises.
    else if !reply.value.Obj? then sent.(aborted := true)
    // A key that is not a string makes `update_item` fail inside its own `try`.
    else if !key.Str? then sent
    else sent.(items := Upsert(sent.items, key.s, Assigned(reply.value.fields)))
  }

  /** `SummaryStep` as the step of a scan. */
  function SummaryStepOf(show: Value -> string, ask: string -> Option<Value>): (SummaryState, Record) -> SummaryState
  {
    (st: SummaryState, r: Record) => SummaryStep(show, ask, st, r)
  }

  /** The summary scan over `rs`, from state `st`. */
  function SummaryRun(show: Value -> string, ask: string -> Option<Value>,
                      st: SummaryState, rs: seq<Record>): SummaryState
  {
    Run(SummaryStepOf(show, ask), st, rs)
  }

  /** Once aborted, the summary scan does nothing more. */
  lemma SummaryHalts(show: Value -> string, ask: string -> Option<Value>)
    ensures Halts(SummaryStepOf(show, ask), (st: SummaryState) => st.aborted)
  {
  }

  /** The prompts form a chain: each starts with the base prompt and a
      transcript section, each later one extends every earlier one by at least
      one more section, and the current prompt is the last one sent. */
  predicate PromptChain(base: string, prompts: seq<string>, current: string)
  {
    (forall i :: 0 <= i < |prompts| ==> StartsWith(prompts[i], base + TranscriptJoint))
    && (forall i, j :: 0 <= i < j < |prompts| ==> StartsWith(prompts[j], prompts[i] + TranscriptJoint))
    && (if prompts == [] then current == base else current == prompts[|prompts| - 1])
  }

  /** One sent prompt keeps the chain. */
  lemma ChainStep(base: string, prompts: seq<string>, current: string, t: string)
    requires PromptChain(base, prompts, current)
    ensures PromptChain(base, prompts + [current + TranscriptJoint + t], current + TranscriptJoint + t)
  {
    var p := current + TranscriptJoint + t;
    var ps := prompts + [p];
    assert StartsWith(p, current + TranscriptJoint) by {
      assert p[..|current + TranscriptJoint|] == current + TranscriptJoint;
    }
    forall i | 0 <= i < |ps| ensures StartsWith(ps[i], base + TranscriptJoint) {
      if i == |prompts| && prompts != [] {
        StartsWithTrans(p, current + TranscriptJoint, current);
        StartsWithTrans(p, current, base + TranscriptJoint);
      }
    }
    forall i, j | 0 <= i < j < |ps| ensures StartsWith(ps[j], ps[i] + TranscriptJoint) {
      if j == |prompts| && i < |prompts| - 1 {
        StartsWithTrans(p, current + TranscriptJoint, current);
        StartsWithTrans(p, current, prompts[i] + TranscriptJoint);
      }
    }
  }

  /** At line 696 `prompt` is reassigned inside the loop, so the prompts the
      scan sends form a chain: every later prompt contains every earlier
      transcript section. */
  lemma {:induction false} SummaryPromptsChain(show: Value -> string, ask: string -> Option<Value>,
                                               base: string, st: SummaryState, rs: seq<Record>)
    requires PromptChain(base, st.prompts, st.prompt)
    ensures PromptChain(base, SummaryRun(show, ask, st, rs).prompts, SummaryRun(show, ask, st, rs).prompt)
    ensures |st.prompts| <= |SummaryRun(show, ask, st, rs).prompts|
    ensures SummaryRun(show, ask, st, rs).prompts[..|st.prompts|] == st.prompts
    decreases |rs|
  {
    if rs != [] {
      var before := SummaryRun(show, ask, st, rs[..|rs| - 1]);
      SummaryPromptsChain(show, ask, base, st, rs[..|rs| - 1]);
      var r := rs[|rs| - 1];
      if !before.aborted && SummaryScanFilter(r) && SummaryGate(r) && KeyAttribute in r {
        ChainStep(base, before.prompts, before.prompt, TextOf(show, AttrOr(r, "transcript", Str(""))));
        var after := SummaryRun(show, ask, st, rs);
        assert after.prompts[..|st.prompts|] == before.prompts[..|st.prompts|];
      }
    }
  }

  /** The scan changes only items whose key some selected item carries. */
  lemma {:induction false} SummaryRunFrame(show: Value -> string, ask: string -> Option<Value>,
                                           st: SummaryState, rs: seq<Record>, u: string)
    requires forall k :: 0 <= k < |rs| ==> Attr(rs[k], KeyAttribute) != Str(u)
    ensures u in SummaryRun(show, ask, st, rs).items <==> u in st.items
    ensures u in st.items ==> SummaryRun(show, ask, st, rs).items[u] == st.items[u]
    decreases |rs|
  {
    if rs != [] {
      SummaryRunFrame(show, ask, st, rs[..|rs| - 1], u);
      var r := rs[|rs| - 1];
      assert Attr(r, KeyAttribute) != Str(u);
    }
  }

  /** What `invoke_bedrock_model` returns for a prompt. */
  function Ask(oracle: (string, nat) -> Reply, parse: string -> Parsed): string -> Option<Value>
  {
    (p: string) => Retry(Outcomes(p, oracle, parse), 0, []).0
  }

  /** The update of `generate_summary`: the expression and values are built,
      and DynamoDB gives each `k` of the expression the value bound to `:k`;
      a key that is not a string makes the call fail, which is caught. */
  method StoreInsights(table: Table, key: Value, fields: seq<(string, Value)>)
    modifies table
    ensures key.Str? ==> table.items == Upsert(old(table.items), key.s, Assigned(fields))
    ensures !key.Str? ==> table.items == old(table.items)
  {
    var expression, values := BuildUpdate(fields);
    if key.Str? {
      table.UpdateItem(key.s, Assigned(fields));
    }
  }

  /** The body of the item loop of `generate_summary`. */
  method SummariseItem(table: Table, prompt0: string, prompts0: seq<string>, item: Record,
                       show: Value -> string, oracle: (string, nat) -> Reply, parse: string -> Parsed)
    returns (prompt: string, prompts: seq<string>, aborted: bool)
    modifies table
    ensures SummaryState(table.items, prompt, prompts, aborted)
      == SummaryStep(show, Ask(oracle, parse), SummaryState(old(table.items), prompt0, prompts0, false), item)
  {
    prompt, prompts, aborted := prompt0, prompts0, false;
    if SummaryScanFilter(item) && SummaryGate(item) {
      if KeyAttribute !in item {
        aborted := true;
        return;
      }
      prompt := prompt + TranscriptJoint + TextOf(show, AttrOr(item, "transcript", Str("")));
      prompts := prompts + [prompt];
      var insights, _, _ := InvokeModel(prompt, oracle, parse);
      assert insights == Ask(oracle, parse)(prompt);
      aborted := StoreReply(table, prompt, prompts, item[KeyAttribute], insights);
    }
  }

  /** The handling of the reply in the item loop of `generate_summary`. */
  method StoreReply(table: Table, ghost prompt: string, ghost prompts: seq<string>, key: Value, insights: Option<Value>)
    returns (aborted: bool)
    modifies table
    ensures SummaryState(table.items, prompt, prompts, aborted)
      == ApplyReply(SummaryState(old(table.items), prompt, prompts, false), key, insights)
  {
    aborted := false;
    if insights.Some? && Truthy(insights.value) {
      if !insights.value.Obj? {
        aborted := true;
        return;
      }
      StoreInsights(table, key, insights.value.fields);
    }
  }

  /** `generate_summary` over the pages of its scan, starting from `basePrompt`. */
  method GenerateSummary(table: Table, pages: seq<seq<Record>>, basePrompt: string,
                         show: Value -> string, oracle: (string, nat) -> Reply, parse: string -> Parsed)
    returns (prompts: seq<string>, aborted: bool)
    modifies table
    ensures var st := SummaryRun(show, Ask(oracle, parse), SummaryState(old(table.items), basePrompt, [], false), Concat(pages));
      table.items == st.items && prompts == st.prompts && aborted == st.aborted
  {
    ghost var ask := Ask(oracle, parse);
    ghost var s0 := SummaryState(table.items, basePrompt, [], false);
    var prompt := basePrompt;
    prompts, aborted := [], false;
    for p := 0 to |pages|
      invariant SummaryState(table.items, prompt, prompts, false) == SummaryRun(show, ask, s0, Concat(pages[..p]))
    {
      ConcatSnoc(pages, p);
      var items := pages[p];
      ghost var done := Concat(pages[..p]);
      assert done + items[..0] == done;
      for i := 0 to |items|
        invariant SummaryState(table.items, prompt, prompts, false) == SummaryRun(show, ask, s0, done + items[..i])
      {
        SnocSlice(done, items, i);
        RunSnoc(SummaryStepOf(show, ask), s0, done + items[..i], items[i]);
        prompt, prompts, aborted := SummariseItem(table, prompt, prompts, items[i], show, oracle, parse);
        if aborted {
          SummaryHalts(show, ask);
          FinishHalted(SummaryStepOf(show, ask), (st: SummaryState) => st.aborted, s0, pages, p, i);
          return;
        }
      }
      assert items[..|items|] == items;
    }
    assert pages[..|pages|] == pages;
  }

  lemma {:induction false} ConcatAppend(a: seq<seq<Record>>, b: seq<seq<Record>>)
    ensures Concat(a + b) == Concat(a) + Concat(b)
    decreases |b|
  {
    if b == [] {
      assert a + b == a;
    } else {
      var front := b[..|b| - 1];
      var last := b[|b| - 1];
      ConcatAppend(a, front);
      assert a + b == (a + front) + [last];
      ConcatUnfold(a + front, last);
      assert b == front + [last];
      ConcatUnfold(front, last);
      AppendAssoc(Concat(a), Concat(front), last);
    }
  }

  lemma ConcatUnfold(pages: seq<seq<Record>>, page: seq<Record>)
    ensures Concat(pages + [page]) == Concat(pages) + page
  {
    assert (pages + [page])[..|pages|] == pages;
  }

  /** The scan's items, cut after item `i` of page `p`. */
  lemma ConcatSplit(pages: seq<seq<Record>>, p: nat, i: nat)
    requires p < |pages| && i < |pages[p]|
    ensures Concat(pages) == (Concat(pages[..p]) + pages[p][..i + 1]) + (pages[p][i + 1..] + Concat(pages[p + 1..]))
  {
    assert pages == pages[..p + 1] + pages[p + 1..];
    ConcatAppend(pages[..p + 1], pages[p + 1..]);
    ConcatSnoc(pages, p);
    var a := Concat(pages[..p]);
    var x := pages[p][..i + 1];
    var y := pages[p][i + 1..];
    var c := Concat(pages[p + 1..]);
    assert pages[p] == x + y;
    AppendAssoc(a, x, y);
    AppendAssoc(a + x, y, c);
  }

  // ---------------------------------------------------------------------------
  // process_dynamodb_and_upload_with_summary
  // ---------------------------------------------------------------------------

  /** The archive bucket: object bodies by key. */
  class Bucket {
    var objects: map<string, string>

    constructor (initial: map<string, string>)
      ensures objects == initial
    {
      objects := initial;
    }

    /** `put_object`: the key now holds the body. */
    method PutObject(key: string, body: string)
      modifies this
      ensures objects == old(objects)[key := body]
    {
      objects := objects[key := body];
    }
  }

  /** The upload loop state: the bucket's objects and whether an exception
      ended the flow. */
  datatype UploadState = UploadState(objects: map<string, string>, aborted: bool)

  /** An item the upload cannot name: a title or URL that is not a string, or
      a URL without `v=`. In each case the exception is raised before
      `file_name` is bound, so the handler's own message raises
      `UnboundLocalError` and the flow ends. */
  predicate BadUpload(r: Record)
  {
    !Attr(r, "title").Str? || !Attr(r, KeyAttribute).Str? || !Contains(Attr(r, KeyAttribute).s, "v=")
  }

  /** One item of the upload scan. */
  function UploadStep(show: Value -> string, st: UploadState, r: Record): UploadState
  {
    if st.aborted || !UploadGate(r) then st
    else if !Attr(r, "title").Str? || !Attr(r, KeyAttribute).Str? then st.(aborted := true)
    else
      var title := Attr(r, "title").s;
      match SummaryKey(title, Attr(r, KeyAttribute).s)
      case None => st.(aborted := true)
      case Some(key) =>
        var body := SummaryBody(title, TextOf(show, AttrOr(r, "transcript", Str(""))), TextOf(show, AttrOr(r, "summary", Str(""))));
        st.(objects := st.objects[key := body])
  }

  function UploadStepOf(show: Value -> string): (UploadState, Record) -> UploadState
  {
    (st: UploadState, r: Record) => UploadStep(show, st, r)
  }

  /** The upload scan over `rs`, from state `st`. */
  function UploadRun(show: Value -> string, st: UploadState, rs: seq<Record>): UploadState
  {
    Run(UploadStepOf(show), st, rs)
  }

  lemma UploadHalts(show: Value -> string)
    ensures Halts(UploadStepOf(show), (st: UploadState) => st.aborted)
  {
  }

  /** Some item passes the gate but cannot be named. */
  predicate SomeBadUpload(rs: seq<Record>)
  {
    exists k :: 0 <= k < |rs| && UploadGate(rs[k]) && BadUpload(rs[k])
  }

  /** One upload step ends the flow exactly when the state already had, or
      the item passes the gate but cannot be named. */
  lemma UploadStepAborted(show: Value -> string, st: UploadState, r: Record)
    ensures UploadStep(show, st, r).aborted <==> st.aborted || (UploadGate(r) && BadUpload(r))
  {
    if !st.aborted && UploadGate(r) && Attr(r, "title").Str? && Attr(r, KeyAttribute).Str? {
      SummaryKeyParts(Attr(r, "title").s, Attr(r, KeyAttribute).s);
    }
  }

  /** The upload flow ends early exactly when some gated item has a title or
      URL that is not a string, or a URL without `v=`. */
  lemma {:induction false} UploadRunAborted(show: Value -> string, st: UploadState, rs: seq<Record>)
    ensures UploadRun(show, st, rs).aborted <==> st.aborted || SomeBadUpload(rs)
    decreases |rs|
  {
    if rs != [] {
      var front := rs[..|rs| - 1];
      var r := rs[|rs| - 1];
      UploadRunAborted(show, st, front);
      assert UploadRun(show, st, rs) == UploadStep(show, UploadRun(show, st, front), r);
      UploadStepAborted(show, UploadRun(show, st, front), r);
      assert SomeBadUpload(rs) <==> SomeBadUpload(front) || (UploadGate(r) && BadUpload(r)) by {
        if SomeBadUpload(front) {
          var k :| 0 <= k < |front| && UploadGate(front[k]) && BadUpload(front[k]);
          assert rs[k] == front[k];
        }
        if SomeBadUpload(rs) {
          var k :| 0 <= k < |rs| && UploadGate(rs[k]) && BadUpload(rs[k]);
          if k < |front| {
            assert front[k] == rs[k];
          }
        }
      }
    }
  }

  /** Every key written lies in the summary folder and ends in `.txt`. */
  predicate SummaryObjectsOnly(before: map<string, string>, after: map<string, string>)
  {
    before.Keys <= after.Keys
    && forall k :: k in after && k !in before ==> StartsWith(k, SummaryFolder) && EndsWith(k, ".txt")
  }

  lemma UploadStepKeys(show: Value -> string, st: UploadState, r: Record)
    ensures SummaryObjectsOnly(st.objects, UploadStep(show, st, r).objects)
  {
    if !st.aborted && UploadGate(r) && Attr(r, "title").Str? && Attr(r, KeyAttribute).Str? {
      SummaryKeyParts(Attr(r, "title").s, Attr(r, KeyAttribute).s);
    }
  }

  /** The upload flow keeps every object it found and adds only keys in the
      summary folder ending in `.txt`. */
  lemma {:induction false} UploadRunKeys(show: Value -> string, st: UploadState, rs: seq<Record>)
    ensures st.objects.Keys <= UploadRun(show, st, rs).objects.Keys
    ensures forall k :: k in UploadRun(show, st, rs).objects && k !in st.objects ==>
      StartsWith(k, SummaryFolder) && EndsWith(k, ".txt")
    decreases |rs|
  {
    if rs != [] {
      var front := rs[..|rs| - 1];
      UploadRunKeys(show, st, front);
      assert UploadRun(show, st, rs) == UploadStep(show, UploadRun(show, st, front), rs[|rs| - 1]);
      UploadStepKeys(show, UploadRun(show, st, front), rs[|rs| - 1]);
    }
  }

  /** `upload_to_s3_with_summary` for string arguments: `None` when the URL has
      no `v=` (the `IndexError`), otherwise the key written. */
  method UploadToS3WithSummary(bucket: Bucket, title: string, url: string, transcript: string, summary: string)
    returns (key: Option<string>)
    modifies bucket
    ensures key == SummaryKey(title, url)
    ensures key.Some? ==> bucket.objects == old(bucket.objects)[key.value := SummaryBody(title, transcript, summary)]
    ensures key.None? ==> bucket.objects == old(bucket.objects)
  {
    var sanitized := SanitizeTitle(title);
    var videoId := SummaryVideoId(url);
    if videoId.None? {
      return None;
    }
    var fileName := sanitized + "_" + videoId.value + ".txt";
    var content := SummaryBody(title, transcript, summary);
    PrefixConcat(SummaryFolder, sanitized, "_", videoId.value, ".txt");
    bucket.PutObject(SummaryFolder + fileName, content);
    key := Some(SummaryFolder + fileName);
  }

  /** The body of the item loop of the upload flow. */
  method UploadItem(bucket: Bucket, item: Record, show: Value -> string) returns (aborted: bool)
    modifies bucket
    ensures UploadState(bucket.objects, aborted) == UploadStep(show, UploadState(old(bucket.objects), false), item)
  {
    aborted := false;
    if UploadGate(item) {
      var title := Attr(item, "title");
      var url := Attr(item, KeyAttribute);
      if !title.Str? || !url.Str? {
        aborted := true;
        return;
      }
      var transcript := TextOf(show, AttrOr(item, "transcript", Str("")));
      var summary := TextOf(show, AttrOr(item, "summary", Str("")));
      var key := UploadToS3WithSummary(bucket, title.s, url.s, transcript, summary);
      aborted := key.None?;
    }
  }

  /** `process_dynamodb_and_upload_with_summary` over the pages of its scan. */
  method UploadWithSummary(bucket: Bucket, pages: seq<seq<Record>>, show: Value -> string) returns (aborted: bool)
    modifies bucket
    ensures var st := UploadRun(show, UploadState(old(bucket.objects), false), Concat(pages));
      bucket.objects == st.objects && aborted == st.aborted
  {
    ghost var s0 := UploadState(bucket.objects, false);
    aborted := false;
    for p := 0 to |pages|
      invariant UploadState(bucket.objects, false) == UploadRun(show, s0, Concat(pages[..p]))
    {
      ConcatSnoc(pages, p);
      var items := pages[p];
      assert Concat(pages[..p]) + items[..0] == Concat(pages[..p]);
      for i := 0 to |items|
        invariant UploadState(bucket.objects, false) == UploadRun(show, s0, Concat(pages[..p]) + items[..i])
      {
        SnocSlice(Concat(pages[..p]), items, i);
        RunSnoc(UploadStepOf(show), s0, Concat(pages[..p]) + items[..i], items[i]);
        aborted := UploadItem(bucket, items[i], show);
        if aborted {
          UploadHalts(show);
          FinishHalted(UploadStepOf(show), (st: UploadState) => st.aborted, s0, pages, p, i);
          return;
        }
      }
      assert items[..|items|] == items;
    }
    assert pages[..|pages|] == pages;
  }

  // ---------------------------------------------------------------------------
  // get_video_urls
  // ---------------------------------------------------------------------------

  /** The view-count loop state: the table and whether an exception ended the
      program. */
  datatype ViewState = ViewState(items: Items, aborted: bool)

  /** One item of the view-count scan: a truthy URL is fetched and its count
      stored; fetching a URL that is not a string raises, and nothing in the
      program catches it. */
  function ViewStep(fetch: string -> string, st: ViewState, r: Record): ViewState
  {
    if st.aborted || !ViewCountFilter(r) || !Truthy(Attr(r, KeyAttribute)) then st
    else if !Attr(r, KeyAttribute).Str? then st.(aborted := true)
    else
      var url := Attr(r, KeyAttribute).s;
      st.(items := Upsert(st.items, url, map["view_count" := Num(ViewCount(fetch(url)))]))
  }

  function ViewStepOf(fetch: string -> string): (ViewState, Record) -> ViewState
  {
    (st: ViewState, r: Record) => ViewStep(fetch, st, r)
  }

  /** The view-count scan over `rs`, from state `st`. */
  function ViewRun(fetch: string -> string, st: ViewState, rs: seq<Record>): ViewState
  {
    Run(ViewStepOf(fetch), st, rs)
  }

  lemma ViewHalts(fetch: string -> string)
    ensures Halts(ViewStepOf(fetch), (st: ViewState) => st.aborted)
  {
  }

  /** `after` keeps every item of `before` and every attribute but
      `view_count`; each `view_count` it holds is the old one or the count
      scraped from that URL's page. */
  ghost predicate ViewCountsOnly(fetch: string -> string, before: Items, after: Items)
  {
    before.Keys <= after.Keys
    && (forall u, a :: u in before && a != "view_count" ==>
         (a in after[u] <==> a in before[u]) && (a in before[u] ==> after[u][a] == before[u][a]))
    && (forall u :: u in after && "view_count" in after[u] ==>
         (u in before && "view_count" in before[u] && after[u]["view_count"] == before[u]["view_count"])
         || after[u]["view_count"] == Num(ViewCount(fetch(u))))
  }

  lemma ViewCountsOnlyStep(fetch: string -> string, st: ViewState, r: Record)
    ensures ViewCountsOnly(fetch, st.items, ViewStep(fetch, st, r).items)
  {
  }

  lemma ViewCountsOnlyTrans(fetch: string -> string, a: Items, b: Items, c: Items)
    requires ViewCountsOnly(fetch, a, b) && ViewCountsOnly(fetch, b, c)
    ensures ViewCountsOnly(fetch, a, c)
  {
  }

  /** The view-count scan keeps every item and changes no attribute but
      `view_count`; every `view_count` it writes is the count scraped from that
      URL's page. */
  lemma {:induction false} ViewRunFrame(fetch: string -> string, st: ViewState, rs: seq<Record>)
    ensures ViewCountsOnly(fetch, st.items, ViewRun(fetch, st, rs).items)
    decreases |rs|
  {
    if rs != [] {
      var front := rs[..|rs| - 1];
      ViewRunFrame(fetch, st, front);
      assert ViewRun(fetch, st, rs) == ViewStep(fetch, ViewRun(fetch, st, front), rs[|rs| - 1]);
      ViewCountsOnlyStep(fetch, ViewRun(fetch, st, front), rs[|rs| - 1]);
      ViewCountsOnlyTrans(fetch, st.items, ViewRun(fetch, st, front).items, ViewRun(fetch, st, rs).items);
    }
  }

  /** The body of the item loop of `get_video_urls`. */
  method ViewItem(table: Table, item: Record, fetch: string -> string) returns (aborted: bool)
    modifies table
    ensures ViewState(table.items, aborted) == ViewStep(fetch, ViewState(old(table.items), false), item)
  {
    aborted := false;
    if ViewCountFilter(item) {
      var videoUrl := Attr(item, KeyAttribute);
      if Truthy(videoUrl) {
        if !videoUrl.Str? {
          aborted := true;
          return;
        }
        var viewCount := ViewCount(fetch(videoUrl.s));
        table.SetViewCount(videoUrl.s, viewCount);
      }
    }
  }

  /** `get_video_urls` over the pages of its scan. */
  method RefreshViewCounts(table: Table, pages: seq<seq<Record>>, fetch: string -> string) returns (aborted: bool)
    modifies table
    ensures var st := ViewRun(fetch, ViewState(old(table.items), false), Concat(pages));
      table.items == st.items && aborted == st.aborted
  {
    ghost var s0 := ViewState(table.items, false);
    aborted := false;
    for p := 0 to |pages|
      invariant ViewState(table.items, false) == ViewRun(fetch, s0, Concat(pages[..p]))
    {
      ConcatSnoc(pages, p);
      var items := pages[p];
      assert Concat(pages[..p]) + items[..0] == Concat(pages[..p]);
      for i := 0 to |items|
        invariant ViewState(table.items, false) == ViewRun(fetch, s0, Concat(pages[..p]) + items[..i])
      {
        SnocSlice(Concat(pages[..p]), items, i);
        RunSnoc(ViewStepOf(fetch), s0, Concat(pages[..p]) + items[..i], items[i]);
        aborted := ViewItem(table, items[i], fetch);
        if aborted {
          ViewHalts(fetch);
          FinishHalted(ViewStepOf(fetch), (st: ViewState) => st.aborted, s0, pages, p, i);
          return;
        }
      }
      assert items[..|items|] == items;
    }
    assert pages[..|pages|] == pages;
  }
}
