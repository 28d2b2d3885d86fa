/**
 * Reply handling in `invoke_bedrock_model` (youtube_ai_assistant.py:475-529)
 * and the update-expression builder of `generate_summary`
 * (youtube_ai_assistant.py:703-717).
 *
 * The model endpoint is a parameter `oracle(prompt, attempt)` that either
 * returns the reply's text or fails with an exception message; `json.loads`
 * is a parameter `parse`. Sleeping is recorded, not performed: each backoff
 * keeps the bounds of the randomised delay as integers.
 */
module Enrichment {
  import opened Wrappers
  import opened Text
  import opened Values

  // ---------------------------------------------------------------------------
  // Cleaning
  // ---------------------------------------------------------------------------

  /** The letters of the escapes `\n`, `\t`, `\r`, `\b`, `\f`. */
  predicate EscapeLetter(c: char) { c == 'n' || c == 't' || c == 'r' || c == 'b' || c == 'f' }

  /** A backslash at `i` followed by an escape letter. */
  predicate EscapeAt(s: string, i: int)
  {
    0 <= i < |s| - 1 && s[i] == '\\' && EscapeLetter(s[i + 1])
  }

  /** No backslash in `s` is followed by an escape letter. */
  predicate NoEscape(s: string)
  {
    forall i :: 0 <= i < |s| ==> !EscapeAt(s, i)
  }

  /** `re.sub(r'\\[ntrbf]', '', s)`: a left-to-right scan deleting each
      backslash that is followed by an escape letter, together with that letter.
      The text comes back unchanged exactly when it holds no such pair. */
  function RemoveEscapes(s: string): (r: string)
    ensures |r| <= |s|
    ensures r == s <==> NoEscape(s)
    decreases |s|
  {
    if |s| >= 2 && s[0] == '\\' && EscapeLetter(s[1]) then
      assert EscapeAt(s, 0);
      RemoveEscapes(s[2..])
    else if s == [] then []
    else
      NoEscapeTail(s);
      [s[0]] + RemoveEscapes(s[1..])
  }

  /** Past a first character that starts no escape, `s` holds an escape
      exactly when its tail does. */
  lemma NoEscapeTail(s: string)
    requires s != [] && !EscapeAt(s, 0)
    ensures NoEscape(s) <==> NoEscape(s[1..])
  {
    forall i | 0 <= i < |s| - 1
      ensures EscapeAt(s, i + 1) <==> EscapeAt(s[1..], i)
    {
    }
    if NoEscape(s[1..]) {
      forall i | 0 < i < |s|
        ensures !EscapeAt(s, i)
      {
        assert !EscapeAt(s[1..], i - 1);
      }
    }
  }

  /** A backslash and an escape letter at the front are deleted together. */
  lemma RemoveEscapesLeading(c: char, s: string)
    requires EscapeLetter(c)
    ensures RemoveEscapes(['\\', c] + s) == RemoveEscapes(s)
  {
    assert (['\\', c] + s)[2..] == s;
  }

  /** The scan splits at any point not just after a backslash: no escape
      straddles the cut. */
  lemma {:induction false} RemoveEscapesAppend(a: string, b: string)
    requires a == [] || a[|a| - 1] != '\\'
    ensures RemoveEscapes(a + b) == RemoveEscapes(a) + RemoveEscapes(b)
    decreases |a|
  {
    if a == [] {
      assert a + b == b;
    } else if EscapeAt(a, 0) {
      calc {
        RemoveEscapes(a + b);
        == { SkipEscape(a + b); assert (a + b)[2..] == a[2..] + b; }
        RemoveEscapes(a[2..] + b);
        == { RemoveEscapesAppend(a[2..], b); }
        RemoveEscapes(a[2..]) + RemoveEscapes(b);
        == { SkipEscape(a); }
        RemoveEscapes(a) + RemoveEscapes(b);
      }
    } else {
      assert !EscapeAt(a + b, 0) by {
        assert (a + b)[0] == a[0];
        if |a| >= 2 { assert (a + b)[1] == a[1]; }
      }
      calc {
        RemoveEscapes(a + b);
        == { KeepFirst(a + b); assert (a + b)[1..] == a[1..] + b; }
        [a[0]] + RemoveEscapes(a[1..] + b);
        == { RemoveEscapesAppend(a[1..], b); }
        [a[0]] + (RemoveEscapes(a[1..]) + RemoveEscapes(b));
        == { AppendAssoc([a[0]], RemoveEscapes(a[1..]), RemoveEscapes(b)); }
        ([a[0]] + RemoveEscapes(a[1..])) + RemoveEscapes(b);
        == { KeepFirst(a); }
        RemoveEscapes(a) + RemoveEscapes(b);
      }
    }
  }

  lemma SkipEscape(s: string)
    requires EscapeAt(s, 0)
    ensures RemoveEscapes(s) == RemoveEscapes(s[2..])
  {
  }

  lemma KeepFirst(s: string)
    requires s != [] && !EscapeAt(s, 0)
    ensures RemoveEscapes(s) == [s[0]] + RemoveEscapes(s[1..])
  {
  }

  /** One pass is not idempotent: deleting the inner `\n` of `\\nn` joins
      the outer backslash to the last `n`, and a second pass would delete that. */
  lemma RemoveEscapesOnePass()
    ensures RemoveEscapes("\\\\nn") == "\\n"
    ensures RemoveEscapes("\\n") == ""
  {
    var s := "\\\\nn";
    assert s[1..] == "\\nn" && s[1..][2..] == "n";
    assert "\\n"[2..] == "";
  }

  /** A character the escape removal can never delete. */
  predicate Plain(c: char) { c != '\\' && !EscapeLetter(c) }

  /** The plain characters of `s`, in order. */
  function PlainPart(s: string): string
  {
    if s == [] then []
    else if Plain(s[0]) then [s[0]] + PlainPart(s[1..])
    else PlainPart(s[1..])
  }

  /** Escape removal deletes only backslashes and escape letters: the plain
      characters survive, all of them and in order. */
  lemma {:induction false} RemoveEscapesKeepsPlain(s: string)
    ensures PlainPart(RemoveEscapes(s)) == PlainPart(s)
    decreases |s|
  {
    if |s| >= 2 && s[0] == '\\' && EscapeLetter(s[1]) {
      RemoveEscapesKeepsPlain(s[2..]);
      assert s[1..][1..] == s[2..];
    } else if s != [] {
      RemoveEscapesKeepsPlain(s[1..]);
      assert ([s[0]] + RemoveEscapes(s[1..]))[1..] == RemoveEscapes(s[1..]);
    }
  }

  /** Text without backslashes has nothing to remove. */
  lemma {:induction false} RemoveEscapesNoBackslash(s: string)
    requires forall i :: 0 <= i < |s| ==> s[i] != '\\'
    ensures RemoveEscapes(s) == s
    decreases |s|
  {
    if s != [] {
      RemoveEscapesNoBackslash(s[1..]);
    }
  }

  /** The characters 0x00-0x1f and 0x7f. */
  predicate IsControl(c: char) { c as int < 0x20 || c as int == 0x7f }

  /** `re.sub(r'[\x00-\x1f\x7f]', '', s)`. */
  function RemoveControl(s: string): (r: string)
    ensures forall i :: 0 <= i < |r| ==> !IsControl(r[i])
  {
    if s == [] then []
    else if IsControl(s[0]) then RemoveControl(s[1..])
    else [s[0]] + RemoveControl(s[1..])
  }

  /** Control removal works piece by piece, so it keeps order. */
  lemma {:induction false} RemoveControlAppend(a: string, b: string)
    ensures RemoveControl(a + b) == RemoveControl(a) + RemoveControl(b)
    decreases |a|
  {
    if a != [] {
      assert (a + b)[0] == a[0];
      assert (a + b)[1..] == a[1..] + b;
      RemoveControlAppend(a[1..], b);
    } else {
      assert a + b == b;
    }
  }

  /** Control removal changes exactly the strings holding a control character. */
  lemma {:induction false} RemoveControlFixed(s: string)
    ensures RemoveControl(s) == s <==> forall i :: 0 <= i < |s| ==> !IsControl(s[i])
    decreases |s|
  {
    if s != [] {
      RemoveControlFixed(s[1..]);
      if IsControl(s[0]) {
        assert |RemoveControl(s)| <= |s[1..]| by { ControlLength(s[1..]); }
      }
    }
  }

  /** Control removal never lengthens. */
  lemma {:induction false} ControlLength(s: string)
    ensures |RemoveControl(s)| <= |s|
    decreases |s|
  {
    if s != [] {
      ControlLength(s[1..]);
    }
  }

  /** The two substitutions, in the program's order. */
  function CleanReply(text: string): (r: string)
    ensures forall i :: 0 <= i < |r| ==> !IsControl(r[i])
  {
    RemoveControl(RemoveEscapes(text))
  }

  // ---------------------------------------------------------------------------
  // Span extraction
  // ---------------------------------------------------------------------------

  /** The first position at or after `from` holding `c`. */
  function FirstIndex(s: string, c: char, from: nat): (r: Option<nat>)
    ensures r.Some? ==> from <= r.value < |s| && s[r.value] == c
    ensures r.Some? ==> forall k :: from <= k < r.value ==> s[k] != c
    ensures r.None? ==> forall k :: from <= k < |s| ==> s[k] != c
    decreases |s| - from
  {
    if from >= |s| then None
    else if s[from] == c then Some(from)
    else FirstIndex(s, c, from + 1)
  }

  /** The last position below `upto` holding `c`. */
  function LastIndex(s: string, c: char, upto: nat): (r: Option<nat>)
    requires upto <= |s|
    ensures r.Some? ==> r.value < upto && s[r.value] == c
    ensures r.Some? ==> forall k :: r.value < k < upto ==> s[k] != c
    ensures r.None? ==> forall k :: 0 <= k < upto ==> s[k] != c
  {
    if upto == 0 then None
    else if s[upto - 1] == c then Some(upto - 1)
    else LastIndex(s, c, upto - 1)
  }

  /** `re.search(r'\{.*\}', t, re.DOTALL)`: the leftmost start is the first
      `{`, and the greedy body runs to the last `}` after it. */
  function ExtractSpan(t: string): (r: Option<string>)
    ensures r.Some? ==> |r.value| >= 2 && r.value[0] == '{' && r.value[|r.value| - 1] == '}'
  {
    var a := FirstIndex(t, '{', 0);
    var b := LastIndex(t, '}', |t|);
    if a.Some? && b.Some? && a.value < b.value then Some(t[a.value..b.value + 1]) else None
  }

  /** A span is found exactly when some `{` precedes some `}`; it then runs
      from the first `{` to the last `}`. */
  lemma ExtractSpanMeaning(t: string)
    ensures ExtractSpan(t).Some? <==> exists i, j :: 0 <= i < j < |t| && t[i] == '{' && t[j] == '}'
    ensures ExtractSpan(t).Some? ==>
      var i := FirstIndex(t, '{', 0).value;
      var j := LastIndex(t, '}', |t|).value;
      i < j && ExtractSpan(t).value == t[i..j + 1]
      && (forall k :: 0 <= k < i ==> t[k] != '{')
      && (forall k :: j < k < |t| ==> t[k] != '}')
  {
    if ExtractSpan(t).Some? {
      SpanFound(t);
    } else {
      SpanMissing(t);
    }
  }

  lemma SpanFound(t: string)
    requires ExtractSpan(t).Some?
    ensures exists i, j :: 0 <= i < j < |t| && t[i] == '{' && t[j] == '}'
    ensures FirstIndex(t, '{', 0).Some? && LastIndex(t, '}', |t|).Some?
    ensures FirstIndex(t, '{', 0).value < LastIndex(t, '}', |t|).value
    ensures ExtractSpan(t).value == t[FirstIndex(t, '{', 0).value..LastIndex(t, '}', |t|).value + 1]
  {
    var a := FirstIndex(t, '{', 0).value;
    var b := LastIndex(t, '}', |t|).value;
    assert 0 <= a < b < |t| && t[a] == '{' && t[b] == '}';
  }

  lemma SpanMissing(t: string)
    requires ExtractSpan(t).None?
    ensures !exists i, j :: 0 <= i < j < |t| && t[i] == '{' && t[j] == '}'
  {
    var a := FirstIndex(t, '{', 0);
    var b := LastIndex(t, '}', |t|);
    forall i, j | 0 <= i < j < |t| && t[i] == '{'
      ensures t[j] != '}'
    {
      assert a.Some? && a.value <= i;
    }
  }

  // ---------------------------------------------------------------------------
  // Retry loop
  // ---------------------------------------------------------------------------

  /** What the endpoint gives for one call. */
  datatype Reply = Reply(text: string) | Failure(message: string)

  /** What `json.loads` gives. */
  datatype Parsed = Parsed(value: Value) | ParseError(message: string)

  /** The outcome of one pass through the `try` block. */
  datatype Attempt = Succeeded(value: Value) | Raised(message: string)

  const Attempts: nat := 5
  const NoJsonMessage: string := "No valid JSON found in the input text"
  const TooLongMessage: string := "Input is too long for requested model"
  const ThrottleMessage: string := "Too many tokens per min"

  /** One attempt: call, clean, extract, parse. */
  function TryOnce(prompt: string, oracle: (string, nat) -> Reply, parse: string -> Parsed, attempt: nat): Attempt
  {
    match oracle(prompt, attempt)
    case Failure(m) => Raised(m)
    case Reply(text) =>
      match ExtractSpan(CleanReply(text))
      case None => Raised(NoJsonMessage)
      case Some(js) =>
        match parse(js)
        case Parsed(v) => Succeeded(v)
        case ParseError(m) => Raised(m)
  }

  /** The handler sleeps only for these two messages. */
  predicate BacksOff(message: string)
  {
    Contains(message, TooLongMessage) || Contains(message, ThrottleMessage)
  }

  function Pow2(n: nat): (p: nat)
    ensures p >= 1
  {
    if n == 0 then 1 else 2 * Pow2(n - 1)
  }

  /** A recorded sleep: `(2 ** attempt + uniform(0, 1)) * 10` seconds lies in
      `[atLeast, below)`. */
  datatype Backoff = Backoff(attempt: nat, atLeast: nat, below: nat)

  function BackoffFor(attempt: nat): (b: Backoff)
    ensures b.attempt == attempt && b.atLeast == 10 * Pow2(attempt) && b.below == b.atLeast + 10
  {
    Backoff(attempt, 10 * Pow2(attempt), 10 * Pow2(attempt) + 10)
  }

  /** The outcome of every attempt, as a function of the attempt number. */
  function Outcomes(prompt: string, oracle: (string, nat) -> Reply, parse: string -> Parsed): nat -> Attempt
  {
    (a: nat) => TryOnce(prompt, oracle, parse, a)
  }

  /** The `for attempt in range(5)` loop from `attempt` on, with the sleeps so
      far, where `tries(a)` is the outcome of attempt `a`: the first success is
      returned; after five failures the result is `None`. The last component
      counts the calls made. */
  function Retry(tries: nat -> Attempt, attempt: nat, sleeps: seq<Backoff>): (Option<Value>, seq<Backoff>, nat)
    decreases Attempts - attempt
  {
    if attempt >= Attempts then (None, sleeps, attempt)
    else match tries(attempt)
      case Succeeded(v) => (Some(v), sleeps, attempt + 1)
      case Raised(m) =>
        Retry(tries, attempt + 1, if BacksOff(m) then sleeps + [BackoffFor(attempt)] else sleeps)
  }

  /** Whether attempt `b` failed with a message that triggers a sleep. */
  predicate SleepsAfter(tries: nat -> Attempt, b: nat)
  {
    tries(b).Raised? && BacksOff(tries(b).message)
  }

  /** Reference for the sleeps: one backoff for each of the first `n`
      attempts that failed with a throttling or too-long message, in order. */
  function SleepsUpTo(tries: nat -> Attempt, n: nat): seq<Backoff>
  {
    if n == 0 then []
    else if SleepsAfter(tries, n - 1) then SleepsUpTo(tries, n - 1) + [BackoffFor(n - 1)]
    else SleepsUpTo(tries, n - 1)
  }

  /** The retry loop returns the first success, calling at most five times;
      `None` means all five attempts raised; the sleeps are the reference ones. */
  lemma {:induction false} RetryOutcome(tries: nat -> Attempt, attempt: nat, sleeps: seq<Backoff>)
    requires attempt <= Attempts
    requires sleeps == SleepsUpTo(tries, attempt)
    requires forall b :: 0 <= b < attempt ==> tries(b).Raised?
    ensures var (r, s, calls) := Retry(tries, attempt, sleeps);
      attempt <= calls <= Attempts
      && s == SleepsUpTo(tries, calls)
      && (r.Some? ==> calls >= 1 && tries(calls - 1) == Succeeded(r.value))
      && (forall b :: 0 <= b < calls && (r.None? || b < calls - 1) ==> tries(b).Raised?)
      && (r.None? ==> calls == Attempts)
    decreases Attempts - attempt
  {
    if attempt < Attempts {
      var o := tries(attempt);
      if o.Raised? {
        var next := if BacksOff(o.message) then sleeps + [BackoffFor(attempt)] else sleeps;
        assert next == SleepsUpTo(tries, attempt + 1);
        RetryOutcome(tries, attempt + 1, next);
      } else {
        assert SleepsUpTo(tries, attempt + 1) == sleeps;
      }
    }
  }

  /** Each reference sleep follows a failure with a throttling or too-long
      message among the first `n` attempts, and has that attempt's bounds. */
  lemma {:induction false} SleepsSound(tries: nat -> Attempt, n: nat)
    ensures forall k :: 0 <= k < |SleepsUpTo(tries, n)| ==>
      SleepsUpTo(tries, n)[k].attempt < n && SleepsAfter(tries, SleepsUpTo(tries, n)[k].attempt)
      && SleepsUpTo(tries, n)[k] == BackoffFor(SleepsUpTo(tries, n)[k].attempt)
  {
    if n > 0 {
      SleepsSound(tries, n - 1);
      var s0 := SleepsUpTo(tries, n - 1);
      var s := SleepsUpTo(tries, n);
      if SleepsAfter(tries, n - 1) {
        assert s == s0 + [BackoffFor(n - 1)];
        forall k | 0 <= k < |s|
          ensures s[k].attempt < n && SleepsAfter(tries, s[k].attempt) && s[k] == BackoffFor(s[k].attempt)
        {
          if k < |s0| {
            assert s[k] == s0[k];
          }
        }
      } else {
        assert s == s0;
      }
    }
  }

  /** Some sleep in `s` follows attempt `b`. */
  predicate HasSleepFor(s: seq<Backoff>, b: nat)
  {
    exists k :: 0 <= k < |s| && s[k].attempt == b
  }

  /** Every failure with a throttling or too-long message among the first `n`
      attempts has its sleep. */
  lemma {:induction false} SleepsComplete(tries: nat -> Attempt, n: nat)
    ensures forall b: nat :: b < n && SleepsAfter(tries, b) ==> HasSleepFor(SleepsUpTo(tries, n), b)
  {
    if n > 0 {
      SleepsComplete(tries, n - 1);
      var s0 := SleepsUpTo(tries, n - 1);
      var s := SleepsUpTo(tries, n);
      assert s[..|s0|] == s0;
      forall b: nat | b < n && SleepsAfter(tries, b)
        ensures HasSleepFor(s, b)
      {
        if b < n - 1 {
          var k :| 0 <= k < |s0| && s0[k].attempt == b;
          assert s[k] == s0[k];
        } else {
          assert s[|s0|].attempt == b;
        }
      }
    }
  }

  /** The reference sleeps come in attempt order, each delay ending no later
      than the next one's lower bound. */
  lemma {:induction false} SleepsOrdered(tries: nat -> Attempt, n: nat)
    ensures forall i, j :: 0 <= i < j < |SleepsUpTo(tries, n)| ==>
      SleepsUpTo(tries, n)[i].attempt < SleepsUpTo(tries, n)[j].attempt
      && SleepsUpTo(tries, n)[i].below <= SleepsUpTo(tries, n)[j].atLeast
  {
    if n > 0 && SleepsAfter(tries, n - 1) {
      SleepsOrdered(tries, n - 1);
      SleepsSound(tries, n - 1);
      var s0 := SleepsUpTo(tries, n - 1);
      var s := SleepsUpTo(tries, n);
      assert s == s0 + [BackoffFor(n - 1)];
      forall i, j | 0 <= i < j < |s|
        ensures s[i].attempt < s[j].attempt && s[i].below <= s[j].atLeast
      {
        assert s[i] == s0[i] && s0[i].attempt < n - 1 && s0[i] == BackoffFor(s0[i].attempt);
        if j == |s0| {
          BackoffGrows(s[i].attempt, n - 1);
        } else {
          assert s[j] == s0[j];
        }
      }
    } else if n > 0 {
      SleepsOrdered(tries, n - 1);
      assert SleepsUpTo(tries, n) == SleepsUpTo(tries, n - 1);
    }
  }

  /** A later attempt's delay starts no earlier than an earlier one's ends. */
  lemma {:induction false} BackoffGrows(a: nat, b: nat)
    requires a < b
    ensures BackoffFor(a).below <= BackoffFor(b).atLeast
    decreases b - a
  {
    if a + 1 < b {
      BackoffGrows(a, b - 1);
      assert Pow2(b) == 2 * Pow2(b - 1);
    }
  }

  /** `invoke_bedrock_model`: the parsed reply or `None`, the sleeps taken and
      the number of calls made to the endpoint. */
  method InvokeModel(prompt: string, oracle: (string, nat) -> Reply, parse: string -> Parsed)
    returns (result: Option<Value>, sleeps: seq<Backoff>, calls: nat)
    ensures (result, sleeps, calls) == Retry(Outcomes(prompt, oracle, parse), 0, [])
  {
    ghost var tries := Outcomes(prompt, oracle, parse);
    sleeps := [];
    for attempt := 0 to Attempts
      invariant Retry(tries, attempt, sleeps) == Retry(tries, 0, [])
    {
      var outcome := TryOnce(prompt, oracle, parse, attempt);
      assert outcome == tries(attempt);
      match outcome {
        case Succeeded(v) =>
          result, calls := Some(v), attempt + 1;
          return;
        case Raised(m) =>
          if BacksOff(m) {
            sleeps := sleeps + [BackoffFor(attempt)];
          }
      }
    }
    result, calls := None, Attempts;
  }

  /** The loop calls the endpoint at most five times and returns the first
      parsed reply; `None` only when all five attempts raised. */
  lemma InvokeModelOutcome(prompt: string, oracle: (string, nat) -> Reply, parse: string -> Parsed)
    ensures var (r, s, calls) := Retry(Outcomes(prompt, oracle, parse), 0, []);
      1 <= calls <= Attempts
      && (r.Some? ==> TryOnce(prompt, oracle, parse, calls - 1) == Succeeded(r.value)
                      && forall b :: 0 <= b < calls - 1 ==> TryOnce(prompt, oracle, parse, b).Raised?)
      && (r.None? ==> calls == Attempts && forall b :: 0 <= b < Attempts ==> TryOnce(prompt, oracle, parse, b).Raised?)
      && s == SleepsUpTo(Outcomes(prompt, oracle, parse), calls)
  {
    var tries := Outcomes(prompt, oracle, parse);
    RetryOutcome(tries, 0, []);
    var (r, s, calls) := Retry(tries, 0, []);
    forall b | 0 <= b < calls && (r.None? || b < calls - 1) ensures TryOnce(prompt, oracle, parse, b).Raised? {
      assert tries(b).Raised?;
    }
  }

  // ---------------------------------------------------------------------------
  // Update expression
  // ---------------------------------------------------------------------------

  /** The clause the loop appends for one key. */
  function Clause(key: string): string
  {
    key + " = :" + key + ", "
  }

  /** The text after `"set "` once the loop has run over `fields`. */
  function ClausesText(fields: seq<(string, Value)>): string
  {
    if fields == [] then "" else ClausesText(fields[..|fields| - 1]) + Clause(fields[|fields| - 1].0)
  }

  /** The placeholders and their values, later keys overriding earlier ones. */
  function ValuesOf(fields: seq<(string, Value)>): map<string, Value>
  {
    if fields == [] then map[]
    else ValuesOf(fields[..|fields| - 1])[":" + fields[|fields| - 1].0 := fields[|fields| - 1].1]
  }

  predicate StripChar(c: char) { c == ',' || c == ' ' }

  /** `s.rstrip(", ")`: the longest prefix of `s` not ending in `,` or a space. */
  function RStripCommaSpace(s: string): (r: string)
    ensures |r| <= |s| && r == s[..|r|]
    ensures r == [] || !StripChar(r[|r| - 1])
    ensures forall k :: |r| <= k < |s| ==> StripChar(s[k])
  {
    if s != [] && StripChar(s[|s| - 1]) then RStripCommaSpace(s[..|s| - 1]) else s
  }

  /** The `key = :key` assignments, in order. */
  function Assignments(fields: seq<(string, Value)>): (r: seq<string>)
    ensures |r| == |fields|
    ensures forall i :: 0 <= i < |fields| ==> r[i] == fields[i].0 + " = :" + fields[i].0
  {
    if fields == [] then [] else Assignments(fields[..|fields| - 1]) + [fields[|fields| - 1].0 + " = :" + fields[|fields| - 1].0]
  }

  /** The expression and values the loop builds, as a method. */
  method BuildUpdate(fields: seq<(string, Value)>) returns (expression: string, values: map<string, Value>)
    ensures expression == RStripCommaSpace("set " + ClausesText(fields))
    ensures values == ValuesOf(fields)
  {
    expression, values := "set ", map[];
    for i := 0 to |fields|
      invariant expression == "set " + ClausesText(fields[..i])
      invariant values == ValuesOf(fields[..i])
    {
      assert fields[..i + 1][..i] == fields[..i];
      var (key, value) := fields[i];
      expression := expression + key + " = :" + key + ", ";
      values := values[":" + key := value];
    }
    assert fields[..|fields|] == fields;
    expression := RStripCommaSpace(expression);
  }

  /** With no fields the expression degenerates to `"set"`. */
  lemma UpdateOfNothing()
    ensures RStripCommaSpace("set " + ClausesText([])) == "set"
  {
    assert RStripCommaSpace("set ") == RStripCommaSpace("set");
  }

  /** The clauses are the assignments joined by `", "`, plus a trailing `", "`. */
  lemma {:induction false} ClausesAreJoined(fields: seq<(string, Value)>)
    requires fields != []
    ensures ClausesText(fields) == Join(", ", Assignments(fields)) + ", "
    decreases |fields|
  {
    var front := fields[..|fields| - 1];
    var k := fields[|fields| - 1].0;
    if front == [] {
      assert ClausesText(fields) == Clause(k);
    } else {
      ClausesAreJoined(front);
      JoinSnoc(", ", Assignments(front), k + " = :" + k);
      assert Assignments(fields) == Assignments(front) + [k + " = :" + k];
    }
  }

  lemma {:induction false} JoinSnoc(sep: string, parts: seq<string>, x: string)
    requires parts != []
    ensures Join(sep, parts + [x]) == Join(sep, parts) + sep + x
    decreases |parts|
  {
    if |parts| == 1 {
      assert (parts + [x])[1..] == [x];
    } else {
      assert (parts + [x])[1..] == parts[1..] + [x];
      JoinSnoc(sep, parts[1..], x);
    }
  }

  /** Stripping `", "` off a string whose last character is kept gives it back. */
  lemma StripOnePair(body: string)
    requires body != [] && !StripChar(body[|body| - 1])
    ensures RStripCommaSpace(body + ", ") == body
  {
    var s := body + ", ";
    assert s[..|s| - 1] == body + ",";
    assert (body + ",")[..|body|] == body;
  }

  lemma LastOfAppend(p: string, j: string)
    requires j != []
    ensures (p + j)[|p + j| - 1] == j[|j| - 1]
  {
  }

  /** The last character of an assignment is that of its key, or the `:`. */
  lemma AssignmentEnd(k: string)
    requires k == [] || !StripChar(k[|k| - 1])
    ensures var a := k + " = :" + k; !StripChar(a[|a| - 1])
  {
  }

  /** The last character of a join is that of its last part. */
  lemma {:induction false} JoinEnd(sep: string, parts: seq<string>)
    requires parts != [] && parts[|parts| - 1] != []
    ensures var j := Join(sep, parts); j != [] && j[|j| - 1] == parts[|parts| - 1][|parts[|parts| - 1]| - 1]
    decreases |parts|
  {
    if |parts| > 1 {
      JoinEnd(sep, parts[1..]);
    }
  }

  /** When the last key does not end in `,` or a space, the strip removes
      exactly the final `", "` and the expression is
      `set k1 = :k1, ..., kn = :kn`. */
  lemma UpdateExpressionForm(fields: seq<(string, Value)>)
    requires fields != []
    requires var k := fields[|fields| - 1].0; k == [] || !StripChar(k[|k| - 1])
    ensures RStripCommaSpace("set " + ClausesText(fields)) == "set " + Join(", ", Assignments(fields))
  {
    var parts := Assignments(fields);
    var k := fields[|fields| - 1].0;
    var a := k + " = :" + k;
    AssignmentEnd(k);
    assert parts[|parts| - 1] == a;
    JoinEnd(", ", parts);
    var j := Join(", ", parts);
    assert j != [] && j[|j| - 1] == a[|a| - 1];
    ClausesAreJoined(fields);
    StripJoined(j);
  }

  lemma StripJoined(j: string)
    requires j != [] && !StripChar(j[|j| - 1])
    ensures RStripCommaSpace("set " + (j + ", ")) == "set " + j
  {
    AppendAssoc("set ", j, ", ");
    LastOfAppend("set ", j);
    StripOnePair("set " + j);
  }

  /** Each key gets the placeholder `:key`, and there are no other placeholders. */
  lemma {:induction false} ValuesOfKeys(fields: seq<(string, Value)>)
    ensures forall p :: p in ValuesOf(fields) <==> exists i :: 0 <= i < |fields| && p == ":" + fields[i].0
    decreases |fields|
  {
    if fields != [] {
      var front := fields[..|fields| - 1];
      ValuesOfKeys(front);
      forall p ensures p in ValuesOf(fields) <==> exists i :: 0 <= i < |fields| && p == ":" + fields[i].0 {
        if p in ValuesOf(front) {
          var i :| 0 <= i < |front| && p == ":" + front[i].0;
          assert fields[i] == front[i];
        }
        if exists i :: 0 <= i < |fields| && p == ":" + fields[i].0 {
          var i :| 0 <= i < |fields| && p == ":" + fields[i].0;
          if i < |front| {
            assert fields[i] == front[i];
          }
        }
      }
    }
  }

  /** Distinct keys give distinct placeholders. */
  lemma PlaceholderInjective(a: string, b: string)
    requires a != b
    ensures ":" + a != ":" + b
  {
    assert (":" + a)[1..] == a;
    assert (":" + b)[1..] == b;
  }

  /** Each placeholder is bound to the value at its key's last occurrence. */
  lemma {:induction false} ValuesOfLast(fields: seq<(string, Value)>)
    ensures forall i :: 0 <= i < |fields| && (forall j :: i < j < |fields| ==> fields[j].0 != fields[i].0) ==>
              ":" + fields[i].0 in ValuesOf(fields) && ValuesOf(fields)[":" + fields[i].0] == fields[i].1
    decreases |fields|
  {
    if fields != [] {
      var front := fields[..|fields| - 1];
      var last := fields[|fields| - 1];
      ValuesOfLast(front);
      forall i | 0 <= i < |fields| && (forall j :: i < j < |fields| ==> fields[j].0 != fields[i].0)
        ensures ":" + fields[i].0 in ValuesOf(fields) && ValuesOf(fields)[":" + fields[i].0] == fields[i].1
      {
        if i < |front| {
          assert fields[i] == front[i];
          PlaceholderInjective(last.0, fields[i].0);
          forall j | i < j < |front| ensures front[j].0 != front[i].0 {
            assert front[j] == fields[j];
          }
        }
      }
    }
  }
}
