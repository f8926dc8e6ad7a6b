/** The state machine of `XPathSaxParser`: how each event of the streaming XML tokenizer changes
    the open-tag path, the "inside a fiction book" flag, the title being built and the list of
    results, and how the parse settles. The class in module XPathSax is proved against these
    functions; the lemmas here state what they promise over whole event traces. */
module TitleExtraction {
  import opened Wrappers
  import JsString

  /** One callback of the tokenizer: `onopentag`, `ontext`, `onclosetag`, `onerror`, `onend`. */
  datatype Event =
    | OpenTag(name: string, attributes: map<string, string>)
    | Text(text: string)
    | CloseTag(name: string)
    | Error(message: string)
    | End

  /** `Partial<TitleResult>`: each of `text`, `lang` and `category` may be missing. The results
      list holds such records, since a title is committed by a cast, not a check. */
  datatype PartialTitle = PartialTitle(text: Option<string>, lang: Option<string>, category: Option<string>)

  /** The empty record `{}`. */
  const NoTitle: PartialTitle := PartialTitle(None, None, None)

  /** A record with every field of `TitleResult` present. */
  predicate IsTitleResult(t: PartialTitle) {
    t.text.Some? && t.lang.Some? && t.category.Some?
  }

  /** `currentTitle.text` is truthy: present and not the empty string. */
  predicate HasText(t: PartialTitle) {
    t.text.Some? && t.text.value != ""
  }

  /** The fields `currentPath`, `inFictionBook`, `currentTitle` and `results`. */
  datatype ParserState = ParserState(
    currentPath: seq<string>,
    inFictionBook: bool,
    currentTitle: PartialTitle,
    results: seq<PartialTitle>)

  /** The field initialisers of a new parser. */
  const Initial: ParserState := ParserState([], false, NoTitle, [])

  /** `currentPath[currentPath.length - 1] === name`; an empty path has `undefined` on top. */
  predicate TopIs(path: seq<string>, name: string) {
    |path| > 0 && path[|path| - 1] == name
  }

  /** `currentPath.pop()`, which leaves an empty array as it is. */
  function Pop(path: seq<string>): seq<string> {
    if path == [] then [] else path[..|path| - 1]
  }

  /** `attributes.category === 'fiction'`; a missing attribute is `undefined`. */
  predicate IsFictionBook(attributes: map<string, string>) {
    "category" in attributes && attributes["category"] == "fiction"
  }

  /** `attributes.lang || ''`. */
  function LangOf(attributes: map<string, string>): string {
    if "lang" in attributes then attributes["lang"] else ""
  }

  /** The record `onopentag` starts for a title inside a fiction book. */
  function StartedTitle(attributes: map<string, string>): PartialTitle {
    PartialTitle(None, Some(LangOf(attributes)), Some("fiction"))
  }

  /** `onopentag`: pushes the name and commits nothing; only a `book` changes the flag, and only a
      `title` inside a fiction book starts a new record. */
  function OpenTagStep(s: ParserState, name: string, attributes: map<string, string>): (r: ParserState)
    ensures r.currentPath == s.currentPath + [name] && r.results == s.results
    ensures r.inFictionBook == if name == "book" then IsFictionBook(attributes) else s.inFictionBook
    ensures r.currentTitle == s.currentTitle || (name == "title" && s.inFictionBook && r.currentTitle == StartedTitle(attributes))
  {
    var path := s.currentPath + [name];
    if name == "book" then
      s.(currentPath := path, inFictionBook := IsFictionBook(attributes))
    else if name == "title" && s.inFictionBook then
      s.(currentPath := path, currentTitle := StartedTitle(attributes))
    else
      s.(currentPath := path)
  }

  /** Whether `ontext` stores the trimmed text in the current title. */
  predicate TakesText(s: ParserState, text: string) {
    TopIs(s.currentPath, "title") && s.inFictionBook && JsString.Trim(text) != ""
  }

  /** `ontext`: touches only the text of the current record, and only to store a non-empty trimmed
      text; whitespace-only text changes nothing. */
  function TextStep(s: ParserState, text: string): (r: ParserState)
    ensures r.currentPath == s.currentPath && r.inFictionBook == s.inFictionBook && r.results == s.results
    ensures r.currentTitle.lang == s.currentTitle.lang && r.currentTitle.category == s.currentTitle.category
    ensures r.currentTitle != s.currentTitle ==> HasText(r.currentTitle) && JsString.IsTrimmed(r.currentTitle.text.value)
    ensures JsString.AllWhitespace(text) ==> r == s
  {
    if TakesText(s, text) then
      s.(currentTitle := s.currentTitle.(text := Some(JsString.Trim(text))))
    else
      s
  }

  /** Whether `onclosetag` commits the current title. A closing `book` never does. */
  predicate Commits(s: ParserState, name: string) {
    name == "title" && s.inFictionBook && HasText(s.currentTitle)
  }

  /** `onclosetag`: drops the last path entry (if any), never sets the flag, and either commits
      nothing or appends a record with text and resets the current one to `{}`. */
  function CloseTagStep(s: ParserState, name: string): (r: ParserState)
    ensures r.currentPath <= s.currentPath
    ensures |r.currentPath| == if s.currentPath == [] then 0 else |s.currentPath| - 1
    ensures r.inFictionBook ==> s.inFictionBook
    ensures r.results == s.results
            || (r.results == s.results + [s.currentTitle] && HasText(s.currentTitle) && r.currentTitle == NoTitle)
  {
    var path := Pop(s.currentPath);
    if name == "book" then
      s.(currentPath := path, inFictionBook := false)
    else if Commits(s, name) then
      s.(currentPath := path, results := s.results + [s.currentTitle], currentTitle := NoTitle)
    else
      s.(currentPath := path)
  }

  /** One event through its handler. `onerror` and `onend` only settle the promise. The results
      list only ever grows at its end, by the current title, and only on a committing close. */
  function Step(s: ParserState, e: Event): (r: ParserState)
    ensures r.results == if e.CloseTag? && Commits(s, e.name) then s.results + [s.currentTitle] else s.results
  {
    match e
    case OpenTag(name, attributes) => OpenTagStep(s, name, attributes)
    case Text(text) => TextStep(s, text)
    case CloseTag(name) => CloseTagStep(s, name)
    case Error(_) => s
    case End => s
  }

  /** The state after the handlers have seen `events`, in order. */
  function Run(s: ParserState, events: seq<Event>): (r: ParserState)
    ensures (forall i :: 0 <= i < |events| ==> !events[i].CloseTag?) ==> r.results == s.results
    decreases |events|
  {
    if events == [] then s
    else Step(Run(s, events[..|events| - 1]), events[|events| - 1])
  }

  /** The result of the promise `parse` returns: resolved with the results, rejected with the
      error, or never settled if neither `onend` nor `onerror` fires. */
  datatype Outcome = Fulfilled(titles: seq<PartialTitle>) | Rejected(message: string) | Pending

  predicate Settles(e: Event) {
    e.End? || e.Error?
  }

  /** The first `onend` or `onerror` settles the promise; a promise settles only once. */
  function Settle(s: ParserState, events: seq<Event>): (r: Outcome)
    ensures r.Fulfilled? ==> End in events
    ensures r.Rejected? ==> Error(r.message) in events
    ensures r.Pending? ==> forall e :: e in events ==> !Settles(e)
    decreases |events|
  {
    if events == [] then Pending
    else match events[0]
      case End => Fulfilled(s.results)
      case Error(message) => Rejected(message)
      case _ => Settle(Step(s, events[0]), events[1..])
  }

  // ---------------------------------------------------------------------------------------
  // Traces

  lemma {:induction false} RunAppend(s: ParserState, a: seq<Event>, b: seq<Event>)
    ensures Run(s, a + b) == Run(Run(s, a), b)
    decreases |b|
  {
    if b == [] {
      assert a + b == a;
    } else {
      assert (a + b)[..|a + b| - 1] == a + b[..|b| - 1];
      RunAppend(s, a, b[..|b| - 1]);
    }
  }

  lemma RunCons(s: ParserState, e: Event, rest: seq<Event>)
    ensures Run(s, [e] + rest) == Run(Step(s, e), rest)
  {
    RunAppend(s, [e], rest);
    assert [e][..0] == [];
  }

  /** `results` is append-only: whatever the events, the earlier records keep their places and
      order, and each event adds at most one record. */
  lemma {:induction false} ResultsAppendOnly(s: ParserState, events: seq<Event>)
    ensures |s.results| <= |Run(s, events).results| <= |s.results| + |events|
    ensures Run(s, events).results[..|s.results|] == s.results
    decreases |events|
  {
    if events != [] {
      ResultsAppendOnly(s, events[..|events| - 1]);
    }
  }

  /** Events that neither end nor fail the parse only move the state the settling event
      sees. */
  lemma {:induction false} SettleAfter(s: ParserState, a: seq<Event>, b: seq<Event>)
    requires forall e :: e in a ==> !Settles(e)
    ensures Settle(s, a + b) == Settle(Run(s, a), b)
    decreases |a|
  {
    if a == [] {
      assert a + b == b;
    } else {
      assert a[0] in a;
      assert (a + b)[0] == a[0] && (a + b)[1..] == a[1..] + b;
      assert Settle(s, a + b) == Settle(Step(s, a[0]), a[1..] + b);
      SettleAfter(Step(s, a[0]), a[1..], b);
      RunCons(s, a[0], a[1..]);
      assert [a[0]] + a[1..] == a;
    }
  }

  /** The promise resolves with the results at the first `onend`, or is rejected with the
      message of the first `onerror`, whichever of the two comes first. */
  lemma SettleAtFirst(s: ParserState, events: seq<Event>, i: nat)
    requires i < |events| && Settles(events[i])
    requires forall j :: 0 <= j < i ==> !Settles(events[j])
    ensures Settle(s, events) ==
      if events[i].End? then Fulfilled(Run(s, events[..i]).results) else Rejected(events[i].message)
  {
    var before, after := events[..i], events[i..];
    forall e | e in before
      ensures !Settles(e)
    {
      var j :| 0 <= j < i && before[j] == e;
      assert events[j] == e;
    }
    SettleAfter(s, before, after);
    assert before + after == events;
    assert after[0] == events[i];
  }

  /** Without `onend` and `onerror` the promise never settles. */
  lemma {:induction false} SettleNever(s: ParserState, events: seq<Event>)
    requires forall j :: 0 <= j < |events| ==> !Settles(events[j])
    ensures Settle(s, events) == Pending
    decreases |events|
  {
    if events != [] {
      SettleNever(Step(s, events[0]), events[1..]);
    }
  }

  /** `onclosetag` commits only titles whose text is present, non-empty and trimmed, so every
      record in the results has such a text. */
  ghost predicate TextsTrimmed(s: ParserState) {
    (s.currentTitle.text.Some? ==> JsString.IsTrimmed(s.currentTitle.text.value))
    && forall k :: 0 <= k < |s.results| ==>
         HasText(s.results[k]) && JsString.IsTrimmed(s.results[k].text.value)
  }

  lemma {:induction false} CommittedTextsNonEmpty(events: seq<Event>)
    ensures TextsTrimmed(Run(Initial, events))
    ensures forall k :: 0 <= k < |Run(Initial, events).results| ==>
              HasText(Run(Initial, events).results[k])
    decreases |events|
  {
    if events != [] {
      CommittedTextsNonEmpty(events[..|events| - 1]);
    }
  }

  predicate OpensFictionBook(e: Event) {
    e.OpenTag? && e.name == "book" && IsFictionBook(e.attributes)
  }

  /** A trace that never opens a `book` with `category="fiction"` commits nothing. */
  lemma {:induction false} NoFictionNoResults(s: ParserState, events: seq<Event>)
    requires !s.inFictionBook
    requires forall i :: 0 <= i < |events| ==> !OpensFictionBook(events[i])
    ensures !Run(s, events).inFictionBook
    ensures Run(s, events).results == s.results
    decreases |events|
  {
    if events != [] {
      NoFictionNoResults(s, events[..|events| - 1]);
    }
  }

  // ---------------------------------------------------------------------------------------
  // Nested traces

  /** What a strict tokenizer guarantees of a close tag (it names the element on top of the
      path), and what the bookstore schema guarantees of titles (none opens inside another). */
  predicate Admissible(s: ParserState, e: Event) {
    match e
    case CloseTag(name) => TopIs(s.currentPath, name)
    case OpenTag(name, _) => name == "title" ==> "title" !in s.currentPath
    case _ => true
  }

  predicate NestedTrace(s: ParserState, events: seq<Event>)
    decreases |events|
  {
    events == [] ||
    (NestedTrace(s, events[..|events| - 1])
     && Admissible(Run(s, events[..|events| - 1]), events[|events| - 1]))
  }

  /** A title record as `onopentag` starts it inside a fiction book. */
  predicate IsFictionTitle(t: PartialTitle) {
    t.category == Some("fiction") && t.lang.Some?
  }

  /** The invariant of nested traces: at most one `title` is open; a title with text was
      started inside a fiction book; while the flag is set and a title is open, either the
      current record was started or a `book` opened inside that title (whose close clears the
      flag); every committed record is complete. */
  ghost predicate NestedInvariant(s: ParserState) {
    (forall i, j :: 0 <= i < j < |s.currentPath| && s.currentPath[i] == "title" ==> s.currentPath[j] != "title")
    && (s.currentTitle.text.Some? ==> IsFictionTitle(s.currentTitle))
    && (forall t :: 0 <= t < |s.currentPath| && s.currentPath[t] == "title" && s.inFictionBook ==>
          IsFictionTitle(s.currentTitle) || "book" in s.currentPath[t + 1..])
    && (forall k :: 0 <= k < |s.results| ==> HasText(s.results[k]) && IsFictionTitle(s.results[k]))
  }

  lemma NestedOpen(s: ParserState, name: string, attributes: map<string, string>)
    requires NestedInvariant(s) && Admissible(s, OpenTag(name, attributes))
    ensures NestedInvariant(OpenTagStep(s, name, attributes))
  {
    var r := OpenTagStep(s, name, attributes);
    var p, q := s.currentPath, r.currentPath;
    assert q == p + [name];
    forall t | 0 <= t < |q| && q[t] == "title" && r.inFictionBook
      ensures IsFictionTitle(r.currentTitle) || "book" in q[t + 1..]
    {
      if t < |p| {
        assert q[t + 1..] == p[t + 1..] + [name];
        assert name == "book" || s.inFictionBook;
      }
    }
  }

  lemma NestedText(s: ParserState, text: string)
    requires NestedInvariant(s)
    ensures NestedInvariant(TextStep(s, text))
  {
    if TakesText(s, text) {
      var p := s.currentPath;
      assert p[|p| - 1] == "title" && p[|p|..] == [];
    }
  }

  lemma NestedClose(s: ParserState, name: string)
    requires NestedInvariant(s) && TopIs(s.currentPath, name)
    ensures NestedInvariant(CloseTagStep(s, name))
  {
    var r := CloseTagStep(s, name);
    var p, q := s.currentPath, r.currentPath;
    assert q == p[..|p| - 1];
    forall t | 0 <= t < |q| && q[t] == "title" && r.inFictionBook
      ensures IsFictionTitle(r.currentTitle) || "book" in q[t + 1..]
    {
      assert p[t] == "title";
      assert p[t + 1..] == q[t + 1..] + [name];
    }
  }

  /** Every callback keeps the invariant of nested traces. */
  lemma NestedStep(s: ParserState, e: Event)
    requires NestedInvariant(s) && Admissible(s, e)
    ensures NestedInvariant(Step(s, e))
  {
    match e {
      case OpenTag(name, attributes) => NestedOpen(s, name, attributes);
      case Text(text) => NestedText(s, text);
      case CloseTag(name) => NestedClose(s, name);
      case Error(_) =>
      case End =>
    }
  }

  /** Over a nested trace from a new parser, every record in the results is a complete
      `TitleResult`: non-empty text, a `lang`, and `category` "fiction". */
  lemma {:induction false} NestedRecordsComplete(events: seq<Event>)
    requires NestedTrace(Initial, events)
    ensures NestedInvariant(Run(Initial, events))
    ensures forall k :: 0 <= k < |Run(Initial, events).results| ==>
              IsTitleResult(Run(Initial, events).results[k])
              && HasText(Run(Initial, events).results[k])
              && Run(Initial, events).results[k].category == Some("fiction")
    decreases |events|
  {
    if events != [] {
      var init := events[..|events| - 1];
      NestedRecordsComplete(init);
      NestedStep(Run(Initial, init), events[|events| - 1]);
    }
  }
}
