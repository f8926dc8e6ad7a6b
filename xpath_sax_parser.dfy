/** The parser object: its four fields, updated in place by one method per tokenizer callback,
    and `parse`, which feeds a trace of callbacks and reports how the promise settles. */
module XPathSax {
  import opened Wrappers
  import JsString
  import opened TitleExtraction

  class XPathSaxParser {
    var results: seq<PartialTitle>
    var currentPath: seq<string>
    var inFictionBook: bool
    var currentTitle: PartialTitle

    /** The fields as a value of the state machine. */
    function State(): ParserState
      reads this
    {
      ParserState(currentPath, inFictionBook, currentTitle, results)
    }

    constructor ()
      ensures State() == Initial
      ensures results == [] && currentPath == [] && !inFictionBook && currentTitle == NoTitle
    {
      results := [];
      currentPath := [];
      inFictionBook := false;
      currentTitle := NoTitle;
    }

    /** `onopentag`: push the name; a `book` sets the flag from its category, overwriting it;
        a `title` inside a fiction book replaces the current record. */
    method OnOpenTag(name: string, attributes: map<string, string>)
      modifies this
      ensures currentPath == old(currentPath) + [name]
      ensures inFictionBook == if name == "book" then IsFictionBook(attributes) else old(inFictionBook)
      ensures currentTitle ==
        if name == "title" && old(inFictionBook) then
          PartialTitle(None, Some(LangOf(attributes)), Some("fiction"))
        else old(currentTitle)
      ensures results == old(results)
      ensures State() == Step(old(State()), OpenTag(name, attributes))
    {
      currentPath := currentPath + [name];
      if name == "book" {
        inFictionBook := IsFictionBook(attributes);
      } else if name == "title" && inFictionBook {
        currentTitle := StartedTitle(attributes);
      }
    }

    /** `ontext`: inside a title of a fiction book, non-blank text replaces the current
        record's text with its trimmed form (the latest text wins); otherwise nothing
        changes. */
    method OnText(text: string)
      modifies this
      ensures var takes := TopIs(old(currentPath), "title") && old(inFictionBook) && !JsString.AllWhitespace(text);
        currentTitle == if takes then old(currentTitle).(text := Some(JsString.Trim(text))) else old(currentTitle)
      ensures currentPath == old(currentPath) && inFictionBook == old(inFictionBook) && results == old(results)
      ensures State() == Step(old(State()), Text(text))
    {
      var trimmed := JsString.Trim(text);
      assert trimmed != "" <==> !JsString.AllWhitespace(text);
      if TopIs(currentPath, "title") && inFictionBook && trimmed != "" {
        currentTitle := currentTitle.(text := Some(trimmed));
      }
    }

    /** `onclosetag`: pop the path (the name is not compared with the popped one; an empty
        path stays empty); closing a `book` clears the flag; closing a `title` inside a fiction
        book with a non-empty text appends the record and resets it to `{}`. */
    method OnCloseTag(name: string)
      modifies this
      ensures currentPath == if old(currentPath) == [] then [] else old(currentPath)[..|old(currentPath)| - 1]
      ensures inFictionBook == (name != "book" && old(inFictionBook))
      ensures var commits := name == "title" && old(inFictionBook) && HasText(old(currentTitle));
        results == (if commits then old(results) + [old(currentTitle)] else old(results))
        && currentTitle == (if commits then NoTitle else old(currentTitle))
      ensures State() == Step(old(State()), CloseTag(name))
    {
      if currentPath != [] {
        currentPath := currentPath[..|currentPath| - 1];
      }
      if name == "book" {
        inFictionBook := false;
      } else if name == "title" && inFictionBook && HasText(currentTitle) {
        results := results + [currentTitle];
        currentTitle := NoTitle;
      }
    }

    /** `parse`: every callback of the trace reaches its handler; the promise settles at the
        first `onend` (with the results so far) or `onerror` (with its message). */
    method Parse(events: seq<Event>) returns (outcome: Outcome)
      modifies this
      ensures outcome == Settle(old(State()), events)
      ensures State() == Run(old(State()), events)
    {
      ghost var s0 := State();
      outcome := Pending;
      var i := 0;
      while i < |events|
        invariant 0 <= i <= |events|
        invariant State() == Run(s0, events[..i])
        invariant outcome.Pending? ==> Settle(s0, events) == Settle(State(), events[i..])
        invariant !outcome.Pending? ==> outcome == Settle(s0, events)
      {
        assert events[..i + 1][..i] == events[..i];
        match events[i] {
          case OpenTag(name, attributes) => OnOpenTag(name, attributes);
          case Text(text) => OnText(text);
          case CloseTag(name) => OnCloseTag(name);
          case Error(message) =>
            if outcome.Pending? {
              outcome := Rejected(message);
            }
          case End =>
            if outcome.Pending? {
              outcome := Fulfilled(results);
            }
        }
        assert events[i..][1..] == events[i + 1..];
        i := i + 1;
      }
      assert events[..|events|] == events;
    }
  }

  /** Two fresh parsers fed the same trace settle the same way. */
  method ParseTwice(events: seq<Event>) returns (first: Outcome, second: Outcome)
    ensures first == second == Settle(Initial, events)
  {
    var p := new XPathSaxParser();
    first := p.Parse(events);
    var q := new XPathSaxParser();
    second := q.Parse(events);
  }
}
