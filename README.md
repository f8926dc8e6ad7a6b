# XPathSaxParser: a verified model of the fiction-title extractor

The slides' streaming XML example (`slides/serial/snippets/preload.ts`) defines
`XPathSaxParser`. It hands an XML string to a streaming tokenizer (`sax`) and answers
through a promise. Its callbacks keep four fields: the stack of open tag names
(`currentPath`), a flag for "inside a `book` whose `category` is `fiction`"
(`inFictionBook`), the title record being built (`currentTitle`), and the list of
committed records (`results`). The promise resolves with `results` when the tokenizer
ends, or is rejected when it reports an error.

This project models that object in Dafny:

- `wrappers.dfy`: `Option`, for a JavaScript property that may be `undefined`.
- `js_string.dfy` (module `JsString`): `String.prototype.trim`, over the full ECMAScript
  whitespace and line-terminator set. It is specified by what it removes and keeps.
- `title_extraction.dfy` (module `TitleExtraction`): the callbacks as a pure state machine.
  `Step` handles one event. `Run` handles a trace of events. `Settle` gives how the
  promise settles. The lemmas here cover whole traces.
- `xpath_sax_parser.dfy` (module `XPathSax`): the class `XPathSaxParser`. It has the
  source's four fields, one method per callback, and `Parse`. Each method is proved against
  `Step`, `Run` and `Settle`, and its contract also states field by field what it changes.
- `bookstore.dfy` (module `Bookstore`): documents shaped like the `bookstore` fixture, as
  the events a strict tokenizer reports for them, with each element's text as written. Titles
  may be blank or padded with whitespace. With `trim` the tokenizer reports that text trimmed,
  or reports no text at all when it is blank, and `TrimmedLeaf` shows that this leaves the
  same state. It covers the fixture itself and a few small scenarios.

The tokenizer's output is the input here. It is a `seq<Event>` of `OpenTag(name,
attributes)`, `Text(text)`, `CloseTag(name)`, `Error(message)` and `End`. The tag names
are taken exactly as the tokenizer reports them. The source creates the tokenizer in
strict mode, and in strict mode `sax` ignores the `lowercase` option.

Some of the code's behaviour is easy to misread; the model follows the code:

- A close tag pops the path whatever its name. On an empty path the pop does nothing.
- A started title that is never committed is not thrown away when its element closes. It
  stays in `currentTitle` until the next title replaces it.
- `results` holds whatever `currentTitle` was when it was committed, because the commit is
  a cast and not a check. So the records are `PartialTitle` values with optional fields.
  They are complete `TitleResult`s only when the trace is properly nested
  (`NestedRecordsComplete`). `NestedTitleCommitsPartial` and `OrphanTextCommitted` show a
  committed record that has no `lang` and no `category`.
- The text handler trims the text itself, even though `trim: true` means the tokenizer
  already leaves out whitespace-only text.
- After an error the tokenizer goes on reporting events, and the handlers go on changing
  the fields. The promise keeps its first settlement. `Parse` therefore runs every event,
  and its outcome comes from the first `End` or `Error`.

## Model

| member | source | states |
|---|---|---|
| JsString.LeadingWhitespace | slides/serial/snippets/preload.ts:96-97 | counts the whitespace `trim` removes at the start: every code point before the count is whitespace, and the one at the count is not |
| JsString.TrailingWhitespace | slides/serial/snippets/preload.ts:96-97 | counts the whitespace `trim` removes at the end, symmetrically |
| JsString.Trim | slides/serial/snippets/preload.ts:96-97 | `text.trim()` is empty exactly when the text is all whitespace, and it never starts or ends with whitespace |
| JsString.TrimInfix | slides/serial/snippets/preload.ts:96-97 | the trimmed text is a contiguous part of the input with only whitespace before and after it |
| JsString.TrimIdempotent | slides/serial/snippets/preload.ts:96-97 | trimming the stored text again changes nothing |
| JsString.TrimFixpoint | slides/serial/snippets/preload.ts:96-97 | a string trims to itself exactly when neither end is whitespace |
| TitleExtraction.OpenTagStep | slides/serial/snippets/preload.ts:79-91 | `onopentag` pushes the name and commits nothing; only a `book` changes the flag, to whether its category is `fiction`; the record changes only when a `title` opens inside a fiction book, to a started record |
| TitleExtraction.TextStep | slides/serial/snippets/preload.ts:93-99 | `ontext` changes only the text of the current record, only to a non-empty trimmed text, and whitespace-only text changes nothing |
| TitleExtraction.CloseTagStep | slides/serial/snippets/preload.ts:101-110 | `onclosetag` drops the last path entry (an empty path stays empty), never sets the flag, and either commits nothing or appends the record, which has text, and resets it to `{}` |
| TitleExtraction.Step | slides/serial/snippets/preload.ts:79-110 | each callback leaves `results` unchanged, except a close of `title` inside a fiction book with a non-empty text, which appends the current record at the end |
| TitleExtraction.Run | slides/serial/snippets/preload.ts:79-110 | the handlers fed a trace in order; a trace without close tags commits nothing |
| TitleExtraction.Settle | slides/serial/snippets/preload.ts:121-132 | the promise resolves only if `onend` fires, is rejected only with the message of an `onerror` that fires, and stays pending only when neither fires |
| TitleExtraction.ResultsAppendOnly | slides/serial/snippets/preload.ts:101-110 | over any trace, earlier records keep their places and order (document order), and each event adds at most one record |
| TitleExtraction.SettleAtFirst | slides/serial/snippets/preload.ts:121-132 | the promise resolves with the results seen at the first `onend`, or is rejected with the first `onerror`'s message, whichever comes first |
| TitleExtraction.SettleAfter | slides/serial/snippets/preload.ts:121-132 | events that neither end nor fail the parse only change the state that the settling event sees |
| TitleExtraction.SettleNever | slides/serial/snippets/preload.ts:121-132 | a trace with no `onend` and no `onerror` leaves the promise pending |
| TitleExtraction.CommittedTextsNonEmpty | slides/serial/snippets/preload.ts:93-110 | from a new parser, every committed record has a text that is present, non-empty and trimmed |
| TitleExtraction.NoFictionNoResults | slides/serial/snippets/preload.ts:82-85 | a trace that never opens a `book` with `category` `fiction` never sets the flag and commits nothing |
| TitleExtraction.NestedStep | slides/serial/snippets/preload.ts:79-110 | every callback keeps the nesting invariant, provided close tags name the top of the path and no title opens inside a title |
| TitleExtraction.NestedRecordsComplete | slides/serial/snippets/preload.ts:86-89 | over such nested traces from a new parser, every record is a complete `TitleResult` with non-empty text, a `lang` and category `fiction` |
| XPathSax.XPathSaxParser.constructor | slides/serial/snippets/preload.ts:63-67 | a new parser has an empty path and no results, the flag is clear and the current record is `{}` |
| XPathSax.XPathSaxParser.OnOpenTag | slides/serial/snippets/preload.ts:79-91 | pushes the name; a `book` sets the flag to whether its category is `fiction`, overwriting the old value; a `title` inside a fiction book replaces the record with category `fiction`, its `lang` or `""`, and no text; nothing else changes |
| XPathSax.XPathSaxParser.OnText | slides/serial/snippets/preload.ts:93-99 | only the record's text changes, and only when the top of the path is `title`, the flag is set and the text is not all whitespace; it becomes the trimmed text (latest wins) |
| XPathSax.XPathSaxParser.OnCloseTag | slides/serial/snippets/preload.ts:101-110 | drops the last path entry without comparing names (an empty path stays empty); closing `book` clears the flag; closing `title` appends the record and resets it to `{}` exactly when the flag is set and the text is non-empty |
| XPathSax.XPathSaxParser.Parse | slides/serial/snippets/preload.ts:121-132 | every event reaches its handler; the outcome is the first settlement, and the final state is the whole trace run from the old state |
| XPathSax.ParseTwice | slides/serial/snippets/preload.ts:121-132 | two new parsers fed the same trace settle identically |
| Bookstore.RunReported | slides/serial/snippets/preload.ts:93-99 | the tokenizer's `trim` (trimmed text, or no event for blank text) reaches the state exactly as the raw text would, since the handler trims again and ignores blank text |
| Bookstore.TrimmedLeaf | slides/serial/snippets/preload.ts:69-72 | an element as the tokenizer with `trim: true` reports it leaves the same state as the element with its text as written |
| Bookstore.BookStep | slides/serial/snippets/preload.ts:29-43 | from any state, a whole `book` element restores the path and clears the flag; it commits its trimmed title exactly when its category is `fiction` and the title is not blank, and a blank fiction title leaves the started record behind |
| Bookstore.BooksRun | slides/serial/snippets/preload.ts:28-44 | over any run of flat `book` elements, from any state, the parser commits exactly the non-blank fiction titles, trimmed and in document order (the reference `FictionTitles`) |
| Bookstore.BodyResults | slides/serial/snippets/preload.ts:28-44 | from a new parser, a whole bookstore document leaves exactly the non-blank fiction titles in the results |
| Bookstore.DocumentTitles | slides/serial/snippets/preload.ts:28-44 | parsing any bookstore-shaped document, blank titles included, resolves with its non-blank fiction titles in document order |
| Bookstore.BlankTitleDocument | slides/serial/snippets/preload.ts:96-107 | a fiction book whose title is whitespace only or empty contributes no record |
| Bookstore.BookstoreTitles | slides/serial/snippets/preload.ts:28-44 | parsing the fixture resolves with `[{Harry Potter, en, fiction}, {Война и мир, ru, fiction}]`; the cooking title is left out |
| Bookstore.EmptyInput | slides/serial/snippets/preload.ts:123 | a trace that only ends resolves with no titles |
| Bookstore.UnclosedBookRejected | slides/serial/snippets/preload.ts:124 | an error reported before the end rejects the promise, and the results collected so far are not returned |
| Bookstore.OrphanTextCommitted | slides/serial/snippets/preload.ts:93-109 | text under a still-open `title` after its record was committed is committed in a record with neither `lang` nor `category` |
| Bookstore.NestedTitleCommitsPartial | slides/serial/snippets/preload.ts:79-109 | from a new parser, a fiction `book` with a `title` nested in a `title` commits a complete record on the inner close and then `{text}`, with no `lang` and no `category`, on the outer close |

## Left out

- The `sax` tokenizer (`sax.parser`, `write`, `close`, lines 70-73 and 127) is foreign code. Its output is the input trace. The bookstore trace is written out by hand.
- The `parser` field and `setupEventHandlers` wiring are not modelled. The callbacks are plain methods.
- The Promise and the `try`/`catch` in `parse` are reduced to the `Outcome` value (`Fulfilled`, `Rejected`, `Pending`). A `write` that throws is an `Error` event in the trace.
- `Fulfilled` carries a copy of `results` taken at `End`. In the source it carries the array itself, so later pushes show through. Within one `parse` the tokenizer reports nothing after its end, so the two agree there. But `parse` is public and may be called again on the same object: the second call pushes into the same array that the first promise resolved with, so the first caller's array grows. `Parse` models the accumulation (it starts from the object's old state), but the first `Fulfilled` value stays fixed in the model.
- Strings are sequences of Unicode scalar values, where JavaScript strings are sequences of UTF-16 code units, so a lone surrogate cannot be represented. `trim` is unaffected: every code point it removes lies in the Basic Multilingual Plane.
- The console logging of the default `onerror` and `onend` handlers (lines 112-118) is a side effect that `parse` replaces.
- `print_xpath_result` (lines 46-54) works on browser DOM objects (`XPathResult`, `XMLSerializer`) that are not part of this model.
- The fixtures `ivanov`, `Student`, `Lesson` and `pushkin` (lines 3-26) are data with no behaviour.
- `slides/collection/snippets/preload.ts` (`next_print`, `numberGenerator`, and the student, grade and product fixtures) is not part of this model. It formats foreign iterators and builds sample data.
- Aliasing between `currentTitle` and the committed object is not modelled. The source replaces `currentTitle` with a new `{}` right after each push, so no later write reaches a committed record.
