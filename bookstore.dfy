/** Documents shaped like the `bookstore` fixture: a root holding flat `book` elements, each with
    a `title`, an `author` and a `price`. Each is written as the trace of callbacks a strict
    tokenizer emits for it, with whitespace-only text between tags not reported and the text of
    each element as written. The tokenizer's `trim` option reports that text trimmed, or not at
    all when it is blank; `TrimmedLeaf` shows that this leaves the same state. */
module Bookstore {
  import opened Wrappers
  import JsString
  import opened TitleExtraction

  /** One `book` element of such a document. */
  datatype BookEntry = BookEntry(
    category: string, lang: string, title: string,
    author: string, priceAttributes: map<string, string>, price: string)

  /** An element holding only text, such as `<author>J.K. Rowling</author>`, with its text as
      written. The tokenizer's `trim` option changes what `ontext` receives but not the state it
      leaves (`TrimmedLeaf`). */
  function Leaf(name: string, attributes: map<string, string>, raw: string): seq<Event> {
    [OpenTag(name, attributes), Text(raw), CloseTag(name)]
  }

  /** The text callbacks a tokenizer with `trim` makes for the text of an element: the trimmed
      text, or none when that is empty (whitespace only, or no text at all). */
  function Reported(raw: string): seq<Event> {
    var t := JsString.Trim(raw);
    if t == "" then [] else [Text(t)]
  }

  function BookEvents(b: BookEntry): seq<Event> {
    [OpenTag("book", map["category" := b.category])]
    + Leaf("title", map["lang" := b.lang], b.title)
    + Leaf("author", map[], b.author)
    + Leaf("price", b.priceAttributes, b.price)
    + [CloseTag("book")]
  }

  /** The callbacks for the books, in document order. */
  function Books(books: seq<BookEntry>): seq<Event>
    decreases |books|
  {
    if books == [] then [] else Books(books[..|books| - 1]) + BookEvents(books[|books| - 1])
  }

  /** The record a book contributes: its trimmed title, when it is a fiction book whose title is
      not blank. */
  function FictionTitle(b: BookEntry): seq<PartialTitle> {
    var t := JsString.Trim(b.title);
    if b.category == "fiction" && t != "" then [PartialTitle(Some(t), Some(b.lang), Some("fiction"))] else []
  }

  /** The reference answer: the titles of the fiction books, in document order. */
  function FictionTitles(books: seq<BookEntry>): seq<PartialTitle>
    decreases |books|
  {
    if books == [] then [] else FictionTitles(books[..|books| - 1]) + FictionTitle(books[|books| - 1])
  }

  lemma FictionTitlesLast(books: seq<BookEntry>)
    requires books != []
    ensures FictionTitles(books) == FictionTitles(books[..|books| - 1]) + FictionTitle(books[|books| - 1])
  {
  }

  lemma RunOne(s: ParserState, e: Event)
    ensures Run(s, [e]) == Step(s, e)
  {
    assert [e][..0] == [];
  }

  /** The reported text reaches the state exactly as the raw text would: the handler trims again
      and ignores blank text. */
  lemma RunReported(s: ParserState, raw: string)
    ensures Run(s, Reported(raw)) == TextStep(s, raw)
  {
    var t := JsString.Trim(raw);
    if t != "" {
      RunOne(s, Text(t));
      JsString.TrimIdempotent(raw);
    }
  }

  lemma RunLeaf(s: ParserState, name: string, attributes: map<string, string>, raw: string)
    ensures Run(s, Leaf(name, attributes, raw)) ==
      CloseTagStep(TextStep(OpenTagStep(s, name, attributes), raw), name)
  {
    var leaf := Leaf(name, attributes, raw);
    RunOne(s, leaf[0]);
    assert leaf[..2][..1] == [leaf[0]];
    assert Run(s, leaf[..2]) == Step(Run(s, [leaf[0]]), leaf[1]);
    assert leaf[..2] == leaf[..|leaf| - 1];
  }

  /** The element as a tokenizer with `trim` reports it leaves the same state as the element
      with its text as written. */
  lemma TrimmedLeaf(s: ParserState, name: string, attributes: map<string, string>, raw: string)
    ensures Run(s, [OpenTag(name, attributes)] + Reported(raw) + [CloseTag(name)]) == Run(s, Leaf(name, attributes, raw))
  {
    var open, text, close := [OpenTag(name, attributes)], Reported(raw), [CloseTag(name)];
    RunOne(s, open[0]);
    RunReported(OpenTagStep(s, name, attributes), raw);
    RunAppend(s, open, text);
    RunOne(Run(s, open + text), close[0]);
    RunAppend(s, open + text, close);
    RunLeaf(s, name, attributes, raw);
  }

  /** An element other than `book` and `title` leaves the state as it found it. */
  lemma OtherLeaf(s: ParserState, name: string, attributes: map<string, string>, raw: string)
    requires name != "title" && name != "book"
    ensures Run(s, Leaf(name, attributes, raw)) == s
  {
    RunLeaf(s, name, attributes, raw);
    assert !TopIs(s.currentPath + [name], "title");
  }

  /** A title inside a fiction book starts a record and commits it, trimmed, unless its text is
      blank, in which case the started record stays; outside one it changes nothing. */
  lemma TitleLeaf(s: ParserState, lang: string, raw: string)
    ensures Run(s, Leaf("title", map["lang" := lang], raw)) ==
      if !s.inFictionBook then s
      else if JsString.Trim(raw) == "" then s.(currentTitle := PartialTitle(None, Some(lang), Some("fiction")))
      else s.(results := s.results + [PartialTitle(Some(JsString.Trim(raw)), Some(lang), Some("fiction"))],
              currentTitle := NoTitle)
  {
    RunLeaf(s, "title", map["lang" := lang], raw);
    assert (s.currentPath + ["title"])[..|s.currentPath|] == s.currentPath;
  }

  /** The record a book leaves behind: none is touched outside a fiction book; a fiction book
      commits its record, or leaves it started when its title is blank. */
  function AfterBook(current: PartialTitle, b: BookEntry): PartialTitle {
    if b.category != "fiction" then current
    else if JsString.Trim(b.title) == "" then PartialTitle(None, Some(b.lang), Some("fiction"))
    else NoTitle
  }

  /** The opening of a `book` and its `title`: the flag follows the category, and a fiction
      book commits its title unless it is blank. */
  lemma BookHead(s: ParserState, b: BookEntry)
    ensures Run(s, [OpenTag("book", map["category" := b.category])] + Leaf("title", map["lang" := b.lang], b.title))
      == s.(currentPath := s.currentPath + ["book"], inFictionBook := b.category == "fiction",
            results := s.results + FictionTitle(b), currentTitle := AfterBook(s.currentTitle, b))
  {
    var open := [OpenTag("book", map["category" := b.category])];
    RunOne(s, open[0]);
    var s1 := Step(s, open[0]);
    assert s1.currentPath == s.currentPath + ["book"];
    assert s1.inFictionBook == (b.category == "fiction");
    TitleLeaf(s1, b.lang, b.title);
    RunAppend(s, open, Leaf("title", map["lang" := b.lang], b.title));
  }

  /** The rest of a `book`: its `author` and `price` change nothing, and its close pops the
      path and clears the flag. */
  lemma BookTail(s: ParserState, b: BookEntry)
    requires TopIs(s.currentPath, "book")
    ensures Run(s, Leaf("author", map[], b.author) + Leaf("price", b.priceAttributes, b.price) + [CloseTag("book")])
      == s.(currentPath := s.currentPath[..|s.currentPath| - 1], inFictionBook := false)
  {
    var a, p := Leaf("author", map[], b.author), Leaf("price", b.priceAttributes, b.price);
    OtherLeaf(s, "author", map[], b.author);
    OtherLeaf(s, "price", b.priceAttributes, b.price);
    RunAppend(s, a, p);
    RunOne(s, CloseTag("book"));
    RunAppend(s, a + p, [CloseTag("book")]);
  }

  /** A whole `book` element restores the path and clears the flag; a fiction book with a
      non-blank title commits that title, trimmed, and every other book commits nothing. */
  lemma BookStep(s: ParserState, b: BookEntry)
    ensures var r := Run(s, BookEvents(b));
      r.currentPath == s.currentPath && !r.inFictionBook
      && r.currentTitle == AfterBook(s.currentTitle, b)
      && r.results == s.results + FictionTitle(b)
  {
    var head := [OpenTag("book", map["category" := b.category])] + Leaf("title", map["lang" := b.lang], b.title);
    var tail := Leaf("author", map[], b.author) + Leaf("price", b.priceAttributes, b.price) + [CloseTag("book")];
    assert BookEvents(b) == head + tail;
    BookHead(s, b);
    var h := Run(s, head);
    BookTail(h, b);
    RunAppend(s, head, tail);
    assert (s.currentPath + ["book"])[..|s.currentPath|] == s.currentPath;
  }

  /** The state a whole `book` element leaves, as `BookStep` states it. */
  function AfterBookState(s: ParserState, b: BookEntry): ParserState {
    s.(inFictionBook := false, currentTitle := AfterBook(s.currentTitle, b), results := s.results + FictionTitle(b))
  }

  /** The state after the books, one whole element at a time. */
  function RunBooks(s: ParserState, books: seq<BookEntry>): ParserState
    decreases |books|
  {
    if books == [] then s else AfterBookState(RunBooks(s, books[..|books| - 1]), books[|books| - 1])
  }

  lemma {:induction false} RunBooksIsRun(s: ParserState, books: seq<BookEntry>)
    ensures Run(s, Books(books)) == RunBooks(s, books)
    decreases |books|
  {
    if books != [] {
      var init, b := books[..|books| - 1], books[|books| - 1];
      RunBooksIsRun(s, init);
      BookStep(RunBooks(s, init), b);
      RunAppend(s, Books(init), BookEvents(b));
    }
  }

  lemma {:induction false} RunBooksTitles(s: ParserState, books: seq<BookEntry>)
    ensures RunBooks(s, books).currentPath == s.currentPath
    ensures books != [] ==> !RunBooks(s, books).inFictionBook
    ensures s.currentTitle.text == None ==> RunBooks(s, books).currentTitle.text == None
    ensures RunBooks(s, books).results == s.results + FictionTitles(books)
    decreases |books|
  {
    if books != [] {
      RunBooksTitles(s, books[..|books| - 1]);
      FictionTitlesLast(books);
    }
  }

  /** Over any run of books, whatever the state it starts from, the parser commits exactly the
      fiction titles that are not blank, trimmed and in document order, and ends with the path
      as it was, the flag clear once a book has closed, and no text in the record if there was
      none before. */
  lemma BooksRun(s: ParserState, books: seq<BookEntry>)
    ensures Run(s, Books(books)).currentPath == s.currentPath
    ensures books != [] ==> !Run(s, Books(books)).inFictionBook
    ensures s.currentTitle.text == None ==> Run(s, Books(books)).currentTitle.text == None
    ensures Run(s, Books(books)).results == s.results + FictionTitles(books)
  {
    RunBooksIsRun(s, books);
    RunBooksTitles(s, books);
  }

  /** No callback of a run of books ends or fails the parse. */
  lemma {:induction false} BooksNeverSettle(books: seq<BookEntry>)
    ensures forall e :: e in Books(books) ==> !Settles(e)
    decreases |books|
  {
    if books != [] {
      BooksNeverSettle(books[..|books| - 1]);
    }
  }

  /** The callbacks of a document up to and including the close of its root. */
  function Body(books: seq<BookEntry>): seq<Event> {
    [OpenTag("bookstore", map[])] + Books(books) + [CloseTag("bookstore")]
  }

  /** A whole document: its body, then the end. */
  function Document(books: seq<BookEntry>): seq<Event> {
    Body(books) + [End]
  }

  /** The handlers leave exactly the fiction titles, in document order, in the results. */
  lemma BodyResults(books: seq<BookEntry>)
    ensures Run(Initial, Body(books)).results == FictionTitles(books)
  {
    var open, close, events := [OpenTag("bookstore", map[])], [CloseTag("bookstore")], Books(books);
    var s0 := Step(Initial, open[0]);
    RunOne(Initial, open[0]);
    BooksRun(s0, books);
    var s1 := Run(s0, events);
    RunAppend(Initial, open, events);
    RunOne(s1, close[0]);
    RunAppend(Initial, open + events, close);
    assert s1.results == [] + FictionTitles(books);
  }

  /** Parsing a bookstore document resolves with the fiction titles in document order. */
  lemma DocumentTitles(books: seq<BookEntry>)
    ensures Settle(Initial, Document(books)) == Fulfilled(FictionTitles(books))
  {
    var body := Body(books);
    BooksNeverSettle(books);
    forall e | e in body
      ensures !Settles(e)
    {
      assert e == OpenTag("bookstore", map[]) || e in Books(books) || e == CloseTag("bookstore");
    }
    SettleAfter(Initial, body, [End]);
    BodyResults(books);
  }

  /** The fixture's three books. */
  const Fixture: seq<BookEntry> := [
    BookEntry("fiction", "en", "Harry Potter", "J.K. Rowling", map[], "29.99"),
    BookEntry("cooking", "en", "Everyday Italian", "Giada De Laurentiis", map[], "30.00"),
    BookEntry("fiction", "ru", "Война и мир", "Лев Толстой", map["discount" := "10%"], "25.50")
  ]

  /** Three books shaped like the fixture's: fiction, then not, then fiction, with trimmed
      non-blank titles. */
  lemma ThreeBooks(first: BookEntry, second: BookEntry, third: BookEntry)
    requires first.category == "fiction" && JsString.IsTrimmed(first.title) && first.title != ""
    requires second.category != "fiction"
    requires third.category == "fiction" && JsString.IsTrimmed(third.title) && third.title != ""
    ensures FictionTitles([first, second, third]) ==
      [PartialTitle(Some(first.title), Some(first.lang), Some("fiction")),
       PartialTitle(Some(third.title), Some(third.lang), Some("fiction"))]
  {
    JsString.TrimFixpoint(first.title);
    JsString.TrimFixpoint(third.title);
    var books := [first, second, third];
    assert books[..2][..1][..0] == [] && books[..2][..1] == [first] && books[..2] == [first, second];
    assert FictionTitles([first]) == FictionTitle(first);
    assert FictionTitles(books[..2]) == FictionTitles([first]);
  }

  lemma FixtureFictionTitles()
    ensures FictionTitles(Fixture) ==
      [PartialTitle(Some("Harry Potter"), Some("en"), Some("fiction")),
       PartialTitle(Some("Война и мир"), Some("ru"), Some("fiction"))]
  {
    assert JsString.IsTrimmed(Fixture[0].title) && JsString.IsTrimmed(Fixture[2].title);
    ThreeBooks(Fixture[0], Fixture[1], Fixture[2]);
    assert Fixture == [Fixture[0], Fixture[1], Fixture[2]];
  }

  /** Parsing the fixture resolves with the two fiction titles in document order; the cooking
      title is left out. */
  lemma BookstoreTitles()
    ensures Settle(Initial, Document(Fixture)) ==
      Fulfilled([PartialTitle(Some("Harry Potter"), Some("en"), Some("fiction")),
                 PartialTitle(Some("Война и мир"), Some("ru"), Some("fiction"))])
  {
    FixtureFictionTitles();
    DocumentTitles(Fixture);
  }

  /** A fiction book whose title is blank (whitespace only, or `<title/>`) commits nothing: the
      tokenizer reports no text for it, so the started record never gets one. */
  lemma BlankTitleDocument(b: BookEntry)
    requires b.category == "fiction" && JsString.AllWhitespace(b.title)
    ensures Settle(Initial, Document([b])) == Fulfilled([])
  {
    DocumentTitles([b]);
    assert [b][..0] == [];
  }

  /** Empty input: the tokenizer only reports the end, and the promise resolves with no
      titles. */
  lemma EmptyInput()
    ensures Settle(Initial, [End]) == Fulfilled([])
  {
  }

  /** An unclosed `book`: the tokenizer reports an error before its end, and the promise is
      rejected rather than resolved with what was collected. */
  lemma UnclosedBookRejected(message: string)
    ensures Settle(Initial, [OpenTag("bookstore", map[]), OpenTag("book", map["category" := "fiction"]),
                             Error(message), End]) == Rejected(message)
  {
    var events := [OpenTag("bookstore", map[]), OpenTag("book", map["category" := "fiction"]),
                   Error(message), End];
    SettleAtFirst(Initial, events, 2);
  }

  /** Text under a `title` that is still open after its record was committed is committed in a
      record with neither `lang` nor `category`. */
  lemma OrphanTextCommitted(s: ParserState, text: string)
    requires TopIs(s.currentPath, "title") && s.inFictionBook && s.currentTitle == NoTitle
    requires JsString.IsTrimmed(text) && text != ""
    ensures Step(Step(s, Text(text)), CloseTag("title")).results
            == s.results + [PartialTitle(Some(text), None, None)]
  {
    JsString.TrimFixpoint(text);
  }

  /** The opening of a fiction `book`, a `title` and a `title` inside it. */
  const NestedTitles: seq<Event> := [OpenTag("book", map["category" := "fiction"]),
                                     OpenTag("title", map["lang" := "en"]), OpenTag("title", map["lang" := "en"])]

  lemma NestedTitlesOpen()
    ensures Run(Initial, NestedTitles) ==
      ParserState(["book", "title", "title"], true, PartialTitle(None, Some("en"), Some("fiction")), [])
  {
    var head := NestedTitles;
    RunOne(Initial, head[0]);
    assert head[..2][..1] == [head[0]] && head[..2] == head[..|head| - 1];
    var s1 := Step(Initial, head[0]);
    assert s1 == ParserState(["book"], true, NoTitle, []);
    assert Run(Initial, head[..2]) == Step(s1, head[1]);
  }

  /** Text and a close inside the inner title commit a complete record and reset it to `{}`;
      the outer title stays open. */
  lemma InnerTitleCloses(s: ParserState, inner: string)
    requires s == ParserState(["book", "title", "title"], true, PartialTitle(None, Some("en"), Some("fiction")), [])
    requires JsString.IsTrimmed(inner) && inner != ""
    ensures Run(s, [Text(inner), CloseTag("title")]) ==
      ParserState(["book", "title"], true, NoTitle, [PartialTitle(Some(inner), Some("en"), Some("fiction"))])
  {
    JsString.TrimFixpoint(inner);
    var events := [Text(inner), CloseTag("title")];
    RunOne(s, events[0]);
    assert events[..1] == [events[0]];
  }

  /** Text and a close under the outer title, after the inner one committed, commit a record
      with neither `lang` nor `category`. */
  lemma OuterTitleCloses(s: ParserState, orphan: string)
    requires TopIs(s.currentPath, "title") && s.inFictionBook && s.currentTitle == NoTitle
    requires JsString.IsTrimmed(orphan) && orphan != ""
    ensures Run(s, [Text(orphan), CloseTag("title")]).results == s.results + [PartialTitle(Some(orphan), None, None)]
  {
    var events := [Text(orphan), CloseTag("title")];
    OrphanTextCommitted(s, orphan);
    RunOne(s, events[0]);
    assert events[..1] == [events[0]];
  }

  /** A fiction `book` holding a `title` nested in a `title`: the inner title's text and close,
      then text under the outer title and its close. */
  function TitleInTitle(inner: string, orphan: string): seq<Event> {
    NestedTitles + [Text(inner), CloseTag("title")] + [Text(orphan), CloseTag("title")]
  }

  /** The inner close commits a complete record and resets it to `{}` while the outer title
      stays open, so the text after it is committed by the outer close in a record with neither
      `lang` nor `category`. This is why the completeness of the records needs traces where no
      title opens inside another. */
  lemma NestedTitleCommitsPartial(inner: string, orphan: string)
    requires JsString.IsTrimmed(inner) && inner != ""
    requires JsString.IsTrimmed(orphan) && orphan != ""
    ensures Run(Initial, TitleInTitle(inner, orphan)).results
            == [PartialTitle(Some(inner), Some("en"), Some("fiction")), PartialTitle(Some(orphan), None, None)]
  {
    var first, second := [Text(inner), CloseTag("title")], [Text(orphan), CloseTag("title")];
    NestedTitlesOpen();
    var s := Run(Initial, NestedTitles);
    InnerTitleCloses(s, inner);
    var s2 := Run(s, first);
    OuterTitleCloses(s2, orphan);
    RunAppend(Initial, NestedTitles, first);
    RunAppend(Initial, NestedTitles + first, second);
  }
}
