/**
 * `load_spanish_nt`: the Reina-Valera 1960 JSON, a list of books each with
 * a list of chapters, each a list of verse texts; chapters and verses are
 * numbered from 1 in list order.
 */
module SpanishCorpus {
  import opened Wrappers
  import opened Text
  import opened Books
  import opened GreekCorpus

  /** A JSON verse: a string, or null. */
  type VerseJson = Option<string>

  /** A JSON book: `chapters` is `None` when the key is missing. */
  datatype BookJson = BookJson(chapters: Option<seq<seq<VerseJson>>>)

  /** `book_data.get('chapters', [])`. */
  function ChaptersOf(b: BookJson): seq<seq<VerseJson>> {
    if b.chapters.Some? then b.chapters.value else []
  }

  /** `verse_text.strip() if verse_text else ""`. */
  function CleanVerse(t: VerseJson): string {
    if t.None? || t.value == "" then "" else Strip(t.value)
  }

  /** The JSON index of each book, in the order of `BookNames` (39 is Mateo, 65 Apocalipsis). */
  const SpanishBooks: seq<(int, string)> :=
    seq(|BookNames|, k requires 0 <= k < |BookNames| => (39 + k, BookNames[k]))

  /** The `n`-th element, counting from 1. */
  function Nth<T>(s: seq<T>, n: int): T
    requires 1 <= n <= |s|
  {
    s[n - 1]
  }

  function SpanishChapter(verses: seq<VerseJson>): Chapter {
    map v | 1 <= v <= |verses| :: CleanVerse(Nth(verses, v))
  }

  function SpanishBook(chapters: seq<seq<VerseJson>>): Book {
    map c | 1 <= c <= |chapters| :: SpanishChapter(Nth(chapters, c))
  }

  /** The books of `table` whose index is inside the JSON list. */
  function SpanishNT(bible: seq<BookJson>, table: seq<(int, string)>): map<string, Book> {
    if table == [] then map[]
    else
      var nt := SpanishNT(bible, table[..|table| - 1]);
      var (index, name) := table[|table| - 1];
      if 0 <= index < |bible| then nt[name := SpanishBook(ChaptersOf(bible[index]))] else nt
  }

  method LoadSpanishNT(bible: seq<BookJson>) returns (nt: map<string, Book>)
    ensures nt == SpanishNT(bible, SpanishBooks)
  {
    nt := LoadSpanishBooks(bible, SpanishBooks);
  }

  /** The loop over the index table: each index inside the JSON list is loaded under its book name. */
  method LoadSpanishBooks(bible: seq<BookJson>, table: seq<(int, string)>) returns (nt: map<string, Book>)
    ensures nt == SpanishNT(bible, table)
  {
    nt := map[];
    for k := 0 to |table|
      invariant nt == SpanishNT(bible, table[..k])
    {
      assert table[..k + 1][..k] == table[..k];
      var (index, name) := table[k];
      if 0 <= index < |bible| {
        var book := LoadSpanishBook(ChaptersOf(bible[index]));
        nt := nt[name := book];
      }
    }
    assert table[..|table|] == table;
  }

  /** Numbers the chapters and their verses from 1, storing each verse cleaned. */
  method LoadSpanishBook(chapters: seq<seq<VerseJson>>) returns (book: Book)
    ensures book == SpanishBook(chapters)
  {
    book := map[];
    for c := 1 to |chapters| + 1
      invariant book == map c' | 1 <= c' < c :: SpanishChapter(Nth(chapters, c'))
    {
      var verses := Nth(chapters, c);
      var chapter: Chapter := map[];
      for v := 1 to |verses| + 1
        invariant chapter == map v' | 1 <= v' < v :: CleanVerse(Nth(verses, v'))
      {
        chapter := chapter[v := CleanVerse(Nth(verses, v))];
      }
      assert chapter == SpanishChapter(verses);
      book := book[c := chapter];
    }
  }

  // ----- what the loaded book holds -----

  /** A stored verse has no surrounding whitespace, and is empty exactly when the JSON text is null or all whitespace. */
  lemma CleanVerseIsStripped(t: VerseJson)
    ensures var r := CleanVerse(t);
      && (r != [] ==> !IsSpace(r[0]) && !IsSpace(r[|r| - 1]))
      && (r == "" <==> t.None? || AllSpace(t.value))
  {
    if t.Some? {
      StripEmptyIffAllSpace(t.value);
    }
  }

  /**
   * Chapter `c` and verse `v` are stored exactly when the JSON has a
   * `c`-th chapter with a `v`-th verse, numbering from 1.
   */
  lemma SpanishBookShape(chapters: seq<seq<VerseJson>>, c: int, v: int)
    ensures c in SpanishBook(chapters) <==> 1 <= c <= |chapters|
    ensures c in SpanishBook(chapters) ==>
      (v in SpanishBook(chapters)[c] <==> 1 <= v <= |chapters[c - 1]|)
    ensures c in SpanishBook(chapters) && v in SpanishBook(chapters)[c] ==>
      SpanishBook(chapters)[c][v] == CleanVerse(chapters[c - 1][v - 1])
  {
  }

  /** A book name that the table does not list is never loaded. */
  lemma {:induction false} SpanishNTAbsent(bible: seq<BookJson>, table: seq<(int, string)>, name: string)
    requires forall k :: 0 <= k < |table| ==> table[k].1 != name
    ensures name !in SpanishNT(bible, table)
  {
    if table != [] {
      var prefix := table[..|table| - 1];
      forall k | 0 <= k < |prefix| ensures prefix[k].1 != name {
        assert prefix[k] == table[k];
      }
      SpanishNTAbsent(bible, prefix, name);
    }
  }

  /** With distinct book names, a book is loaded exactly when its index is inside the list, from that entry. */
  lemma {:induction false} SpanishNTLookup(bible: seq<BookJson>, table: seq<(int, string)>, k: nat)
    requires k < |table| && table[k].0 >= 0
    requires forall i, j :: 0 <= i < j < |table| ==> table[i].1 != table[j].1
    ensures table[k].1 in SpanishNT(bible, table) <==> table[k].0 < |bible|
    ensures table[k].0 < |bible| ==> SpanishNT(bible, table)[table[k].1] == SpanishBook(ChaptersOf(bible[table[k].0]))
  {
    var prefix := table[..|table| - 1];
    if k < |table| - 1 {
      assert prefix[k] == table[k];
      forall i, j | 0 <= i < j < |prefix| ensures prefix[i].1 != prefix[j].1 {
        assert prefix[i] == table[i] && prefix[j] == table[j];
      }
      SpanishNTLookup(bible, prefix, k);
    } else {
      forall i | 0 <= i < |prefix| ensures prefix[i].1 != table[k].1 {
        assert prefix[i] == table[i];
      }
      SpanishNTAbsent(bible, prefix, table[k].1);
    }
  }

  /** The index table pairs JSON indices 39 to 65 with the 27 distinct book names, in order. */
  lemma SpanishBooksTable()
    ensures |SpanishBooks| == |BookNames|
    ensures forall k :: 0 <= k < |SpanishBooks| ==> SpanishBooks[k] == (39 + k, BookNames[k])
    ensures forall i, j :: 0 <= i < j < |SpanishBooks| ==> SpanishBooks[i].1 != SpanishBooks[j].1
  {
    BookNamesDistinct();
  }

  /**
   * The loaded Spanish New Testament: book `k` of `BookNames` is present
   * exactly when index 39 + k is inside the JSON list, numbered from its
   * chapters there; no other book is present.
   */
  lemma SpanishNTBooks(bible: seq<BookJson>, k: nat, name: string)
    requires k < |BookNames|
    ensures BookNames[k] in SpanishNT(bible, SpanishBooks) <==> 39 + k < |bible|
    ensures 39 + k < |bible| ==> SpanishNT(bible, SpanishBooks)[BookNames[k]] == SpanishBook(ChaptersOf(bible[39 + k]))
    ensures name !in BookNames ==> name !in SpanishNT(bible, SpanishBooks)
  {
    SpanishBooksTable();
    SpanishNTLookup(bible, SpanishBooks, k);
    if name !in BookNames {
      forall j | 0 <= j < |SpanishBooks| ensures SpanishBooks[j].1 != name {
        assert SpanishBooks[j].1 == BookNames[j];
      }
      SpanishNTAbsent(bible, SpanishBooks, name);
    }
  }
}
