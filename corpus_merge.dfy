/**
 * `merge_data`: walks the books, chapters and verses of both sources in
 * sorted order and emits one record per location present in both.
 */
module CorpusMerge {
  import opened Wrappers
  import opened Ordering
  import opened VerseStore
  import opened Resolver
  import opened Ingestion
  import opened GreekCorpus

  /** Book name to chapter to verse to text. */
  type Corpus = map<string, Book>

  /** `sorted(...)` of a set of book names. */
  function SortedNames(names: set<string>): (r: seq<string>)
    ensures forall x :: x in r <==> x in names
    ensures Increasing(r, StrLt)
  {
    StrLtIsStrictTotalOrder();
    Sorted(names, StrLt)
  }

  /** `sorted(...)` of a set of chapter or verse numbers. */
  function SortedNumbers(ns: set<int>): (r: seq<int>)
    ensures forall x :: x in r <==> x in ns
    ensures Increasing(r, IntLt)
  {
    IntLtIsStrictTotalOrder();
    Sorted(ns, IntLt)
  }

  /** The records of one chapter, for the verse numbers `vs` in order. */
  function MergeVerses(book: string, chapter: int, spanish: Chapter, greek: Chapter, vs: seq<int>): seq<VerseRecord> {
    if vs == [] then []
    else
      var v := vs[|vs| - 1];
      MergeVerses(book, chapter, spanish, greek, vs[..|vs| - 1]) +
      if v in spanish && v in greek then [VerseRecord(book, chapter, v, greek[v], spanish[v])] else []
  }

  /** The records of one book, for the chapter numbers `cs` in order. */
  function MergeChapters(book: string, spanish: Book, greek: Book, cs: seq<int>): seq<VerseRecord> {
    if cs == [] then []
    else
      var c := cs[|cs| - 1];
      MergeChapters(book, spanish, greek, cs[..|cs| - 1]) +
      if c in spanish && c in greek then
        MergeVerses(book, c, spanish[c], greek[c], SortedNumbers(spanish[c].Keys + greek[c].Keys))
      else []
  }

  /** The records of the books `bs`, in order. */
  function MergeBooks(spanish: Corpus, greek: Corpus, bs: seq<string>): seq<VerseRecord> {
    if bs == [] then []
    else
      var b := bs[|bs| - 1];
      MergeBooks(spanish, greek, bs[..|bs| - 1]) +
      if b in spanish && b in greek then
        MergeChapters(b, spanish[b], greek[b], SortedNumbers(spanish[b].Keys + greek[b].Keys))
      else []
  }

  function Merge(spanish: Corpus, greek: Corpus): seq<VerseRecord> {
    MergeBooks(spanish, greek, SortedNames(spanish.Keys + greek.Keys))
  }

  function VerseRecords(book: string, chapter: int, spanish: Chapter, greek: Chapter, v: int): seq<VerseRecord> {
    if v in spanish && v in greek then [VerseRecord(book, chapter, v, greek[v], spanish[v])] else []
  }

  function ChapterRecords(book: string, spanish: Book, greek: Book, c: int): seq<VerseRecord> {
    if c in spanish && c in greek then
      MergeVerses(book, c, spanish[c], greek[c], SortedNumbers(spanish[c].Keys + greek[c].Keys))
    else []
  }

  function BookRecords(spanish: Corpus, greek: Corpus, b: string): seq<VerseRecord> {
    if b in spanish && b in greek then
      MergeChapters(b, spanish[b], greek[b], SortedNumbers(spanish[b].Keys + greek[b].Keys))
    else []
  }

  lemma VersesStep(book: string, chapter: int, spanish: Chapter, greek: Chapter, vs: seq<int>, k: nat)
    requires k < |vs|
    ensures MergeVerses(book, chapter, spanish, greek, vs[..k + 1]) ==
      MergeVerses(book, chapter, spanish, greek, vs[..k]) + VerseRecords(book, chapter, spanish, greek, vs[k])
  {
    assert vs[..k + 1][..k] == vs[..k];
  }

  lemma ChaptersStep(book: string, spanish: Book, greek: Book, cs: seq<int>, j: nat)
    requires j < |cs|
    ensures MergeChapters(book, spanish, greek, cs[..j + 1]) ==
      MergeChapters(book, spanish, greek, cs[..j]) + ChapterRecords(book, spanish, greek, cs[j])
  {
    assert cs[..j + 1][..j] == cs[..j];
  }

  lemma BooksStep(spanish: Corpus, greek: Corpus, bs: seq<string>, i: nat)
    requires i < |bs|
    ensures MergeBooks(spanish, greek, bs[..i + 1]) == MergeBooks(spanish, greek, bs[..i]) + BookRecords(spanish, greek, bs[i])
  {
    assert bs[..i + 1][..i] == bs[..i];
  }

  /** The three nested loops of `merge_data`, appending to one list. */
  method MergeData(spanish: Corpus, greek: Corpus) returns (merged: seq<VerseRecord>)
    ensures merged == Merge(spanish, greek)
  {
    merged := [];
    var books := SortedNames(spanish.Keys + greek.Keys);
    for i := 0 to |books|
      invariant merged == MergeBooks(spanish, greek, books[..i])
    {
      BooksStep(spanish, greek, books, i);
      var book := books[i];
      if book in spanish && book in greek {
        var spanishBook, greekBook := spanish[book], greek[book];
        var chapters := SortedNumbers(spanishBook.Keys + greekBook.Keys);
        merged := MergeBook(merged, book, spanishBook, greekBook, chapters);
      }
    }
    assert books[..|books|] == books;
  }

  lemma AppendAssoc<T>(a: seq<T>, b: seq<T>, c: seq<T>)
    ensures a + b + c == a + (b + c)
  {
  }

  /** The chapter and verse loops for one book. */
  method MergeBook(merged0: seq<VerseRecord>, book: string, spanishBook: Book, greekBook: Book, chapters: seq<int>)
    returns (merged: seq<VerseRecord>)
    ensures merged == merged0 + MergeChapters(book, spanishBook, greekBook, chapters)
  {
    merged := merged0;
    for j := 0 to |chapters|
      invariant merged == merged0 + MergeChapters(book, spanishBook, greekBook, chapters[..j])
    {
      ChaptersStep(book, spanishBook, greekBook, chapters, j);
      ghost var done := MergeChapters(book, spanishBook, greekBook, chapters[..j]);
      var chapter := chapters[j];
      ghost var added := ChapterRecords(book, spanishBook, greekBook, chapter);
      if chapter in spanishBook && chapter in greekBook {
        var spanishChapter, greekChapter := spanishBook[chapter], greekBook[chapter];
        var verses := SortedNumbers(spanishChapter.Keys + greekChapter.Keys);
        assert added == MergeVerses(book, chapter, spanishChapter, greekChapter, verses);
        merged := MergeChapter(merged, book, chapter, spanishChapter, greekChapter, verses);
        assert merged == merged0 + done + added;
      } else {
        assert added == [];
        assert merged == merged0 + done + added;
      }
      AppendAssoc(merged0, done, added);
    }
    assert chapters[..|chapters|] == chapters;
  }

  /** The verse loop for one chapter. */
  method MergeChapter(merged0: seq<VerseRecord>, book: string, chapter: int, spanishChapter: Chapter, greekChapter: Chapter,
                      verses: seq<int>) returns (merged: seq<VerseRecord>)
    ensures merged == merged0 + MergeVerses(book, chapter, spanishChapter, greekChapter, verses)
  {
    merged := merged0;
    for k := 0 to |verses|
      invariant merged == merged0 + MergeVerses(book, chapter, spanishChapter, greekChapter, verses[..k])
    {
      VersesStep(book, chapter, spanishChapter, greekChapter, verses, k);
      var verse := verses[k];
      if verse in spanishChapter && verse in greekChapter {
        merged := merged + [VerseRecord(book, chapter, verse, greekChapter[verse], spanishChapter[verse])];
      }
    }
    assert verses[..|verses|] == verses;
  }

  // ----- which records are emitted -----

  /** The location is in both sources and the record carries both texts unchanged. */
  predicate InBoth(spanish: Corpus, greek: Corpus, r: VerseRecord) {
    && r.libro in spanish && r.libro in greek
    && r.capitulo in spanish[r.libro] && r.capitulo in greek[r.libro]
    && r.versiculo in spanish[r.libro][r.capitulo] && r.versiculo in greek[r.libro][r.capitulo]
    && r.griego == greek[r.libro][r.capitulo][r.versiculo]
    && r.espanol == spanish[r.libro][r.capitulo][r.versiculo]
  }

  lemma {:induction false} VersesMembers(book: string, chapter: int, spanish: Chapter, greek: Chapter, vs: seq<int>, r: VerseRecord)
    ensures r in MergeVerses(book, chapter, spanish, greek, vs) <==>
      && r.libro == book && r.capitulo == chapter && r.versiculo in vs
      && r.versiculo in spanish && r.versiculo in greek
      && r.griego == greek[r.versiculo] && r.espanol == spanish[r.versiculo]
  {
    if vs != [] {
      VersesMembers(book, chapter, spanish, greek, vs[..|vs| - 1], r);
      assert vs == vs[..|vs| - 1] + [vs[|vs| - 1]];
    }
  }

  lemma {:induction false} ChaptersMembers(book: string, spanish: Book, greek: Book, cs: seq<int>, r: VerseRecord)
    ensures r in MergeChapters(book, spanish, greek, cs) <==>
      && r.libro == book && r.capitulo in cs
      && r.capitulo in spanish && r.capitulo in greek
      && r.versiculo in spanish[r.capitulo] && r.versiculo in greek[r.capitulo]
      && r.griego == greek[r.capitulo][r.versiculo] && r.espanol == spanish[r.capitulo][r.versiculo]
  {
    if cs != [] {
      var c := cs[|cs| - 1];
      ChaptersMembers(book, spanish, greek, cs[..|cs| - 1], r);
      assert cs == cs[..|cs| - 1] + [c];
      if c in spanish && c in greek {
        VersesMembers(book, c, spanish[c], greek[c], SortedNumbers(spanish[c].Keys + greek[c].Keys), r);
      }
    }
  }

  lemma {:induction false} BooksMembers(spanish: Corpus, greek: Corpus, bs: seq<string>, r: VerseRecord)
    ensures r in MergeBooks(spanish, greek, bs) <==> r.libro in bs && InBoth(spanish, greek, r)
  {
    if bs != [] {
      var b := bs[|bs| - 1];
      BooksMembers(spanish, greek, bs[..|bs| - 1], r);
      assert bs == bs[..|bs| - 1] + [b];
      if b in spanish && b in greek {
        ChaptersMembers(b, spanish[b], greek[b], SortedNumbers(spanish[b].Keys + greek[b].Keys), r);
      }
    }
  }

  /**
   * A record is emitted exactly for each location present in both sources
   * (book, chapter and verse), with the Greek and the Spanish text of that
   * location unchanged, empty or not.
   */
  lemma MergeMembers(spanish: Corpus, greek: Corpus, r: VerseRecord)
    ensures r in Merge(spanish, greek) <==> InBoth(spanish, greek, r)
  {
    BooksMembers(spanish, greek, SortedNames(spanish.Keys + greek.Keys), r);
  }

  // ----- in which order -----

  /** Book name in string order, then chapter, then verse. */
  predicate LocationLt(a: Location, b: Location) {
    StrLt(a.libro, b.libro) ||
    (a.libro == b.libro && (a.capitulo < b.capitulo || (a.capitulo == b.capitulo && a.versiculo < b.versiculo)))
  }

  ghost predicate SortedRecords(rs: seq<VerseRecord>) {
    forall i, j :: 0 <= i < j < |rs| ==> LocationLt(RecordLocation(rs[i]), RecordLocation(rs[j]))
  }

  /** An element of an increasing sequence's prefix is below its last element. */
  lemma BelowLast<T>(s: seq<T>, lt: (T, T) -> bool, x: T)
    requires s != [] && Increasing(s, lt) && x in s[..|s| - 1]
    ensures lt(x, s[|s| - 1])
  {
    var t :| 0 <= t < |s| - 1 && s[..|s| - 1][t] == x;
    assert s[t] == x;
  }

  ghost predicate VersesIncreasing(rs: seq<VerseRecord>) {
    forall i, j :: 0 <= i < j < |rs| ==> rs[i].versiculo < rs[j].versiculo
  }

  ghost predicate ChaptersIncreasing(rs: seq<VerseRecord>) {
    forall i, j :: 0 <= i < j < |rs| ==>
      rs[i].capitulo < rs[j].capitulo || (rs[i].capitulo == rs[j].capitulo && rs[i].versiculo < rs[j].versiculo)
  }

  lemma {:induction false} VersesSorted(book: string, chapter: int, spanish: Chapter, greek: Chapter, vs: seq<int>)
    requires Increasing(vs, IntLt)
    ensures VersesIncreasing(MergeVerses(book, chapter, spanish, greek, vs))
  {
    if vs != [] {
      var prefix := vs[..|vs| - 1];
      var v := vs[|vs| - 1];
      var m := MergeVerses(book, chapter, spanish, greek, vs);
      var front := MergeVerses(book, chapter, spanish, greek, prefix);
      var back := VerseRecords(book, chapter, spanish, greek, v);
      assert m == front + back;
      assert Increasing(prefix, IntLt);
      VersesSorted(book, chapter, spanish, greek, prefix);
      forall i, j | 0 <= i < j < |m| ensures m[i].versiculo < m[j].versiculo {
        if j >= |front| {
          assert m[j] == back[j - |front|];
          assert m[j].versiculo == v;
          assert m[i] == front[i];
          VersesMembers(book, chapter, spanish, greek, prefix, m[i]);
          assert m[i].versiculo in prefix;
          BelowLast(vs, IntLt, m[i].versiculo);
          assert IntLt(m[i].versiculo, v);
        } else {
          assert m[i] == front[i] && m[j] == front[j];
          assert front[i].versiculo < front[j].versiculo;
        }
      }
    }
  }

  lemma ChaptersConcat(front: seq<VerseRecord>, back: seq<VerseRecord>, c: int)
    requires ChaptersIncreasing(front) && ChaptersIncreasing(back)
    requires forall i :: 0 <= i < |front| ==> front[i].capitulo < c
    requires forall j :: 0 <= j < |back| ==> back[j].capitulo == c
    ensures ChaptersIncreasing(front + back)
  {
    var m := front + back;
    forall i, j | 0 <= i < j < |m|
      ensures m[i].capitulo < m[j].capitulo || (m[i].capitulo == m[j].capitulo && m[i].versiculo < m[j].versiculo)
    {
      if j < |front| {
        assert m[i] == front[i] && m[j] == front[j];
      } else if i < |front| {
        assert m[i] == front[i] && m[j] == back[j - |front|];
      } else {
        assert m[i] == back[i - |front|] && m[j] == back[j - |front|];
      }
    }
  }

  lemma BooksConcat(front: seq<VerseRecord>, back: seq<VerseRecord>, b: string)
    requires SortedRecords(front) && SortedRecords(back)
    requires forall i :: 0 <= i < |front| ==> StrLt(front[i].libro, b)
    requires forall j :: 0 <= j < |back| ==> back[j].libro == b
    ensures SortedRecords(front + back)
  {
    var m := front + back;
    forall i, j | 0 <= i < j < |m| ensures LocationLt(RecordLocation(m[i]), RecordLocation(m[j])) {
      if j < |front| {
        assert m[i] == front[i] && m[j] == front[j];
      } else if i < |front| {
        assert m[i] == front[i] && m[j] == back[j - |front|];
      } else {
        assert m[i] == back[i - |front|] && m[j] == back[j - |front|];
      }
    }
  }

  /** One chapter's records all carry that chapter, in increasing verse order. */
  lemma ChapterRecordsSorted(book: string, spanish: Book, greek: Book, c: int)
    ensures ChaptersIncreasing(ChapterRecords(book, spanish, greek, c))
    ensures forall j :: 0 <= j < |ChapterRecords(book, spanish, greek, c)| ==>
      ChapterRecords(book, spanish, greek, c)[j].capitulo == c && ChapterRecords(book, spanish, greek, c)[j].libro == book
  {
    var back := ChapterRecords(book, spanish, greek, c);
    if c in spanish && c in greek {
      var vs := SortedNumbers(spanish[c].Keys + greek[c].Keys);
      VersesSorted(book, c, spanish[c], greek[c], vs);
      forall j | 0 <= j < |back| ensures back[j].capitulo == c && back[j].libro == book {
        VersesMembers(book, c, spanish[c], greek[c], vs, back[j]);
      }
    }
  }

  lemma {:induction false} ChaptersSorted(book: string, spanish: Book, greek: Book, cs: seq<int>)
    requires Increasing(cs, IntLt)
    ensures ChaptersIncreasing(MergeChapters(book, spanish, greek, cs))
  {
    if cs != [] {
      var prefix := cs[..|cs| - 1];
      var c := cs[|cs| - 1];
      var front := MergeChapters(book, spanish, greek, prefix);
      var back := ChapterRecords(book, spanish, greek, c);
      assert MergeChapters(book, spanish, greek, cs) == front + back;
      assert Increasing(prefix, IntLt);
      ChaptersSorted(book, spanish, greek, prefix);
      forall i | 0 <= i < |front| ensures front[i].capitulo < c {
        ChaptersMembers(book, spanish, greek, prefix, front[i]);
        BelowLast(cs, IntLt, front[i].capitulo);
      }
      ChapterRecordsSorted(book, spanish, greek, c);
      ChaptersConcat(front, back, c);
    }
  }

  /** One book's records all carry that book, in chapter and verse order. */
  lemma BookRecordsSorted(spanish: Corpus, greek: Corpus, b: string)
    ensures SortedRecords(BookRecords(spanish, greek, b))
    ensures forall j :: 0 <= j < |BookRecords(spanish, greek, b)| ==> BookRecords(spanish, greek, b)[j].libro == b
  {
    var back := BookRecords(spanish, greek, b);
    if b in spanish && b in greek {
      var cs := SortedNumbers(spanish[b].Keys + greek[b].Keys);
      ChaptersSorted(b, spanish[b], greek[b], cs);
      forall j | 0 <= j < |back| ensures back[j].libro == b {
        ChaptersMembers(b, spanish[b], greek[b], cs, back[j]);
      }
    }
  }

  lemma {:induction false} BooksSorted(spanish: Corpus, greek: Corpus, bs: seq<string>)
    requires Increasing(bs, StrLt)
    ensures SortedRecords(MergeBooks(spanish, greek, bs))
  {
    if bs != [] {
      var prefix := bs[..|bs| - 1];
      var b := bs[|bs| - 1];
      var front := MergeBooks(spanish, greek, prefix);
      var back := BookRecords(spanish, greek, b);
      assert MergeBooks(spanish, greek, bs) == front + back;
      assert Increasing(prefix, StrLt);
      BooksSorted(spanish, greek, prefix);
      forall i | 0 <= i < |front| ensures StrLt(front[i].libro, b) {
        BooksMembers(spanish, greek, prefix, front[i]);
        BelowLast(bs, StrLt, front[i].libro);
      }
      BookRecordsSorted(spanish, greek, b);
      BooksConcat(front, back, b);
    }
  }

  /** Records come sorted by book name in string order, then chapter, then verse. */
  lemma MergeSorted(spanish: Corpus, greek: Corpus)
    ensures SortedRecords(Merge(spanish, greek))
  {
    BooksSorted(spanish, greek, SortedNames(spanish.Keys + greek.Keys));
  }

  /** Each location is emitted at most once. */
  lemma MergeDistinct(spanish: Corpus, greek: Corpus)
    ensures DistinctLocations(Merge(spanish, greek))
  {
    var m := Merge(spanish, greek);
    MergeSorted(spanish, greek);
    forall i, j | 0 <= i < j < |m| ensures RecordLocation(m[i]) != RecordLocation(m[j]) {
      StrLtIrreflexive(m[i].libro);
    }
  }

  /**
   * From the two sources to a lookup: after ingesting the merged records
   * into an empty collection, `search_verse` of any merged location
   * returns that location's two texts, unless one of them is empty.
   */
  lemma MergeThenIngestThenResolve(spanish: Corpus, greek: Corpus, backend: Backend, r: VerseRecord)
    requires InBoth(spanish, greek, r)
    ensures Resolve(Ingest([], Merge(spanish, greek)), backend, RecordLocation(r)) ==
      if backend.lookupFails then None
      else if r.griego != "" && r.espanol != "" then Some(PairAt(RecordLocation(r), r.griego, r.espanol))
      else None
  {
    var m := Merge(spanish, greek);
    MergeMembers(spanish, greek, r);
    MergeDistinct(spanish, greek);
    var k :| 0 <= k < |m| && m[k] == r;
    IngestThenResolve(m, backend, k);
  }
}
