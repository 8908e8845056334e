/**
 * `load_greek_nt`: reads MorphGNT files, one word per line, and groups
 * consecutive words of the same chapter and verse into verse texts.
 */
module GreekCorpus {
  import opened Wrappers
  import opened Text
  import opened Books

  type Chapter = map<int, string>
  /** Chapter number to verse number to text. */
  type Book = map<int, Chapter>

  /** What one accepted line contributes: its chapter, verse and Greek word. */
  datatype Entry = Entry(chapter: int, verse: int, word: string)

  /**
   * One line: blank lines, lines with fewer than four whitespace-separated
   * fields and lines whose first field is not six digits are skipped. The
   * code is `BBCCVV`; the word is the first token of the fourth field,
   * which is the fourth token of the line.
   */
  function ParseLine(line: string): (r: Option<Entry>)
    ensures r.Some? ==> r.value.word != [] && NoSpace(r.value.word)
    ensures r.Some? ==> 0 <= r.value.chapter < 100 && 0 <= r.value.verse < 100
  {
    var s := Strip(line);
    if s == [] then None
    else
      var parts := Tokens(s);
      if |parts| < 4 then None
      else
        var code := parts[0];
        if |code| != 6 || !AllDigits(code) then None
        else
          TwoDigitsBelow(code[2..4]);
          TwoDigitsBelow(code[4..6]);
          Some(Entry(DigitsValue(code[2..4]), DigitsValue(code[4..6]), parts[3]))
  }

  lemma TwoDigitsBelow(s: string)
    requires |s| == 2 && AllDigits(s)
    ensures DigitsValue(s) < 100
  {
    TwoDigitValue(s);
  }

  lemma TwoDigitValue(s: string)
    requires |s| == 2 && AllDigits(s)
    ensures DigitsValue(s) == 10 * DigitValue(s[0]) + DigitValue(s[1])
  {
    var a := s[..1];
    assert a[..0] == [];
    assert DigitsValue(a) == DigitValue(s[0]);
  }

  // ----- a MorphGNT line, to read back -----

  function TwoDigits(n: nat): (s: string)
    requires n < 100
    ensures |s| == 2 && AllDigits(s)
  {
    [DigitChar(n / 10), DigitChar(n % 10)]
  }

  lemma TwoDigitsValue(n: nat)
    requires n < 100
    ensures DigitsValue(TwoDigits(n)) == n
  {
    TwoDigitValue(TwoDigits(n));
  }

  /** The `BBCCVV` code: six digits, a single word, with the chapter and verse in its middle and last pair. */
  lemma CodeFields(book: nat, chapter: nat, verse: nat)
    requires book < 100 && chapter < 100 && verse < 100
    ensures var code := TwoDigits(book) + TwoDigits(chapter) + TwoDigits(verse);
      && |code| == 6 && AllDigits(code) && code != [] && NoSpace(code)
      && DigitsValue(code[2..4]) == chapter && DigitsValue(code[4..6]) == verse
  {
    var code := TwoDigits(book) + TwoDigits(chapter) + TwoDigits(verse);
    assert code[2..4] == TwoDigits(chapter);
    assert code[4..6] == TwoDigits(verse);
    TwoDigitsValue(chapter);
    TwoDigitsValue(verse);
  }

  /** A file line: the `BBCCVV` code followed by the other fields. */
  function MorphLine(book: nat, chapter: nat, verse: nat, fields: seq<string>): string
    requires book < 100 && chapter < 100 && verse < 100
  {
    JoinWords([TwoDigits(book) + TwoDigits(chapter) + TwoDigits(verse)] + fields)
  }

  /**
   * A well-formed line is accepted, with the chapter and verse its code
   * names and the third field after the code as its word.
   */
  lemma ParseMorphLine(book: nat, chapter: nat, verse: nat, fields: seq<string>)
    requires book < 100 && chapter < 100 && verse < 100
    requires |fields| >= 3 && Words(fields)
    ensures ParseLine(MorphLine(book, chapter, verse, fields)) == Some(Entry(chapter, verse, fields[2]))
  {
    var code := TwoDigits(book) + TwoDigits(chapter) + TwoDigits(verse);
    CodeFields(book, chapter, verse);
    var ws := [code] + fields;
    assert Words(ws) by {
      forall i | 0 <= i < |ws| ensures ws[i] != [] && NoSpace(ws[i]) {
        if i > 0 {
          assert ws[i] == fields[i - 1];
        }
      }
    }
    var line := JoinWords(ws);
    JoinHasNoOuterSpace(ws);
    StripUnchanged(line);
    TokensOfJoin(ws);
    assert Tokens(Strip(line))[3] == fields[2];
  }

  // ----- the per-line state machine -----

  /** A run of words for one (chapter, verse). */
  datatype Group = Group(chapter: int, verse: int, words: seq<string>)

  /** The book filled so far and the verse being collected. */
  datatype LoaderState = LoaderState(book: Book, current: Group)

  const Start := LoaderState(map[], Group(0, 0, []))

  /** Stores a verse text, creating its chapter map on first use. */
  function StoreVerse(book: Book, chapter: int, verse: int, text: string): Book {
    var verses := if chapter in book then book[chapter] else map[];
    book[chapter := verses[verse := text]]
  }

  /** Storing a verse sets that one text and leaves every other chapter and verse as it was. */
  lemma StoreVerseFrame(book: Book, chapter: int, verse: int, text: string)
    ensures var r := StoreVerse(book, chapter, verse, text);
      && chapter in r && verse in r[chapter] && r[chapter][verse] == text
      && (forall c :: c in r <==> c in book || c == chapter)
      && (forall c :: c in book && c != chapter ==> r[c] == book[c])
      && (forall v :: v in r[chapter] <==> v == verse || (chapter in book && v in book[chapter]))
      && (forall v :: chapter in book && v in book[chapter] && v != verse ==> r[chapter][v] == book[chapter][v])
  {
  }

  /** The flush: a group is stored as its words joined by spaces, unless its chapter or verse is 0. */
  function StoreGroup(book: Book, g: Group): Book {
    if g.chapter > 0 && g.verse > 0 then StoreVerse(book, g.chapter, g.verse, Strip(JoinWords(g.words))) else book
  }

  /** An accepted line: a new chapter or verse flushes the current group and starts another. */
  function StepEntry(st: LoaderState, e: Entry): LoaderState {
    if e.chapter != st.current.chapter || e.verse != st.current.verse then
      LoaderState(StoreGroup(st.book, st.current), Group(e.chapter, e.verse, [e.word]))
    else
      LoaderState(st.book, st.current.(words := st.current.words + [e.word]))
  }

  function Step(st: LoaderState, line: string): LoaderState {
    match ParseLine(line)
    case None => st
    case Some(e) => StepEntry(st, e)
  }

  function Run(lines: seq<string>): LoaderState {
    if lines == [] then Start else Step(Run(lines[..|lines| - 1]), lines[|lines| - 1])
  }

  /** One book file: every line, then the final flush. */
  function LoadBook(lines: seq<string>): Book {
    StoreGroup(Run(lines).book, Run(lines).current)
  }

  /** Reads one book file line by line, as the loader does. */
  method LoadGreekBook(lines: seq<string>) returns (book: Book)
    ensures book == LoadBook(lines)
  {
    book := map[];
    var currentChapter, currentVerse := 0, 0;
    var verseWords: seq<string> := [];
    for i := 0 to |lines|
      invariant LoaderState(book, Group(currentChapter, currentVerse, verseWords)) == Run(lines[..i])
    {
      assert lines[..i + 1][..i] == lines[..i];
      var entry := ParseLine(lines[i]);
      if entry.Some? {
        var e := entry.value;
        if e.chapter != currentChapter || e.verse != currentVerse {
          book := FlushVerse(book, currentChapter, currentVerse, verseWords);
          currentChapter, currentVerse := e.chapter, e.verse;
          verseWords := [e.word];
        } else {
          verseWords := verseWords + [e.word];
        }
      }
    }
    assert lines[..|lines|] == lines;
    book := FlushVerse(book, currentChapter, currentVerse, verseWords);
  }

  method FlushVerse(book: Book, chapter: int, verse: int, words: seq<string>) returns (r: Book)
    ensures r == StoreGroup(book, Group(chapter, verse, words))
  {
    r := book;
    if chapter > 0 && verse > 0 {
      if chapter !in r {
        r := r[chapter := map[]];
      }
      ghost var verses := r[chapter];
      r := r[chapter := r[chapter][verse := Strip(JoinWords(words))]];
      UpdateTwice(book, chapter, verses, r[chapter]);
    }
  }

  /** A second update of the same key replaces the first. */
  lemma UpdateTwice<K, V>(m: map<K, V>, k: K, a: V, b: V)
    ensures m[k := a][k := b] == m[k := b]
  {
  }

  // ----- the same book described by groups of consecutive words -----

  /** The accepted lines, in order. */
  function Entries(lines: seq<string>): seq<Entry> {
    if lines == [] then []
    else
      Entries(lines[..|lines| - 1]) +
      match ParseLine(lines[|lines| - 1])
      case None => []
      case Some(e) => [e]
  }

  predicate SameKey(g: Group, h: Group) {
    g.chapter == h.chapter && g.verse == h.verse
  }

  /** Every accepted line contributes a single word. */
  lemma {:induction false} EntriesAreWords(lines: seq<string>)
    ensures WordEntries(Entries(lines))
  {
    if lines != [] {
      var prefix := lines[..|lines| - 1];
      EntriesAreWords(prefix);
      var es := Entries(prefix);
      var r := Entries(lines);
      forall i | 0 <= i < |r| ensures r[i].word != [] && NoSpace(r[i].word) {
        if i < |es| {
          assert r[i] == es[i];
        }
      }
    }
  }

  /** The runs of consecutive entries with the same chapter and verse. */
  function Groups(es: seq<Entry>): seq<Group> {
    if es == [] then []
    else
      var gs := Groups(es[..|es| - 1]);
      var e := es[|es| - 1];
      if gs != [] && gs[|gs| - 1].chapter == e.chapter && gs[|gs| - 1].verse == e.verse then
        var last := gs[|gs| - 1];
        gs[..|gs| - 1] + [last.(words := last.words + [e.word])]
      else
        gs + [Group(e.chapter, e.verse, [e.word])]
  }

  ghost predicate WordEntries(es: seq<Entry>) {
    forall i :: 0 <= i < |es| ==> es[i].word != [] && NoSpace(es[i].word)
  }

  /**
   * The runs are maximal: every group has words, neighbouring groups
   * differ in chapter or verse, and the last group has the last entry's
   * chapter and verse.
   */
  lemma {:induction false} GroupsMaximal(es: seq<Entry>)
    ensures forall i :: 0 <= i < |Groups(es)| ==> Groups(es)[i].words != []
    ensures forall i :: 0 <= i < |Groups(es)| - 1 ==> !SameKey(Groups(es)[i], Groups(es)[i + 1])
    ensures es != [] ==> Groups(es) != [] && SameKey(Groups(es)[|Groups(es)| - 1], Group(es[|es| - 1].chapter, es[|es| - 1].verse, []))
  {
    if es != [] {
      var prefix := es[..|es| - 1];
      var e := es[|es| - 1];
      GroupsMaximal(prefix);
      var gs := Groups(prefix);
      if gs != [] && gs[|gs| - 1].chapter == e.chapter && gs[|gs| - 1].verse == e.verse {
        ExtendRunMaximal(gs, e.word);
      } else {
        StartRunMaximal(gs, Group(e.chapter, e.verse, [e.word]));
      }
    }
  }

  /** Every run has words and neighbouring runs differ in chapter or verse. */
  ghost predicate Maximal(gs: seq<Group>) {
    && (forall i :: 0 <= i < |gs| ==> gs[i].words != [])
    && (forall i :: 0 <= i < |gs| - 1 ==> !SameKey(gs[i], gs[i + 1]))
  }

  lemma ExtendRunMaximal(gs: seq<Group>, w: string)
    requires gs != [] && Maximal(gs)
    ensures Maximal(gs[..|gs| - 1] + [gs[|gs| - 1].(words := gs[|gs| - 1].words + [w])])
  {
    var last := gs[|gs| - 1];
    var r := gs[..|gs| - 1] + [last.(words := last.words + [w])];
    forall i | 0 <= i < |r| ensures r[i].words != [] {
      if i < |gs| - 1 {
        assert r[i] == gs[i];
      }
    }
    forall i | 0 <= i < |r| - 1 ensures !SameKey(r[i], r[i + 1]) {
      assert r[i] == gs[i] && SameKey(r[i + 1], gs[i + 1]);
    }
  }

  lemma StartRunMaximal(gs: seq<Group>, g: Group)
    requires Maximal(gs) && g.words != []
    requires gs != [] ==> !SameKey(gs[|gs| - 1], g)
    ensures Maximal(gs + [g])
  {
    var r := gs + [g];
    forall i | 0 <= i < |r| ensures r[i].words != [] {
      if i < |gs| {
        assert r[i] == gs[i];
      }
    }
    forall i | 0 <= i < |r| - 1 ensures !SameKey(r[i], r[i + 1]) {
      assert r[i] == gs[i];
    }
  }

  /** The words of every group are words of the entries: non-empty and without whitespace. */
  lemma {:induction false} GroupsWords(es: seq<Entry>)
    requires WordEntries(es)
    ensures forall i :: 0 <= i < |Groups(es)| ==> Words(Groups(es)[i].words)
  {
    if es != [] {
      var prefix := es[..|es| - 1];
      var e := es[|es| - 1];
      assert WordEntries(prefix) by {
        forall i | 0 <= i < |prefix| ensures prefix[i].word != [] && NoSpace(prefix[i].word) {
          assert prefix[i] == es[i];
        }
      }
      GroupsWords(prefix);
      var gs := Groups(prefix);
      if gs != [] && gs[|gs| - 1].chapter == e.chapter && gs[|gs| - 1].verse == e.verse {
        var ws := gs[|gs| - 1].words + [e.word];
        assert Words(ws) by {
          forall i | 0 <= i < |ws| ensures ws[i] != [] && NoSpace(ws[i]) {
            if i < |ws| - 1 {
              assert ws[i] == gs[|gs| - 1].words[i];
            }
          }
        }
      }
    }
  }

  /** Entries again, from groups: each word with its group's chapter and verse. */
  function Spread(g: Group): (es: seq<Entry>)
    ensures |es| == |g.words|
  {
    seq(|g.words|, i requires 0 <= i < |g.words| => Entry(g.chapter, g.verse, g.words[i]))
  }

  function Flatten(gs: seq<Group>): seq<Entry> {
    if gs == [] then [] else Flatten(gs[..|gs| - 1]) + Spread(gs[|gs| - 1])
  }

  /** Every group, flushed in order. */
  function StoreAll(gs: seq<Group>): Book {
    if gs == [] then map[] else StoreGroup(StoreAll(gs[..|gs| - 1]), gs[|gs| - 1])
  }

  /** The loader state after the lines, described by the groups seen so far. */
  function StateOf(gs: seq<Group>): LoaderState {
    if gs == [] then Start else LoaderState(StoreAll(gs[..|gs| - 1]), gs[|gs| - 1])
  }

  lemma SpreadGrow(g: Group, w: string)
    ensures Spread(g.(words := g.words + [w])) == Spread(g) + [Entry(g.chapter, g.verse, w)]
  {
  }

  /** Grouping loses and reorders nothing: spreading the groups gives back the entries. */
  lemma {:induction false} GroupsFlatten(es: seq<Entry>)
    ensures Flatten(Groups(es)) == es
  {
    if es != [] {
      var prefix := es[..|es| - 1];
      var e := es[|es| - 1];
      var gs := Groups(prefix);
      var r := Groups(es);
      GroupsFlatten(prefix);
      assert prefix + [e] == es;
      if gs != [] && gs[|gs| - 1].chapter == e.chapter && gs[|gs| - 1].verse == e.verse {
        var last := gs[|gs| - 1];
        var grown := last.(words := last.words + [e.word]);
        assert r == gs[..|gs| - 1] + [grown];
        assert r[..|r| - 1] == gs[..|gs| - 1];
        SpreadGrow(last, e.word);
        calc {
          Flatten(r);
          Flatten(gs[..|gs| - 1]) + Spread(grown);
          Flatten(gs[..|gs| - 1]) + Spread(last) + [e];
          Flatten(gs) + [e];
        }
      } else {
        assert r == gs + [Group(e.chapter, e.verse, [e.word])];
        assert r[..|r| - 1] == gs;
        assert Spread(Group(e.chapter, e.verse, [e.word])) == [e];
      }
    }
  }

  /** One accepted line moves the loader exactly as it moves the groups. */
  lemma StepIsGroups(es: seq<Entry>, e: Entry)
    ensures StepEntry(StateOf(Groups(es)), e) == StateOf(Groups(es + [e]))
  {
    var gs := Groups(es);
    var es' := es + [e];
    assert es'[..|es'| - 1] == es;
    var gs' := Groups(es');
    if gs != [] && gs[|gs| - 1].chapter == e.chapter && gs[|gs| - 1].verse == e.verse {
      assert gs'[..|gs'| - 1] == gs[..|gs| - 1];
    } else {
      assert gs' == gs + [Group(e.chapter, e.verse, [e.word])];
      assert gs'[..|gs'| - 1] == gs;
      if gs != [] {
        assert StoreAll(gs) == StoreGroup(StoreAll(gs[..|gs| - 1]), gs[|gs| - 1]);
      }
    }
  }

  lemma {:induction false} RunIsGroups(lines: seq<string>)
    ensures Run(lines) == StateOf(Groups(Entries(lines)))
  {
    if lines != [] {
      var prefix := lines[..|lines| - 1];
      RunIsGroups(prefix);
      var es := Entries(prefix);
      match ParseLine(lines[|lines| - 1])
      case None => {
        assert Entries(lines) == es;
      }
      case Some(e) => {
        assert Entries(lines) == es + [e];
        StepIsGroups(es, e);
      }
    }
  }

  /** Loading a book stores exactly the groups of consecutive words, in order. */
  lemma LoadBookIsGroups(lines: seq<string>)
    ensures LoadBook(lines) == StoreAll(Groups(Entries(lines)))
  {
    var st := Run(lines);
    var gs := Groups(Entries(lines));
    RunIsGroups(lines);
    assert st == StateOf(gs);
    if gs != [] {
      assert StoreAll(gs) == StoreGroup(StoreAll(gs[..|gs| - 1]), gs[|gs| - 1]);
    }
  }

  // ----- what ends up stored -----

  /** Chapter 0 and verse 0 are never stored, and no chapter is stored without a verse. */
  lemma {:induction false} StoreAllKeys(gs: seq<Group>)
    ensures forall c :: c in StoreAll(gs) ==> c > 0 && StoreAll(gs)[c] != map[]
    ensures forall c, v :: c in StoreAll(gs) && v in StoreAll(gs)[c] ==> v > 0
  {
    if gs != [] {
      StoreAllKeys(gs[..|gs| - 1]);
      StoreGroupKeys(StoreAll(gs[..|gs| - 1]), gs[|gs| - 1]);
    }
  }

  /** Flushing keeps chapter and verse numbers positive and chapters non-empty. */
  lemma StoreGroupKeys(book: Book, g: Group)
    requires forall c :: c in book ==> c > 0 && book[c] != map[]
    requires forall c, v :: c in book && v in book[c] ==> v > 0
    ensures forall c :: c in StoreGroup(book, g) ==> c > 0 && StoreGroup(book, g)[c] != map[]
    ensures forall c, v :: c in StoreGroup(book, g) && v in StoreGroup(book, g)[c] ==> v > 0
  {
    if g.chapter > 0 && g.verse > 0 {
      var r := StoreGroup(book, g);
      StoreVerseFrame(book, g.chapter, g.verse, Strip(JoinWords(g.words)));
      forall c | c in r ensures c > 0 && r[c] != map[] {
        if c == g.chapter {
          assert g.verse in r[c];
        } else {
          assert r[c] == book[c];
        }
      }
      forall c, v | c in r && v in r[c] ensures v > 0 {
        if c != g.chapter {
          assert r[c] == book[c];
        }
      }
    }
  }

  /**
   * The stored text of a chapter and verse is the text of the last group
   * with that chapter and verse: a verse that reappears later overwrites it.
   */
  lemma {:induction false} StoreAllLast(gs: seq<Group>, i: nat)
    requires i < |gs| && gs[i].chapter > 0 && gs[i].verse > 0
    requires forall j :: i < j < |gs| ==> !SameKey(gs[j], gs[i])
    ensures gs[i].chapter in StoreAll(gs) && gs[i].verse in StoreAll(gs)[gs[i].chapter]
    ensures StoreAll(gs)[gs[i].chapter][gs[i].verse] == Strip(JoinWords(gs[i].words))
  {
    var prefix := gs[..|gs| - 1];
    var last := gs[|gs| - 1];
    assert StoreAll(gs) == StoreGroup(StoreAll(prefix), last);
    if i < |gs| - 1 {
      assert prefix[i] == gs[i];
      forall j | i < j < |prefix| ensures !SameKey(prefix[j], prefix[i]) {
        assert prefix[j] == gs[j];
      }
      StoreAllLast(prefix, i);
      assert !SameKey(last, gs[i]);
      StoreGroupKeeps(StoreAll(prefix), last, gs[i].chapter, gs[i].verse);
    } else {
      StoreVerseFrame(StoreAll(prefix), last.chapter, last.verse, Strip(JoinWords(last.words)));
    }
  }

  /** Flushing a group leaves every other chapter and verse as it was. */
  lemma StoreGroupKeeps(book: Book, g: Group, chapter: int, verse: int)
    requires chapter in book && verse in book[chapter]
    requires g.chapter != chapter || g.verse != verse
    ensures chapter in StoreGroup(book, g) && verse in StoreGroup(book, g)[chapter]
    ensures StoreGroup(book, g)[chapter][verse] == book[chapter][verse]
  {
    if g.chapter > 0 && g.verse > 0 {
      var r := StoreVerse(book, g.chapter, g.verse, Strip(JoinWords(g.words)));
      StoreVerseFrame(book, g.chapter, g.verse, Strip(JoinWords(g.words)));
      if g.chapter == chapter {
        assert verse in r[chapter] && r[chapter][verse] == book[chapter][verse];
      } else {
        assert r[chapter] == book[chapter];
      }
    }
  }

  /** A chapter and verse that no group carries is not stored. */
  lemma {:induction false} StoreAllAbsent(gs: seq<Group>, chapter: int, verse: int)
    requires forall j :: 0 <= j < |gs| ==> gs[j].chapter != chapter || gs[j].verse != verse
    ensures !(chapter in StoreAll(gs) && verse in StoreAll(gs)[chapter])
  {
    if gs != [] {
      var prefix := gs[..|gs| - 1];
      forall j | 0 <= j < |prefix| ensures prefix[j].chapter != chapter || prefix[j].verse != verse {
        assert prefix[j] == gs[j];
      }
      StoreAllAbsent(prefix, chapter, verse);
      StoreGroupAbsent(StoreAll(prefix), gs[|gs| - 1], chapter, verse);
    }
  }

  /** Flushing a group adds no chapter or verse other than the group's own. */
  lemma StoreGroupAbsent(book: Book, g: Group, chapter: int, verse: int)
    requires !(chapter in book && verse in book[chapter])
    requires g.chapter != chapter || g.verse != verse
    ensures !(chapter in StoreGroup(book, g) && verse in StoreGroup(book, g)[chapter])
  {
    if g.chapter > 0 && g.verse > 0 {
      StoreVerseFrame(book, g.chapter, g.verse, Strip(JoinWords(g.words)));
    }
  }

  /** The stored text is the group's words joined by single spaces; the final `strip` changes nothing. */
  lemma JoinedText(words: seq<string>)
    requires Words(words)
    ensures Strip(JoinWords(words)) == JoinWords(words)
  {
    JoinHasNoOuterSpace(words);
    StripUnchanged(JoinWords(words));
  }

  /**
   * One verse of a loaded book: if the last run of lines for a chapter and
   * verse (both non-zero) is group `i`, the stored text is that run's
   * words joined by single spaces.
   */
  lemma LoadedVerse(lines: seq<string>, i: nat)
    requires i < |Groups(Entries(lines))|
    requires Groups(Entries(lines))[i].chapter > 0 && Groups(Entries(lines))[i].verse > 0
    requires forall j :: i < j < |Groups(Entries(lines))| ==> !SameKey(Groups(Entries(lines))[j], Groups(Entries(lines))[i])
    ensures var g := Groups(Entries(lines))[i];
      g.chapter in LoadBook(lines) && g.verse in LoadBook(lines)[g.chapter] &&
      LoadBook(lines)[g.chapter][g.verse] == JoinWords(g.words)
  {
    var gs := Groups(Entries(lines));
    LoadBookIsGroups(lines);
    StoreAllLast(gs, i);
    EntriesAreWords(lines);
    GroupsWords(Entries(lines));
    JoinedText(gs[i].words);
  }

  // ----- the whole Greek New Testament -----

  /** The MorphGNT file of each book, in the order of `BookNames`. */
  const GreekFileNames: seq<string> := [
    "61-Mt-morphgnt.txt", "62-Mk-morphgnt.txt", "63-Lk-morphgnt.txt", "64-Jn-morphgnt.txt",
    "65-Ac-morphgnt.txt", "66-Ro-morphgnt.txt", "67-1Co-morphgnt.txt", "68-2Co-morphgnt.txt",
    "69-Ga-morphgnt.txt", "70-Eph-morphgnt.txt", "71-Php-morphgnt.txt", "72-Col-morphgnt.txt",
    "73-1Th-morphgnt.txt", "74-2Th-morphgnt.txt", "75-1Ti-morphgnt.txt", "76-2Ti-morphgnt.txt",
    "77-Tit-morphgnt.txt", "78-Phm-morphgnt.txt", "79-Heb-morphgnt.txt", "80-Jas-morphgnt.txt",
    "81-1Pe-morphgnt.txt", "82-2Pe-morphgnt.txt", "83-1Jn-morphgnt.txt", "84-2Jn-morphgnt.txt",
    "85-3Jn-morphgnt.txt", "86-Jud-morphgnt.txt", "87-Re-morphgnt.txt"
  ]

  /** File name and book name, in the loader's order. */
  const GreekFiles: seq<(string, string)> :=
    seq(|GreekFileNames|, k requires 0 <= k < |GreekFileNames| => (GreekFileNames[k], BookNames[k]))

  /** Books loaded from the files of `table` that exist; `files` maps a file name to its lines. */
  function GreekNT(files: map<string, seq<string>>, table: seq<(string, string)>): map<string, Book> {
    if table == [] then map[]
    else
      var nt := GreekNT(files, table[..|table| - 1]);
      var (file, name) := table[|table| - 1];
      if file in files then nt[name := LoadBook(files[file])] else nt
  }

  method LoadGreekNT(files: map<string, seq<string>>) returns (nt: map<string, Book>)
    ensures nt == GreekNT(files, GreekFiles)
  {
    nt := LoadGreekBooks(files, GreekFiles);
  }

  /** The loop over the file table: each file that exists is parsed and stored under its book name. */
  method LoadGreekBooks(files: map<string, seq<string>>, table: seq<(string, string)>) returns (nt: map<string, Book>)
    ensures nt == GreekNT(files, table)
  {
    nt := map[];
    for k := 0 to |table|
      invariant nt == GreekNT(files, table[..k])
    {
      assert table[..k + 1][..k] == table[..k];
      var (file, name) := table[k];
      if file in files {
        var book := LoadGreekBook(files[file]);
        nt := nt[name := book];
      }
    }
    assert table[..|table|] == table;
  }

  ghost predicate DistinctNames(table: seq<(string, string)>) {
    forall i, j :: 0 <= i < j < |table| ==> table[i].1 != table[j].1
  }

  /** A book name that the table does not list is never loaded. */
  lemma {:induction false} GreekNTAbsent(files: map<string, seq<string>>, table: seq<(string, string)>, name: string)
    requires forall k :: 0 <= k < |table| ==> table[k].1 != name
    ensures name !in GreekNT(files, table)
  {
    if table != [] {
      var prefix := table[..|table| - 1];
      forall k | 0 <= k < |prefix| ensures prefix[k].1 != name {
        assert prefix[k] == table[k];
      }
      GreekNTAbsent(files, prefix, name);
    }
  }

  /** With distinct book names, a book is loaded exactly when its file exists, from that file. */
  lemma {:induction false} GreekNTLookup(files: map<string, seq<string>>, table: seq<(string, string)>, k: nat)
    requires DistinctNames(table) && k < |table|
    ensures table[k].1 in GreekNT(files, table) <==> table[k].0 in files
    ensures table[k].0 in files ==> GreekNT(files, table)[table[k].1] == LoadBook(files[table[k].0])
  {
    var prefix := table[..|table| - 1];
    if k < |table| - 1 {
      assert prefix[k] == table[k];
      assert DistinctNames(prefix) by {
        forall i, j | 0 <= i < j < |prefix| ensures prefix[i].1 != prefix[j].1 {
          assert prefix[i] == table[i] && prefix[j] == table[j];
        }
      }
      GreekNTLookup(files, prefix, k);
    } else {
      forall i | 0 <= i < |prefix| ensures prefix[i].1 != table[k].1 {
        assert prefix[i] == table[i];
      }
      GreekNTAbsent(files, prefix, table[k].1);
    }
  }

  lemma GreekFilesDistinct()
    ensures |GreekFiles| == |BookNames|
    ensures forall k :: 0 <= k < |GreekFiles| ==> GreekFiles[k] == (GreekFileNames[k], BookNames[k])
    ensures DistinctNames(GreekFiles)
  {
    BookNamesDistinct();
  }

  /**
   * The loaded Greek New Testament: book `k` of `BookNames` is present
   * exactly when its MorphGNT file exists, loaded from that file; no
   * other book is present.
   */
  lemma GreekNTBooks(files: map<string, seq<string>>, k: nat, name: string)
    requires k < |BookNames|
    ensures BookNames[k] in GreekNT(files, GreekFiles) <==> GreekFileNames[k] in files
    ensures GreekFileNames[k] in files ==> GreekNT(files, GreekFiles)[BookNames[k]] == LoadBook(files[GreekFileNames[k]])
    ensures name !in BookNames ==> name !in GreekNT(files, GreekFiles)
  {
    GreekFilesDistinct();
    GreekNTLookup(files, GreekFiles, k);
    if name !in BookNames {
      GreekNTAbsent(files, GreekFiles, name);
    }
  }
}
