/** The 27 New Testament books, under the Spanish names both sources are keyed by. */
module Books {
  const BookNames: seq<string> := [
    "Mateo", "Marcos", "Lucas", "Juan", "Hechos", "Romanos", "1 Corintios", "2 Corintios",
    "Gálatas", "Efesios", "Filipenses", "Colosenses", "1 Tesalonicenses", "2 Tesalonicenses",
    "1 Timoteo", "2 Timoteo", "Tito", "Filemón", "Hebreos", "Santiago", "1 Pedro", "2 Pedro",
    "1 Juan", "2 Juan", "3 Juan", "Judas", "Apocalipsis"
  ]

  /**
   * Length and first character, enough to tell the book names apart. It
   * exists only to prove `BookNamesDistinct` by comparing small integers.
   */
  function Tag(s: string): int {
    if s == [] then 0 else |s| * 1000 + s[0] as int
  }

  /** `Tag` of each book name, in order. */
  const BookTags: seq<int> := [
    5077, 6077, 5076, 4074, 6072, 7082, 11049, 11050, 7071, 7069, 10070, 10067, 16049, 16050,
    9049, 9050, 4084, 7070, 7072, 8083, 7049, 7050, 6049, 6050, 6051, 5074, 11065
  ]

  lemma TagsBetween(lo: nat, hi: nat)
    requires lo <= hi <= |BookNames| && hi - lo <= 9
    ensures forall i :: lo <= i < hi ==> Tag(BookNames[i]) == BookTags[i]
  {
  }

  lemma BookTagsDistinct()
    ensures forall i, j :: 0 <= i < j < |BookTags| ==> BookTags[i] != BookTags[j]
  {
  }

  lemma BookNamesDistinct()
    ensures |BookNames| == 27
    ensures forall i, j :: 0 <= i < j < |BookNames| ==> BookNames[i] != BookNames[j]
  {
    TagsBetween(0, 9);
    TagsBetween(9, 18);
    TagsBetween(18, 27);
    BookTagsDistinct();
    forall i, j | 0 <= i < j < |BookNames| ensures BookNames[i] != BookNames[j] {
      assert Tag(BookNames[i]) != Tag(BookNames[j]);
    }
  }
}
