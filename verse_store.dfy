/**
 * The verse collection: documents with a deterministic id, a text and a
 * metadata record, and the reads the resolver issues against it.
 * The collection is the sequence of its documents in insertion order,
 * which is the order in which every `get` returns them.
 */
module VerseStore {
  import opened Wrappers
  import opened Text
  import opened Seqs

  /** The two language roles of a verse; the name is both the `idioma` value and the id suffix. */
  datatype Role = Greek | Spanish

  function RoleName(r: Role): string {
    match r
    case Greek => "griego"
    case Spanish => "espanol"
  }

  /** A verse location: book name, chapter, verse. */
  datatype Location = Location(libro: string, capitulo: int, versiculo: int)

  /** A document's metadata; a field is `None` when the key is absent. */
  datatype Metadata = Metadata(libro: Option<string>, capitulo: Option<int>, versiculo: Option<int>, idioma: Option<string>)

  datatype Document = Document(id: string, text: string, meta: Metadata)

  /** One ingestion record: a location and its Greek and Spanish texts. */
  datatype VerseRecord = VerseRecord(libro: string, capitulo: int, versiculo: int, griego: string, espanol: string)

  function RecordLocation(r: VerseRecord): Location {
    Location(r.libro, r.capitulo, r.versiculo)
  }

  /** The id `{libro}_{capitulo}_{versiculo}_{griego|espanol}` of one side of a verse. */
  function VerseId(loc: Location, role: Role): string {
    loc.libro + "_" + IntToString(loc.capitulo) + "_" + IntToString(loc.versiculo) + "_" + RoleName(role)
  }

  /** The metadata written for one side of a verse. */
  function MetadataFor(loc: Location, role: Role): Metadata {
    Metadata(Some(loc.libro), Some(loc.capitulo), Some(loc.versiculo), Some(RoleName(role)))
  }

  function DocumentFor(loc: Location, role: Role, text: string): Document {
    Document(VerseId(loc, role), text, MetadataFor(loc, role))
  }

  // ----- reading an id back -----

  /** Splits `s` at its last underscore. */
  function SplitLast(s: string): Option<(string, string)> {
    if s == [] then None
    else if s[|s| - 1] == '_' then Some((s[..|s| - 1], ""))
    else
      match SplitLast(s[..|s| - 1])
      case None => None
      case Some((x, y)) => Some((x, y + [s[|s| - 1]]))
  }

  lemma {:induction false} SplitLastOf(x: string, y: string)
    requires '_' !in y
    ensures SplitLast(x + "_" + y) == Some((x, y))
  {
    var s := x + "_" + y;
    if y == [] {
      assert s[..|s| - 1] == x;
    } else {
      var y' := y[..|y| - 1];
      assert '_' !in y' by {
        assert forall i :: 0 <= i < |y'| ==> y'[i] == y[i];
      }
      assert s[..|s| - 1] == x + "_" + y';
      SplitLastOf(x, y');
      assert y' + [y[|y| - 1]] == y;
    }
  }

  function ParseRole(s: string): Option<Role> {
    if s == "griego" then Some(Greek)
    else if s == "espanol" then Some(Spanish)
    else None
  }

  /** Reads the location and the role back from an id, splitting from the right. */
  function ParseVerseId(id: string): Option<(Location, Role)> {
    match SplitLast(id)
    case None => None
    case Some((rest, suffix)) =>
      match SplitLast(rest)
      case None => None
      case Some((rest', verse)) =>
        match SplitLast(rest')
        case None => None
        case Some((libro, chapter)) =>
          match (ParseInt(chapter), ParseInt(verse), ParseRole(suffix))
          case (Some(c), Some(v), Some(r)) => Some((Location(libro, c, v), r))
          case _ => None
  }

  lemma NoUnderscoreInInt(i: int)
    ensures '_' !in IntToString(i)
  {
    var s := IntToString(i);
    assert forall k :: 0 <= k < |s| ==> s[k] != '_';
  }

  /** An id determines the location and the role it was built from. */
  lemma VerseIdRoundTrip(loc: Location, role: Role)
    ensures ParseVerseId(VerseId(loc, role)) == Some((loc, role))
  {
    var c := IntToString(loc.capitulo);
    var v := IntToString(loc.versiculo);
    var r := RoleName(role);
    NoUnderscoreInInt(loc.capitulo);
    NoUnderscoreInInt(loc.versiculo);
    assert '_' !in r;
    SplitLastOf(loc.libro + "_" + c + "_" + v, r);
    SplitLastOf(loc.libro + "_" + c, v);
    SplitLastOf(loc.libro, c);
    IntToStringRoundTrip(loc.capitulo);
    IntToStringRoundTrip(loc.versiculo);
  }

  /** No two (location, role) combinations share an id. */
  lemma VerseIdInjective(a: Location, r: Role, b: Location, s: Role)
    requires VerseId(a, r) == VerseId(b, s)
    ensures a == b && r == s
  {
    VerseIdRoundTrip(a, r);
    VerseIdRoundTrip(b, s);
  }

  /** Different (location, role) combinations get different ids. */
  lemma VerseIdDistinct(a: Location, r: Role, b: Location, s: Role)
    requires a != b || r != s
    ensures VerseId(a, r) != VerseId(b, s)
  {
    VerseIdRoundTrip(a, r);
    VerseIdRoundTrip(b, s);
  }

  // ----- the collection -----

  ghost predicate UniqueIds(docs: seq<Document>) {
    forall i, j :: 0 <= i < j < |docs| ==> docs[i].id != docs[j].id
  }

  predicate HasId(docs: seq<Document>, id: string) {
    exists i :: 0 <= i < |docs| && docs[i].id == id
  }

  /** The location a metadata record names, when all three fields are present. */
  function MetadataLocation(m: Metadata): Option<Location> {
    if m.libro.Some? && m.capitulo.Some? && m.versiculo.Some? then
      Some(Location(m.libro.value, m.capitulo.value, m.versiculo.value))
    else None
  }

  /** The document is one side of a verse and its id is the one derived from its metadata. */
  ghost predicate Consistent(d: Document) {
    exists loc, role :: d == Document(VerseId(loc, role), d.text, MetadataFor(loc, role))
  }

  /** Every document was written by `add_verse` (unique ids, consistent metadata). */
  ghost predicate WellFormed(docs: seq<Document>) {
    UniqueIds(docs) && forall i :: 0 <= i < |docs| ==> Consistent(docs[i])
  }

  /** Chroma's `add`: a document whose id is already stored is ignored. */
  function Insert(docs: seq<Document>, d: Document): seq<Document> {
    if HasId(docs, d.id) then docs else docs + [d]
  }

  /** The collection after `add_verse(libro, capitulo, versiculo, griego, espanol)`. */
  function AddVerseDocs(docs: seq<Document>, loc: Location, griego: string, espanol: string): seq<Document> {
    Insert(Insert(docs, DocumentFor(loc, Greek, griego)), DocumentFor(loc, Spanish, espanol))
  }

  /** `get(ids=ids)`: the stored documents whose id is requested. */
  function GetByIds(docs: seq<Document>, ids: seq<string>): seq<Document> {
    Filter(docs, (d: Document) => d.id in ids)
  }

  predicate LocationMatches(m: Metadata, loc: Location) {
    m.libro == Some(loc.libro) && m.capitulo == Some(loc.capitulo) && m.versiculo == Some(loc.versiculo)
  }

  /** `get(where=libro, capitulo and versiculo equal)`: the documents at that location. */
  function GetAtLocation(docs: seq<Document>, loc: Location): seq<Document> {
    Filter(docs, (d: Document) => LocationMatches(d.meta, loc))
  }

  /** Text of the first document with this id (`ids.index(id)`), or "" when there is none. */
  function TextWithId(docs: seq<Document>, id: string): string {
    if docs == [] then ""
    else if docs[0].id == id then docs[0].text
    else TextWithId(docs[1..], id)
  }

  /** Text of the last document whose `idioma` is this role, or "" (a later one overwrites an earlier one). */
  function RoleText(docs: seq<Document>, role: Role): string {
    if docs == [] then ""
    else if docs[|docs| - 1].meta.idioma == Some(RoleName(role)) then docs[|docs| - 1].text
    else RoleText(docs[..|docs| - 1], role)
  }
}
