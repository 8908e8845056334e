/**
 * `search_verse`: resolving a location to a complete Greek/Spanish pair
 * through an ordered chain of strategies (lookup by id, then a metadata
 * filter, then a client-side scan), never returning a one-sided pair.
 */
module Resolver {
  import opened Wrappers
  import opened Seqs
  import opened VerseStore

  /** The record `search_verse` returns: both texts and the requested location. */
  datatype VersePair = VersePair(griego: string, espanol: string, libro: string, capitulo: int, versiculo: int)

  function PairLocation(p: VersePair): Location {
    Location(p.libro, p.capitulo, p.versiculo)
  }

  function PairAt(loc: Location, griego: string, espanol: string): VersePair {
    VersePair(griego, espanol, loc.libro, loc.capitulo, loc.versiculo)
  }

  /**
   * Which `where` syntax the installed store accepts: the operator form
   * (`{"$eq": ...}`), only the plain form of older versions, or neither
   * (both raise, and the resolver falls back to scanning).
   */
  datatype FilterSyntax = OperatorSyntax | PlainSyntax | NoFilter

  /**
   * The behaviour of the store during one lookup: the accepted filter
   * syntax, and whether plain `get` calls raise (an exception that the
   * outer handler turns into `None`).
   */
  datatype Backend = Backend(syntax: FilterSyntax, lookupFails: bool)

  /** Step 1: fetch the two ids `add_verse` writes; both must come back with non-empty texts. */
  function ById(docs: seq<Document>, loc: Location): Option<VersePair> {
    var idG := VerseId(loc, Greek);
    var idE := VerseId(loc, Spanish);
    var results := GetByIds(docs, [idG, idE]);
    if |results| >= 2 then
      var g := TextWithId(results, idG);
      var e := TextWithId(results, idE);
      if g != "" && e != "" then Some(PairAt(loc, g, e)) else None
    else None
  }

  /** Assigns the texts of the fallback results by `idioma` and accepts only a complete pair. */
  function PairFromResults(results: seq<Document>, loc: Location): Option<VersePair> {
    if |results| >= 2 then
      var g := RoleText(results, Greek);
      var e := RoleText(results, Spanish);
      if g != "" && e != "" then Some(PairAt(loc, g, e)) else None
    else None
  }

  /** Step 2: the store's metadata filter on libro, capitulo and versiculo. */
  function ByFilter(docs: seq<Document>, loc: Location): Option<VersePair> {
    PairFromResults(GetAtLocation(docs, loc), loc)
  }

  function Ids(docs: seq<Document>): (ids: seq<string>)
    ensures |ids| == |docs|
    ensures forall i :: 0 <= i < |docs| ==> ids[i] == docs[i].id
  {
    seq(|docs|, i requires 0 <= i < |docs| => docs[i].id)
  }

  /** Step 3: read every document, collect the ids whose metadata matches, fetch those ids. */
  function ByScan(docs: seq<Document>, loc: Location): Option<VersePair> {
    if docs == [] then None
    else
      var matching := Ids(GetAtLocation(docs, loc));
      if matching == [] then None
      else PairFromResults(GetByIds(docs, matching), loc)
  }

  /** `search_verse(libro, capitulo, versiculo)`. */
  function Resolve(docs: seq<Document>, backend: Backend, loc: Location): Option<VersePair> {
    if backend.lookupFails then None
    else
      match ById(docs, loc)
      case Some(p) => Some(p)
      case None =>
        if backend.syntax == NoFilter then ByScan(docs, loc) else ByFilter(docs, loc)
  }

  /** Reference definition: the pair the stored Greek and Spanish documents of `loc` make, if both texts are non-empty. */
  function StoredPair(docs: seq<Document>, loc: Location): Option<VersePair> {
    var g := TextWithId(docs, VerseId(loc, Greek));
    var e := TextWithId(docs, VerseId(loc, Spanish));
    if g != "" && e != "" then Some(PairAt(loc, g, e)) else None
  }

  /** The document is the `role` side of `loc`, by id or by metadata. */
  predicate IsSide(d: Document, loc: Location, role: Role) {
    d.id == VerseId(loc, role) || (LocationMatches(d.meta, loc) && d.meta.idioma == Some(RoleName(role)))
  }

  // ----- facts about the store reads -----

  lemma {:induction false} TextWithIdFound(docs: seq<Document>, id: string)
    requires TextWithId(docs, id) != ""
    ensures exists i :: 0 <= i < |docs| && docs[i].id == id && docs[i].text == TextWithId(docs, id)
  {
    if docs[0].id != id {
      TextWithIdFound(docs[1..], id);
      var i :| 0 <= i < |docs[1..]| && docs[1..][i].id == id && docs[1..][i].text == TextWithId(docs, id);
      assert docs[i + 1] == docs[1..][i];
    }
  }

  lemma {:induction false} RoleTextFound(docs: seq<Document>, role: Role)
    requires RoleText(docs, role) != ""
    ensures exists i :: 0 <= i < |docs| && docs[i].meta.idioma == Some(RoleName(role)) && docs[i].text == RoleText(docs, role)
  {
    if docs[|docs| - 1].meta.idioma != Some(RoleName(role)) {
      RoleTextFound(docs[..|docs| - 1], role);
      var i :| 0 <= i < |docs| - 1 && docs[..|docs| - 1][i].meta.idioma == Some(RoleName(role))
                && docs[..|docs| - 1][i].text == RoleText(docs, role);
      assert docs[i] == docs[..|docs| - 1][i];
    }
  }

  /** Fetching a set of ids that includes `id` keeps the first document with that id first. */
  lemma {:induction false} TextWithIdOfGet(docs: seq<Document>, ids: seq<string>, id: string)
    requires id in ids
    ensures TextWithId(GetByIds(docs, ids), id) == TextWithId(docs, id)
  {
    if docs != [] {
      var p := (d: Document) => d.id in ids;
      assert docs == [docs[0]] + docs[1..];
      FilterCons(docs[0], docs[1..], p);
      TextWithIdOfGet(docs[1..], ids, id);
      var rest := GetByIds(docs[1..], ids);
      if p(docs[0]) {
        assert GetByIds(docs, ids) == [docs[0]] + rest;
        assert ([docs[0]] + rest)[1..] == rest;
      } else {
        assert GetByIds(docs, ids) == rest;
      }
    }
  }

  lemma {:induction false} TextWithIdAt(docs: seq<Document>, id: string, k: nat)
    requires k < |docs| && docs[k].id == id
    requires forall j :: 0 <= j < k ==> docs[j].id != id
    ensures TextWithId(docs, id) == docs[k].text
  {
    if k > 0 {
      TextWithIdAt(docs[1..], id, k - 1);
    }
  }

  lemma {:induction false} TextWithIdAbsent(docs: seq<Document>, id: string)
    requires forall j :: 0 <= j < |docs| ==> docs[j].id != id
    ensures TextWithId(docs, id) == ""
  {
    if docs != [] {
      TextWithIdAbsent(docs[1..], id);
    }
  }

  lemma {:induction false} RoleTextAt(docs: seq<Document>, role: Role, k: nat)
    requires k < |docs| && docs[k].meta.idioma == Some(RoleName(role))
    requires forall j :: k < j < |docs| ==> docs[j].meta.idioma != Some(RoleName(role))
    ensures RoleText(docs, role) == docs[k].text
  {
    if k < |docs| - 1 {
      RoleTextAt(docs[..|docs| - 1], role, k);
    }
  }

  lemma {:induction false} RoleTextAbsent(docs: seq<Document>, role: Role)
    requires forall j :: 0 <= j < |docs| ==> docs[j].meta.idioma != Some(RoleName(role))
    ensures RoleText(docs, role) == ""
  {
    if docs != [] {
      RoleTextAbsent(docs[..|docs| - 1], role);
    }
  }

  /** Where `idioma` and the id agree on every document, and ids are unique, both text lookups agree. */
  lemma RoleTextIsTextWithId(docs: seq<Document>, role: Role, id: string)
    requires UniqueIds(docs)
    requires forall j :: 0 <= j < |docs| ==> (docs[j].meta.idioma == Some(RoleName(role))) == (docs[j].id == id)
    ensures RoleText(docs, role) == TextWithId(docs, id)
  {
    if k :| 0 <= k < |docs| && docs[k].id == id {
      TextWithIdAt(docs, id, k);
      RoleTextAt(docs, role, k);
    } else {
      TextWithIdAbsent(docs, id);
      RoleTextAbsent(docs, role);
    }
  }

  lemma TwoMembers<T>(s: seq<T>, i: nat, j: nat)
    requires i < |s| && j < |s| && s[i] != s[j]
    ensures |s| >= 2
  {
  }

  // ----- properties of the strategies -----

  /** Step 1 returns exactly the pair the two stored documents of the location make. */
  lemma ByIdIsStoredPair(docs: seq<Document>, loc: Location)
    ensures ById(docs, loc) == StoredPair(docs, loc)
  {
    var idG := VerseId(loc, Greek);
    var idE := VerseId(loc, Spanish);
    var results := GetByIds(docs, [idG, idE]);
    TextWithIdOfGet(docs, [idG, idE], idG);
    TextWithIdOfGet(docs, [idG, idE], idE);
    var g := TextWithId(docs, idG);
    var e := TextWithId(docs, idE);
    if g != "" && e != "" {
      TextWithIdFound(results, idG);
      TextWithIdFound(results, idE);
      var i :| 0 <= i < |results| && results[i].id == idG;
      var j :| 0 <= j < |results| && results[j].id == idE;
      VerseIdDistinct(loc, Greek, loc, Spanish);
      TwoMembers(results, i, j);
    }
  }

  /** With unique ids the scan finds exactly what the metadata filter finds. */
  lemma ScanAgreesWithFilter(docs: seq<Document>, loc: Location)
    requires UniqueIds(docs)
    ensures ByScan(docs, loc) == ByFilter(docs, loc)
  {
    var found := GetAtLocation(docs, loc);
    var matching := Ids(found);
    if docs != [] && matching != [] {
      var byId := (d: Document) => d.id in matching;
      var byLoc := (d: Document) => LocationMatches(d.meta, loc);
      forall i | 0 <= i < |docs| ensures byId(docs[i]) == byLoc(docs[i]) {
        if byLoc(docs[i]) {
          FilterKeeps(docs, byLoc, i);
          var k :| 0 <= k < |found| && found[k] == docs[i];
          assert matching[k] == docs[i].id;
        }
        if byId(docs[i]) {
          var k :| 0 <= k < |matching| && matching[k] == docs[i].id;
          assert found[k] in docs && byLoc(found[k]);
          var j :| 0 <= j < |docs| && docs[j] == found[k];
          assert docs[j].id == docs[i].id;
          assert i == j;
        }
      }
      FilterAgree(docs, byId, byLoc);
    }
  }

  /** Whatever the backend, a result echoes the requested location and has both texts. */
  lemma ResolvedIsComplete(docs: seq<Document>, backend: Backend, loc: Location)
    ensures Resolve(docs, backend, loc).Some? ==>
      && PairLocation(Resolve(docs, backend, loc).value) == loc
      && Resolve(docs, backend, loc).value.griego != ""
      && Resolve(docs, backend, loc).value.espanol != ""
  {
  }

  /**
   * `search_verse` never returns a one-sided pair: a result echoes the
   * requested location, both texts are non-empty, and each text is the
   * text of a stored document for that side of the location.
   */
  lemma NeverOneSided(docs: seq<Document>, backend: Backend, loc: Location)
    requires UniqueIds(docs)
    ensures Resolve(docs, backend, loc).Some? ==>
      var p := Resolve(docs, backend, loc).value;
      && PairLocation(p) == loc
      && p.griego != "" && p.espanol != ""
      && (exists i :: 0 <= i < |docs| && IsSide(docs[i], loc, Greek) && docs[i].text == p.griego)
      && (exists i :: 0 <= i < |docs| && IsSide(docs[i], loc, Spanish) && docs[i].text == p.espanol)
  {
    var r := Resolve(docs, backend, loc);
    if r.Some? {
      var p := r.value;
      if ById(docs, loc).Some? {
        ByIdIsStoredPair(docs, loc);
        TextWithIdFound(docs, VerseId(loc, Greek));
        TextWithIdFound(docs, VerseId(loc, Spanish));
      } else {
        if backend.syntax == NoFilter {
          ScanAgreesWithFilter(docs, loc);
        }
        var found := GetAtLocation(docs, loc);
        RoleTextFound(found, Greek);
        RoleTextFound(found, Spanish);
        var i :| 0 <= i < |found| && found[i].meta.idioma == Some(RoleName(Greek)) && found[i].text == p.griego;
        var j :| 0 <= j < |found| && found[j].meta.idioma == Some(RoleName(Spanish)) && found[j].text == p.espanol;
        assert found[i] in docs && found[j] in docs;
      }
    }
  }

  /** In a well-formed store the metadata filter returns exactly the documents fetched by the two ids. */
  lemma FilterIsGetByIds(docs: seq<Document>, loc: Location)
    requires WellFormed(docs)
    ensures GetAtLocation(docs, loc) == GetByIds(docs, [VerseId(loc, Greek), VerseId(loc, Spanish)])
  {
    var ids := [VerseId(loc, Greek), VerseId(loc, Spanish)];
    var byId := (d: Document) => d.id in ids;
    var byLoc := (d: Document) => LocationMatches(d.meta, loc);
    forall i | 0 <= i < |docs| ensures byLoc(docs[i]) == byId(docs[i]) {
      var d := docs[i];
      assert Consistent(d);
      var l, r :| d == Document(VerseId(l, r), d.text, MetadataFor(l, r));
      if byId(d) {
        if d.id == ids[0] {
          VerseIdInjective(l, r, loc, Greek);
        } else {
          VerseIdInjective(l, r, loc, Spanish);
        }
      }
      if byLoc(d) {
        assert l == loc;
        assert r == Greek || r == Spanish;
      }
    }
    FilterAgree(docs, byLoc, byId);
  }

  /** In a well-formed store the metadata filter yields the same pair as the lookup by id. */
  lemma ByFilterIsStoredPair(docs: seq<Document>, loc: Location)
    requires WellFormed(docs)
    ensures ByFilter(docs, loc) == StoredPair(docs, loc)
  {
    var idG := VerseId(loc, Greek);
    var idE := VerseId(loc, Spanish);
    var results := GetByIds(docs, [idG, idE]);
    FilterIsGetByIds(docs, loc);
    assert UniqueIds(results) by {
      forall a, c | 0 <= a < c < |results| ensures results[a].id != results[c].id {
        FilterOrder(docs, (d: Document) => d.id in [idG, idE], a, c);
      }
    }
    forall role: Role, j | 0 <= j < |results|
      ensures (results[j].meta.idioma == Some(RoleName(role))) == (results[j].id == VerseId(loc, role))
    {
      var d := results[j];
      assert d in docs;
      var i :| 0 <= i < |docs| && docs[i] == d;
      assert Consistent(docs[i]);
      var l, r :| d == Document(VerseId(l, r), d.text, MetadataFor(l, r));
      assert d.id in [idG, idE];
      if d.id == idG {
        VerseIdInjective(l, r, loc, Greek);
      } else {
        VerseIdInjective(l, r, loc, Spanish);
      }
      if d.id == VerseId(loc, role) {
        VerseIdInjective(l, r, loc, role);
      }
    }
    RoleTextIsTextWithId(results, Greek, idG);
    RoleTextIsTextWithId(results, Spanish, idE);
    ByIdIsStoredPair(docs, loc);
  }

  /**
   * In a store written by `add_verse`, every strategy gives the same
   * answer: `search_verse` returns the stored pair whatever filter syntax
   * the store accepts, and `None` when the lookup raises.
   */
  lemma ResolveWellFormed(docs: seq<Document>, backend: Backend, loc: Location)
    requires WellFormed(docs)
    ensures Resolve(docs, backend, loc) == if backend.lookupFails then None else StoredPair(docs, loc)
  {
    ByIdIsStoredPair(docs, loc);
    ByFilterIsStoredPair(docs, loc);
    ScanAgreesWithFilter(docs, loc);
  }
}
