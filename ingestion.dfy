/**
 * What `add_verse` does to the collection, alone and over a sequence of
 * ingestion records, and what `search_verse` then finds.
 */
module Ingestion {
  import opened Wrappers
  import opened VerseStore
  import opened Resolver

  /** The collection after `add_verse` of every record, in order. */
  function Ingest(docs: seq<Document>, records: seq<VerseRecord>): seq<Document> {
    if records == [] then docs
    else
      var last := records[|records| - 1];
      AddVerseDocs(Ingest(docs, records[..|records| - 1]), RecordLocation(last), last.griego, last.espanol)
  }

  ghost predicate DistinctLocations(records: seq<VerseRecord>) {
    forall i, j :: 0 <= i < j < |records| ==> RecordLocation(records[i]) != RecordLocation(records[j])
  }

  lemma {:induction false} TextWithIdAppend(docs: seq<Document>, d: Document, id: string)
    ensures TextWithId(docs + [d], id) == if HasId(docs, id) then TextWithId(docs, id) else if d.id == id then d.text else ""
  {
    if docs == [] {
      assert [] + [d] == [d];
    } else {
      assert (docs + [d])[1..] == docs[1..] + [d];
      TextWithIdAppend(docs[1..], d, id);
      if docs[0].id != id {
        assert HasId(docs, id) == HasId(docs[1..], id) by {
          if HasId(docs, id) {
            var i :| 0 <= i < |docs| && docs[i].id == id;
            assert docs[1..][i - 1] == docs[i];
          }
          if HasId(docs[1..], id) {
            var i :| 0 <= i < |docs[1..]| && docs[1..][i].id == id;
            assert docs[i + 1] == docs[1..][i];
          }
        }
      }
    }
  }

  lemma TextWithIdInsert(docs: seq<Document>, d: Document, id: string)
    ensures TextWithId(Insert(docs, d), id) == if HasId(docs, id) then TextWithId(docs, id) else if d.id == id then d.text else ""
  {
    if !HasId(docs, d.id) {
      TextWithIdAppend(docs, d, id);
    } else if !HasId(docs, id) {
      TextWithIdAbsent(docs, id);
    }
  }

  lemma HasIdInsert(docs: seq<Document>, d: Document, id: string)
    ensures HasId(Insert(docs, d), id) == (HasId(docs, id) || d.id == id)
  {
    if !HasId(docs, d.id) {
      var n := |docs|;
      assert (docs + [d])[n] == d;
      if HasId(docs, id) {
        var i :| 0 <= i < n && docs[i].id == id;
        assert (docs + [d])[i] == docs[i];
      }
    }
  }

  lemma InsertWellFormed(docs: seq<Document>, loc: Location, role: Role, text: string)
    requires WellFormed(docs)
    ensures WellFormed(Insert(docs, DocumentFor(loc, role, text)))
  {
    var d := DocumentFor(loc, role, text);
    assert Consistent(d) by {
      assert d == Document(VerseId(loc, role), d.text, MetadataFor(loc, role));
    }
    var r := Insert(docs, d);
    if !HasId(docs, d.id) {
      assert forall i :: 0 <= i < |docs| ==> r[i] == docs[i];
      assert r[|docs|] == d;
    }
  }

  /** `add_verse` keeps the collection well formed. */
  lemma AddVerseWellFormed(docs: seq<Document>, loc: Location, griego: string, espanol: string)
    requires WellFormed(docs)
    ensures WellFormed(AddVerseDocs(docs, loc, griego, espanol))
  {
    InsertWellFormed(docs, loc, Greek, griego);
    InsertWellFormed(Insert(docs, DocumentFor(loc, Greek, griego)), loc, Spanish, espanol);
  }

  /** Adding a verse that is already stored (both ids present) changes nothing. */
  lemma AddVerseAgainIsNoOp(docs: seq<Document>, loc: Location, griego: string, espanol: string)
    requires HasId(docs, VerseId(loc, Greek)) && HasId(docs, VerseId(loc, Spanish))
    ensures AddVerseDocs(docs, loc, griego, espanol) == docs
  {
  }

  lemma StoredTextAfterAdd(docs: seq<Document>, loc: Location, griego: string, espanol: string, other: Location, role: Role)
    requires !HasId(docs, VerseId(loc, Greek)) && !HasId(docs, VerseId(loc, Spanish))
    ensures TextWithId(AddVerseDocs(docs, loc, griego, espanol), VerseId(other, role)) ==
      if other == loc then (if role == Greek then griego else espanol) else TextWithId(docs, VerseId(other, role))
  {
    var id := VerseId(other, role);
    var dG := DocumentFor(loc, Greek, griego);
    var dE := DocumentFor(loc, Spanish, espanol);
    TextWithIdInsert(docs, dG, id);
    TextWithIdInsert(Insert(docs, dG), dE, id);
    HasIdInsert(docs, dG, id);
    VerseIdDistinct(loc, Greek, loc, Spanish);
    if !HasId(docs, id) {
      TextWithIdAbsent(docs, id);
    }
    if other != loc {
      VerseIdDistinct(other, role, loc, Greek);
      VerseIdDistinct(other, role, loc, Spanish);
    } else if role == Greek {
      TextWithIdAbsent(docs, id);
    } else {
      HasIdInsert(docs, dG, id);
    }
  }

  /**
   * After `add_verse` of a location not yet stored, `search_verse` of that
   * location returns the two texts just written (or `None` when one of
   * them is empty or the lookup raises).
   */
  lemma AddVerseThenResolve(docs: seq<Document>, backend: Backend, loc: Location, griego: string, espanol: string)
    requires WellFormed(docs)
    requires !HasId(docs, VerseId(loc, Greek)) && !HasId(docs, VerseId(loc, Spanish))
    ensures Resolve(AddVerseDocs(docs, loc, griego, espanol), backend, loc) ==
      if backend.lookupFails then None
      else if griego != "" && espanol != "" then Some(PairAt(loc, griego, espanol))
      else None
  {
    AddVerseWellFormed(docs, loc, griego, espanol);
    ResolveWellFormed(AddVerseDocs(docs, loc, griego, espanol), backend, loc);
    StoredTextAfterAdd(docs, loc, griego, espanol, loc, Greek);
    StoredTextAfterAdd(docs, loc, griego, espanol, loc, Spanish);
  }

  /** `add_verse` changes what `search_verse` returns for no other location. */
  lemma AddVerseKeepsOthers(docs: seq<Document>, backend: Backend, loc: Location, griego: string, espanol: string, other: Location)
    requires WellFormed(docs)
    requires !HasId(docs, VerseId(loc, Greek)) && !HasId(docs, VerseId(loc, Spanish))
    requires other != loc
    ensures Resolve(AddVerseDocs(docs, loc, griego, espanol), backend, other) == Resolve(docs, backend, other)
  {
    AddVerseWellFormed(docs, loc, griego, espanol);
    ResolveWellFormed(AddVerseDocs(docs, loc, griego, espanol), backend, other);
    ResolveWellFormed(docs, backend, other);
    StoredTextAfterAdd(docs, loc, griego, espanol, other, Greek);
    StoredTextAfterAdd(docs, loc, griego, espanol, other, Spanish);
  }

  /** Ingesting into a well-formed collection keeps it well formed. */
  lemma {:induction false} IngestWellFormed(docs: seq<Document>, records: seq<VerseRecord>)
    requires WellFormed(docs)
    ensures WellFormed(Ingest(docs, records))
  {
    if records != [] {
      var last := records[|records| - 1];
      IngestWellFormed(docs, records[..|records| - 1]);
      AddVerseWellFormed(Ingest(docs, records[..|records| - 1]), RecordLocation(last), last.griego, last.espanol);
    }
  }

  /** Ingestion writes ids only for the locations of the records ingested. */
  lemma {:induction false} FreshAfterIngest(records: seq<VerseRecord>, loc: Location, role: Role)
    requires forall k :: 0 <= k < |records| ==> RecordLocation(records[k]) != loc
    ensures !HasId(Ingest([], records), VerseId(loc, role))
  {
    if records != [] {
      var n := |records|;
      var prev := Ingest([], records[..n - 1]);
      var last := records[n - 1];
      var id := VerseId(loc, role);
      var dG := DocumentFor(RecordLocation(last), Greek, last.griego);
      var dE := DocumentFor(RecordLocation(last), Spanish, last.espanol);
      FreshAfterIngest(records[..n - 1], loc, role);
      HasIdInsert(prev, dG, id);
      HasIdInsert(Insert(prev, dG), dE, id);
      VerseIdDistinct(RecordLocation(last), Greek, loc, role);
      VerseIdDistinct(RecordLocation(last), Spanish, loc, role);
    }
  }

  /**
   * Ingesting records with distinct locations into an empty collection:
   * `search_verse` of each record's location returns exactly that record's
   * two texts, whichever strategy answers, unless one text is empty.
   */
  lemma {:induction false} IngestThenResolve(records: seq<VerseRecord>, backend: Backend, k: nat)
    requires DistinctLocations(records)
    requires k < |records|
    ensures Resolve(Ingest([], records), backend, RecordLocation(records[k])) ==
      if backend.lookupFails then None
      else if records[k].griego != "" && records[k].espanol != "" then
        Some(PairAt(RecordLocation(records[k]), records[k].griego, records[k].espanol))
      else None
  {
    var n := |records|;
    var prefix := records[..n - 1];
    var prev := Ingest([], prefix);
    var last := records[n - 1];
    var loc := RecordLocation(last);
    assert Ingest([], records) == AddVerseDocs(prev, loc, last.griego, last.espanol);
    assert WellFormed([]);
    IngestWellFormed([], prefix);
    forall i | 0 <= i < |prefix| ensures RecordLocation(prefix[i]) != loc {
      assert prefix[i] == records[i];
    }
    FreshAfterIngest(prefix, loc, Greek);
    FreshAfterIngest(prefix, loc, Spanish);
    if k == n - 1 {
      AddVerseThenResolve(prev, backend, loc, last.griego, last.espanol);
    } else {
      assert DistinctLocations(prefix) by {
        forall i, j | 0 <= i < j < |prefix| ensures RecordLocation(prefix[i]) != RecordLocation(prefix[j]) {
          assert prefix[i] == records[i] && prefix[j] == records[j];
        }
      }
      IngestThenResolve(prefix, backend, k);
      assert prefix[k] == records[k];
      AddVerseKeepsOthers(prev, backend, loc, last.griego, last.espanol, RecordLocation(records[k]));
    }
  }

  /**
   * Juan 3:16 ingested into an empty collection: looking it up returns the
   * pair, and Juan 3:17 is not found.
   */
  lemma JuanThreeSixteen(backend: Backend)
    requires !backend.lookupFails
    ensures var docs := AddVerseDocs([], Location("Juan", 3, 16), "ούτως γάρ ἠγάπησεν ὁ θεὸς τὸν κόσμον", "Porque de tal manera amó Dios al mundo");
      && Resolve(docs, backend, Location("Juan", 3, 16)) ==
           Some(VersePair("ούτως γάρ ἠγάπησεν ὁ θεὸς τὸν κόσμον", "Porque de tal manera amó Dios al mundo", "Juan", 3, 16))
      && Resolve(docs, backend, Location("Juan", 3, 17)) == None
  {
    var here := Location("Juan", 3, 16);
    var next := Location("Juan", 3, 17);
    var g := "ούτως γάρ ἠγάπησεν ὁ θεὸς τὸν κόσμον";
    var e := "Porque de tal manera amó Dios al mundo";
    assert WellFormed([]);
    AddVerseThenResolve([], backend, here, g, e);
    AddVerseKeepsOthers([], backend, here, g, e, next);
  }
}
