/**
 * The retrieval object `NTRAG`: a handle on the persistent collection
 * `nuevo_testamento` and on the embedding model, which is loaded lazily
 * once per process and shared by every instance.
 */
module Rag {
  import opened Wrappers
  import opened Text
  import opened VerseStore
  import opened Resolver
  import opened Ingestion
  import opened Concept

  /** The class-level embedding model slot, shared by all `NTRag` objects. */
  class EmbeddingCache {
    var loaded: bool

    constructor()
      ensures !loaded
    {
      loaded := false;
    }
  }

  class NTRag {
    /** The stored documents, in insertion order. */
    var collection: seq<Document>
    const cache: EmbeddingCache

    /** Every stored document was written by `add_verse`. */
    ghost predicate Valid()
      reads this
    {
      WellFormed(collection)
    }

    /** Opens the persisted collection (created empty when it does not exist). */
    constructor(persisted: seq<Document>, cache: EmbeddingCache)
      ensures collection == persisted && this.cache == cache
    {
      collection := persisted;
      this.cache := cache;
    }

    /**
     * `_get_embedding_model`: loads the model on first use only;
     * `loadFails` says whether constructing it raises.
     */
    method GetEmbeddingModel(loadFails: bool) returns (ok: bool)
      modifies cache
      ensures ok <==> old(cache.loaded) || !loadFails
      ensures cache.loaded == ok
    {
      if !cache.loaded {
        if loadFails {
          return false;
        }
        cache.loaded := true;
      }
      return true;
    }

    /**
     * `add_verse`: writes the Greek and the Spanish document of one verse.
     * `ok` is false when loading the model or encoding a text raises, and
     * then nothing is written.
     */
    method AddVerse(libro: string, capitulo: int, versiculo: int, griego: string, espanol: string,
                    loadFails: bool, encodeFails: bool) returns (ok: bool)
      modifies this, cache
      ensures ok <==> (old(cache.loaded) || !loadFails) && !encodeFails
      ensures cache.loaded == (old(cache.loaded) || !loadFails)
      ensures ok ==> collection == AddVerseDocs(old(collection), Location(libro, capitulo, versiculo), griego, espanol)
      ensures !ok ==> collection == old(collection)
      ensures ok && !HasId(old(collection), VerseId(Location(libro, capitulo, versiculo), Greek))
                 && !HasId(old(collection), VerseId(Location(libro, capitulo, versiculo), Spanish)) ==>
        collection == old(collection) + [DocumentFor(Location(libro, capitulo, versiculo), Greek, griego),
                                         DocumentFor(Location(libro, capitulo, versiculo), Spanish, espanol)]
      ensures old(Valid()) ==> Valid()
    {
      ok := GetEmbeddingModel(loadFails);
      if !ok {
        return;
      }
      if encodeFails {
        return false;
      }
      var loc := Location(libro, capitulo, versiculo);
      var before := collection;
      var dG := DocumentFor(loc, Greek, griego);
      var dE := DocumentFor(loc, Spanish, espanol);
      collection := Insert(collection, dG);
      collection := Insert(collection, dE);
      HasIdInsert(before, dG, dE.id);
      VerseIdDistinct(loc, Greek, loc, Spanish);
      if WellFormed(before) {
        AddVerseWellFormed(before, loc, griego, espanol);
      }
    }

    /**
     * `search_verse(libro, capitulo, versiculo)`: by id, then by the
     * metadata filter or, when the store accepts no filter, by a full scan.
     */
    method SearchVerse(libro: string, capitulo: int, versiculo: int, backend: Backend) returns (r: Option<VersePair>)
      ensures r == Resolve(collection, backend, Location(libro, capitulo, versiculo))
      ensures Valid() ==> r == if backend.lookupFails then None else StoredPair(collection, Location(libro, capitulo, versiculo))
    {
      var loc := Location(libro, capitulo, versiculo);
      if Valid() {
        ResolveWellFormed(collection, backend, loc);
      }
      if backend.lookupFails {
        return None;
      }
      var idG := VerseId(loc, Greek);
      var idE := VerseId(loc, Spanish);
      var results := GetByIds(collection, [idG, idE]);
      if |results| >= 2 {
        var g := TextWithId(results, idG);
        var e := TextWithId(results, idE);
        if g != "" && e != "" {
          return Some(PairAt(loc, g, e));
        }
      }
      var found: Option<seq<Document>> := None;
      if backend.syntax != NoFilter {
        found := Some(GetAtLocation(collection, loc));
      } else if collection != [] {
        var matching := ScanMatchingIds(collection, loc);
        if matching != [] {
          found := Some(GetByIds(collection, matching));
        }
      }
      if found.Some? && |found.value| >= 2 {
        var g, e := SplitByLanguage(found.value);
        if g != "" && e != "" {
          return Some(PairAt(loc, g, e));
        }
      }
      return None;
    }

    /**
     * `search_by_concept(query, top_k)`. `ranked` is the vector index's
     * neighbour order (nearest first); the flags say whether loading the
     * model, encoding the query or querying the store raises.
     */
    method SearchByConcept(query: string, topK: int, ranked: seq<Option<Metadata>>, backend: Backend,
                           loadFails: bool, encodeFails: bool, queryFails: bool) returns (out: seq<VersePair>)
      modifies cache
      ensures out == ConceptResult(collection, backend, query, topK, ranked,
                                   (!old(cache.loaded) && loadFails) || encodeFails, queryFails)
      ensures cache.loaded == (old(cache.loaded) || (Strip(query) != [] && !loadFails))
    {
      if Strip(query) == [] {
        return [];
      }
      var ok := GetEmbeddingModel(loadFails);
      if !ok || encodeFails || queryFails {
        return [];
      }
      var n := OverFetch(topK, |collection|);
      if n < 1 {
        return [];
      }
      var keys := UniqueLocations(ranked[..Min(n, |ranked|)], topK);
      out := SearchEach(keys, backend);
    }

    /** The final loop of `search_by_concept`: `search_verse` per location, keeping the ones found. */
    method SearchEach(keys: seq<Location>, backend: Backend) returns (out: seq<VersePair>)
      ensures out == ResolveAll(collection, backend, keys)
    {
      out := [];
      for i := 0 to |keys|
        invariant out == ResolveAll(collection, backend, keys[..i])
      {
        assert keys[..i + 1][..i] == keys[..i];
        var v := SearchVerse(keys[i].libro, keys[i].capitulo, keys[i].versiculo, backend);
        if v.Some? {
          out := out + [v.value];
        }
      }
      assert keys[..|keys|] == keys;
    }
  }

  /** The scan fallback: the ids of the documents whose metadata names the location, in store order. */
  method ScanMatchingIds(all: seq<Document>, loc: Location) returns (ids: seq<string>)
    ensures ids == Ids(GetAtLocation(all, loc))
  {
    ids := [];
    for i := 0 to |all|
      invariant ids == Ids(GetAtLocation(all[..i], loc))
    {
      assert all[..i + 1][..i] == all[..i];
      var before := GetAtLocation(all[..i], loc);
      if LocationMatches(all[i].meta, loc) {
        assert GetAtLocation(all[..i + 1], loc) == before + [all[i]];
        ids := ids + [all[i].id];
      } else {
        assert GetAtLocation(all[..i + 1], loc) == before;
      }
    }
    assert all[..|all|] == all;
  }

  /** Assigns the texts of the fallback results by `idioma`; a later document of a language overwrites an earlier one. */
  method SplitByLanguage(found: seq<Document>) returns (griego: string, espanol: string)
    ensures griego == RoleText(found, Greek) && espanol == RoleText(found, Spanish)
  {
    griego, espanol := "", "";
    for i := 0 to |found|
      invariant griego == RoleText(found[..i], Greek) && espanol == RoleText(found[..i], Spanish)
    {
      assert found[..i + 1][..i] == found[..i];
      assert found[..i + 1][i] == found[i];
      if found[i].meta.idioma == Some("griego") {
        griego := found[i].text;
      } else if found[i].meta.idioma == Some("espanol") {
        espanol := found[i].text;
      }
    }
    assert found[..|found|] == found;
  }

  /**
   * The dedup walk of `search_by_concept`: skips entries without a
   * location, keeps the first occurrence of each location and stops once
   * `top_k` locations are collected.
   */
  method UniqueLocations(metas: seq<Option<Metadata>>, topK: int) returns (keys: seq<Location>)
    ensures keys == TakeKeys(metas, topK)
  {
    var seen: set<Location> := {};
    keys := [];
    var i := 0;
    while i < |metas|
      invariant 0 <= i <= |metas|
      invariant keys == FirstKeys(metas[..i])
      invariant forall k :: k in seen <==> k in keys
      invariant |keys| < KeyLimit(topK)
    {
      assert metas[..i + 1][..i] == metas[..i];
      assert metas[..i + 1][i] == metas[i];
      var key := KeyOf(metas[i]);
      if key.Some? && key.value !in seen {
        seen := seen + {key.value};
        keys := keys + [key.value];
        if |keys| >= topK {
          FirstKeysPrefix(metas, i + 1);
          return;
        }
      }
      i := i + 1;
    }
    assert metas[..i] == metas;
  }
}
