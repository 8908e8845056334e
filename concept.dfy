/**
 * `search_by_concept`: the neighbours the vector index returns, nearest
 * first, are deduplicated by location (first occurrence wins) until
 * `top_k` locations are collected, and each location is then resolved
 * with `search_verse`; locations that do not resolve are dropped.
 */
module Concept {
  import opened Wrappers
  import opened Text
  import opened Seqs
  import opened VerseStore
  import opened Resolver

  function Min(a: int, b: int): int {
    if a <= b then a else b
  }

  function Max(a: int, b: int): int {
    if a >= b then a else b
  }

  /** `min(max(top_k * 2, 20), count)`: how many neighbours are fetched. */
  function OverFetch(topK: int, count: nat): int {
    Min(Max(topK * 2, 20), count)
  }

  /** The size check happens after appending, so at least one location is collected. */
  function KeyLimit(topK: int): nat {
    if topK >= 1 then topK else 1
  }

  /**
   * The location of one neighbour's metadata, or `None` when the entry is
   * falsy (modelled by `None`) or lacks libro, capitulo or versiculo.
   */
  function KeyOf(meta: Option<Metadata>): Option<Location> {
    match meta
    case None => None
    case Some(m) => MetadataLocation(m)
  }

  ghost predicate OccursIn(ms: seq<Option<Metadata>>, k: Location) {
    exists p :: 0 <= p < |ms| && KeyOf(ms[p]) == Some(k)
  }

  /** The distinct locations of the neighbours, in order of first occurrence. */
  function FirstKeys(ms: seq<Option<Metadata>>): (keys: seq<Location>)
    ensures Distinct(keys)
  {
    if ms == [] then []
    else
      var keys := FirstKeys(ms[..|ms| - 1]);
      match KeyOf(ms[|ms| - 1])
      case None => keys
      case Some(k) => if k in keys then keys else keys + [k]
  }

  /** The locations the dedup walk collects: the first `max(top_k, 1)` distinct ones. */
  function TakeKeys(ms: seq<Option<Metadata>>, topK: int): seq<Location> {
    var keys := FirstKeys(ms);
    keys[..Min(|keys|, KeyLimit(topK))]
  }

  /** `search_verse` of each location, keeping the ones that resolve. */
  function ResolveAll(docs: seq<Document>, backend: Backend, keys: seq<Location>): (out: seq<VersePair>)
    ensures |out| <= |keys|
    ensures forall j :: 0 <= j < |out| ==>
      PairLocation(out[j]) in keys && Resolve(docs, backend, PairLocation(out[j])) == Some(out[j])
  {
    if keys == [] then []
    else
      ResolveAll(docs, backend, keys[..|keys| - 1]) +
      match Resolve(docs, backend, keys[|keys| - 1])
      case Some(p) => [p]
      case None => []
  }

  /**
   * `search_by_concept(query, top_k)` given the store, the neighbour
   * order of the vector index (`ranked`, nearest first) and whether
   * embedding or the vector query raises.
   */
  function ConceptResult(docs: seq<Document>, backend: Backend, query: string, topK: int,
                         ranked: seq<Option<Metadata>>, embedFails: bool, queryFails: bool): seq<VersePair>
  {
    if Strip(query) == [] || embedFails || queryFails then []
    else
      var n := OverFetch(topK, |docs|);
      if n < 1 then []
      else ResolveAll(docs, backend, TakeKeys(ranked[..Min(n, |ranked|)], topK))
  }

  function Locations(ps: seq<VersePair>): (locs: seq<Location>)
    ensures |locs| == |ps|
    ensures forall i :: 0 <= i < |ps| ==> locs[i] == PairLocation(ps[i])
  {
    seq(|ps|, i requires 0 <= i < |ps| => PairLocation(ps[i]))
  }

  // ----- the dedup walk -----

  /** A location is collected exactly when some neighbour carries it. */
  lemma {:induction false} FirstKeysMembers(ms: seq<Option<Metadata>>, k: Location)
    ensures k in FirstKeys(ms) <==> OccursIn(ms, k)
  {
    if ms != [] {
      var prefix := ms[..|ms| - 1];
      FirstKeysMembers(prefix, k);
      if OccursIn(prefix, k) {
        var p :| 0 <= p < |prefix| && KeyOf(prefix[p]) == Some(k);
        assert KeyOf(ms[p]) == Some(k);
      }
      if OccursIn(ms, k) {
        var p :| 0 <= p < |ms| && KeyOf(ms[p]) == Some(k);
        if p < |prefix| {
          assert KeyOf(prefix[p]) == Some(k);
        }
      }
    }
  }

  /** A location not collected from the neighbours before the last one occurs in none of them. */
  lemma NotCollectedBefore(ms: seq<Option<Metadata>>, k: Location)
    requires ms != [] && k !in FirstKeys(ms[..|ms| - 1])
    ensures forall p :: 0 <= p < |ms| - 1 ==> KeyOf(ms[p]) != Some(k)
  {
    var prefix := ms[..|ms| - 1];
    FirstKeysMembers(prefix, k);
    forall p | 0 <= p < |ms| - 1 ensures KeyOf(ms[p]) != Some(k) {
      assert prefix[p] == ms[p];
    }
  }

  /** Collecting from a shorter prefix of the neighbours gives a prefix of the locations. */
  lemma {:induction false} FirstKeysPrefix(ms: seq<Option<Metadata>>, i: nat)
    requires i <= |ms|
    ensures |FirstKeys(ms[..i])| <= |FirstKeys(ms)|
    ensures FirstKeys(ms)[..|FirstKeys(ms[..i])|] == FirstKeys(ms[..i])
  {
    if i < |ms| {
      var prefix := ms[..|ms| - 1];
      assert prefix[..i] == ms[..i];
      FirstKeysPrefix(prefix, i);
    } else {
      assert ms[..i] == ms;
    }
  }

  /**
   * First-occurrence order: wherever a later collected location occurs
   * among the neighbours, an earlier collected one occurs before it.
   */
  lemma {:induction false} FirstKeysOrder(ms: seq<Option<Metadata>>, a: nat, c: nat, p: nat)
    requires a < c < |FirstKeys(ms)|
    requires p < |ms| && KeyOf(ms[p]) == Some(FirstKeys(ms)[c])
    ensures exists q :: 0 <= q < p && KeyOf(ms[q]) == Some(FirstKeys(ms)[a])
  {
    var n := |ms|;
    var prefix := ms[..n - 1];
    var keys := FirstKeys(ms);
    var pk := FirstKeys(prefix);
    FirstKeysPrefix(ms, n - 1);
    assert keys[a] == pk[a];
    if c < |pk| {
      assert keys[c] == pk[c];
      if p < n - 1 {
        assert prefix[p] == ms[p];
        FirstKeysOrder(prefix, a, c, p);
        var q :| 0 <= q < p && KeyOf(prefix[q]) == Some(pk[a]);
        assert KeyOf(ms[q]) == Some(keys[a]);
      } else {
        FirstKeysMembers(prefix, pk[c]);
        var p' :| 0 <= p' < |prefix| && KeyOf(prefix[p']) == Some(pk[c]);
        FirstKeysOrder(prefix, a, c, p');
        var q :| 0 <= q < p' && KeyOf(prefix[q]) == Some(pk[a]);
        assert KeyOf(ms[q]) == Some(keys[a]);
      }
    } else {
      assert keys[c] !in pk;
      NotCollectedBefore(ms, keys[c]);
      assert p == n - 1;
      FirstKeysMembers(prefix, pk[a]);
      var q :| 0 <= q < |prefix| && KeyOf(prefix[q]) == Some(pk[a]);
      assert KeyOf(ms[q]) == Some(keys[a]);
    }
  }

  // ----- resolving the collected locations -----

  /** The locations of the resolved pairs are the collected locations that resolve, in order. */
  lemma {:induction false} ResolveAllLocations(docs: seq<Document>, backend: Backend, keys: seq<Location>)
    ensures Locations(ResolveAll(docs, backend, keys)) == Filter(keys, (k: Location) => Resolve(docs, backend, k).Some?)
  {
    if keys != [] {
      var prefix := keys[..|keys| - 1];
      var k := keys[|keys| - 1];
      var resolves := (k: Location) => Resolve(docs, backend, k).Some?;
      ResolveAllLocations(docs, backend, prefix);
      var last := match Resolve(docs, backend, k) case Some(p) => [p] case None => [];
      assert ResolveAll(docs, backend, keys) == ResolveAll(docs, backend, prefix) + last;
      LocationsAppend(ResolveAll(docs, backend, prefix), last);
      assert Locations(last) == if resolves(k) then [k] else [];
      assert Filter(keys, resolves) == Filter(prefix, resolves) + (if resolves(k) then [k] else []);
    }
  }

  lemma LocationsAppend(a: seq<VersePair>, b: seq<VersePair>)
    ensures Locations(a + b) == Locations(a) + Locations(b)
  {
  }

  // ----- the guarantees of search_by_concept -----

  /** At most `top_k` results (at most one when `top_k <= 0`). */
  lemma ConceptBounded(docs: seq<Document>, backend: Backend, query: string, topK: int,
                       ranked: seq<Option<Metadata>>, embedFails: bool, queryFails: bool)
    ensures |ConceptResult(docs, backend, query, topK, ranked, embedFails, queryFails)| <= KeyLimit(topK)
    ensures topK >= 1 ==> |ConceptResult(docs, backend, query, topK, ranked, embedFails, queryFails)| <= topK
  {
  }

  /** Every result is a complete pair: exactly what `search_verse` returns for its location. */
  lemma ConceptComplete(docs: seq<Document>, backend: Backend, query: string, topK: int,
                        ranked: seq<Option<Metadata>>, embedFails: bool, queryFails: bool)
    ensures var out := ConceptResult(docs, backend, query, topK, ranked, embedFails, queryFails);
      forall j :: 0 <= j < |out| ==>
        && out[j].griego != "" && out[j].espanol != ""
        && Resolve(docs, backend, PairLocation(out[j])) == Some(out[j])
        && OccursIn(ranked, PairLocation(out[j]))
  {
    var out := ConceptResult(docs, backend, query, topK, ranked, embedFails, queryFails);
    if out != [] {
      var n := OverFetch(topK, |docs|);
      var fetched := ranked[..Min(n, |ranked|)];
      var keys := TakeKeys(fetched, topK);
      forall j | 0 <= j < |out|
        ensures out[j].griego != "" && out[j].espanol != ""
        ensures OccursIn(ranked, PairLocation(out[j]))
      {
        var loc := PairLocation(out[j]);
        ResolvedIsComplete(docs, backend, loc);
        assert loc in FirstKeys(fetched);
        FirstKeysMembers(fetched, loc);
        var q :| 0 <= q < |fetched| && KeyOf(fetched[q]) == Some(loc);
        assert KeyOf(ranked[q]) == Some(loc);
      }
    }
  }

  /** No location appears twice. */
  lemma ConceptNoDuplicates(docs: seq<Document>, backend: Backend, query: string, topK: int,
                            ranked: seq<Option<Metadata>>, embedFails: bool, queryFails: bool)
    ensures Distinct(Locations(ConceptResult(docs, backend, query, topK, ranked, embedFails, queryFails)))
  {
    var out := ConceptResult(docs, backend, query, topK, ranked, embedFails, queryFails);
    if out != [] {
      var n := OverFetch(topK, |docs|);
      var keys := TakeKeys(ranked[..Min(n, |ranked|)], topK);
      ResolveAllLocations(docs, backend, keys);
      FilterDistinct(keys, (k: Location) => Resolve(docs, backend, k).Some?);
    }
  }

  /**
   * Results keep the neighbours' order: wherever a later result's location
   * occurs among the neighbours, an earlier result's location occurs
   * before it.
   */
  lemma ConceptOrdered(docs: seq<Document>, backend: Backend, query: string, topK: int,
                       ranked: seq<Option<Metadata>>, embedFails: bool, queryFails: bool,
                       a: nat, c: nat, p: nat)
    requires a < c < |ConceptResult(docs, backend, query, topK, ranked, embedFails, queryFails)|
    requires p < |ranked| && KeyOf(ranked[p]) == Some(PairLocation(ConceptResult(docs, backend, query, topK, ranked, embedFails, queryFails)[c]))
    ensures var out := ConceptResult(docs, backend, query, topK, ranked, embedFails, queryFails);
      exists q :: 0 <= q < p && KeyOf(ranked[q]) == Some(PairLocation(out[a]))
  {
    var out := ConceptResult(docs, backend, query, topK, ranked, embedFails, queryFails);
    var m := Min(OverFetch(topK, |docs|), |ranked|);
    var keys := TakeKeys(ranked[..m], topK);
    var resolves := (k: Location) => Resolve(docs, backend, k).Some?;
    assert out == ResolveAll(docs, backend, keys);
    ResolveAllLocations(docs, backend, keys);
    FilterOrder(keys, resolves, a, c);
    var i, j :| 0 <= i < j < |keys| && Locations(out)[a] == keys[i] && Locations(out)[c] == keys[j];
    FetchedOrder(ranked, m, topK, i, j, p);
  }

  /**
   * The same order for the locations collected from the first `m`
   * neighbours, wherever among all the neighbours the later one occurs.
   */
  lemma FetchedOrder(ranked: seq<Option<Metadata>>, m: nat, topK: int, i: nat, j: nat, p: nat)
    requires m <= |ranked| && i < j < |TakeKeys(ranked[..m], topK)|
    requires p < |ranked| && KeyOf(ranked[p]) == Some(TakeKeys(ranked[..m], topK)[j])
    ensures exists q :: 0 <= q < p && KeyOf(ranked[q]) == Some(TakeKeys(ranked[..m], topK)[i])
  {
    var fetched := ranked[..m];
    var all := FirstKeys(fetched);
    var keys := TakeKeys(fetched, topK);
    assert keys[i] == all[i] && keys[j] == all[j];
    if p < m {
      assert fetched[p] == ranked[p];
      FirstKeysOrder(fetched, i, j, p);
      var q :| 0 <= q < p && KeyOf(fetched[q]) == Some(all[i]);
      assert KeyOf(ranked[q]) == Some(all[i]);
    } else {
      FirstKeysMembers(fetched, all[i]);
      var q :| 0 <= q < m && KeyOf(fetched[q]) == Some(all[i]);
      assert KeyOf(ranked[q]) == Some(all[i]);
    }
  }
}
