/** The incremental text index of one namespace: its cached inverted index against one rebuilt from the
    stored documents. */
module TextIndexing {
  import opened ByteStrings
  import opened Collections
  import opened Bloom
  import opened TextPostings

  const InitialCapacity := 4096

  /** Bits and hash count for a capacity. */
  type Sizing = nat -> (nat, nat)

  ghost predicate Usable(size: Sizing) {
    forall c :: size(c).0 > 0
  }

  /** Groups token positions by term. */
  method CollectTerms(tokens: seq<Token>) returns (data: map<Term, seq<nat>>)
    ensures forall t :: t in data <==> HasTerm(tokens, t)
    ensures forall t :: t in data ==> data[t] == Positions(tokens, t)
  {
    data := map[];
    for i := 0 to |tokens|
      invariant forall t :: t in data <==> HasTerm(tokens[..i], t)
      invariant forall t :: t in data ==> data[t] == Positions(tokens[..i], t)
    {
      assert tokens[..i + 1][..i] == tokens[..i];
      var term := tokens[i].term;
      data := data[term := (if term in data then data[term] else []) + [tokens[i].position]];
    }
    assert tokens[..|tokens|] == tokens;
  }

  /** `qs` extends `ps` by the document's postings under the terms of `done`. */
  ghost predicate Adding(ps: Postings, qs: Postings, done: set<Term>, doc: Bytes, d: Document, tokens: seq<Token>) {
    && (forall t :: t in qs <==> t in ps || t in done)
    && (forall t :: t in qs ==> qs[t] == (if t in ps then ps[t] else []) + if t in done then [PostingFor(doc, d, tokens, t)] else [])
  }

  lemma {:induction false} AddingStep(ps: Postings, qs: Postings, done: set<Term>, doc: Bytes, d: Document, tokens: seq<Token>, t: Term, p: Posting)
    requires Adding(ps, qs, done, doc, d, tokens) && t !in done && p == PostingFor(doc, d, tokens, t)
    ensures Adding(ps, qs[t := (if t in qs then qs[t] else []) + [p]], done + {t}, doc, d, tokens)
  {
  }

  method PostAll(ps: Postings, data: map<Term, seq<nat>>, doc: Bytes, d: Document, tokens: seq<Token>) returns (qs: Postings)
    requires forall t :: t in data <==> HasTerm(tokens, t)
    requires forall t :: t in data ==> data[t] == Positions(tokens, t)
    ensures Added(ps, qs, doc, d, tokens)
  {
    qs := ps;
    var todo := data.Keys;
    ghost var done: set<Term> := {};
    while todo != {}
      invariant Adding(ps, qs, done, doc, d, tokens) && todo !! done && todo + done == data.Keys
      decreases todo
    {
      var t :| t in todo;
      var posting := Posting(doc, |data[t]|, |tokens|, d.facets, data[t]);
      AddingStep(ps, qs, done, doc, d, tokens, t, posting);
      qs := qs[t := (if t in qs then qs[t] else []) + [posting]];
      todo, done := todo - {t}, done + {t};
    }
    assert done == data.Keys;
  }

  /** Filters every list; also reports the length of the removed document. */
  method RemoveAll(ps: Postings, doc: Bytes) returns (qs: Postings, removedLen: Option<nat>)
    ensures Removed(ps, qs, doc)
    ensures removedLen.Some? ==> exists t, p :: Posted(ps, t, p) && p.doc == doc && p.docLen == removedLen.value
    ensures removedLen.None? ==> forall t, p :: Posted(ps, t, p) ==> p.doc != doc
  {
    qs, removedLen := map[], None;
    var todo := ps.Keys;
    ghost var done: set<Term> := {};
    while todo != {}
      invariant todo !! done && todo + done == ps.Keys
      invariant forall t :: t in qs <==> t in done && Others(ps[t], doc) != []
      invariant forall t :: t in qs ==> qs[t] == Others(ps[t], doc)
      invariant removedLen.Some? ==> exists t, p :: Posted(ps, t, p) && p.doc == doc && p.docLen == removedLen.value
      invariant removedLen.None? ==> forall t, p :: t in done && Posted(ps, t, p) ==> p.doc != doc
      decreases todo
    {
      var t :| t in todo;
      var kept, len := Retain(ps[t], doc);
      if removedLen.None? && len.Some? {
        removedLen := len;
        ghost var p :| p in ps[t] && p.doc == doc && p.docLen == len.value;
        assert Posted(ps, t, p);
      }
      if kept != [] {
        qs := qs[t := kept];
      }
      todo, done := todo - {t}, done + {t};
    }
    assert done == ps.Keys;
  }

  method Retain(list: seq<Posting>, doc: Bytes) returns (kept: seq<Posting>, len: Option<nat>)
    ensures kept == Others(list, doc)
    ensures len.Some? ==> exists p :: p in list && p.doc == doc && p.docLen == len.value
    ensures len.None? ==> forall p :: p in list ==> p.doc != doc
  {
    kept, len := [], None;
    for i := 0 to |list|
      invariant kept == Others(list[..i], doc)
      invariant len.Some? ==> exists p :: p in list && p.doc == doc && p.docLen == len.value
      invariant len.None? ==> forall j :: 0 <= j < i ==> list[j].doc != doc
    {
      assert list[..i + 1][..i] == list[..i];
      if list[i].doc == doc {
        if len.None? {
          len := Some(list[i].docLen);
        }
      } else {
        kept := kept + [list[i]];
      }
    }
    assert list[..|list|] == list;
  }

  /** The filter answers yes for every posted document. */
  ghost predicate Covers(bloom: Filter, ps: Postings)
    requires Sized(bloom)
  {
    forall t, p :: Posted(ps, t, p) ==> MightContain(bloom, p.doc)
  }

  /** The documents of some postings. */
  function DocsOf(list: seq<Posting>): set<Bytes> {
    set p | p in list :: p.doc
  }

  ghost function PostedDocs(ps: Postings, terms: set<Term>): set<Bytes> {
    set t, p | t in terms && t in ps && p in ps[t] :: p.doc
  }

  lemma {:induction false} PostedMore(ps: Postings, done: set<Term>, t: Term)
    requires t in ps
    ensures PostedDocs(ps, done + {t}) == PostedDocs(ps, done) + DocsOf(ps[t])
  {
  }

  lemma {:induction false} AllCovered(bloom: Filter, ps: Postings, terms: set<Term>)
    requires Sized(bloom) && HoldsOnly(bloom, PostedDocs(ps, terms)) && ps.Keys <= terms
    ensures Covers(bloom, ps)
  {
    forall t, p | Posted(ps, t, p)
      ensures MightContain(bloom, p.doc)
    {
      forall i | 0 <= i < bloom.numHashes
        ensures bloom.bits[Position(bloom.seed(p.doc), i, |bloom.bits|)]
      {
        var q := Position(bloom.seed(p.doc), i, |bloom.bits|);
        assert Probed(bloom, p.doc, q) && p.doc in PostedDocs(ps, terms);
      }
    }
  }

  /** A fresh filter holding the documents of all postings and nothing else. */
  method RebuildBloom(ps: Postings, capacity: nat, size: Sizing, seed: Hasher) returns (bloom: Filter)
    requires Usable(size)
    ensures Sized(bloom) && Covers(bloom, ps) && HoldsOnly(bloom, PostedDocs(ps, ps.Keys))
    ensures bloom.capacity == if capacity > InitialCapacity then capacity else InitialCapacity
  {
    var c := if capacity > InitialCapacity then capacity else InitialCapacity;
    bloom := Empty(size(c).0, size(c).1, c, seed);
    var todo := ps.Keys;
    ghost var done: set<Term> := {};
    while todo != {}
      invariant Sized(bloom) && bloom.capacity == c && todo !! done && todo + done == ps.Keys
      invariant HoldsOnly(bloom, PostedDocs(ps, done))
      decreases todo
    {
      var t :| t in todo;
      bloom := InsertDocs(bloom, ps[t], PostedDocs(ps, done));
      PostedMore(ps, done, t);
      todo, done := todo - {t}, done + {t};
    }
    assert done == ps.Keys;
    AllCovered(bloom, ps, done);
  }

  method InsertDocs(bloom: Filter, list: seq<Posting>, ghost items: set<Bytes>) returns (b: Filter)
    requires Sized(bloom) && HoldsOnly(bloom, items)
    ensures Sized(b) && b.capacity == bloom.capacity && HoldsOnly(b, items + DocsOf(list))
  {
    b := bloom;
    assert items + DocsOf(list[..0]) == items;
    for i := 0 to |list|
      invariant Sized(b) && b.capacity == bloom.capacity && HoldsOnly(b, items + DocsOf(list[..i]))
    {
      ghost var before := b;
      b := Insert(b, list[i].doc);
      HoldsOneMore(before, b, items + DocsOf(list[..i]), list[i].doc);
      assert items + DocsOf(list[..i + 1]) == items + DocsOf(list[..i]) + {list[i].doc};
    }
    assert list[..|list|] == list;
  }

  lemma {:induction false} AddedSays(tok: Tokenizer, qs: Postings, docs: Documents, doc: Bytes, d: Document)
    requires PostingsMatch(tok, qs, docs[doc := d])
    ensures AllDescribed(tok, qs, docs[doc := d]) && SumOver(qs.Keys, FreqOf(qs, doc)) == |tok(d.text)|
  {
    MatchingDescribes(tok, qs, docs[doc := d]);
    FrequenciesAddUp(tok, qs, docs[doc := d], doc);
  }

  lemma {:induction false} AddedCounts(tok: Tokenizer, ps: Postings, qs: Postings, n: nat, total: nat, docs: Documents, extra: nat, doc: Bytes, d: Document)
    requires Matches(tok, ps, n, total, docs, extra) && doc !in docs && Added(ps, qs, doc, d, tok(d.text))
    ensures Matches(tok, qs, n + 1, total + |tok(d.text)|, docs[doc := d], extra)
  {
    AddedMatches(tok, ps, qs, docs, doc, d);
    TotalLenWith(tok, docs, doc, d);
  }

  class InvertedIndex {
    var postings: Postings
    var totalDocs: nat
    var totalDocLen: nat
    var bloom: Filter

    ghost predicate Valid()
      reads this
    {
      Sized(bloom) && Covers(bloom, postings)
    }

    /** The index of `docs`, with `extra` documents too many in the count. */
    ghost predicate Indexes(tok: Tokenizer, docs: Documents, extra: nat)
      reads this
    {
      Valid() && Matches(tok, postings, totalDocs, totalDocLen, docs, extra)
    }

    constructor (tok: Tokenizer, size: Sizing, seed: Hasher)
      requires Usable(size)
      ensures Indexes(tok, map[], 0)
    {
      postings, totalDocs, totalDocLen := map[], 0, 0;
      bloom := Empty(size(InitialCapacity).0, size(InitialCapacity).1, InitialCapacity, seed);
    }

    /** Grows a saturated filter first, then inserts. */
    method BloomInsert(doc: Bytes, size: Sizing, seed: Hasher)
      requires Valid() && Usable(size)
      modifies this`bloom
      ensures Valid() && MightContain(bloom, doc)
      ensures IsSaturated(old(bloom)) ==>
                && HoldsOnly(bloom, PostedDocs(postings, postings.Keys) + {doc})
                && bloom.capacity == (if old(bloom).capacity * 2 > InitialCapacity then old(bloom).capacity * 2 else InitialCapacity)
      ensures !IsSaturated(old(bloom)) ==> Grown(old(bloom), bloom) && AddedBits(old(bloom), bloom, doc)
    {
      if IsSaturated(bloom) {
        bloom := RebuildBloom(postings, bloom.capacity * 2, size, seed);
      }
      ghost var before := bloom;
      bloom := Insert(bloom, doc);
      if IsSaturated(old(bloom)) {
        HoldsOneMore(before, bloom, PostedDocs(postings, postings.Keys), doc);
      }
    }

    method AddDocument(tok: Tokenizer, doc: Bytes, d: Document, size: Sizing, seed: Hasher, ghost docs: Documents, ghost extra: nat)
      requires Indexes(tok, docs, extra) && doc !in docs && Usable(size)
      modifies this
      ensures Indexes(tok, docs[doc := d], extra)
      ensures AllDescribed(tok, postings, docs[doc := d])
      ensures SumOver(postings.Keys, FreqOf(postings, doc)) == |tok(d.text)|
    {
      BloomInsert(doc, size, seed);
      var tokens := tok(d.text);
      var data := CollectTerms(tokens);
      var qs := PostAll(postings, data, doc, d, tokens);
      AddedCounts(tok, postings, qs, totalDocs, totalDocLen, docs, extra, doc, d);
      AddedSays(tok, qs, docs, doc, d);
      StillCovered(bloom, postings, qs, doc, d, tokens);
      postings := qs;
      totalDocs := totalDocs + 1;
      totalDocLen := totalDocLen + |tokens|;
    }

    /** Removes a document's postings. The two asserts are the source's own underflow checks. */
    method RemoveDocument(tok: Tokenizer, doc: Bytes, ghost docs: Documents, ghost extra: nat) returns (found: bool)
      requires Indexes(tok, docs, extra)
      modifies this
      ensures Indexes(tok, docs - {doc}, extra + Missed(tok, docs, doc)) && (found <==> doc in docs && !Tokenless(tok, docs, doc))
    {
      var qs, len := Forget(tok, postings, doc, bloom, totalDocs, totalDocLen, docs, extra);
      if len.Some? {
        assert totalDocs > 0;
        assert totalDocLen >= len.value;
        totalDocs := totalDocs - 1;
        totalDocLen := totalDocLen - len.value;
      }
      postings := qs;
      found := len.Some?;
    }
  }

  lemma {:induction false} RemoveStep(tok: Tokenizer, ps: Postings, qs: Postings, n: nat, total: nat, docs: Documents, extra: nat, doc: Bytes, len: Option<nat>)
    requires Matches(tok, ps, n, total, docs, extra) && Removed(ps, qs, doc)
    requires len.Some? ==> exists t, p :: Posted(ps, t, p) && p.doc == doc && p.docLen == len.value
    requires len.None? ==> forall t, p :: Posted(ps, t, p) ==> p.doc != doc
    ensures len.Some? <==> doc in docs && !Tokenless(tok, docs, doc)
    ensures len.Some? ==> n > 0 && total >= len.value && Matches(tok, qs, n - 1, total - len.value, docs - {doc}, extra)
    ensures len.None? ==> Matches(tok, qs, n, total, docs - {doc}, extra + Missed(tok, docs, doc))
  {
    FoundIff(tok, ps, docs, doc);
    RemovalExactIff(tok, ps, qs, n, total, docs, extra, doc);
    if len.Some? {
      RemovedLength(tok, ps, docs, doc, len.value);
    }
  }

  method Forget(tok: Tokenizer, ps: Postings, doc: Bytes, ghost bloom: Filter, ghost n: nat, ghost total: nat, ghost docs: Documents, ghost extra: nat)
    returns (qs: Postings, len: Option<nat>)
    requires Sized(bloom) && Covers(bloom, ps) && Matches(tok, ps, n, total, docs, extra)
    ensures Covers(bloom, qs) && (len.Some? <==> doc in docs && !Tokenless(tok, docs, doc))
    ensures len.Some? ==> n > 0 && total >= len.value && Matches(tok, qs, n - 1, total - len.value, docs - {doc}, extra)
    ensures len.None? ==> Matches(tok, qs, n, total, docs - {doc}, extra + Missed(tok, docs, doc))
  {
    qs, len := RemoveAll(ps, doc);
    RemoveStep(tok, ps, qs, n, total, docs, extra, doc, len);
    RemovedCovered(bloom, ps, qs, doc);
  }

  lemma {:induction false} StillCovered(bloom: Filter, ps: Postings, qs: Postings, doc: Bytes, d: Document, tokens: seq<Token>)
    requires Sized(bloom) && Covers(bloom, ps) && MightContain(bloom, doc) && Added(ps, qs, doc, d, tokens)
    ensures Covers(bloom, qs)
  {
    forall t, p | Posted(qs, t, p)
      ensures MightContain(bloom, p.doc)
    {
      assert Posted(ps, t, p) || p.doc == doc;
    }
  }

  lemma {:induction false} RemovedCovered(bloom: Filter, ps: Postings, qs: Postings, doc: Bytes)
    requires Sized(bloom) && Covers(bloom, ps) && Removed(ps, qs, doc)
    ensures Covers(bloom, qs)
  {
    forall t, p | Posted(qs, t, p)
      ensures MightContain(bloom, p.doc)
    {
      OthersMembers(ps[t], doc);
      assert Posted(ps, t, p);
    }
  }

  lemma {:induction false} RemovedLength(tok: Tokenizer, ps: Postings, docs: Documents, doc: Bytes, len: nat)
    requires PostingsMatch(tok, ps, docs) && exists t, p :: Posted(ps, t, p) && p.doc == doc && p.docLen == len
    ensures doc in docs && len == DocLen(tok, docs[doc])
  {
    var t, p :| Posted(ps, t, p) && p.doc == doc && p.docLen == len;
    assert Expected(tok, docs, t, p);
  }

  // ---- The text index ----

  const IndexKey: Bytes := [0x5F, 0x5F, 0x69, 0x6E, 0x64, 0x65, 0x78, 0x5F, 0x5F]

  /** What the engine holds under a key of the text namespace. */
  datatype Stored = Record(document: Document) | Sidecar

  function StoredDocuments(records: map<Bytes, Stored>): Documents {
    map k | k in records && k != IndexKey && records[k].Record? :: records[k].document
  }

  lemma StoreOne(records: map<Bytes, Stored>, key: Bytes, d: Document)
    requires key != IndexKey
    ensures StoredDocuments(records[key := Record(d)]) == StoredDocuments(records)[key := d]
  {
  }

  lemma DropOne(records: map<Bytes, Stored>, key: Bytes, sidecarToo: bool)
    ensures var rest := (if sidecarToo then records - {IndexKey} else records) - {key};
            StoredDocuments(rest) == StoredDocuments(records) - {key}
  {
  }

  /** A document the filter rules out has no postings. */
  lemma {:induction false} RuledOut(tok: Tokenizer, ps: Postings, n: nat, len: nat, docs: Documents, extra: nat, bloom: Filter, key: Bytes)
    requires Matches(tok, ps, n, len, docs, extra) && Sized(bloom) && Covers(bloom, ps) && !MightContain(bloom, key)
    ensures Matches(tok, ps, n, len, docs - {key}, extra + Missed(tok, docs, key))
  {
    assert forall t, p :: Posted(ps, t, p) ==> p.doc != key;
    NothingPosted(ps, key);
    RemoveStep(tok, ps, ps, n, len, docs, extra, key, None);
  }

  lemma {:induction false} NothingPosted(ps: Postings, key: Bytes)
    requires forall t, p :: Posted(ps, t, p) ==> p.doc != key
    ensures (forall t :: t in ps ==> ps[t] != []) ==> Removed(ps, ps, key)
  {
    forall t | t in ps
      ensures Others(ps[t], key) == ps[t]
    {
      forall p | p in ps[t]
        ensures p.doc != key
      {
        assert Posted(ps, t, p);
      }
      OthersAll(ps[t], key);
    }
  }

  lemma {:induction false} OthersAll(list: seq<Posting>, doc: Bytes)
    requires forall p :: p in list ==> p.doc != doc
    ensures Others(list, doc) == list
  {
    if list != [] {
      OthersAll(list[..|list| - 1], doc);
      assert list == list[..|list| - 1] + [list[|list| - 1]];
    }
  }

  /** Removes the old postings of `key` unless the filter rules them out. */
  method MakeRoom(index: InvertedIndex, tok: Tokenizer, key: Bytes, ghost docs: Documents, ghost extra: nat)
    requires index.Indexes(tok, docs, extra)
    modifies index
    ensures index.Indexes(tok, docs - {key}, extra + Missed(tok, docs, key))
  {
    if MightContain(index.bloom, key) {
      var found := index.RemoveDocument(tok, key, docs, extra);
    } else {
      RuledOut(tok, index.postings, index.totalDocs, index.totalDocLen, docs, extra, index.bloom, key);
    }
  }

  lemma PutBack(docs: Documents, key: Bytes, d: Document)
    ensures key !in docs - {key} && (docs - {key})[key := d] == docs[key := d]
  {
  }

  lemma ExtraIsSurplus(index: InvertedIndex, tok: Tokenizer, docs: Documents, extra: nat)
    requires index.Indexes(tok, docs, extra)
    ensures index.totalDocs - |docs| == extra
  {
  }

  function Except(records: map<Bytes, Stored>, todo: set<Bytes>): map<Bytes, Stored> {
    map k | k in records && k !in todo :: records[k]
  }

  lemma StoredMore(records: map<Bytes, Stored>, todo: set<Bytes>, k: Bytes)
    requires k in todo && k in records
    ensures StoredDocuments(Except(records, todo - {k})) ==
            if k != IndexKey && records[k].Record? then StoredDocuments(Except(records, todo))[k := records[k].document] else StoredDocuments(Except(records, todo))
    ensures k !in StoredDocuments(Except(records, todo))
  {
  }

  class TextIndex {
    const tok: Tokenizer
    const size: Sizing
    var index: InvertedIndex?
    var dirty: bool
    var records: map<Bytes, Stored>

    /** How many documents too many the cached index counts. */
    function Surplus(): int
      reads this, index
    {
      if index == null then 0 else index.totalDocs - |StoredDocuments(records)|
    }

    /** If an index is cached, its postings and its length are those of the stored documents. */
    ghost predicate Valid()
      reads this, index
    {
      Usable(size) && Surplus() >= 0 && (index != null ==> index.Indexes(tok, StoredDocuments(records), Surplus()))
    }

    constructor (tok: Tokenizer, size: Sizing)
      requires Usable(size)
      ensures Valid() && index == null && records == map[] && this.tok == tok && this.size == size
    {
      this.tok, this.size := tok, size;
      index, dirty, records := null, false, map[];
    }

    /** Scans the stored records, skipping the sidecar. */
    method RebuildFromEngine(seed: Hasher) returns (r: InvertedIndex)
      requires Usable(size)
      ensures fresh(r) && r.Indexes(tok, StoredDocuments(records), 0)
    {
      r := new InvertedIndex(tok, size, seed);
      var todo := records.Keys;
      ghost var done: Documents := map[];
      while todo != {}
        invariant fresh(r) && todo <= records.Keys && done == StoredDocuments(Except(records, todo))
        invariant r.Indexes(tok, done, 0)
        decreases todo
      {
        var k :| k in todo;
        StoredMore(records, todo, k);
        if k != IndexKey && records[k].Record? {
          var d := records[k].document;
          r.AddDocument(tok, k, d, size, seed, done, 0);
          done := done[k := d];
        }
        todo := todo - {k};
      }
      assert Except(records, todo) == records;
    }

    /** The single place where a missing index is built. */
    method EnsureLoaded(seed: Hasher)
      requires Valid()
      modifies this`index
      ensures Valid() && index != null && (old(index) != null ==> index == old(index)) && (old(index) == null ==> fresh(index))
      ensures Surplus() == old(Surplus())
    {
      if index == null {
        index := RebuildFromEngine(seed);
      }
    }

    /** Replaces the document under `key`. The filter decides whether to look for old postings; a replaced
        document without tokens stays in the count. */
    method IndexDocument(key: Bytes, text: string, facets: map<string, string>, seed: Hasher)
      requires Valid() && key != IndexKey
      modifies this, index
      ensures Valid() && index != null && (old(index) == null ==> fresh(index)) && (old(index) != null ==> index == old(index))
      ensures StoredDocuments(records) == old(StoredDocuments(records))[key := Document(text, facets)]
      ensures Surplus() == old(Surplus()) + Missed(tok, old(StoredDocuments(records)), key)
    {
      EnsureLoaded(seed);
      ghost var docs, extra := StoredDocuments(records), Surplus();
      var d := Document(text, facets);
      StoreOne(records, key, d);
      MakeRoom(index, tok, key, docs, extra);
      PutBack(docs, key, d);
      index.AddDocument(tok, key, d, size, seed, docs - {key}, extra + Missed(tok, docs, key));
      ExtraIsSurplus(index, tok, docs[key := d], extra + Missed(tok, docs, key));
      dirty := true;
      records := records[key := Record(d)];
    }

    /** Takes the document out of the cached index, which is loaded if need be. */
    method DropPostings(key: Bytes, seed: Hasher) returns (isEmpty: bool)
      requires Valid()
      modifies this`index, index
      ensures index != null && (old(index) == null ==> fresh(index)) && (old(index) != null ==> index == old(index))
      ensures index.Indexes(tok, StoredDocuments(records) - {key}, old(Surplus()) + Missed(tok, StoredDocuments(records), key))
      ensures isEmpty <==> index.totalDocs == 0
    {
      EnsureLoaded(seed);
      var found := index.RemoveDocument(tok, key, StoredDocuments(records), Surplus());
      isEmpty := index.totalDocs == 0;
    }

    /** Removes the document; the cache and the sidecar go with the last one counted. */
    method DeleteDocument(key: Bytes, seed: Hasher)
      requires Valid() && key != IndexKey
      modifies this, index
      ensures Valid()
      ensures StoredDocuments(records) == old(StoredDocuments(records)) - {key}
      ensures var extra := old(Surplus()) + Missed(tok, old(StoredDocuments(records)), key);
              && Surplus() == extra
              && (index == null <==> StoredDocuments(records) == map[] && extra == 0)
      ensures index == null ==> IndexKey !in records
    {
      ghost var docs, extra := StoredDocuments(records), Surplus() + Missed(tok, StoredDocuments(records), key);
      var isEmpty := DropPostings(key, seed);
      ExtraIsSurplus(index, tok, docs - {key}, extra);
      DropOne(records, key, isEmpty);
      if isEmpty {
        index, dirty := null, false;
        records := records - {IndexKey};
      } else {
        dirty := true;
      }
      records := records - {key};
    }

    /** Writes the sidecar of a changed index. */
    method Persist()
      requires Valid()
      modifies this
      ensures Valid() && index == old(index) && StoredDocuments(records) == old(StoredDocuments(records)) && !dirty
    {
      if dirty {
        records := records[IndexKey := Sidecar];
        assert StoredDocuments(records) == old(StoredDocuments(records));
        dirty := false;
      }
    }

    /** A new process: only the engine's records remain. */
    method Restart()
      requires Valid()
      modifies this
      ensures Valid() && records == old(records) && index == null
    {
      index, dirty := null, false;
    }

    /** The cached index and one rebuilt from the records: same lengths, under every term the same
        postings up to order, and document counts that differ by the surplus. */
    method CompareWithRebuilt(seed: Hasher) returns (r: InvertedIndex)
      requires Valid() && index != null
      ensures fresh(r) && r.totalDocLen == index.totalDocLen
      ensures index.totalDocs == r.totalDocs + Surplus() && r.totalDocs == |StoredDocuments(records)|
      ensures r.postings.Keys == index.postings.Keys
      ensures forall t :: t in r.postings ==> multiset(r.postings[t]) == multiset(index.postings[t])
    {
      r := RebuildFromEngine(seed);
      forall t
        ensures t in r.postings <==> t in index.postings
        ensures t in r.postings ==> multiset(r.postings[t]) == multiset(index.postings[t])
      {
        SameDocumentsSamePostings(tok, r.postings, index.postings, StoredDocuments(records), t);
      }
    }
  }

  /** Indexing one document twice: the cached count is the rebuilt one exactly when the text has a token;
      otherwise the document is counted twice. */
  method IndexTwice(tok: Tokenizer, size: Sizing, key: Bytes, text: string, facets: map<string, string>, seed: Hasher)
    returns (cached: nat, rebuilt: nat)
    requires Usable(size) && key != IndexKey
    ensures rebuilt == 1 && cached == if tok(text) == [] then 2 else 1
  {
    var ti := new TextIndex(tok, size);
    ti.IndexDocument(key, text, facets, seed);
    ti.IndexDocument(key, text, facets, seed);
    var r := ti.CompareWithRebuilt(seed);
    return ti.index.totalDocs, r.totalDocs;
  }
}
