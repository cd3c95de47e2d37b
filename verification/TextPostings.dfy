/** The inverted index as a value: postings per term, and what they say about a set of documents. */
module TextPostings {
  import opened ByteStrings
  import opened Collections

  type Term = string
  datatype Token = Token(term: Term, position: nat)
  type Tokenizer = string -> seq<Token>
  datatype Document = Document(text: string, facets: map<string, string>)
  datatype Posting = Posting(doc: Bytes, freq: nat, docLen: nat, facets: map<string, string>, positions: seq<nat>)

  type Documents = map<Bytes, Document>
  type Postings = map<Term, seq<Posting>>

  // ---- What a document contributes ----

  /** The positions of a term, in order. */
  function Positions(tokens: seq<Token>, t: Term): seq<nat> {
    if tokens == [] then []
    else Positions(tokens[..|tokens| - 1], t) + if tokens[|tokens| - 1].term == t then [tokens[|tokens| - 1].position] else []
  }

  function PostingFor(doc: Bytes, d: Document, tokens: seq<Token>, t: Term): Posting {
    Posting(doc, |Positions(tokens, t)|, |tokens|, d.facets, Positions(tokens, t))
  }

  predicate HasTerm(tokens: seq<Token>, t: Term) {
    Positions(tokens, t) != []
  }

  lemma {:induction false} TokenIsTerm(tokens: seq<Token>, i: nat)
    requires i < |tokens|
    ensures HasTerm(tokens, tokens[i].term)
  {
    if i < |tokens| - 1 {
      TokenIsTerm(tokens[..|tokens| - 1], i);
    }
  }

  // ---- Matching ----

  predicate Posted(ps: Postings, t: Term, p: Posting) {
    t in ps && p in ps[t]
  }

  /** `p` is what the documents post under `t`. */
  predicate Expected(tok: Tokenizer, docs: Documents, t: Term, p: Posting) {
    p.doc in docs && HasTerm(tok(docs[p.doc].text), t) && p == PostingFor(p.doc, docs[p.doc], tok(docs[p.doc].text), t)
  }

  predicate OnePerDocument(list: seq<Posting>) {
    forall i, j :: 0 <= i < j < |list| ==> list[i].doc != list[j].doc
  }

  /** Non-empty lists, one posting per document, exactly the expected postings. */
  ghost predicate PostingsMatch(tok: Tokenizer, ps: Postings, docs: Documents) {
    && (forall t :: t in ps ==> ps[t] != [] && OnePerDocument(ps[t]))
    && (forall t, p :: Posted(ps, t, p) <==> Expected(tok, docs, t, p))
  }

  function DocLen(tok: Tokenizer, d: Document): nat {
    |tok(d.text)|
  }

  ghost function TotalLen(tok: Tokenizer, docs: Documents): nat
    decreases docs.Keys
  {
    if docs == map[] then 0
    else
      var k :| k in docs;
      assert (docs - {k}).Keys == docs.Keys - {k};
      DocLen(tok, docs[k]) + TotalLen(tok, docs - {k})
  }

  lemma {:induction false} TotalLenWithout(tok: Tokenizer, docs: Documents, k: Bytes)
    requires k in docs
    ensures TotalLen(tok, docs) == DocLen(tok, docs[k]) + TotalLen(tok, docs - {k})
    decreases docs.Keys
  {
    assert docs != map[];
    var x :| x in docs && TotalLen(tok, docs) == DocLen(tok, docs[x]) + TotalLen(tok, docs - {x});
    if x != k {
      assert (docs - {x}).Keys == docs.Keys - {x};
      TotalLenWithout(tok, docs - {x}, k);
      assert (docs - {k}).Keys == docs.Keys - {k};
      TotalLenWithout(tok, docs - {k}, x);
      assert docs - {x} - {k} == docs - {k} - {x};
    }
  }

  lemma {:induction false} TotalLenWith(tok: Tokenizer, docs: Documents, k: Bytes, d: Document)
    requires k !in docs
    ensures TotalLen(tok, docs[k := d]) == TotalLen(tok, docs) + DocLen(tok, d) && |docs[k := d]| == |docs| + 1
  {
    var docs' := docs[k := d];
    assert docs'.Keys == docs.Keys + {k} && |docs'.Keys| == |docs.Keys| + 1;
    TotalLenWithout(tok, docs', k);
    assert docs' - {k} == docs;
  }

  /** The postings and the length are those of the documents; the count has `extra` documents too many. */
  ghost predicate Matches(tok: Tokenizer, ps: Postings, totalDocs: nat, totalLen: nat, docs: Documents, extra: nat) {
    PostingsMatch(tok, ps, docs) && totalDocs == |docs| + extra && totalLen == TotalLen(tok, docs)
  }

  /** Two indexes of the same documents agree up to the order of postings. */
  lemma {:induction false} SameDocumentsSamePostings(tok: Tokenizer, ps: Postings, qs: Postings, docs: Documents, t: Term)
    requires PostingsMatch(tok, ps, docs) && PostingsMatch(tok, qs, docs)
    ensures t in ps <==> t in qs
    ensures t in ps ==> multiset(ps[t]) == multiset(qs[t])
  {
    assert t in ps ==> Posted(ps, t, ps[t][0]) && Expected(tok, docs, t, ps[t][0]);
    assert t in qs ==> Posted(qs, t, qs[t][0]) && Expected(tok, docs, t, qs[t][0]);
    if t in ps {
      forall p
        ensures multiset(ps[t])[p] == multiset(qs[t])[p]
      {
        CountOne(ps[t], p);
        CountOne(qs[t], p);
        assert Posted(ps, t, p) <==> Posted(qs, t, p);
      }
    }
  }

  lemma {:induction false} CountOne(list: seq<Posting>, p: Posting)
    requires OnePerDocument(list)
    ensures multiset(list)[p] == if p in list then 1 else 0
  {
    if list != [] {
      var l', x := list[..|list| - 1], list[|list| - 1];
      assert list == l' + [x];
      CountOne(l', p);
    }
  }

  // ---- What a posting says ----

  function Terms(tokens: seq<Token>): (ts: seq<Term>)
    ensures |ts| == |tokens| && forall i :: 0 <= i < |tokens| ==> ts[i] == tokens[i].term
  {
    seq(|tokens|, i requires 0 <= i < |tokens| => tokens[i].term)
  }

  predicate Increasing(at: seq<nat>) {
    forall i, j :: 0 <= i < j < |at| ==> at[i] < at[j]
  }

  /** `at` are the indices of the tokens with term `t`, and `list` their positions. */
  predicate PositionsAt(tokens: seq<Token>, t: Term, list: seq<nat>, at: seq<nat>) {
    && |at| == |list| && Increasing(at)
    && (forall j :: 0 <= j < |at| ==> at[j] < |tokens| && tokens[at[j]].term == t && list[j] == tokens[at[j]].position)
    && (forall i :: 0 <= i < |tokens| && tokens[i].term == t ==> i in at)
  }

  /** `list` has the positions of exactly the tokens with term `t`, in order. */
  ghost predicate PositionsOf(tokens: seq<Token>, t: Term, list: seq<nat>) {
    exists at :: PositionsAt(tokens, t, list, at)
  }

  /** What a posting promises: how often the term occurs and where, the document's length and facets. */
  ghost predicate Describes(p: Posting, d: Document, tokens: seq<Token>, t: Term) {
    && p.freq == multiset(Terms(tokens))[t] > 0 && PositionsOf(tokens, t, p.positions)
    && p.docLen == |tokens| && p.facets == d.facets
  }

  lemma {:induction false} PositionsListed(tokens: seq<Token>, t: Term) returns (at: seq<nat>)
    ensures PositionsAt(tokens, t, Positions(tokens, t), at)
  {
    if tokens == [] {
      at := [];
    } else {
      at := PositionsListed(tokens[..|tokens| - 1], t);
      if tokens[|tokens| - 1].term == t {
        at := at + [|tokens| - 1];
        assert forall i :: 0 <= i < |tokens| - 1 ==> tokens[..|tokens| - 1][i] == tokens[i];
        assert |tokens| - 1 == at[|at| - 1];
      }
    }
  }

  lemma {:induction false} PositionsCounted(tokens: seq<Token>, t: Term)
    ensures |Positions(tokens, t)| == multiset(Terms(tokens))[t]
  {
    if tokens != [] {
      PositionsCounted(tokens[..|tokens| - 1], t);
      assert Terms(tokens) == Terms(tokens[..|tokens| - 1]) + [tokens[|tokens| - 1].term];
    }
  }

  /** Every posting describes its term in its document, and every term of a document has a posting. */
  ghost predicate AllDescribed(tok: Tokenizer, ps: Postings, docs: Documents) {
    && (forall t, p :: Posted(ps, t, p) ==> p.doc in docs && Describes(p, docs[p.doc], tok(docs[p.doc].text), t))
    && (forall t, doc :: doc in docs && t in Terms(tok(docs[doc].text)) ==> HasPosting(ps, t, doc))
  }

  ghost predicate HasPosting(ps: Postings, t: Term, doc: Bytes) {
    exists p :: Posted(ps, t, p) && p.doc == doc
  }

  lemma {:induction false} MatchingDescribes(tok: Tokenizer, ps: Postings, docs: Documents)
    requires PostingsMatch(tok, ps, docs)
    ensures AllDescribed(tok, ps, docs)
  {
    forall t, p | Posted(ps, t, p)
      ensures p.doc in docs && Describes(p, docs[p.doc], tok(docs[p.doc].text), t)
    {
      assert Expected(tok, docs, t, p);
      var at := PositionsListed(tok(docs[p.doc].text), t);
      PositionsCounted(tok(docs[p.doc].text), t);
    }
    forall t, doc | doc in docs && t in Terms(tok(docs[doc].text))
      ensures HasPosting(ps, t, doc)
    {
      var tokens := tok(docs[doc].text);
      var i :| 0 <= i < |tokens| && Terms(tokens)[i] == t;
      TokenIsTerm(tokens, i);
      assert Expected(tok, docs, t, PostingFor(doc, docs[doc], tokens, t));
      assert Posted(ps, t, PostingFor(doc, docs[doc], tokens, t));
    }
  }

  // ---- Frequencies add up ----

  /** The frequencies a list has for one document. */
  function FreqIn(list: seq<Posting>, doc: Bytes): nat {
    if list == [] then 0
    else FreqIn(list[..|list| - 1], doc) + if list[|list| - 1].doc == doc then list[|list| - 1].freq else 0
  }

  function FreqOf(ps: Postings, doc: Bytes): Term -> nat {
    t => if t in ps then FreqIn(ps[t], doc) else 0
  }

  function CountOf(tokens: seq<Token>): Term -> nat {
    t => |Positions(tokens, t)|
  }

  lemma {:induction false} FreqOne(list: seq<Posting>, doc: Bytes, freq: nat)
    requires OnePerDocument(list) && forall p :: p in list && p.doc == doc ==> p.freq == freq
    ensures FreqIn(list, doc) == if exists p :: p in list && p.doc == doc then freq else 0
  {
    if list != [] {
      var l', x := list[..|list| - 1], list[|list| - 1];
      assert list == l' + [x];
      FreqOne(l', doc, freq);
    }
  }

  lemma {:induction false} CountsAddUp(tokens: seq<Token>, ts: set<Term>)
    requires forall i :: 0 <= i < |tokens| ==> tokens[i].term in ts
    ensures SumOver(ts, CountOf(tokens)) == |tokens|
  {
    if tokens == [] {
      NothingAddsUp(ts);
    } else {
      var front, t := tokens[..|tokens| - 1], tokens[|tokens| - 1].term;
      CountsAddUp(front, ts);
      SumWithout(ts, CountOf(tokens), t);
      SumWithout(ts, CountOf(front), t);
      SumEqual(ts - {t}, CountOf(tokens), CountOf(front));
    }
  }

  lemma {:induction false} NothingAddsUp(ts: set<Term>)
    ensures SumOver(ts, CountOf([])) == 0
  {
    if ts != {} {
      var t :| t in ts;
      SumWithout(ts, CountOf([]), t);
      NothingAddsUp(ts - {t});
    }
  }

  /** The frequencies of a document's postings sum to its length. */
  lemma {:induction false} FrequenciesAddUp(tok: Tokenizer, ps: Postings, docs: Documents, doc: Bytes)
    requires PostingsMatch(tok, ps, docs) && doc in docs
    ensures SumOver(ps.Keys, FreqOf(ps, doc)) == DocLen(tok, docs[doc])
  {
    var tokens := tok(docs[doc].text);
    forall t | t in ps.Keys
      ensures FreqOf(ps, doc)(t) == CountOf(tokens)(t)
    {
      forall p | p in ps[t] && p.doc == doc
        ensures p.freq == |Positions(tokens, t)|
      {
        assert Posted(ps, t, p) && Expected(tok, docs, t, p);
      }
      FreqOne(ps[t], doc, |Positions(tokens, t)|);
      if HasTerm(tokens, t) {
        assert Expected(tok, docs, t, PostingFor(doc, docs[doc], tokens, t));
        assert Posted(ps, t, PostingFor(doc, docs[doc], tokens, t));
      }
    }
    SumEqual(ps.Keys, FreqOf(ps, doc), CountOf(tokens));
    forall i | 0 <= i < |tokens|
      ensures tokens[i].term in ps.Keys
    {
      TokenIsTerm(tokens, i);
      assert Expected(tok, docs, tokens[i].term, PostingFor(doc, docs[doc], tokens, tokens[i].term));
      assert Posted(ps, tokens[i].term, PostingFor(doc, docs[doc], tokens, tokens[i].term));
    }
    CountsAddUp(tokens, ps.Keys);
  }

  // ---- Adding ----

  /** The postings with one more document's. */
  ghost predicate Added(ps: Postings, qs: Postings, doc: Bytes, d: Document, tokens: seq<Token>) {
    && (forall t :: t in qs <==> t in ps || HasTerm(tokens, t))
    && (forall t :: t in qs ==> qs[t] == (if t in ps then ps[t] else []) + if HasTerm(tokens, t) then [PostingFor(doc, d, tokens, t)] else [])
  }

  lemma {:induction false} AddedMatches(tok: Tokenizer, ps: Postings, qs: Postings, docs: Documents, doc: Bytes, d: Document)
    requires PostingsMatch(tok, ps, docs) && doc !in docs && Added(ps, qs, doc, d, tok(d.text))
    ensures PostingsMatch(tok, qs, docs[doc := d])
  {
    var tokens, docs' := tok(d.text), docs[doc := d];
    forall t, p
      ensures Posted(qs, t, p) <==> Expected(tok, docs', t, p)
    {
      assert Posted(ps, t, p) <==> Expected(tok, docs, t, p);
    }
    forall t | t in qs
      ensures qs[t] != [] && OnePerDocument(qs[t])
    {
      if t in ps {
        forall i | 0 <= i < |ps[t]|
          ensures ps[t][i].doc != doc
        {
          assert Posted(ps, t, ps[t][i]);
          assert Expected(tok, docs, t, ps[t][i]);
        }
      }
    }
  }

  // ---- Removing ----

  function Others(list: seq<Posting>, doc: Bytes): seq<Posting> {
    if list == [] then []
    else Others(list[..|list| - 1], doc) + if list[|list| - 1].doc == doc then [] else [list[|list| - 1]]
  }

  lemma {:induction false} OthersMembers(list: seq<Posting>, doc: Bytes)
    ensures forall p :: p in Others(list, doc) <==> p in list && p.doc != doc
    ensures OnePerDocument(list) ==> OnePerDocument(Others(list, doc))
  {
    if list != [] {
      var l', x := list[..|list| - 1], list[|list| - 1];
      assert list == l' + [x];
      OthersMembers(l', doc);
      if OnePerDocument(list) {
        forall i | 0 <= i < |Others(l', doc)|
          ensures Others(l', doc)[i].doc != x.doc
        {
          assert Others(l', doc)[i] in l';
        }
      }
    }
  }

  /** The postings without one document's; lists left empty disappear. */
  ghost predicate Removed(ps: Postings, qs: Postings, doc: Bytes) {
    && (forall t :: t in qs <==> t in ps && Others(ps[t], doc) != [])
    && (forall t :: t in qs ==> qs[t] == Others(ps[t], doc))
  }

  lemma {:induction false} RemovedMatches(tok: Tokenizer, ps: Postings, qs: Postings, docs: Documents, doc: Bytes)
    requires PostingsMatch(tok, ps, docs) && Removed(ps, qs, doc)
    ensures PostingsMatch(tok, qs, docs - {doc})
  {
    forall t, p
      ensures Posted(qs, t, p) <==> Expected(tok, docs - {doc}, t, p)
    {
      assert Posted(ps, t, p) <==> Expected(tok, docs, t, p);
      if t in ps {
        OthersMembers(ps[t], doc);
      }
    }
    forall t | t in qs
      ensures qs[t] != [] && OnePerDocument(qs[t])
    {
      OthersMembers(ps[t], doc);
    }
  }

  /** A document is found among the postings exactly when it is indexed and has a token. */
  lemma {:induction false} FoundIff(tok: Tokenizer, ps: Postings, docs: Documents, doc: Bytes)
    requires PostingsMatch(tok, ps, docs)
    ensures (exists t, p :: Posted(ps, t, p) && p.doc == doc) <==> doc in docs && tok(docs[doc].text) != []
  {
    if doc in docs && tok(docs[doc].text) != [] {
      var tokens := tok(docs[doc].text);
      var t := tokens[0].term;
      TokenIsTerm(tokens, 0);
      assert Expected(tok, docs, t, PostingFor(doc, docs[doc], tokens, t));
    }
    if t, p :| Posted(ps, t, p) && p.doc == doc {
      assert Expected(tok, docs, t, p);
    }
  }

  lemma {:induction false} CountWithout(docs: Documents, doc: Bytes)
    requires doc in docs
    ensures |docs - {doc}| == |docs| - 1
  {
    assert (docs - {doc}).Keys == docs.Keys - {doc};
    assert |docs.Keys| == |docs| && |(docs - {doc}).Keys| == |docs - {doc}|;
  }

  lemma {:induction false} NothingToRemove(tok: Tokenizer, docs: Documents, doc: Bytes)
    requires doc !in docs
    ensures docs - {doc} == docs
  {
  }

  predicate Tokenless(tok: Tokenizer, docs: Documents, doc: Bytes) {
    doc in docs && tok(docs[doc].text) == []
  }

  function Missed(tok: Tokenizer, docs: Documents, doc: Bytes): nat {
    if Tokenless(tok, docs, doc) then 1 else 0
  }

  /** Removal adjusts the counters only if it finds a posting: removing a document without tokens leaves
      it in the count. So removal keeps the surplus exactly when the document is not indexed or has a token. */
  lemma {:induction false} RemovalExactIff(tok: Tokenizer, ps: Postings, qs: Postings, n: nat, len: nat, docs: Documents, extra: nat, doc: Bytes)
    requires Matches(tok, ps, n, len, docs, extra) && Removed(ps, qs, doc)
    ensures var found := doc in docs && !Tokenless(tok, docs, doc);
            found ==> n > 0 && len >= DocLen(tok, docs[doc])
    ensures var found := doc in docs && !Tokenless(tok, docs, doc);
            var n', len' := if found then n - 1 else n, if found then len - DocLen(tok, docs[doc]) else len;
            && n' >= 0 && len' >= 0 && Matches(tok, qs, n', len', docs - {doc}, extra + Missed(tok, docs, doc))
            && (Matches(tok, qs, n', len', docs - {doc}, extra) <==> !Tokenless(tok, docs, doc))
  {
    RemovedMatches(tok, ps, qs, docs, doc);
    if doc in docs {
      CountWithout(docs, doc);
      TotalLenWithout(tok, docs, doc);
    } else {
      NothingToRemove(tok, docs, doc);
    }
  }
}
