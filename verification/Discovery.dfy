/**
 Finding operations for a text: the inverted token index (`_build_discovery_index`,
 `candidates`, `candidate_operations`) against scoring every operation.
 */
module Discovery {
  import opened Prelude
  import opened Ordering
  import opened Tokenizer
  import opened Workflow

  type Operations = map<string, Compiled>

  /** A snapshot files each operation under its own id. */
  ghost predicate FiledById(ops: Operations) {
    forall id | id in ops :: ops[id].Id() == id
  }

  // ---- Scoring ----

  function Overlap(a: set<string>, b: set<string>): (r: real)
    ensures 0.0 <= r
    ensures r > 0.0 <==> a * b != {}
  {
    var union := if a + b == {} then 1 else |a + b|;
    assert a * b != {} ==> |a * b| >= 1;
    |a * b| as real / union as real
  }

  /** `max(..., default=0.0)` of the overlaps with each document. */
  function Best(fold: Folding, query: set<string>, documents: seq<string>): (r: real)
    ensures 0.0 <= r
  {
    if documents == [] then 0.0 else
    var first, rest := Overlap(query, Tokens(fold, documents[0])), Best(fold, query, documents[1..]);
    if first < rest then rest else first
  }

  function PositiveDocuments(op: Compiled): seq<string> {
    [op.definition.discovery.description] + op.definition.discovery.aliases + op.definition.discovery.examples
  }

  /** `operation_match_score` */
  function Score(fold: Folding, op: Compiled, text: string): real {
    var query := Tokens(fold, text);
    Best(fold, query, PositiveDocuments(op)) - Best(fold, query, op.definition.discovery.negativeExamples)
  }

  predicate Eligible(op: Compiled, managedOnly: bool) {
    op.definition.enabled && op.definition.discovery.modelSelectable && (managedOnly ==> op.source.Managed?)
  }

  // ---- Ranking ----

  datatype Hit = Hit(operation: Compiled, score: real)

  /** The sort key `(-score, id)`. */
  predicate Before(a: Hit, b: Hit) {
    a.score > b.score || (a.score == b.score && Leq(a.operation.Id(), b.operation.Id()))
  }

  ghost predicate IdsIdentify(hits: set<Hit>) {
    forall a, b | a in hits && b in hits && a.operation.Id() == b.operation.Id() :: a == b
  }

  lemma {:induction false} BeforeIsTotalOrder()
    ensures forall a, b :: Before(a, b) || Before(b, a)
    ensures forall a, b, c | Before(a, b) && Before(b, c) :: Before(a, c)
    ensures forall a, b | Before(a, b) && Before(b, a) :: a.operation.Id() == b.operation.Id() && a.score == b.score
  {
    forall a, b ensures Before(a, b) || Before(b, a) { LeqTotal(a.operation.Id(), b.operation.Id()); }
    forall a, b, c | Before(a, b) && Before(b, c) ensures Before(a, c) {
      if a.score == c.score { LeqTransitive(a.operation.Id(), b.operation.Id(), c.operation.Id()); }
    }
    forall a, b | Before(a, b) && Before(b, a) ensures a.operation.Id() == b.operation.Id() {
      LeqAntisymmetric(a.operation.Id(), b.operation.Id());
    }
  }

  ghost predicate InOrder(s: seq<Hit>) {
    forall i, j | 0 <= i < j < |s| :: Before(s[i], s[j])
  }

  /** `r` lists `hits`, each once, best first. */
  ghost predicate IsRanking(r: seq<Hit>, hits: set<Hit>) {
    Distinct(r) && InOrder(r) && Elements(r) == hits
  }

  /** There is only one way to rank. */
  lemma {:induction false} RankingIsUnique(r: seq<Hit>, s: seq<Hit>, hits: set<Hit>)
    requires IdsIdentify(hits) && IsRanking(r, hits) && IsRanking(s, hits)
    ensures r == s
    decreases |r|
  {
    assert r == [] <==> hits == {} by { assert r != [] ==> r[0] in Elements(r); }
    assert s == [] <==> hits == {} by { assert s != [] ==> s[0] in Elements(s); }
    if r != [] {
      FirstIsBest(r, hits);
      FirstIsBest(s, hits);
      BeforeIsTotalOrder();
      RankingTail(r, hits);
      RankingTail(s, hits);
      RankingIsUnique(r[1..], s[1..], hits - {r[0]});
    }
  }

  lemma {:induction false} FirstIsBest(r: seq<Hit>, hits: set<Hit>)
    requires r != [] && IsRanking(r, hits)
    ensures r[0] in hits && forall h | h in hits :: Before(r[0], h)
  {
    BeforeIsTotalOrder();
    assert r[0] in Elements(r);
    forall h | h in hits ensures Before(r[0], h) {
      assert h in Elements(r);
      var i :| 0 <= i < |r| && r[i] == h;
    }
  }

  lemma {:induction false} RankingTail(r: seq<Hit>, hits: set<Hit>)
    requires r != [] && IsRanking(r, hits)
    ensures IsRanking(r[1..], hits - {r[0]})
  {
    assert r == [r[0]] + r[1..];
    assert r[0] !in r[1..];
  }

  function Insert(h: Hit, s: seq<Hit>): seq<Hit> {
    if s == [] then [h] else if Before(h, s[0]) then [h] + s else [s[0]] + Insert(h, s[1..])
  }

  /** `sorted(ranked, key=...)` */
  function SortHits(s: seq<Hit>): seq<Hit> {
    if s == [] then [] else Insert(s[0], SortHits(s[1..]))
  }

  lemma {:induction false} BeforeTotal(a: Hit, b: Hit)
    ensures Before(a, b) || Before(b, a)
  {
    LeqTotal(a.operation.Id(), b.operation.Id());
  }

  lemma {:induction false} BeforeTransitive(a: Hit, b: Hit, c: Hit)
    requires Before(a, b) && Before(b, c)
    ensures Before(a, c)
  {
    if a.score == c.score { LeqTransitive(a.operation.Id(), b.operation.Id(), c.operation.Id()); }
  }

  lemma {:induction false} InsertRanks(h: Hit, s: seq<Hit>, hits: set<Hit>)
    requires IsRanking(s, hits) && h !in hits
    ensures IsRanking(Insert(h, s), hits + {h})
    decreases |s|
  {
    if s == [] {
    } else if Before(h, s[0]) {
      forall i | 0 <= i < |s| ensures Before(h, s[i]) && s[i] != h {
        assert s[i] in Elements(s);
        if i > 0 { BeforeTransitive(h, s[0], s[i]); }
      }
      assert Elements([h] + s) == {h} + Elements(s);
    } else {
      BeforeTotal(h, s[0]);
      RankingTail(s, hits);
      InsertRanks(h, s[1..], hits - {s[0]});
      var rest := Insert(h, s[1..]);
      assert s[0] in Elements(s);
      forall i | 0 <= i < |rest| ensures Before(s[0], rest[i]) && rest[i] != s[0] {
        assert rest[i] in Elements(rest);
        if rest[i] != h {
          assert rest[i] in Elements(s);
          var j :| 0 <= j < |s| && s[j] == rest[i];
        }
      }
      Prepend(s[0], rest, hits + {h});
    }
  }

  lemma {:induction false} SortingRanks(s: seq<Hit>)
    requires Distinct(s)
    ensures IsRanking(SortHits(s), Elements(s))
  {
    if s != [] {
      SortingRanks(s[1..]);
      assert s == [s[0]] + s[1..];
      InsertRanks(s[0], SortHits(s[1..]), Elements(s[1..]));
      assert Elements(s) == Elements(s[1..]) + {s[0]};
    }
  }

  /** `s[:limit]`, which counts from the end when the limit is negative. */
  function Slice<T>(s: seq<T>, limit: int): seq<T> {
    if limit < 0 then (if |s| + limit < 0 then [] else s[..|s| + limit])
    else if limit < |s| then s[..limit] else s
  }

  /** The hits a brute-force scan keeps: every eligible operation with a positive score. */
  function ScanHits(fold: Folding, ops: Operations, text: string, managedOnly: bool): set<Hit> {
    set id | id in ops && Eligible(ops[id], managedOnly) && Score(fold, ops[id], text) > 0.0 ::
      Hit(ops[id], Score(fold, ops[id], text))
  }

  // ---- The index ----

  function IndexedDocuments(op: Compiled): seq<string> {
    [op.definition.title, op.definition.discovery.description]
    + op.definition.discovery.aliases + op.definition.discovery.examples
  }

  function IndexedTokens(fold: Folding, op: Compiled): set<string> {
    Tokens(fold, JoinBlank(IndexedDocuments(op)))
  }

  type Index = map<string, set<string>>

  predicate Posted(index: Index, token: string, id: string) {
    token in index && id in index[token]
  }

  /** The index posts exactly the operations in `some` whose documents contain the token. */
  ghost predicate Indexes(fold: Folding, ops: Operations, some: set<string>, index: Index) {
    forall id, token ::
      Posted(index, token, id) <==> (id in ops && id in some && token in IndexedTokens(fold, ops[id]))
  }

  method BuildIndex(fold: Folding, ops: Operations) returns (index: Index)
    ensures Indexes(fold, ops, ops.Keys, index)
  {
    index := map[];
    var waiting := ops.Keys;
    while waiting != {}
      invariant waiting <= ops.Keys
      invariant Indexes(fold, ops, ops.Keys - waiting, index)
      decreases waiting
    {
      var id :| id in waiting;
      ghost var before := index;
      var tokens := IndexedTokens(fold, ops[id]);
      while tokens != {}
        invariant tokens <= IndexedTokens(fold, ops[id])
        invariant forall other, token ::
          Posted(index, token, other) <==>
            Posted(before, token, other) || (other == id && token in IndexedTokens(fold, ops[id]) - tokens)
        decreases tokens
      {
        var token :| token in tokens;
        ghost var earlier := index;
        index := index[token := (if token in index then index[token] else {}) + {id}];
        tokens := tokens - {token};
        assert forall other, t :: Posted(index, t, other) <==> Posted(earlier, t, other) || (other == id && t == token);
      }
      waiting := waiting - {id};
    }
  }

  /** A positive score needs a query token among the indexed ones. */
  lemma {:induction false} PositiveScoreSharesToken(fold: Folding, op: Compiled, text: string)
    requires Score(fold, op, text) > 0.0
    ensures Tokens(fold, text) * IndexedTokens(fold, op) != {}
  {
    var query := Tokens(fold, text);
    var documents := PositiveDocuments(op);
    var i := BestWitness(fold, query, documents);
    var token :| token in query * Tokens(fold, documents[i]);
    TokenIsIndexed(fold, op, i, token);
    assert token in Tokens(fold, text) * IndexedTokens(fold, op);
  }

  lemma {:induction false} TokenIsIndexed(fold: Folding, op: Compiled, i: nat, token: string)
    requires i < |PositiveDocuments(op)| && token in Tokens(fold, PositiveDocuments(op)[i])
    ensures token in IndexedTokens(fold, op)
  {
    JoinedTokens(fold, IndexedDocuments(op));
    assert IndexedDocuments(op) == [op.definition.title] + PositiveDocuments(op);
    assert IndexedDocuments(op)[i + 1] == PositiveDocuments(op)[i];
  }

  lemma {:induction false} BestWitness(fold: Folding, query: set<string>, documents: seq<string>) returns (i: nat)
    requires Best(fold, query, documents) > 0.0
    ensures i < |documents| && query * Tokens(fold, documents[i]) != {}
  {
    if query * Tokens(fold, documents[0]) != {} {
      i := 0;
    } else {
      var later := BestWitness(fold, query, documents[1..]);
      i := later + 1;
    }
  }

  /**
   `candidates`: looking up the query's tokens, filtering, scoring and sorting gives exactly the
   brute-force ranking of all eligible operations with a positive score, cut at the limit.
   */
  method Candidates(fold: Folding, ops: Operations, index: Index, text: string, limit: int, managedOnly: bool)
    returns (r: seq<Hit>)
    requires FiledById(ops) && Indexes(fold, ops, ops.Keys, index)
    ensures exists ranking ::
              IsRanking(ranking, ScanHits(fold, ops, text, managedOnly)) && r == Slice(ranking, limit)
  {
    var found := CandidateIds(fold, index, text);
    var waiting := found;
    var ranked: seq<Hit> := [];
    assert forall token, id | Posted(index, token, id) :: id in ops;
    while waiting != {}
      invariant waiting <= found
      invariant Distinct(ranked)
      invariant forall h ::
                  h in ranked <==>
                  (h in ScanHits(fold, ops, text, managedOnly) && h.operation.Id() in found - waiting)
      decreases waiting
    {
      var id :| id in waiting;
      assert id in ops && ops[id].Id() == id;
      var op := ops[id];
      waiting := waiting - {id};
      if Eligible(op, managedOnly) {
        var score := Score(fold, op, text);
        if score > 0.0 {
          assert Hit(op, score) !in ranked;
          ranked := ranked + [Hit(op, score)];
        }
      }
    }
    forall h | h in ScanHits(fold, ops, text, managedOnly) ensures h.operation.Id() in found {
      HitIsFound(fold, ops, index, text, managedOnly, h);
    }
    assert Elements(ranked) == ScanHits(fold, ops, text, managedOnly);
    SortingRanks(ranked);
    r := Slice(SortHits(ranked), limit);
  }

  lemma {:induction false} HitIsFound(fold: Folding, ops: Operations, index: Index, text: string, managedOnly: bool,
                                      h: Hit)
    requires FiledById(ops) && Indexes(fold, ops, ops.Keys, index) && h in ScanHits(fold, ops, text, managedOnly)
    ensures exists token :: token in Tokens(fold, text) && Posted(index, token, h.operation.Id())
  {
    PositiveScoreSharesToken(fold, h.operation, text);
    var token :| token in Tokens(fold, text) * IndexedTokens(fold, h.operation);
    assert Posted(index, token, h.operation.Id());
  }

  /** The ids posted under any token of the text. */
  method CandidateIds(fold: Folding, index: Index, text: string) returns (found: set<string>)
    ensures forall id :: id in found <==>
              exists token :: token in Tokens(fold, text) && Posted(index, token, id)
  {
    found := {};
    var tokens := Tokens(fold, text);
    while tokens != {}
      invariant tokens <= Tokens(fold, text)
      invariant forall id :: id in found <==>
                  exists token :: token in Tokens(fold, text) - tokens && Posted(index, token, id)
      decreases tokens
    {
      var token :| token in tokens;
      ghost var before, earlier := found, tokens;
      if token in index { found := found + index[token]; }
      tokens := tokens - {token};
      forall id ensures id in found <==>
        exists t :: t in Tokens(fold, text) - tokens && Posted(index, t, id)
      {
        if id in before {
          var t :| t in Tokens(fold, text) - earlier && Posted(index, t, id);
          assert t in Tokens(fold, text) - tokens;
        } else if Posted(index, token, id) {
          assert token in Tokens(fold, text) - tokens;
        }
      }
    }
  }

  // ---- The small catalog ----

  /** Every eligible operation with its score, positive or not. */
  function AllHits(fold: Folding, ops: Operations, text: string, managedOnly: bool): set<Hit> {
    set id | id in ops && Eligible(ops[id], managedOnly) :: Hit(ops[id], Score(fold, ops[id], text))
  }

  /** `candidate_operations`: a small catalog is shown whole, a large one through the index. */
  method CandidateOperations(fold: Folding, ops: Operations, index: Index, text: string, limit: int, managedOnly: bool)
    returns (r: seq<Hit>)
    requires FiledById(ops) && Indexes(fold, ops, ops.Keys, index)
    ensures |AllHits(fold, ops, text, managedOnly)| <= limit ==> IsRanking(r, AllHits(fold, ops, text, managedOnly))
    ensures |AllHits(fold, ops, text, managedOnly)| > limit ==>
              exists ranking ::
                IsRanking(ranking, ScanHits(fold, ops, text, managedOnly)) && r == Slice(ranking, limit)
  {
    var waiting := ops.Keys;
    var eligible: seq<Hit> := [];
    while waiting != {}
      invariant waiting <= ops.Keys
      invariant Distinct(eligible)
      invariant forall h ::
                  h in eligible <==>
                  (h in AllHits(fold, ops, text, managedOnly) && h.operation.Id() !in waiting)
      decreases waiting
    {
      var id :| id in waiting;
      assert ops[id].Id() == id;
      waiting := waiting - {id};
      if Eligible(ops[id], managedOnly) {
        var hit := Hit(ops[id], Score(fold, ops[id], text));
        assert hit !in eligible;
        eligible := eligible + [hit];
      }
    }
    assert Elements(eligible) == AllHits(fold, ops, text, managedOnly);
    DistinctSize(eligible);
    if |eligible| <= limit {
      SortingRanks(eligible);
      r := SortHits(eligible);
    } else {
      r := Candidates(fold, ops, index, text, limit, managedOnly);
    }
  }

  /** Ranking the better part of some hits is ranking all of them and stopping early. */
  lemma {:induction false} BetterPartIsPrefix(part: seq<Hit>, whole: seq<Hit>, some: set<Hit>, all: set<Hit>)
    requires IdsIdentify(all) && some <= all && IsRanking(part, some) && IsRanking(whole, all)
    requires forall a, b | a in some && b in all - some :: a.score > b.score
    ensures part <= whole
    decreases |part|
  {
    if part != [] {
      assert part[0] in Elements(part);
      assert part[0] in whole;
      assert whole[0] in Elements(whole);
      BeforeIsTotalOrder();
      assert Before(whole[0], part[0]);
      assert whole[0] in some;
      assert whole[0] in part;
      assert Before(part[0], whole[0]);
      assert whole[0] == part[0];
      RankingTail(part, some);
      RankingTail(whole, all);
      BetterPartIsPrefix(part[1..], whole[1..], some - {part[0]}, all - {part[0]});
    }
  }

  /**
   The two branches of `candidate_operations` agree: what the index would offer is the beginning of the
   complete list shown for a small catalog.
   */
  lemma {:induction false} IndexedCandidatesLeadTheFullList(fold: Folding, ops: Operations, text: string,
                                                            managedOnly: bool, offered: seq<Hit>, full: seq<Hit>)
    requires FiledById(ops)
    requires IsRanking(offered, ScanHits(fold, ops, text, managedOnly))
    requires IsRanking(full, AllHits(fold, ops, text, managedOnly))
    ensures offered <= full
    ensures forall i | |offered| <= i < |full| :: full[i].score <= 0.0
  {
    var some, all := ScanHits(fold, ops, text, managedOnly), AllHits(fold, ops, text, managedOnly);
    forall h | h in all && h.score > 0.0 ensures h in some {}
    BetterPartIsPrefix(offered, full, some, all);
    forall i | |offered| <= i < |full| ensures full[i].score <= 0.0 {
      assert full[i] in Elements(full);
      assert forall j | 0 <= j < |offered| :: offered[j] == full[j];
      assert full[i] !in Elements(offered);
    }
  }
}
