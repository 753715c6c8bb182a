/** What a search offers, from the texts up: which words match, how a match is scored, what is kept. */
module Matching {
  import opened Prelude
  import opened Ordering
  import opened Tokenizer
  import opened Workflow
  import opened Discovery

  // ---- Words ----

  predicate IsWord(s: string) {
    s != [] && forall i | 0 <= i < |s| :: 'a' <= s[i] <= 'z' || '0' <= s[i] <= '9'
  }

  /**
   What `findall` returns for any text: a word is found whole, anything that cannot stand in a word
   separates, and these two rules take every text apart.
   */
  lemma {:induction false} WordsAreFound(a: string, c: char, b: string)
    ensures FindAll([]) == [] && (IsWord(a) ==> FindAll(a) == [a])
    ensures !IsWord([c]) ==> FindAll(a + [c] + b) == FindAll(a) + FindAll(b)
  {
    if IsWord(a) {
      assert Run(a) == |a|;
      assert a[..Run(a)] == a && a[Run(a)..] == [];
    }
    if !IsWord([c]) {
      assert !IsTokenChar(c) by {
        if IsTokenChar(c) { assert IsWord([c]); }
      }
      FindAllSeparated(a, c, b);
    }
  }

  /** The tokens of a text are the words of its folding, which is that of the characters in order. */
  lemma {:induction false} TokensAreFolded(fold: Folding, a: string, c: char, b: string, t: string)
    ensures t in Tokens(fold, a) <==> t in FindAll(Casefold(fold, a))
    ensures Casefold(fold, []) == []
    ensures Casefold(fold, a + [c] + b) == Casefold(fold, a) + fold(c) + Casefold(fold, b)
  {
    CasefoldConcat(fold, a + [c], b);
    CasefoldConcat(fold, a, [c]);
    assert [c][1..] == [];
    assert Casefold(fold, [c]) == fold(c);
  }

  // ---- Scores ----

  /** `r` is the share of the tokens of either text that both have. */
  predicate IsOverlap(r: real, a: set<string>, b: set<string>) {
    if a + b == {} then r == 0.0 else r * |a + b| as real == |a * b| as real
  }

  /** `r` is the best overlap of the query with a document, zero when there is none. */
  ghost predicate IsBest(r: real, fold: Folding, query: set<string>, documents: seq<string>) {
    && (if documents == [] then r == 0.0
        else exists i | 0 <= i < |documents| :: IsOverlap(r, query, Tokens(fold, documents[i])))
    && forall i, x | 0 <= i < |documents| && IsOverlap(x, query, Tokens(fold, documents[i])) :: x <= r
  }

  lemma {:induction false} OverlapIsShare(a: set<string>, b: set<string>, x: real)
    ensures IsOverlap(x, a, b) <==> x == Overlap(a, b)
  {
    if a + b == {} {
      assert a * b == {};
    } else {
      Quotient(x, |a * b| as real, |a + b| as real);
    }
  }

  lemma {:induction false} Quotient(x: real, above: real, below: real)
    requires below > 0.0
    ensures x * below == above <==> x == above / below
  {
    assert x * below == above ==> x == above / below;
  }

  lemma {:induction false} BestIsBest(fold: Folding, query: set<string>, documents: seq<string>)
    ensures IsBest(Best(fold, query, documents), fold, query, documents)
  {
    if documents != [] {
      BestIsBest(fold, query, documents[1..]);
      BestOfMore(fold, query, documents);
    }
  }

  lemma {:induction false} BestOfMore(fold: Folding, query: set<string>, documents: seq<string>)
    requires documents != [] && IsBest(Best(fold, query, documents[1..]), fold, query, documents[1..])
    ensures IsBest(Best(fold, query, documents), fold, query, documents)
  {
    var rest := documents[1..];
    var x, s, r := Overlap(query, Tokens(fold, documents[0])), Best(fold, query, rest), Best(fold, query, documents);
    if r == x {
      OverlapIsShare(query, Tokens(fold, documents[0]), x);
    } else {
      var i :| 0 <= i < |rest| && IsOverlap(s, query, Tokens(fold, rest[i]));
      assert IsOverlap(r, query, Tokens(fold, documents[i + 1]));
    }
    forall i, y | 0 <= i < |documents| && IsOverlap(y, query, Tokens(fold, documents[i])) ensures y <= r {
      if i == 0 {
        OverlapIsShare(query, Tokens(fold, documents[0]), y);
      } else {
        assert IsOverlap(y, query, Tokens(fold, rest[i - 1]));
      }
    }
  }

  /**
   An operation scores the best overlap of the text with its description, aliases and examples, less the
   best overlap with its negative examples.
   */
  lemma {:induction false} ScoreBalances(fold: Folding, op: Compiled, text: string) returns (good: real, bad: real)
    ensures Score(fold, op, text) == good - bad
    ensures var d := op.definition.discovery;
            && IsBest(good, fold, Tokens(fold, text), [d.description] + d.aliases + d.examples)
            && IsBest(bad, fold, Tokens(fold, text), d.negativeExamples)
  {
    var query := Tokens(fold, text);
    good, bad := Best(fold, query, PositiveDocuments(op)), Best(fold, query, op.definition.discovery.negativeExamples);
    BestIsBest(fold, query, PositiveDocuments(op));
    BestIsBest(fold, query, op.definition.discovery.negativeExamples);
  }

  // ---- Offers ----

  /** `a` comes before `b` at the first place they differ, or ends there. */
  predicate DiffersAt(a: string, b: string, k: nat) {
    k <= |a| && k <= |b| && a[..k] == b[..k] && (k == |a| || (k < |b| && a[k] < b[k]))
  }

  lemma {:induction false} OrderIsLexicographic(a: string, b: string)
    ensures Leq(a, b) <==> exists k: nat :: DiffersAt(a, b, k)
  {
    if a == [] {
      assert DiffersAt(a, b, 0);
    } else if b != [] && a[0] == b[0] {
      OrderIsLexicographic(a[1..], b[1..]);
      if k: nat :| DiffersAt(a[1..], b[1..], k) {
        assert a[..k + 1] == [a[0]] + a[1..][..k] && b[..k + 1] == [b[0]] + b[1..][..k];
        assert DiffersAt(a, b, k + 1);
      }
      if k: nat :| DiffersAt(a, b, k) {
        assert a[1..][..k - 1] == a[..k][1..] && b[1..][..k - 1] == b[..k][1..];
        assert DiffersAt(a[1..], b[1..], k - 1);
      }
    } else if b != [] && a[0] < b[0] {
      assert DiffersAt(a, b, 0);
    }
  }

  /** What may be offered at all. */
  lemma {:induction false} OfferedExactly(fold: Folding, ops: Operations, text: string, managedOnly: bool, h: Hit)
    ensures h in ScanHits(fold, ops, text, managedOnly) <==>
              && h.operation in ops.Values && h.score == Score(fold, h.operation, text) && h.score > 0.0
              && h.operation.definition.enabled && h.operation.definition.discovery.modelSelectable
              && (managedOnly ==> h.operation.source.Managed?)
    ensures h in AllHits(fold, ops, text, managedOnly) <==>
              && h.operation in ops.Values && h.score == Score(fold, h.operation, text)
              && h.operation.definition.enabled && h.operation.definition.discovery.modelSelectable
              && (managedOnly ==> h.operation.source.Managed?)
  {
  }

  /** A token is posted for an operation when its title, description, an alias or an example has it. */
  lemma {:induction false} PostedExactly(fold: Folding, ops: Operations, index: Index, token: string, id: string)
    requires Indexes(fold, ops, ops.Keys, index) && id in ops
    ensures var d := ops[id].definition;
            Posted(index, token, id) <==>
              || token in Tokens(fold, d.title) || token in Tokens(fold, d.discovery.description)
              || (exists i | 0 <= i < |d.discovery.aliases| :: token in Tokens(fold, d.discovery.aliases[i]))
              || exists i | 0 <= i < |d.discovery.examples| :: token in Tokens(fold, d.discovery.examples[i])
  {
    var d := ops[id].definition.discovery;
    var documents := IndexedDocuments(ops[id]);
    JoinedTokens(fold, documents);
    assert documents[0] == ops[id].definition.title && documents[1] == d.description;
    assert forall i | 0 <= i < |d.aliases| :: documents[i + 2] == d.aliases[i];
    assert forall i | 0 <= i < |d.examples| :: documents[i + 2 + |d.aliases|] == d.examples[i];
  }

  /**
   Of a ranking cut at a limit, the limit decides how many are offered, and each of them scores
   higher than whatever was left out, or the same under a smaller id.
   */
  lemma {:induction false} BestAreOffered(ranking: seq<Hit>, hits: set<Hit>, limit: int, a: Hit, b: Hit)
    requires IsRanking(ranking, hits)
    requires a in Slice(ranking, limit) && b in hits && b !in Slice(ranking, limit)
    ensures |Slice(ranking, limit)| == if limit < 0 then |hits| + limit else limit
    ensures Elements(Slice(ranking, limit)) <= hits
    ensures a.score > b.score || (a.score == b.score && Leq(a.operation.Id(), b.operation.Id()))
  {
    DistinctSize(ranking);
  }
}
