/** `_tokens`: the maximal runs of `[a-z0-9]` in a case-folded text. */
module Tokenizer {
  import opened Prelude

  /** Case folding works character by character, may lengthen, and leaves the blank alone. */
  type Folding = f: char -> string | f(' ') == " " witness c => [c]

  function Casefold(fold: Folding, s: string): string {
    if s == [] then [] else fold(s[0]) + Casefold(fold, s[1..])
  }

  predicate IsTokenChar(c: char) {
    'a' <= c <= 'z' || '0' <= c <= '9'
  }

  /** How many characters a token starting here would have. */
  function Run(s: string): (n: nat)
    ensures n <= |s| && (forall i | 0 <= i < n :: IsTokenChar(s[i]))
    ensures n < |s| ==> !IsTokenChar(s[n])
  {
    if s == [] || !IsTokenChar(s[0]) then 0 else 1 + Run(s[1..])
  }

  /** `findall` */
  function FindAll(s: string): seq<string>
    decreases |s|
  {
    if s == [] then []
    else if Run(s) == 0 then FindAll(s[1..])
    else [s[..Run(s)]] + FindAll(s[Run(s)..])
  }

  function Tokens(fold: Folding, s: string): set<string> {
    Elements(FindAll(Casefold(fold, s)))
  }

  /** `" ".join(documents)` */
  function JoinBlank(documents: seq<string>): string {
    if documents == [] then []
    else if |documents| == 1 then documents[0]
    else documents[0] + " " + JoinBlank(documents[1..])
  }

  lemma {:induction false} RunStops(s: string, c: char, rest: string)
    requires !IsTokenChar(c)
    ensures Run(s + [c] + rest) == Run(s)
  {
    if s != [] {
      var t := s + [c] + rest;
      assert t[0] == s[0] && t[1..] == s[1..] + [c] + rest;
      RunStops(s[1..], c, rest);
    }
  }

  /** A character outside tokens separates them: the tokens of both sides, in order. */
  lemma {:induction false} FindAllSeparated(s: string, c: char, rest: string)
    requires !IsTokenChar(c)
    ensures FindAll(s + [c] + rest) == FindAll(s) + FindAll(rest)
    decreases |s|
  {
    var t := s + [c] + rest;
    RunStops(s, c, rest);
    if s == [] {
      assert t[1..] == rest;
    } else if Run(s) == 0 {
      assert t[1..] == s[1..] + [c] + rest;
      FindAllSeparated(s[1..], c, rest);
    } else {
      var n := Run(s);
      assert t[..n] == s[..n] && t[n..] == s[n..] + [c] + rest;
      FindAllSeparated(s[n..], c, rest);
    }
  }

  lemma {:induction false} CasefoldConcat(fold: Folding, a: string, b: string)
    ensures Casefold(fold, a + b) == Casefold(fold, a) + Casefold(fold, b)
  {
    if a == [] {
      assert a + b == b;
    } else {
      assert (a + b)[0] == a[0] && (a + b)[1..] == a[1..] + b;
      CasefoldConcat(fold, a[1..], b);
    }
  }

  /** The tokens of blank-joined documents are the tokens of the documents. */
  lemma {:induction false} JoinedTokens(fold: Folding, documents: seq<string>)
    ensures Tokens(fold, JoinBlank(documents)) ==
            set i, t | 0 <= i < |documents| && t in Tokens(fold, documents[i]) :: t
  {
    if |documents| > 1 {
      var first, rest := documents[0], documents[1..];
      JoinedTokens(fold, rest);
      CasefoldConcat(fold, first + " ", JoinBlank(rest));
      CasefoldConcat(fold, first, " ");
      assert Casefold(fold, " ") == " ";
      FindAllSeparated(Casefold(fold, first), ' ', Casefold(fold, JoinBlank(rest)));
      assert Tokens(fold, JoinBlank(documents)) == Tokens(fold, first) + Tokens(fold, JoinBlank(rest)) by {
        var a, b := FindAll(Casefold(fold, first)), FindAll(Casefold(fold, JoinBlank(rest)));
        assert Elements(a + b) == Elements(a) + Elements(b);
      }
      var all := set i, t | 0 <= i < |documents| && t in Tokens(fold, documents[i]) :: t;
      var later := set i, t | 0 <= i < |rest| && t in Tokens(fold, rest[i]) :: t;
      forall t | t in later ensures t in all {
        var i :| 0 <= i < |rest| && t in Tokens(fold, rest[i]);
        assert documents[i + 1] == rest[i];
      }
      forall t | t in all ensures t in Tokens(fold, first) || t in later {
        var i :| 0 <= i < |documents| && t in Tokens(fold, documents[i]);
        if i > 0 { assert documents[i] == rest[i - 1]; }
      }
    } else if documents == [] {
      assert Tokens(fold, []) == {};
    }
  }
}
