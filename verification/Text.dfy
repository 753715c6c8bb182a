/** The handful of string operations the workflow checker and interpreter rely on. */
module Text {
  function RemovePrefix(s: string, p: string): string {
    if p <= s then s[|p|..] else s
  }

  predicate EndsWith(s: string, p: string) {
    |p| <= |s| && s[|s| - |p|..] == p
  }

  function RemoveSuffix(s: string, p: string): string {
    if EndsWith(s, p) then s[..|s| - |p|] else s
  }

  function Find(s: string, c: char): (i: nat)
    ensures i <= |s| && c !in s[..i]
    ensures i < |s| ==> s[i] == c
  {
    if s == [] then 0 else if s[0] == c then 0 else
      var i := Find(s[1..], c);
      assert s[..1 + i] == [s[0]] + s[1..][..i];
      1 + i
  }

  /** `s.split(sep, limit)`: cut at the first `limit` separators. */
  function Split(s: string, sep: char, limit: nat): (parts: seq<string>)
    ensures parts != []
    decreases |s|
  {
    var i := Find(s, sep);
    if limit == 0 || i == |s| then [s] else [s[..i]] + Split(s[i + 1..], sep, limit - 1)
  }

  /** `s.split(sep)`: a string holds fewer separators than it has characters, plus one. */
  function SplitAll(s: string, sep: char): seq<string> {
    Split(s, sep, |s|)
  }

  function Join(parts: seq<string>, sep: char): string
    requires parts != []
  {
    if |parts| == 1 then parts[0] else parts[0] + [sep] + Join(parts[1..], sep)
  }

  lemma {:induction false} FindUnique(a: string, c: char, rest: string)
    requires c !in a
    ensures Find(a + [c] + rest, c) == |a|
  {
    var s := a + [c] + rest;
    assert s[|a|] == c;
    assert forall k | 0 <= k < |a| :: s[k] in a;
    assert forall k | |a| < k <= |s| :: s[..k][|a|] == c;
  }

  lemma {:induction false} SplitHead(a: string, rest: string, sep: char, limit: nat)
    requires sep !in a && 0 < limit
    ensures Split(a + [sep] + rest, sep, limit) == [a] + Split(rest, sep, limit - 1)
  {
    FindUnique(a, sep, rest);
    var s := a + [sep] + rest;
    assert s[..|a|] == a && s[|a| + 1..] == rest;
  }

  lemma {:induction false} SplitWhole(a: string, sep: char, limit: nat)
    requires sep !in a
    ensures Split(a, sep, limit) == [a]
  {
    assert forall k | 0 <= k < |a| :: a[k] in a;
  }

  /** Splitting loses nothing: joining the parts gives the string back. */
  lemma {:induction false} JoinSplit(s: string, sep: char, limit: nat)
    ensures Join(Split(s, sep, limit), sep) == s
    decreases limit
  {
    var i := Find(s, sep);
    if limit == 0 || i == |s| {
    } else {
      JoinSplit(s[i + 1..], sep, limit - 1);
      var rest := Split(s[i + 1..], sep, limit - 1);
      assert ([s[..i]] + rest)[1..] == rest;
      assert s == s[..i] + [sep] + s[i + 1..];
    }
  }

  lemma {:induction false} SplitThree(a: string, b: string, c: string, sep: char, limit: nat)
    requires sep !in a && sep !in b && sep !in c && 2 <= limit
    ensures Split(a + [sep] + (b + [sep] + c), sep, limit) == [a, b, c]
  {
    SplitHead(a, b + [sep] + c, sep, limit);
    SplitHead(b, c, sep, limit - 1);
    SplitWhole(c, sep, limit - 2);
  }

  lemma {:induction false} SplitFour(a: string, b: string, c: string, d: string, sep: char)
    requires sep !in a && sep !in b && sep !in c && sep !in d
    ensures Split(a + [sep] + (b + [sep] + (c + [sep] + d)), sep, 3) == [a, b, c, d]
  {
    SplitHead(a, b + [sep] + (c + [sep] + d), sep, 3);
    SplitThree(b, c, d, sep, 2);
  }

  lemma {:induction false} JoinThree(parts: seq<string>, sep: char)
    requires |parts| == 3
    ensures Join(parts, sep) == parts[0] + [sep] + (parts[1] + [sep] + parts[2])
  {
    assert parts[1..][1..] == [parts[2]];
    assert Join(parts[1..], sep) == parts[1] + [sep] + Join([parts[2]], sep);
  }

  lemma {:induction false} PrefixOfConcat(p: string, rest: string)
    ensures p <= p + rest && (p + rest)[|p|..] == rest
  {
  }
}
