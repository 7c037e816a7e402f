/**
 String operations shared by the two implementations: trimming, removing a class
 of characters, ASCII upper-casing, counting and joining.
 */
module Text {

  /** The number of leading characters of `s` that belong to `ws`. */
  function LeadingCount(s: string, ws: set<char>): (n: nat)
    ensures n <= |s|
    ensures forall k :: 0 <= k < n ==> s[k] in ws
    ensures n == |s| || s[n] !in ws
    decreases |s|
  {
    if |s| > 0 && s[0] in ws then
      var n := LeadingCount(s[1..], ws);
      assert forall k :: 1 <= k < n + 1 ==> s[k] == s[1..][k - 1];
      n + 1
    else 0
  }

  /** The number of trailing characters of `s` that belong to `ws`. */
  function TrailingCount(s: string, ws: set<char>): (n: nat)
    ensures n <= |s|
    ensures forall k :: |s| - n <= k < |s| ==> s[k] in ws
    ensures n == |s| || s[|s| - n - 1] !in ws
    decreases |s|
  {
    if |s| > 0 && s[|s| - 1] in ws then
      var n := TrailingCount(s[..|s| - 1], ws);
      assert forall k :: |s| - 1 - n <= k < |s| - 1 ==> s[k] == s[..|s| - 1][k];
      n + 1
    else 0
  }

  /** Both ends trimmed: JavaScript's `trim()` and Python's `strip()`, for their own `ws`. */
  function Strip(s: string, ws: set<char>): (r: string)
    ensures var a := LeadingCount(s, ws);
      && a + |r| <= |s| && r == s[a..a + |r|]
      && (forall k :: 0 <= k < a ==> s[k] in ws)
      && (forall k :: a + |r| <= k < |s| ==> s[k] in ws)
    ensures r == [] || (r[0] !in ws && r[|r| - 1] !in ws)
  {
    var a := LeadingCount(s, ws);
    var b := TrailingCount(s[a..], ws);
    assert forall k :: a + (|s| - a - b) <= k < |s| ==> s[k] == s[a..][k - a];
    s[a..|s| - b]
  }

  /** Every character of `s` that belongs to `cs` removed, the others kept in order. */
  function RemoveChars(s: string, cs: set<char>): (r: string)
    ensures |r| <= |s|
    ensures forall c :: c in r <==> c in s && c !in cs
    decreases |s|
  {
    if s == [] then []
    else (if s[0] in cs then [] else [s[0]]) + RemoveChars(s[1..], cs)
  }

  /** ASCII upper-casing of one character; every other character is kept. */
  function UpperChar(c: char): char
  {
    if 'a' <= c <= 'z' then (c as int - 32) as char else c
  }

  /** Upper-casing, character by character. */
  function Upper(s: string): (r: string)
    ensures |r| == |s|
    ensures forall k :: 0 <= k < |s| ==> r[k] == UpperChar(s[k])
    decreases |s|
  {
    if s == [] then [] else [UpperChar(s[0])] + Upper(s[1..])
  }

  /** The number of occurrences of `c` in `s`. */
  function Count(s: string, c: char): (n: nat)
    ensures n <= |s|
    ensures n == 0 <==> c !in s
    ensures n == multiset(s)[c]
    decreases |s|
  {
    if s == [] then 0
    else
      assert s == [s[0]] + s[1..];
      (if s[0] == c then 1 else 0) + Count(s[1..], c)
  }

  /** `parts` joined with `sep` between consecutive parts: `Array.prototype.join` and `str.join`. */
  function Join(parts: seq<string>, sep: string): string
    decreases |parts|
  {
    if |parts| == 0 then ""
    else if |parts| == 1 then parts[0]
    else parts[0] + sep + Join(parts[1..], sep)
  }

  // ---------------------------------------------------------------------------
  // Lemmas

  /** Removing characters distributes over concatenation. */
  lemma {:induction false} RemoveCharsAppend(a: string, b: string, cs: set<char>)
    ensures RemoveChars(a + b, cs) == RemoveChars(a, cs) + RemoveChars(b, cs)
    decreases |a|
  {
    if a == [] {
      assert a + b == b;
    } else {
      assert (a + b)[0] == a[0];
      assert (a + b)[1..] == a[1..] + b;
      RemoveCharsAppend(a[1..], b, cs);
    }
  }

  /** A string without characters of `cs` is left as it is. */
  lemma {:induction false} RemoveCharsNone(s: string, cs: set<char>)
    requires forall k :: 0 <= k < |s| ==> s[k] !in cs
    ensures RemoveChars(s, cs) == s
    decreases |s|
  {
    if s != [] {
      RemoveCharsNone(s[1..], cs);
    }
  }

  /** Removing the same characters twice removes nothing more. */
  lemma RemoveCharsIdempotent(s: string, cs: set<char>)
    ensures RemoveChars(RemoveChars(s, cs), cs) == RemoveChars(s, cs)
  {
    var r := RemoveChars(s, cs);
    forall k | 0 <= k < |r| ensures r[k] !in cs {
      assert r[k] in r;
    }
    RemoveCharsNone(r, cs);
  }

  /** Trimming with `ws` before removing all of `ws` changes nothing. */
  lemma StripThenRemove(s: string, ws: set<char>)
    ensures RemoveChars(Strip(s, ws), ws) == RemoveChars(s, ws)
  {
    var r := Strip(s, ws);
    var a := LeadingCount(s, ws);
    var pre, post := s[..a], s[a + |r|..];
    assert s == pre + r + post;
    forall k | 0 <= k < |pre| ensures pre[k] in ws {
      assert pre[k] == s[k];
    }
    forall k | 0 <= k < |post| ensures post[k] in ws {
      assert post[k] == s[a + |r| + k];
    }
    RemoveCharsAll(pre, ws);
    RemoveCharsAll(post, ws);
    RemoveCharsAppend(pre + r, post, ws);
    RemoveCharsAppend(pre, r, ws);
    assert RemoveChars(s, ws) == RemoveChars(r, ws);
  }

  /** A string made only of characters of `cs` is removed entirely. */
  lemma {:induction false} RemoveCharsAll(s: string, cs: set<char>)
    requires forall k :: 0 <= k < |s| ==> s[k] in cs
    ensures RemoveChars(s, cs) == []
    decreases |s|
  {
    if s != [] {
      RemoveCharsAll(s[1..], cs);
    }
  }

  /** Upper-casing distributes over concatenation. */
  lemma UpperAppend(a: string, b: string)
    ensures Upper(a + b) == Upper(a) + Upper(b)
  {
    assert forall k :: 0 <= k < |a + b| ==> Upper(a + b)[k] == (Upper(a) + Upper(b))[k];
  }

  /** Upper-casing commutes with removing a class of characters that upper-casing maps onto itself. */
  lemma {:induction false} UpperRemoveCommute(s: string, cs: set<char>)
    requires forall c :: c in cs <==> UpperChar(c) in cs
    ensures Upper(RemoveChars(s, cs)) == RemoveChars(Upper(s), cs)
    decreases |s|
  {
    if s != [] {
      var head := if s[0] in cs then [] else [s[0]];
      UpperAppend(head, RemoveChars(s[1..], cs));
      assert Upper(s) == [UpperChar(s[0])] + Upper(s[1..]);
      assert Upper(s)[1..] == Upper(s[1..]);
      UpperRemoveCommute(s[1..], cs);
    }
  }

  /** Upper-casing twice is upper-casing once. */
  lemma UpperIdempotent(s: string)
    ensures Upper(Upper(s)) == Upper(s)
  {
  }

  /** Joining one-character parts with the empty separator lays the characters side by side. */
  lemma {:induction false} JoinLetters(parts: seq<string>)
    requires forall k :: 0 <= k < |parts| ==> |parts[k]| == 1
    ensures |Join(parts, "")| == |parts|
    ensures forall k :: 0 <= k < |parts| ==> Join(parts, "")[k] == parts[k][0]
    decreases |parts|
  {
    if |parts| > 1 {
      JoinLetters(parts[1..]);
      assert Join(parts, "") == parts[0] + Join(parts[1..], "");
    }
  }

  /** A joined list begins with its first part. */
  lemma JoinPrefix(parts: seq<string>, sep: string)
    requires |parts| > 0
    ensures |parts[0]| <= |Join(parts, sep)| && Join(parts, sep)[..|parts[0]|] == parts[0]
  {
  }

  /** A string whose two ends lie outside `ws` is its own trim. */
  lemma StripNone(s: string, ws: set<char>)
    requires s == [] || (s[0] !in ws && s[|s| - 1] !in ws)
    ensures Strip(s, ws) == s
  {
  }

  /** Removing two classes that agree on the characters of `s` gives the same string. */
  lemma {:induction false} RemoveCharsSame(s: string, a: set<char>, b: set<char>)
    requires forall k :: 0 <= k < |s| ==> (s[k] in a <==> s[k] in b)
    ensures RemoveChars(s, a) == RemoveChars(s, b)
    decreases |s|
  {
    if s != [] {
      RemoveCharsSame(s[1..], a, b);
    }
  }

  /** A character outside `cs` that occurs in `s` occurs after removal. */
  lemma RemoveCharsKeeps(s: string, cs: set<char>, c: char)
    requires c in s && c !in cs
    ensures c in RemoveChars(s, cs)
  {
  }

  /** Trimming with two classes that agree on the characters of `s` gives the same string. */
  lemma StripSame(s: string, a: set<char>, b: set<char>)
    requires forall k :: 0 <= k < |s| ==> (s[k] in a <==> s[k] in b)
    ensures Strip(s, a) == Strip(s, b)
  {
    LeadingSame(s, a, b);
    var n := LeadingCount(s, a);
    var rest := s[n..];
    forall k | 0 <= k < |rest| ensures rest[k] in a <==> rest[k] in b {
      assert rest[k] == s[n + k];
    }
    TrailingSame(rest, a, b);
  }

  lemma {:induction false} LeadingSame(s: string, a: set<char>, b: set<char>)
    requires forall k :: 0 <= k < |s| ==> (s[k] in a <==> s[k] in b)
    ensures LeadingCount(s, a) == LeadingCount(s, b)
    decreases |s|
  {
    if |s| > 0 {
      LeadingSame(s[1..], a, b);
    }
  }

  lemma {:induction false} TrailingSame(s: string, a: set<char>, b: set<char>)
    requires forall k :: 0 <= k < |s| ==> (s[k] in a <==> s[k] in b)
    ensures TrailingCount(s, a) == TrailingCount(s, b)
    decreases |s|
  {
    if |s| > 0 {
      TrailingSame(s[..|s| - 1], a, b);
    }
  }

  /** A last character outside `cs` is the last character after removal. */
  lemma RemoveCharsLast(s: string, cs: set<char>)
    requires s != [] && s[|s| - 1] !in cs
    ensures var r := RemoveChars(s, cs); r != [] && r[|r| - 1] == s[|s| - 1]
  {
    var init := s[..|s| - 1];
    assert s == init + [s[|s| - 1]];
    RemoveCharsAppend(init, [s[|s| - 1]], cs);
  }
}
