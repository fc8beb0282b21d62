/** The Python string operations the reply composer relies on: `str.isspace`,
    `str.lower`, `str.strip`, `str.replace`, `str.split()` with no separator,
    and joining with a separator. */
module Text {

  /** The characters Python's `str.isspace` accepts (and `split()`/`strip()`
      with no argument treat as whitespace). */
  function IsSpace(c: char): (b: bool)
    ensures c == ' ' || c == '\t' || c == '\n' || c == '\r' ==> b
    ensures c == ',' || ('0' <= c <= '9') || ('a' <= c <= 'z') || ('A' <= c <= 'Z') ==> !b
  {
    || c == ' '
    || ('\t' <= c <= '\r')
    || ('\U{1C}' <= c <= '\U{1F}')
    || c == '\U{85}' || c == '\U{A0}' || c == '\U{1680}'
    || ('\U{2000}' <= c <= '\U{200A}')
    || c == '\U{2028}' || c == '\U{2029}' || c == '\U{202F}' || c == '\U{205F}' || c == '\U{3000}'
  }

  predicate HasNoSpace(s: string) {
    forall i :: 0 <= i < |s| ==> !IsSpace(s[i])
  }

  /** A maximal run `s.split()` can return: non-empty, no whitespace. */
  predicate IsWord(w: string) {
    w != [] && HasNoSpace(w)
  }

  // ---------------------------------------------------------------------
  // lower()

  function LowerChar(c: char): char {
    if 'A' <= c <= 'Z' then (c as int + 32) as char else c
  }

  /** `str.lower()` restricted to ASCII: capitals become small letters,
      every other character is kept. */
  function Lower(s: string): (r: string)
    ensures |r| == |s|
    ensures forall i :: 0 <= i < |r| ==> !('A' <= r[i] <= 'Z')
    ensures forall i :: 0 <= i < |s| && !('A' <= s[i] <= 'Z') ==> r[i] == s[i]
    ensures forall i :: 0 <= i < |s| && 'A' <= s[i] <= 'Z' ==> r[i] as int == s[i] as int + 32
  {
    seq(|s|, i requires 0 <= i < |s| => LowerChar(s[i]))
  }

  lemma LowerOfLowered(s: string, t: string)
    requires forall c :: c in t ==> c in Lower(s)
    ensures Lower(t) == t
  {
    forall i | 0 <= i < |t| ensures LowerChar(t[i]) == t[i] {
      assert t[i] in Lower(s);
    }
  }

  // ---------------------------------------------------------------------
  // strip()

  /** The index of the first non-whitespace character of `s` at or after
      `i`, or `|s|` when there is none. */
  function SkipSpace(s: string, i: nat): (k: nat)
    requires i <= |s|
    ensures i <= k <= |s|
    ensures forall j :: i <= j < k ==> IsSpace(s[j])
    ensures k == |s| || !IsSpace(s[k])
    decreases |s| - i
  {
    if i < |s| && IsSpace(s[i]) then SkipSpace(s, i + 1) else i
  }

  /** The end of `s[lo..hi]` once its trailing whitespace is dropped. */
  function TrimEnd(s: string, lo: nat, hi: nat): (k: nat)
    requires lo <= hi <= |s|
    ensures lo <= k <= hi
    ensures forall j :: k <= j < hi ==> IsSpace(s[j])
    ensures k == lo || !IsSpace(s[k - 1])
    decreases hi
  {
    if lo < hi && IsSpace(s[hi - 1]) then TrimEnd(s, lo, hi - 1) else hi
  }

  /** Where the text `strip()` keeps begins. */
  function StripStart(s: string): nat {
    SkipSpace(s, 0)
  }

  /** `r` is `s` with the whitespace-only prefix `s[..a]` and a
      whitespace-only suffix dropped. */
  predicate StrippedAt(s: string, r: string, a: int) {
    && 0 <= a <= |s| - |r| && r == s[a..a + |r|]
    && (forall i :: 0 <= i < a ==> IsSpace(s[i]))
    && (forall i :: a + |r| <= i < |s| ==> IsSpace(s[i]))
  }

  /** `s.strip()`: the slice of `s` left once the whitespace at both ends is
      dropped; what is dropped is all whitespace and what remains neither
      starts nor ends with whitespace. */
  function Strip(s: string): (r: string)
    ensures StrippedAt(s, r, StripStart(s))
    ensures r == [] || (!IsSpace(r[0]) && !IsSpace(r[|r| - 1]))
  {
    var a := SkipSpace(s, 0);
    var b := TrimEnd(s, a, |s|);
    s[a..b]
  }

  lemma StripIdempotent(s: string)
    ensures Strip(Strip(s)) == Strip(s)
  {
    StripWord(Strip(s));
  }

  lemma StripChars(s: string)
    ensures forall c :: c in Strip(s) ==> c in s
  {
    var r := Strip(s);
    var a := StripStart(s);
    forall c | c in r ensures c in s {
      var i :| 0 <= i < |r| && r[i] == c;
      assert s[a + i] == c;
    }
  }

  /** A string that neither starts nor ends with whitespace (in particular
      a word) is left alone by `strip()`. */
  lemma StripWord(w: string)
    requires w == [] || (!IsSpace(w[0]) && !IsSpace(w[|w| - 1]))
    ensures Strip(w) == w
  {
    if w != [] {
      assert SkipSpace(w, 0) == 0;
      assert TrimEnd(w, 0, |w|) == |w|;
    }
  }

  // ---------------------------------------------------------------------
  // str.replace

  /** `p` occurs in `s` starting at index `i`. */
  predicate OccursAt(s: string, p: string, i: int) {
    0 <= i && i + |p| <= |s| && s[i..i + |p|] == p
  }

  predicate Occurs(s: string, p: string) {
    exists i :: 0 <= i <= |s| - |p| && OccursAt(s, p, i)
  }

  /** `s.replace(p, r)` for a non-empty `p`: scanning left to right, every
      occurrence of `p` that does not overlap an earlier replaced one is
      replaced by `r`. */
  function ReplaceAll(s: string, p: string, r: string): (u: string)
    requires |p| > 0
    ensures r == p ==> u == s
    decreases |s|
  {
    if |s| < |p| then s
    else if s[..|p|] == p then
      assert s == s[..|p|] + s[|p|..];
      r + ReplaceAll(s[|p|..], p, r)
    else [s[0]] + ReplaceAll(s[1..], p, r)
  }

  lemma OccursSingle(s: string, c: char)
    ensures Occurs(s, [c]) <==> c in s
  {
    if c in s {
      var i :| 0 <= i < |s| && s[i] == c;
      assert OccursAt(s, [c], i);
    }
    if Occurs(s, [c]) {
      var i :| 0 <= i <= |s| - 1 && OccursAt(s, [c], i);
      assert s[i..i + 1] == [c];
      assert s[i] == c;
    }
  }

  /** A string without the pattern comes back unchanged. */
  lemma {:induction false} ReplaceAbsent(s: string, p: string, r: string)
    requires |p| > 0 && !Occurs(s, p)
    ensures ReplaceAll(s, p, r) == s
  {
    if |s| >= |p| {
      assert !OccursAt(s, p, 0);
      forall i ensures !OccursAt(s[1..], p, i) {
        if OccursAt(s[1..], p, i) {
          assert s[1..][i..i + |p|] == s[i + 1..i + 1 + |p|];
          assert OccursAt(s, p, i + 1);
        }
      }
      ReplaceAbsent(s[1..], p, r);
      assert s == [s[0]] + s[1..];
    }
  }

  /** A prefix in which no occurrence starts is copied unchanged. */
  lemma {:induction false} ReplaceSkipsPrefix(a: string, t: string, p: string, r: string)
    requires |p| > 0
    requires forall i :: 0 <= i < |a| ==> !OccursAt(a + t, p, i)
    ensures ReplaceAll(a + t, p, r) == a + ReplaceAll(t, p, r)
  {
    if a != [] {
      var s := a + t;
      if |s| < |p| {
        assert ReplaceAll(s, p, r) == s;
        assert ReplaceAll(t, p, r) == t;
      } else {
        assert !OccursAt(s, p, 0);
        assert s[1..] == a[1..] + t;
        forall i | 0 <= i < |a| - 1 ensures !OccursAt(a[1..] + t, p, i) {
          assert !OccursAt(s, p, i + 1);
          if i + |p| <= |s| - 1 {
            assert (a[1..] + t)[i..i + |p|] == s[i + 1..i + 1 + |p|];
          }
        }
        ReplaceSkipsPrefix(a[1..], t, p, r);
        assert s[..|p|] != p;
        assert ReplaceAll(s, p, r) == [s[0]] + ReplaceAll(s[1..], p, r);
        assert s[0] == a[0];
        calc {
          ReplaceAll(s, p, r);
          [a[0]] + (a[1..] + ReplaceAll(t, p, r));
          ([a[0]] + a[1..]) + ReplaceAll(t, p, r);
          { assert a == [a[0]] + a[1..]; }
          a + ReplaceAll(t, p, r);
        }
      }
    } else {
      assert a + t == t;
    }
  }

  /** The leftmost occurrence is replaced, and scanning resumes after it. */
  lemma ReplaceLeftmost(a: string, b: string, p: string, r: string)
    requires |p| > 0
    requires forall i :: 0 <= i < |a| ==> !OccursAt(a + p + b, p, i)
    ensures ReplaceAll(a + p + b, p, r) == a + r + ReplaceAll(b, p, r)
  {
    assert a + p + b == a + (p + b);
    ReplaceSkipsPrefix(a, p + b, p, r);
    assert (p + b)[..|p|] == p;
    assert (p + b)[|p|..] == b;
  }

  /** Within the first `m` characters, the result either agrees with the
      input or shows the first character of the replacement. */
  lemma {:induction false} ReplacePrefixOrReplacement(t: string, p: string, r: string, m: nat)
    requires |p| > 0 && |r| > 0 && m <= |t|
    ensures var u := ReplaceAll(t, p, r);
      (|u| >= m && u[..m] == t[..m]) || (exists j :: 0 <= j < m && j < |u| && u[j] == r[0])
  {
    var u := ReplaceAll(t, p, r);
    if m == 0 || |t| < |p| {
    } else if t[..|p|] == p {
      assert u[0] == r[0];
    } else {
      var u1 := ReplaceAll(t[1..], p, r);
      assert u == [t[0]] + u1;
      ReplacePrefixOrReplacement(t[1..], p, r, m - 1);
      if |u1| >= m - 1 && u1[..m - 1] == t[1..][..m - 1] {
        assert u[..m] == [t[0]] + u1[..m - 1];
        assert t[..m] == [t[0]] + t[1..][..m - 1];
      } else {
        var j :| 0 <= j < m - 1 && j < |u1| && u1[j] == r[0];
        assert u[j + 1] == r[0];
      }
    }
  }

  lemma AbsentWhenFirstCharAbsent(s: string, p: string)
    requires p != [] && p[0] !in s
    ensures !Occurs(s, p)
  {
    forall i | 0 <= i <= |s| - |p| ensures !OccursAt(s, p, i) {
      assert s[i..i + |p|][0] == s[i];
    }
  }

  lemma NoOccurrenceInPrefix(a: string, t: string, p: string)
    requires p != [] && p[0] !in a
    ensures forall i :: 0 <= i < |a| ==> !OccursAt(a + t, p, i)
  {
    forall i | 0 <= i < |a| ensures !OccursAt(a + t, p, i) {
      assert (a + t)[i] == a[i];
      if i + |p| <= |a + t| {
        assert (a + t)[i..i + |p|][0] == (a + t)[i];
      }
    }
  }

  /** A pattern whose first character occurs nowhere else is replaced at
      its one occurrence. */
  lemma ReplaceSingle(a: string, p: string, b: string, r: string)
    requires p != [] && p[0] !in a && p[0] !in b
    ensures ReplaceAll(a + p + b, p, r) == a + r + b
  {
    NoOccurrenceInPrefix(a, p + b, p);
    assert a + p + b == a + (p + b);
    ReplaceLeftmost(a, b, p, r);
    AbsentWhenFirstCharAbsent(b, p);
    ReplaceAbsent(b, p, r);
  }

  /** When the replacement is non-empty and shares no character with the
      pattern, no occurrence of the pattern survives. */
  lemma {:induction false} ReplaceEliminates(s: string, p: string, r: string)
    requires |p| > 0 && |r| > 0
    requires forall c :: c in r ==> c !in p
    ensures !Occurs(ReplaceAll(s, p, r), p)
    decreases |s|, 1
  {
    if |s| < |p| {
      assert forall i :: !OccursAt(ReplaceAll(s, p, r), p, i);
    } else if s[..|p|] == p {
      ReplaceEliminatesAtMatch(s, p, r);
    } else {
      ReplaceEliminatesPastMismatch(s, p, r);
    }
  }

  lemma {:induction false} ReplaceEliminatesAtMatch(s: string, p: string, r: string)
    requires |p| > 0 && |r| > 0
    requires forall c :: c in r ==> c !in p
    requires |s| >= |p| && s[..|p|] == p
    ensures !Occurs(ReplaceAll(s, p, r), p)
    decreases |s|, 0
  {
    var u := ReplaceAll(s, p, r);
    var rest := ReplaceAll(s[|p|..], p, r);
    ReplaceEliminates(s[|p|..], p, r);
    assert u == r + rest;
    forall i | 0 <= i <= |u| - |p| ensures !OccursAt(u, p, i) {
      if i < |r| {
        assert u[i] == r[i] && r[i] in r;
        assert u[i..i + |p|][0] == u[i];
      } else {
        assert u[i..i + |p|] == rest[i - |r|..i - |r| + |p|];
        assert !OccursAt(rest, p, i - |r|);
      }
    }
  }

  lemma {:induction false} ReplaceEliminatesPastMismatch(s: string, p: string, r: string)
    requires |p| > 0 && |r| > 0
    requires forall c :: c in r ==> c !in p
    requires |s| >= |p| && s[..|p|] != p
    ensures !Occurs(ReplaceAll(s, p, r), p)
    decreases |s|, 0
  {
    var u := ReplaceAll(s, p, r);
    var t := s[1..];
    var rest := ReplaceAll(t, p, r);
    ReplaceEliminates(t, p, r);
    assert u == [s[0]] + rest;
    forall i | 0 <= i <= |u| - |p| ensures !OccursAt(u, p, i) {
      if i == 0 {
        NoMatchAfterMismatch(s, p, r);
      } else {
        assert u[i..i + |p|] == rest[i - 1..i - 1 + |p|];
        assert !OccursAt(rest, p, i - 1);
      }
    }
  }

  /** Where the input does not start with the pattern, neither does the
      result of the replacement. */
  lemma NoMatchAfterMismatch(s: string, p: string, r: string)
    requires |p| > 0 && |r| > 0
    requires forall c :: c in r ==> c !in p
    requires |s| >= |p| && s[..|p|] != p
    ensures !OccursAt(ReplaceAll(s, p, r), p, 0)
  {
    var u := ReplaceAll(s, p, r);
    var t := s[1..];
    var rest := ReplaceAll(t, p, r);
    assert u == [s[0]] + rest;
    ReplacePrefixOrReplacement(t, p, r, |p| - 1);
    if |rest| >= |p| - 1 && rest[..|p| - 1] == t[..|p| - 1] {
      assert u[..|p|] == [s[0]] + rest[..|p| - 1];
      assert s[..|p|] == [s[0]] + t[..|p| - 1];
    } else {
      var j :| 0 <= j < |p| - 1 && j < |rest| && rest[j] == r[0];
      assert u[j + 1] == r[0] && r[0] in r;
      if |p| <= |u| {
        assert u[..|p|][j + 1] == u[j + 1];
      }
    }
  }

  // ---------------------------------------------------------------------
  // str.split() with no separator, and joining

  /** The leading run of non-whitespace characters of `s`. */
  function Word(s: string): (w: string)
    ensures |w| <= |s| && w == s[..|w|]
    ensures HasNoSpace(w)
    ensures |w| == |s| || IsSpace(s[|w|])
  {
    if s == [] || IsSpace(s[0]) then [] else [s[0]] + Word(s[1..])
  }

  /** `s.split()`: the maximal runs of non-whitespace characters, in order. */
  function SplitWhitespace(s: string): (words: seq<string>)
    ensures forall k :: 0 <= k < |words| ==> IsWord(words[k])
    ensures forall k, c :: 0 <= k < |words| && c in words[k] ==> c in s
    decreases |s|
  {
    if s == [] then []
    else if IsSpace(s[0]) then
      assert forall c :: c in s[1..] ==> c in s;
      SplitWhitespace(s[1..])
    else
      var w := Word(s);
      assert forall c :: c in w ==> c in s;
      assert forall c :: c in s[|w|..] ==> c in s;
      [w] + SplitWhitespace(s[|w|..])
  }

  /** `sep.join(parts)`. */
  function JoinWith(parts: seq<string>, sep: string): string {
    if parts == [] then []
    else if |parts| == 1 then parts[0]
    else parts[0] + sep + JoinWith(parts[1..], sep)
  }

  lemma {:induction false} JoinChars(parts: seq<string>, sep: string, c: char)
    requires c in JoinWith(parts, sep)
    ensures c in sep || exists k :: 0 <= k < |parts| && c in parts[k]
  {
    if |parts| > 1 {
      var rest := JoinWith(parts[1..], sep);
      if c in rest {
        JoinChars(parts[1..], sep, c);
        if c !in sep {
          var k :| 0 <= k < |parts| - 1 && c in parts[1..][k];
          assert c in parts[k + 1];
        }
      } else if c !in sep {
        assert c in parts[0];
      }
    } else if |parts| == 1 {
      assert c in parts[0];
    }
  }

  lemma {:induction false} WordOfPrefix(w: string, rest: string)
    requires HasNoSpace(w)
    requires rest == [] || IsSpace(rest[0])
    ensures Word(w + rest) == w
  {
    if w == [] {
      assert w + rest == rest;
    } else {
      assert (w + rest)[1..] == w[1..] + rest;
      WordOfPrefix(w[1..], rest);
    }
  }

  /** Splitting words joined by a single space gives the words back. */
  lemma {:induction false} SplitJoin(words: seq<string>)
    requires forall k :: 0 <= k < |words| ==> IsWord(words[k])
    ensures SplitWhitespace(JoinWith(words, " ")) == words
  {
    if |words| == 1 {
      var w := words[0];
      WordOfPrefix(w, []);
      assert w + [] == w;
      assert w[|w|..] == [];
    } else if |words| > 1 {
      SplitJoin(words[1..]);
      SplitWordThenRest(words[0], JoinWith(words[1..], " "));
      assert words == [words[0]] + words[1..];
    }
  }

  /** A word, a space and the rest split into the word and the rest's words. */
  lemma SplitWordThenRest(w: string, rest: string)
    requires IsWord(w)
    ensures SplitWhitespace(w + " " + rest) == [w] + SplitWhitespace(rest)
  {
    var s := w + " " + rest;
    assert s == w + (" " + rest);
    WordOfPrefix(w, " " + rest);
    assert s[0] == w[0];
    assert s[|w|..] == " " + rest;
    assert (" " + rest)[1..] == rest;
  }

  /** The leading word ends no later than the first whitespace character. */
  lemma {:induction false} WordBeforeSpace(a: string, rest: string)
    requires rest == [] || IsSpace(rest[0])
    ensures Word(a + rest) == Word(a)
    decreases |a|
  {
    if a == [] {
      assert a + rest == rest;
    } else {
      assert (a + rest)[0] == a[0];
      if !IsSpace(a[0]) {
        assert (a + rest)[1..] == a[1..] + rest;
        WordBeforeSpace(a[1..], rest);
      }
    }
  }

  /** `split()` cuts at every whitespace character: the words of `a + [c] + b`
      are the words of `a` followed by the words of `b`. With
      `SplitWhitespace([]) == []` and `SplitWord` this fixes the split of
      every string. */
  lemma {:induction false} SplitAtSpace(a: string, c: char, b: string)
    requires IsSpace(c)
    ensures SplitWhitespace(a + [c] + b) == SplitWhitespace(a) + SplitWhitespace(b)
    decreases |a|, 1
  {
    if a == [] {
      var s := a + [c] + b;
      assert s == [c] + b;
      assert s[1..] == b;
    } else if IsSpace(a[0]) {
      SplitAtSpaceAfterSpace(a, c, b);
    } else {
      SplitAtSpaceAfterWord(a, c, b);
    }
  }

  lemma {:induction false} SplitAtSpaceAfterSpace(a: string, c: char, b: string)
    requires IsSpace(c) && a != [] && IsSpace(a[0])
    ensures SplitWhitespace(a + [c] + b) == SplitWhitespace(a) + SplitWhitespace(b)
    decreases |a|, 0
  {
    var s := a + [c] + b;
    assert s[0] == a[0];
    assert s[1..] == a[1..] + [c] + b;
    SplitAtSpace(a[1..], c, b);
  }

  lemma {:induction false} SplitAtSpaceAfterWord(a: string, c: char, b: string)
    requires IsSpace(c) && a != [] && !IsSpace(a[0])
    ensures SplitWhitespace(a + [c] + b) == SplitWhitespace(a) + SplitWhitespace(b)
    decreases |a|, 0
  {
    var s := a + [c] + b;
    assert s == a + ([c] + b);
    WordBeforeSpace(a, [c] + b);
    var w := Word(a);
    assert w[0] == a[0];
    var t := a[|w|..];
    assert s[|w|..] == t + [c] + b;
    SplitAtSpace(t, c, b);
    assert s[0] == a[0];
    assert SplitWhitespace(s) == [w] + SplitWhitespace(t + [c] + b);
  }

  /** A single word splits into itself. */
  lemma SplitWord(w: string)
    requires IsWord(w)
    ensures SplitWhitespace(w) == [w]
  {
    WordOfPrefix(w, []);
    assert w + [] == w;
    assert w[|w|..] == [];
  }

  /** Replacing a single character distributes over concatenation. */
  lemma {:induction false} ReplaceCharConcat(a: string, b: string, x: char, r: string)
    ensures ReplaceAll(a + b, [x], r) == ReplaceAll(a, [x], r) + ReplaceAll(b, [x], r)
    decreases |a|
  {
    if a == [] {
      assert a + b == b;
    } else {
      assert (a + b)[..1] == a[..1];
      assert (a + b)[1..] == a[1..] + b;
      ReplaceCharConcat(a[1..], b, x, r);
    }
  }
}
