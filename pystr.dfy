/** The Python `str` operations the model-matching code relies on:
    `lower()`, `in`, `endswith`, `replace` and `split()` with no argument.
    Strings are sequences of code points, as in Python 3. */
module PyStr {

  /** ASCII part of `str.lower()`: 'A'..'Z' become 'a'..'z', every other
      character is kept. */
  function LowerChar(c: char): char
  {
    if 'A' <= c <= 'Z' then (c as int + 32) as char else c
  }

  predicate IsUpperAscii(c: char)
  {
    'A' <= c <= 'Z'
  }

  /** `s.lower()`, restricted to ASCII letters. */
  function Lower(s: string): (r: string)
    ensures |r| == |s|
    ensures forall i :: 0 <= i < |s| ==> r[i] == LowerChar(s[i])
    ensures forall i :: 0 <= i < |r| ==> !IsUpperAscii(r[i])
  {
    if s == [] then [] else [LowerChar(s[0])] + Lower(s[1..])
  }

  /** A string that `lower()` leaves unchanged. */
  predicate IsLowercase(s: string)
  {
    forall i :: 0 <= i < |s| ==> !IsUpperAscii(s[i])
  }

  /** Lowercasing is idempotent, and it fixes exactly the strings without
      upper-case letters. */
  lemma LowerFixesExactlyLowercase(s: string)
    ensures Lower(Lower(s)) == Lower(s)
    ensures Lower(s) == s <==> IsLowercase(s)
  {
    if !IsLowercase(s) {
      var i :| 0 <= i < |s| && IsUpperAscii(s[i]);
      assert Lower(s)[i] != s[i];
    }
  }

  /** Lowercasing works character by character, so it distributes over
      concatenation. */
  lemma LowerAppend(a: string, b: string)
    ensures Lower(a + b) == Lower(a) + Lower(b)
  {
    var l, r := Lower(a + b), Lower(a) + Lower(b);
    forall i | 0 <= i < |a + b| ensures l[i] == r[i] {
      if i < |a| {
        assert (a + b)[i] == a[i];
      } else {
        assert (a + b)[i] == b[i - |a|];
      }
    }
  }

  /** `sub` occurs in `s` starting at position `i`. */
  predicate OccursAt(s: string, sub: string, i: nat)
  {
    i + |sub| <= |s| && s[i..i + |sub|] == sub
  }

  /** `pat[j..]` occurs in `s` at position `k + j`, compared character by
      character; `MatchesOccurs` ties it to `OccursAt`. */
  predicate MatchesFrom(s: string, pat: string, k: nat, j: nat)
    requires k + |pat| <= |s| && j <= |pat|
    decreases |pat| - j
  {
    j == |pat| || (s[k + j] == pat[j] && MatchesFrom(s, pat, k, j + 1))
  }

  lemma {:induction false} MatchesFromSlice(s: string, pat: string, k: nat, j: nat)
    requires k + |pat| <= |s| && j <= |pat|
    ensures MatchesFrom(s, pat, k, j) <==> s[k + j..k + |pat|] == pat[j..]
    decreases |pat| - j
  {
    if j < |pat| {
      MatchesFromSlice(s, pat, k, j + 1);
      assert s[k + j..k + |pat|] == [s[k + j]] + s[k + j + 1..k + |pat|];
      assert pat[j..] == [pat[j]] + pat[j + 1..];
    }
  }

  lemma MatchesOccurs(s: string, pat: string, k: nat)
    requires k + |pat| <= |s|
    ensures MatchesFrom(s, pat, k, 0) <==> OccursAt(s, pat, k)
  {
    MatchesFromSlice(s, pat, k, 0);
    assert pat[0..] == pat;
  }

  /** `sub in s`, searching from position `k` onwards. */
  function ContainsFrom(s: string, sub: string, k: nat): (r: bool)
    ensures r ==> k + |sub| <= |s|
    decreases |s| - k
  {
    if k + |sub| > |s| then false
    else if s[k..k + |sub|] == sub then true
    else ContainsFrom(s, sub, k + 1)
  }

  /** Python's `sub in s` (always true for the empty string). */
  function Contains(s: string, sub: string): (r: bool)
    ensures r ==> |sub| <= |s|
    ensures sub == s ==> r
  {
    ContainsFrom(s, sub, 0)
  }

  /** The search from `k` succeeds exactly when `sub` occurs at or after `k`. */
  lemma {:induction false} ContainsFromOccurs(s: string, sub: string, k: nat)
    ensures ContainsFrom(s, sub, k) <==> exists i :: k <= i && OccursAt(s, sub, i)
    decreases |s| - k
  {
    if k + |sub| <= |s| {
      if s[k..k + |sub|] == sub {
        assert OccursAt(s, sub, k);
      } else {
        ContainsFromOccurs(s, sub, k + 1);
        assert !OccursAt(s, sub, k);
      }
    }
  }

  /** `sub in s` holds exactly when `sub` is a contiguous piece of `s`. */
  lemma ContainsOccurs(s: string, sub: string)
    ensures Contains(s, sub) <==> exists i: nat :: OccursAt(s, sub, i)
  {
    ContainsFromOccurs(s, sub, 0);
  }

  /** Python's `s.endswith(suffix)`. */
  predicate EndsWith(s: string, suffix: string)
  {
    |suffix| <= |s| && s[|s| - |suffix|..] == suffix
  }

  /** A string ends with `suffix` exactly when it is some stem followed by
      `suffix`. */
  lemma EndsWithAppended(s: string, suffix: string)
    ensures EndsWith(s, suffix) <==> exists stem :: s == stem + suffix
  {
    if EndsWith(s, suffix) {
      var stem := s[..|s| - |suffix|];
      assert s == stem + suffix;
    }
    forall stem | s == stem + suffix ensures EndsWith(s, suffix) {
      assert s[|s| - |suffix|..] == suffix;
    }
  }

  /** A piece of a string occurs in any longer string built around it. */
  lemma ContainsInContext(a: string, sub: string, b: string)
    ensures Contains(a + sub + b, sub)
  {
    ContainsOccurs(a + sub + b, sub);
    assert OccursAt(a + sub + b, sub, |a|);
  }

  /** Python's `s.replace(pat, '')`: occurrences of `pat` are found from left
      to right, without overlap, and dropped; the text between them is kept. */
  function RemoveAll(s: string, pat: string): (r: string)
    requires pat != []
    ensures |r| <= |s|
    ensures |r| == |s| ==> r == s
  {
    assert s[0..] == s;
    RemoveFrom(s, pat, 0)
  }

  /** The scan of `s.replace(pat, '')` from position `k` on. */
  function RemoveFrom(s: string, pat: string, k: nat): (r: string)
    requires pat != [] && k <= |s|
    ensures |r| <= |s| - k
    ensures |r| == |s| - k ==> r == s[k..]
    decreases |s| - k
  {
    if k + |pat| > |s| then s[k..]
    else if MatchesFrom(s, pat, k, 0) then RemoveFrom(s, pat, k + |pat|)
    else
      assert s[k..] == [s[k]] + s[k + 1..];
      [s[k]] + RemoveFrom(s, pat, k + 1)
  }

  /** With no occurrence at or after `k`, the scan keeps the rest as it is. */
  lemma {:induction false} RemoveFromAbsent(s: string, pat: string, k: nat)
    requires pat != [] && k <= |s|
    requires forall j: nat :: k <= j ==> !OccursAt(s, pat, j)
    ensures RemoveFrom(s, pat, k) == s[k..]
    decreases |s| - k
  {
    if k + |pat| <= |s| {
      assert !OccursAt(s, pat, k);
      MatchesOccurs(s, pat, k);
      RemoveFromAbsent(s, pat, k + 1);
      assert s[k..] == [s[k]] + s[k + 1..];
    }
  }

  /** A string in which the pattern does not occur is left unchanged. */
  lemma RemoveAllAbsent(s: string, pat: string)
    requires pat != []
    requires !Contains(s, pat)
    ensures RemoveAll(s, pat) == s
  {
    ContainsOccurs(s, pat);
    RemoveFromAbsent(s, pat, 0);
  }

  /** From `k`, the scan keeps everything up to the first occurrence at `i`,
      drops it and goes on after it. */
  lemma {:induction false} RemoveFromAtFirst(s: string, pat: string, k: nat, i: nat)
    requires pat != [] && k <= i
    requires OccursAt(s, pat, i)
    requires forall j: nat :: k <= j < i ==> !OccursAt(s, pat, j)
    ensures RemoveFrom(s, pat, k) == s[k..i] + RemoveFrom(s, pat, i + |pat|)
    decreases i - k
  {
    if k == i {
      MatchesOccurs(s, pat, k);
      assert s[k..i] == [];
    } else {
      assert !OccursAt(s, pat, k);
      MatchesOccurs(s, pat, k);
      RemoveFromAtFirst(s, pat, k + 1, i);
      ConsSlice(s, k, i, RemoveFrom(s, pat, i + |pat|));
    }
  }

  lemma ConsSlice(s: string, k: nat, i: nat, x: string)
    requires k < i <= |s|
    ensures [s[k]] + (s[k + 1..i] + x) == s[k..i] + x
  {
    assert [s[k]] + s[k + 1..i] == s[k..i];
  }

  /** The scan from `m + k` depends only on the text from `m` on. */
  lemma {:induction false} RemoveFromShift(s: string, pat: string, m: nat, k: nat)
    requires pat != [] && m + k <= |s|
    ensures RemoveFrom(s, pat, m + k) == RemoveFrom(s[m..], pat, k)
    decreases |s| - (m + k), 1
  {
    if m + k + |pat| > |s| {
      ShiftAtEnd(s, pat, m, k);
    } else if OccursAt(s, pat, m + k) {
      DropsInBoth(s, pat, m, k);
      ShiftDrop(s, pat, m, k);
    } else {
      ShiftKeep(s, pat, m, k);
    }
  }

  lemma ShiftAtEnd(s: string, pat: string, m: nat, k: nat)
    requires pat != [] && m + k <= |s| < m + k + |pat|
    ensures RemoveFrom(s, pat, m + k) == RemoveFrom(s[m..], pat, k)
  {
    assert s[m..][k..] == s[m + k..];
  }

  /** After an occurrence at `m + k`, both scans resume `|pat|` further on. */
  lemma {:induction false} ShiftDrop(s: string, pat: string, m: nat, k: nat)
    requires pat != [] && m + k + |pat| <= |s|
    requires RemoveFrom(s, pat, m + k) == RemoveFrom(s, pat, m + k + |pat|)
    requires RemoveFrom(s[m..], pat, k) == RemoveFrom(s[m..], pat, k + |pat|)
    ensures RemoveFrom(s, pat, m + k) == RemoveFrom(s[m..], pat, k)
    decreases |s| - (m + k), 0
  {
    RemoveFromShift(s, pat, m, k + |pat|);
  }

  lemma {:induction false} ShiftKeep(s: string, pat: string, m: nat, k: nat)
    requires pat != [] && m + k + |pat| <= |s| && !OccursAt(s, pat, m + k)
    ensures RemoveFrom(s, pat, m + k) == RemoveFrom(s[m..], pat, k)
    decreases |s| - (m + k), 0
  {
    var t := s[m..];
    SliceOfSuffix(s, t, pat, m, k);
    RemoveFromShift(s, pat, m, k + 1);
    RemoveFromKeeps(s, pat, m + k);
    RemoveFromKeeps(t, pat, k);
  }

  lemma DropsInBoth(s: string, pat: string, m: nat, k: nat)
    requires pat != [] && m + k + |pat| <= |s| && OccursAt(s, pat, m + k)
    ensures RemoveFrom(s, pat, m + k) == RemoveFrom(s, pat, m + k + |pat|)
    ensures RemoveFrom(s[m..], pat, k) == RemoveFrom(s[m..], pat, k + |pat|)
  {
    SliceOfSuffix(s, s[m..], pat, m, k);
    RemoveFromDrops(s, pat, m + k);
    RemoveFromDrops(s[m..], pat, k);
  }

  /** Position `k` of the suffix from `m` is position `m + k` of the text. */
  lemma SliceOfSuffix(s: string, t: string, pat: string, m: nat, k: nat)
    requires m + k + |pat| <= |s| && t == s[m..] && pat != []
    ensures k + |pat| <= |t| && t[k] == s[m + k]
    ensures OccursAt(t, pat, k) == OccursAt(s, pat, m + k)
  {
    assert t[k..k + |pat|] == s[m + k..m + k + |pat|];
  }

  lemma RemoveFromDrops(s: string, pat: string, k: nat)
    requires pat != [] && k + |pat| <= |s| && OccursAt(s, pat, k)
    ensures RemoveFrom(s, pat, k) == RemoveFrom(s, pat, k + |pat|)
  {
    MatchesOccurs(s, pat, k);
  }

  lemma RemoveFromKeeps(s: string, pat: string, k: nat)
    requires pat != [] && k + |pat| <= |s| && !OccursAt(s, pat, k)
    ensures RemoveFrom(s, pat, k) == [s[k]] + RemoveFrom(s, pat, k + 1)
  {
    MatchesOccurs(s, pat, k);
  }

  /** The scan from `m` is `replace` applied to the text from `m` on. */
  lemma RemoveFromSuffix(s: string, pat: string, m: nat)
    requires pat != [] && m <= |s|
    ensures RemoveFrom(s, pat, m) == RemoveAll(s[m..], pat)
  {
    RemoveFromShift(s, pat, m, 0);
  }

  /** The scan removes occurrences from left to right: everything before the
      leftmost occurrence is kept, the occurrence is dropped, and the scan
      goes on after it. With `RemoveAllAbsent` this determines the result on
      every input. */
  lemma RemoveAllAtFirst(s: string, pat: string, i: nat)
    requires pat != []
    requires OccursAt(s, pat, i)
    requires forall j: nat :: j < i ==> !OccursAt(s, pat, j)
    ensures RemoveAll(s, pat) == s[..i] + RemoveAll(s[i + |pat|..], pat)
  {
    RemoveFromAtFirst(s, pat, 0, i);
    RemoveFromSuffix(s, pat, i + |pat|);
    assert s[0..i] == s[..i];
  }

  const GlbSuffix: string := ".glb"

  /** `(stem + ".glb").replace('.glb', '') == stem` whenever ".glb" does not
      already occur in `stem`. */
  lemma RemoveGlbOfPlainName(stem: string)
    requires !Contains(stem, GlbSuffix)
    ensures RemoveAll(stem + GlbSuffix, GlbSuffix) == stem
  {
    RemoveGlbAfterPlainStem(stem, []);
    assert stem + GlbSuffix + [] == stem + GlbSuffix;
  }

  /** When ".glb" does not occur in `stem`, the ".glb" after it is the
      leftmost one, so `stem` is kept and the scan goes on after it. */
  lemma RemoveGlbAfterPlainStem(stem: string, rest: string)
    requires !Contains(stem, GlbSuffix)
    ensures RemoveAll(stem + GlbSuffix + rest, GlbSuffix) == stem + RemoveAll(rest, GlbSuffix)
  {
    var s := stem + GlbSuffix + rest;
    forall j: nat | j < |stem| ensures !OccursAt(s, GlbSuffix, j) {
      NoGlbBefore(stem, rest, j);
    }
    assert s[|stem|..|stem| + 4] == GlbSuffix;
    RemoveAllAtFirst(s, GlbSuffix, |stem|);
    assert s[..|stem|] == stem && s[|stem| + 4..] == rest;
  }

  /** No ".glb" starts inside `stem`: one wholly inside would occur in
      `stem`, and one reaching past it would make a proper suffix of ".glb"
      one of its prefixes. */
  lemma NoGlbBefore(stem: string, rest: string, j: nat)
    requires j < |stem| && !Contains(stem, GlbSuffix)
    ensures !OccursAt(stem + GlbSuffix + rest, GlbSuffix, j)
  {
    var s := stem + GlbSuffix + rest;
    ContainsOccurs(stem, GlbSuffix);
    if j + 4 <= |stem| {
      assert s[j..j + 4] == stem[j..j + 4];
      assert !OccursAt(stem, GlbSuffix, j);
    } else if j + 4 <= |s| {
      assert s[j..j + 4][|stem| - j] == s[|stem|] == '.';
      assert GlbSuffix[|stem| - j] != '.';
    }
  }

  /** `c.isspace()` for Python 3 strings. */
  predicate IsSpace(c: char)
  {
    || c == ' '
    || ('\t' <= c <= '\r')               // U+0009..U+000D
    || (28 <= c as int <= 31)            // U+001C..U+001F
    || c as int == 0x85 || c as int == 0xA0 || c as int == 0x1680
    || (0x2000 <= c as int <= 0x200A)
    || c as int == 0x2028 || c as int == 0x2029 || c as int == 0x202F
    || c as int == 0x205F || c as int == 0x3000
  }

  /** Python's `s.replace(a, b)` for single characters. */
  function ReplaceChar(s: string, a: char, b: char): (r: string)
    ensures |r| == |s|
    ensures a != b ==> forall i :: 0 <= i < |r| ==> r[i] != a
    ensures forall i :: 0 <= i < |s| && s[i] == a ==> r[i] == b
    ensures forall i :: 0 <= i < |s| && s[i] != a ==> r[i] == s[i]
  {
    seq(|s|, i requires 0 <= i < |s| => if s[i] == a then b else s[i])
  }

  /** Replacing characters works position by position, so it distributes
      over concatenation. */
  lemma ReplaceCharAppend(x: string, y: string, a: char, b: char)
    ensures ReplaceChar(x + y, a, b) == ReplaceChar(x, a, b) + ReplaceChar(y, a, b)
  {
    var l, r := ReplaceChar(x + y, a, b), ReplaceChar(x, a, b) + ReplaceChar(y, a, b);
    forall i | 0 <= i < |x + y| ensures l[i] == r[i] {
      if i < |x| {
        assert (x + y)[i] == x[i];
      } else {
        assert (x + y)[i] == y[i - |x|];
      }
    }
  }

  /** A string without `a` is left unchanged. */
  lemma ReplaceCharAbsent(s: string, a: char, b: char)
    requires a !in s
    ensures ReplaceChar(s, a, b) == s
  {
    var r := ReplaceChar(s, a, b);
    assert forall i :: 0 <= i < |s| ==> r[i] == s[i];
  }

  /** Number of whitespace characters at the front of `s`. */
  function LeadingSpaces(s: string): (n: nat)
    ensures n <= |s|
    ensures forall i :: 0 <= i < n ==> IsSpace(s[i])
    ensures n == |s| || !IsSpace(s[n])
  {
    if s == [] || !IsSpace(s[0]) then 0 else 1 + LeadingSpaces(s[1..])
  }

  /** Length of the run of non-whitespace characters at the front of `s`. */
  function WordLength(s: string): (n: nat)
    ensures n <= |s|
    ensures forall i :: 0 <= i < n ==> !IsSpace(s[i])
    ensures n == |s| || IsSpace(s[n])
  {
    if s == [] || IsSpace(s[0]) then 0 else 1 + WordLength(s[1..])
  }

  /** A word as `split()` produces it: non-empty, no whitespace inside. */
  predicate IsWord(w: string)
  {
    w != [] && forall i :: 0 <= i < |w| ==> !IsSpace(w[i])
  }

  /** The characters of `s` that are not whitespace, in order. */
  function NonSpace(s: string): string
  {
    if s == [] then [] else (if IsSpace(s[0]) then [] else [s[0]]) + NonSpace(s[1..])
  }

  function Concat(ws: seq<string>): string
  {
    if ws == [] then [] else ws[0] + Concat(ws[1..])
  }

  /** Python's `s.split()` with no separator: the maximal runs of
      non-whitespace characters, left to right; leading, trailing and
      repeated whitespace produce no empty words. */
  function Split(s: string): (words: seq<string>)
    ensures forall k :: 0 <= k < |words| ==> IsWord(words[k])
    decreases |s|
  {
    var a := LeadingSpaces(s);
    if a == |s| then []
    else
      var rest := s[a..];
      var n := WordLength(rest);
      [rest[..n]] + Split(rest[n..])
  }

  lemma {:induction false} NonSpaceAppend(a: string, b: string)
    ensures NonSpace(a + b) == NonSpace(a) + NonSpace(b)
    decreases |a|
  {
    if a != [] {
      assert (a + b)[0] == a[0];
      assert (a + b)[1..] == a[1..] + b;
      NonSpaceAppend(a[1..], b);
    } else {
      assert a + b == b;
    }
  }

  lemma {:induction false} NonSpaceOfSpaces(s: string)
    requires forall i :: 0 <= i < |s| ==> IsSpace(s[i])
    ensures NonSpace(s) == []
    decreases |s|
  {
    if s != [] { NonSpaceOfSpaces(s[1..]); }
  }

  lemma {:induction false} NonSpaceOfWord(w: string)
    requires forall i :: 0 <= i < |w| ==> !IsSpace(w[i])
    ensures NonSpace(w) == w
    decreases |w|
  {
    if w != [] { NonSpaceOfWord(w[1..]); }
  }

  /** One step of `split()`: skip the leading whitespace, take one word. */
  lemma SplitStep(s: string)
    requires LeadingSpaces(s) < |s|
    ensures var rest := s[LeadingSpaces(s)..];
            Split(s) == [rest[..WordLength(rest)]] + Split(rest[WordLength(rest)..])
  {
  }

  lemma ConcatCons(w: string, ws: seq<string>)
    ensures Concat([w] + ws) == w + Concat(ws)
  {
    assert ([w] + ws)[1..] == ws;
  }

  /** `split()` loses nothing but whitespace: gluing its words together gives
      back exactly the non-whitespace characters of the input, in order. */
  lemma {:induction false} SplitKeepsNonSpace(s: string)
    ensures Concat(Split(s)) == NonSpace(s)
    decreases |s|
  {
    var a := LeadingSpaces(s);
    if a == |s| {
      NonSpaceOfSpaces(s);
    } else {
      var rest := s[a..];
      var n := WordLength(rest);
      NonSpaceSkipsSpaces(s);
      NonSpaceOfFirstWord(rest);
      ConcatSplitStep(s);
      SplitKeepsNonSpace(rest[n..]);
    }
  }

  lemma NonSpaceSkipsSpaces(s: string)
    ensures NonSpace(s) == NonSpace(s[LeadingSpaces(s)..])
  {
    var a := LeadingSpaces(s);
    assert s == s[..a] + s[a..];
    NonSpaceAppend(s[..a], s[a..]);
    NonSpaceOfSpaces(s[..a]);
  }

  lemma NonSpaceOfFirstWord(s: string)
    ensures NonSpace(s) == s[..WordLength(s)] + NonSpace(s[WordLength(s)..])
  {
    var n := WordLength(s);
    assert s == s[..n] + s[n..];
    NonSpaceAppend(s[..n], s[n..]);
    NonSpaceOfWord(s[..n]);
  }

  lemma ConcatSplitStep(s: string)
    requires LeadingSpaces(s) < |s|
    ensures var rest := s[LeadingSpaces(s)..];
            Concat(Split(s)) == rest[..WordLength(rest)] + Concat(Split(rest[WordLength(rest)..]))
  {
    var rest := s[LeadingSpaces(s)..];
    SplitStep(s);
    ConcatCons(rest[..WordLength(rest)], Split(rest[WordLength(rest)..]));
  }

  /** Dropping whitespace adds no characters. */
  lemma {:induction false} NonSpaceOmits(s: string, c: char)
    requires c !in s
    ensures c !in NonSpace(s)
    decreases |s|
  {
    if s != [] {
      assert c !in s[1..];
      NonSpaceOmits(s[1..], c);
    }
  }

  /** A character missing from the input is missing from every word of
      `split()`. */
  lemma SplitOmits(s: string, c: char)
    requires c !in s
    ensures c !in Concat(Split(s))
  {
    SplitKeepsNonSpace(s);
    NonSpaceOmits(s, c);
  }

  /** The characters of `s` that are neither whitespace nor in `seps`, in
      order. */
  function NonSeparator(s: string, seps: set<char>): string
  {
    if s == [] then []
    else (if IsSpace(s[0]) || s[0] in seps then [] else [s[0]]) + NonSeparator(s[1..], seps)
  }

  lemma {:induction false} NonSpaceNoSeparator(s: string)
    ensures NonSpace(s) == NonSeparator(s, {})
    decreases |s|
  {
    if s != [] { NonSpaceNoSeparator(s[1..]); }
  }

  /** Turning `a` into a blank makes `a` one more separator. */
  lemma {:induction false} ReplacedBySpace(s: string, a: char, seps: set<char>)
    ensures NonSeparator(ReplaceChar(s, a, ' '), seps) == NonSeparator(s, seps + {a})
    decreases |s|
  {
    if s != [] {
      var r := ReplaceChar(s, a, ' ');
      assert r[1..] == ReplaceChar(s[1..], a, ' ');
      ReplacedBySpace(s[1..], a, seps);
    }
  }

  /** `s.replace(a, ' ').replace(b, ' ').split()` loses exactly the
      whitespace, `a` and `b`: gluing its words together gives back every
      other character of `s`, in order. */
  lemma SplitReplacedKeeps(s: string, a: char, b: char)
    ensures Concat(Split(ReplaceChar(ReplaceChar(s, a, ' '), b, ' '))) == NonSeparator(s, {a, b})
  {
    var s1 := ReplaceChar(s, a, ' ');
    var s2 := ReplaceChar(s1, b, ' ');
    SplitKeepsNonSpace(s2);
    NonSpaceNoSeparator(s2);
    ReplacedBySpace(s1, b, {});
    ReplacedBySpace(s, a, {b});
    assert {} + {b} == {b} && {b} + {a} == {a, b};
  }

  /** `' '.join(words)`. */
  function JoinSpaced(ws: seq<string>): string
  {
    if ws == [] then []
    else if |ws| == 1 then ws[0]
    else ws[0] + " " + JoinSpaced(ws[1..])
  }

  /** `sep.join(words)` for a one-character separator. */
  function JoinWith(ws: seq<string>, sep: char): string
  {
    if ws == [] then []
    else if |ws| == 1 then ws[0]
    else ws[0] + [sep] + JoinWith(ws[1..], sep)
  }

  lemma {:induction false} JoinWithBlank(ws: seq<string>)
    ensures JoinWith(ws, ' ') == JoinSpaced(ws)
    decreases |ws|
  {
    if |ws| > 1 {
      JoinWithBlank(ws[1..]);
      assert [' '] == " ";
    }
  }

  /** Replacing `c` in a join whose words lack `c` changes at most the
      separator. */
  lemma {:induction false} ReplaceInJoin(ws: seq<string>, sep: char, c: char)
    requires forall q :: 0 <= q < |ws| ==> c !in ws[q]
    ensures ReplaceChar(JoinWith(ws, sep), c, ' ') == JoinWith(ws, if sep == c then ' ' else sep)
    decreases |ws|
  {
    if |ws| == 1 {
      ReplaceCharAbsent(ws[0], c, ' ');
    } else if |ws| > 1 {
      var rest := JoinWith(ws[1..], sep);
      ReplaceInJoin(ws[1..], sep, c);
      ReplaceCharAppend(ws[0] + [sep], rest, c, ' ');
      ReplaceCharAppend(ws[0], [sep], c, ' ');
      ReplaceCharAbsent(ws[0], c, ' ');
    }
  }

  /** `s.replace(a, ' ').replace(b, ' ').split()` recovers words that were
      joined by `a`, by `b` or by a blank, as long as the words hold neither
      `a` nor `b`: the word boundaries are exactly the separators. */
  lemma SplitReplacedJoin(ws: seq<string>, sep: char, a: char, b: char)
    requires sep == a || sep == b || sep == ' '
    requires forall q :: 0 <= q < |ws| ==> IsWord(ws[q]) && a !in ws[q] && b !in ws[q]
    ensures Split(ReplaceChar(ReplaceChar(JoinWith(ws, sep), a, ' '), b, ' ')) == ws
  {
    var sep1 := if sep == a then ' ' else sep;
    ReplaceInJoin(ws, sep, a);
    ReplaceInJoin(ws, sep1, b);
    JoinWithBlank(ws);
    SplitJoinSpaced(ws);
  }

  lemma {:induction false} LeadingSpacesSkip(sp: string, w: string)
    requires forall i :: 0 <= i < |sp| ==> IsSpace(sp[i])
    requires w == [] || !IsSpace(w[0])
    ensures LeadingSpaces(sp + w) == |sp|
    decreases |sp|
  {
    if sp != [] {
      assert (sp + w)[1..] == sp[1..] + w;
      LeadingSpacesSkip(sp[1..], w);
    }
  }

  lemma {:induction false} WordLengthOfWord(w: string, rest: string)
    requires forall i :: 0 <= i < |w| ==> !IsSpace(w[i])
    requires rest == [] || IsSpace(rest[0])
    ensures WordLength(w + rest) == |w|
    decreases |w|
  {
    if w != [] {
      assert (w + rest)[1..] == w[1..] + rest;
      WordLengthOfWord(w[1..], rest);
    }
  }

  /** A word followed by nothing or by whitespace is the first word. */
  lemma SplitWordThen(w: string, rest: string)
    requires IsWord(w)
    requires rest == [] || IsSpace(rest[0])
    ensures Split(w + rest) == [w] + Split(rest)
  {
    var s := w + rest;
    LeadingSpacesSkip([], s);
    assert [] + s == s;
    WordLengthOfWord(w, rest);
    assert s[..|w|] == w && s[|w|..] == rest;
    SplitStep(s);
  }

  /** Leading whitespace does not change the words. */
  lemma SplitSkipsSpaces(sp: string, s: string)
    requires forall i :: 0 <= i < |sp| ==> IsSpace(sp[i])
    requires s == [] || !IsSpace(s[0])
    ensures Split(sp + s) == Split(s)
  {
    LeadingSpacesSkip(sp, s);
    LeadingSpacesSkip([], s);
    assert [] + s == s;
    assert (sp + s)[|sp|..] == s;
  }

  lemma JoinSpacedStartsWithWord(ws: seq<string>)
    requires ws != []
    requires forall k :: 0 <= k < |ws| ==> IsWord(ws[k])
    ensures JoinSpaced(ws) != [] && !IsSpace(JoinSpaced(ws)[0])
  {
    assert IsWord(ws[0]);
    if |ws| > 1 {
      assert JoinSpaced(ws)[0] == ws[0][0];
    }
  }

  /** `split()` inverts `' '.join(...)` on lists of words: `split()` recovers
      the words exactly, so word boundaries are the whitespace runs. */
  lemma {:induction false} SplitJoinSpaced(ws: seq<string>)
    requires forall k :: 0 <= k < |ws| ==> IsWord(ws[k])
    ensures Split(JoinSpaced(ws)) == ws
    decreases |ws|
  {
    if |ws| == 1 {
      SplitSingleWord(ws[0]);
    } else if |ws| > 1 {
      SplitJoinStep(ws);
      SplitJoinSpaced(ws[1..]);
    }
  }

  lemma SplitSingleWord(w: string)
    requires IsWord(w)
    ensures Split(w) == [w]
  {
    SplitWordThen(w, []);
    assert w + [] == w;
  }

  lemma SplitJoinStep(ws: seq<string>)
    requires |ws| > 1
    requires forall k :: 0 <= k < |ws| ==> IsWord(ws[k])
    ensures Split(JoinSpaced(ws)) == [ws[0]] + Split(JoinSpaced(ws[1..]))
  {
    var inner := JoinSpaced(ws[1..]);
    assert JoinSpaced(ws) == ws[0] + " " + inner;
    JoinSpacedStartsWithWord(ws[1..]);
    SplitWordSpaceRest(ws[0], inner);
  }

  /** A word, one blank, then text that starts with a word. */
  lemma SplitWordSpaceRest(w: string, inner: string)
    requires IsWord(w)
    requires inner == [] || !IsSpace(inner[0])
    ensures Split(w + " " + inner) == [w] + Split(inner)
  {
    var rest := " " + inner;
    assert w + " " + inner == w + rest;
    assert IsSpace(rest[0]);
    SplitWordThen(w, rest);
    SplitSkipsBlank(inner);
  }

  lemma SplitSkipsBlank(s: string)
    requires s == [] || !IsSpace(s[0])
    ensures Split(" " + s) == Split(s)
  {
    assert forall i :: 0 <= i < |" "| ==> IsSpace(" "[i]);
    SplitSkipsSpaces(" ", s);
  }
}
