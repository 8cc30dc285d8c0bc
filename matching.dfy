/** `find_model_by_keyword`: pick a model file for a free-text prompt in
    three stages over the keyword table, the first hit winning.
    Stage 1 (exact): a keyword occurs in the lowercased prompt.
    Stage 2 (partial): a part of a keyword, split at '_', '-' and whitespace,
    longer than two characters, occurs in the prompt.
    Stage 3 (reverse): a prompt word longer than two characters occurs in a
    keyword; words come first, then table order. */
module Matching {
  import opened Wrappers
  import opened PyStr
  import opened ModelTable

  // ---------------------------------------------------------------- stage 1

  /** First table position at or after `from` whose keyword occurs in `p`. */
  function ExactHit(t: Table, p: string, from: nat): (r: Option<nat>)
    requires from <= |t|
    ensures r.None? <==> forall i :: from <= i < |t| ==> !Contains(p, t[i].keyword)
    ensures r.Some? ==> from <= r.value < |t| && Contains(p, t[r.value].keyword)
    ensures r.Some? ==> forall i :: from <= i < r.value ==> !Contains(p, t[i].keyword)
    decreases |t| - from
  {
    if from == |t| then None
    else if Contains(p, t[from].keyword) then Some(from)
    else ExactHit(t, p, from + 1)
  }

  // ---------------------------------------------------------------- stage 2

  /** `keyword.replace('_', ' ').replace('-', ' ').split()`. */
  function KeywordParts(k: string): seq<string>
  {
    Split(ReplaceChar(ReplaceChar(k, '_', ' '), '-', ' '))
  }

  /** The parts are words free of '_' and '-': both act as separators, and
      together the parts hold every other non-blank character of the
      keyword, in order. */
  lemma KeywordPartsHaveNoSeparators(k: string)
    ensures forall q :: 0 <= q < |KeywordParts(k)| ==> IsWord(KeywordParts(k)[q])
    ensures '_' !in Concat(KeywordParts(k)) && '-' !in Concat(KeywordParts(k))
    ensures Concat(KeywordParts(k)) == NonSeparator(k, {'_', '-'})
  {
    var s := ReplaceChar(ReplaceChar(k, '_', ' '), '-', ' ');
    SplitOmits(s, '_');
    SplitOmits(s, '-');
    SplitReplacedKeeps(k, '_', '-');
  }

  /** A keyword made of words joined by '_', '-' or a blank splits back into
      exactly those words. */
  lemma KeywordPartsOfJoined(ws: seq<string>, sep: char)
    requires sep == '_' || sep == '-' || sep == ' '
    requires forall q :: 0 <= q < |ws| ==> IsWord(ws[q]) && '_' !in ws[q] && '-' !in ws[q]
    ensures KeywordParts(JoinWith(ws, sep)) == ws
  {
    SplitReplacedJoin(ws, sep, '_', '-');
  }

  /** A keyword that is one word without '_' or '-' is its own only part. */
  lemma KeywordPartsOfPlainKeyword(k: string)
    requires IsWord(k) && '_' !in k && '-' !in k
    ensures KeywordParts(k) == [k]
  {
    assert ReplaceChar(k, '_', ' ') == k;
    assert ReplaceChar(k, '-', ' ') == k;
    SplitSingleWord(k);
  }

  /** A keyword part that counts as a partial match: longer than two
      characters and occurring in the prompt. */
  predicate QualifyingPart(part: string, p: string)
  {
    |part| > 2 && Contains(p, part)
  }

  /** Keyword `k` matches prompt `p` partially: one of its parts qualifies. */
  predicate PartiallyMatches(k: string, p: string)
  {
    exists q :: 0 <= q < |KeywordParts(k)| && QualifyingPart(KeywordParts(k)[q], p)
  }

  /** First qualifying part at or after `from` (the inner loop of stage 2). */
  function PartHit(parts: seq<string>, p: string, from: nat): (r: Option<nat>)
    requires from <= |parts|
    ensures r.None? <==> forall q :: from <= q < |parts| ==> !QualifyingPart(parts[q], p)
    ensures r.Some? ==> from <= r.value < |parts| && QualifyingPart(parts[r.value], p)
    ensures r.Some? ==> forall q :: from <= q < r.value ==> !QualifyingPart(parts[q], p)
    decreases |parts| - from
  {
    if from == |parts| then None
    else if QualifyingPart(parts[from], p) then Some(from)
    else PartHit(parts, p, from + 1)
  }

  /** First table position at or after `from` whose keyword matches `p` partially. */
  function PartialHit(t: Table, p: string, from: nat): (r: Option<nat>)
    requires from <= |t|
    ensures r.None? <==> forall i :: from <= i < |t| ==> !PartiallyMatches(t[i].keyword, p)
    ensures r.Some? ==> from <= r.value < |t| && PartiallyMatches(t[r.value].keyword, p)
    ensures r.Some? ==> forall i :: from <= i < r.value ==> !PartiallyMatches(t[i].keyword, p)
  {
    var flags := PartialFlags(t, p);
    assert forall i :: 0 <= i < |t| ==> flags[i] == PartiallyMatches(t[i].keyword, p);
    FirstTrue(flags, from)
  }

  /** Position of the first `true` at or after `from`, if any. */
  function FirstTrue(bs: seq<bool>, from: nat): (r: Option<nat>)
    requires from <= |bs|
    ensures r.None? <==> forall i :: from <= i < |bs| ==> !bs[i]
    ensures r.Some? ==> from <= r.value < |bs| && bs[r.value]
    ensures r.Some? ==> forall i :: from <= i < r.value ==> !bs[i]
    decreases |bs| - from
  {
    if from == |bs| then None
    else if bs[from] then Some(from)
    else FirstTrue(bs, from + 1)
  }

  /** For each keyword of the table, whether it matches `p` partially. */
  function PartialFlags(t: Table, p: string): (flags: seq<bool>)
    ensures |flags| == |t|
  {
    seq(|t|, i requires 0 <= i < |t| => HasQualifyingPart(t[i].keyword, p))
  }

  /** The inner loop of stage 2 run on one keyword: does any part qualify? */
  function HasQualifyingPart(k: string, p: string): (b: bool)
    ensures b <==> PartiallyMatches(k, p)
  {
    PartHitDecides(k, p);
    PartHit(KeywordParts(k), p, 0).Some?
  }

  /** The inner loop of stage 2 finds a part exactly when the keyword
      matches partially. */
  lemma PartHitDecides(k: string, p: string)
    ensures PartHit(KeywordParts(k), p, 0).Some? <==> PartiallyMatches(k, p)
  {
    var parts := KeywordParts(k);
    var h := PartHit(parts, p, 0);
    if h.Some? {
      assert QualifyingPart(parts[h.value], p);
    }
  }

  /** A keyword whose parts are all at most two characters long never
      matches partially, whatever the prompt. */
  lemma ShortPartsNeverMatch(k: string, p: string)
    requires forall q :: 0 <= q < |KeywordParts(k)| ==> |KeywordParts(k)[q]| <= 2
    ensures !PartiallyMatches(k, p)
  {
  }

  // ---------------------------------------------------------------- stage 3

  /** `prompt_lower.replace(',', ' ').replace('.', ' ').split()`: ',' and
      '.' separate words like whitespace does, and the words together hold
      every other character of the prompt, in order. */
  function PromptWords(pl: string): (words: seq<string>)
    ensures ',' !in Concat(words) && '.' !in Concat(words)
    ensures Concat(words) == NonSeparator(pl, {',', '.'})
  {
    var s := ReplaceChar(ReplaceChar(pl, ',', ' '), '.', ' ');
    SplitOmits(s, ',');
    SplitOmits(s, '.');
    SplitReplacedKeeps(pl, ',', '.');
    Split(s)
  }

  /** A prompt made of words joined by ',', '.' or a blank splits back into
      exactly those words. */
  lemma PromptWordsOfJoined(ws: seq<string>, sep: char)
    requires sep == ',' || sep == '.' || sep == ' '
    requires forall q :: 0 <= q < |ws| ==> IsWord(ws[q]) && ',' !in ws[q] && '.' !in ws[q]
    ensures PromptWords(JoinWith(ws, sep)) == ws
  {
    SplitReplacedJoin(ws, sep, ',', '.');
  }

  /** First table position at or after `from` whose keyword contains `w`. */
  function KeywordContaining(t: Table, w: string, from: nat): (r: Option<nat>)
    requires from <= |t|
    ensures r.None? <==> forall i :: from <= i < |t| ==> !Contains(t[i].keyword, w)
    ensures r.Some? ==> from <= r.value < |t| && Contains(t[r.value].keyword, w)
    ensures r.Some? ==> forall i :: from <= i < r.value ==> !Contains(t[i].keyword, w)
    decreases |t| - from
  {
    if from == |t| then None
    else if Contains(t[from].keyword, w) then Some(from)
    else KeywordContaining(t, w, from + 1)
  }

  /** A prompt word that decides stage 3: longer than two characters and
      contained in some keyword. */
  predicate ReverseCandidate(t: Table, w: string)
  {
    |w| > 2 && exists i :: 0 <= i < |t| && Contains(t[i].keyword, w)
  }

  /** Stage 3 hit as (word position, table position): the first candidate
      word at or after `from`, then the first keyword containing it. */
  function ReverseHit(t: Table, words: seq<string>, from: nat): (r: Option<(nat, nat)>)
    requires from <= |words|
    ensures r.None? <==> forall w :: from <= w < |words| ==> !ReverseCandidate(t, words[w])
    ensures r.Some? ==> from <= r.value.0 < |words| && r.value.1 < |t|
    ensures r.Some? ==> |words[r.value.0]| > 2 && Contains(t[r.value.1].keyword, words[r.value.0])
    ensures r.Some? ==> forall w :: from <= w < r.value.0 ==> !ReverseCandidate(t, words[w])
    ensures r.Some? ==> forall i :: 0 <= i < r.value.1 ==> !Contains(t[i].keyword, words[r.value.0])
    decreases |words| - from
  {
    if from == |words| then None
    else if |words[from]| > 2 && KeywordContaining(t, words[from], 0).Some? then
      Some((from, KeywordContaining(t, words[from], 0).value))
    else ReverseHit(t, words, from + 1)
  }

  // ---------------------------------------------------------------- all stages

  /** Which stage decided, and the table position it chose. */
  datatype Hit = ExactAt(i: nat) | PartialAt(i: nat) | ReverseAt(word: nat, i: nat)

  /** The three stages in order on the lowercased prompt. */
  function MatchPrompt(t: Table, prompt: string): (r: Option<Hit>)
    ensures r.Some? ==> r.value.i < |t|
  {
    var pl := Lower(prompt);
    match ExactHit(t, pl, 0)
    case Some(i) => Some(ExactAt(i))
    case None =>
      match PartialHit(t, pl, 0)
      case Some(i) => Some(PartialAt(i))
      case None =>
        match ReverseHit(t, PromptWords(pl), 0)
        case Some(h) => Some(ReverseAt(h.0, h.1))
        case None => None
  }

  /** `find_model_by_keyword(prompt)`: the filename of the chosen entry, or
      `None`. The result is always a filename of the table. */
  function FindModelByKeyword(t: Table, prompt: string): (r: Option<string>)
    ensures r.Some? ==> exists i :: 0 <= i < |t| && t[i].filename == r.value
    ensures r.None? <==>
              var pl := Lower(prompt);
              && (forall i :: 0 <= i < |t| ==> !Contains(pl, t[i].keyword))
              && (forall i :: 0 <= i < |t| ==> !PartiallyMatches(t[i].keyword, pl))
              && (forall w :: 0 <= w < |PromptWords(pl)| ==> !ReverseCandidate(t, PromptWords(pl)[w]))
  {
    match MatchPrompt(t, prompt)
    case Some(h) => Some(t[h.i].filename)
    case None => None
  }

  // ---------------------------------------------------------------- properties

  /** Stage 1 decides whenever some keyword occurs in the lowercased prompt:
      the first such keyword in table order wins, even when an earlier
      keyword would have matched partially or in reverse. */
  lemma ExactMatchWins(t: Table, prompt: string, i: nat)
    requires i < |t|
    requires Contains(Lower(prompt), t[i].keyword)
    requires forall j :: 0 <= j < i ==> !Contains(Lower(prompt), t[j].keyword)
    ensures MatchPrompt(t, prompt) == Some(ExactAt(i))
    ensures FindModelByKeyword(t, prompt) == Some(t[i].filename)
  {
  }

  /** With no exact match, stage 2 decides whenever some keyword has a part
      longer than two characters in the prompt: the first such keyword wins. */
  lemma PartialMatchWins(t: Table, prompt: string, i: nat)
    requires forall j :: 0 <= j < |t| ==> !Contains(Lower(prompt), t[j].keyword)
    requires i < |t|
    requires PartiallyMatches(t[i].keyword, Lower(prompt))
    requires forall j :: 0 <= j < i ==> !PartiallyMatches(t[j].keyword, Lower(prompt))
    ensures MatchPrompt(t, prompt) == Some(PartialAt(i))
    ensures FindModelByKeyword(t, prompt) == Some(t[i].filename)
  {
    PartialHitAt(t, Lower(prompt), i);
  }

  lemma PartialHitAt(t: Table, p: string, i: nat)
    requires i < |t| && PartiallyMatches(t[i].keyword, p)
    requires forall j :: 0 <= j < i ==> !PartiallyMatches(t[j].keyword, p)
    ensures PartialHit(t, p, 0) == Some(i)
  {
  }

  /** With neither an exact nor a partial match, the first prompt word longer
      than two characters that some keyword contains decides, and among the
      keywords containing it the first in table order wins. */
  lemma ReverseMatchWins(t: Table, prompt: string, w: nat, i: nat)
    requires forall j :: 0 <= j < |t| ==> !Contains(Lower(prompt), t[j].keyword)
    requires forall j :: 0 <= j < |t| ==> !PartiallyMatches(t[j].keyword, Lower(prompt))
    requires w < |PromptWords(Lower(prompt))| && i < |t|
    requires |PromptWords(Lower(prompt))[w]| > 2
    requires Contains(t[i].keyword, PromptWords(Lower(prompt))[w])
    requires forall v :: 0 <= v < w ==> !ReverseCandidate(t, PromptWords(Lower(prompt))[v])
    requires forall j :: 0 <= j < i ==> !Contains(t[j].keyword, PromptWords(Lower(prompt))[w])
    ensures MatchPrompt(t, prompt) == Some(ReverseAt(w, i))
    ensures FindModelByKeyword(t, prompt) == Some(t[i].filename)
  {
    NoPartialHit(t, Lower(prompt));
    ReverseHitFirst(t, PromptWords(Lower(prompt)), w, i);
  }

  lemma NoPartialHit(t: Table, p: string)
    requires forall j :: 0 <= j < |t| ==> !PartiallyMatches(t[j].keyword, p)
    ensures PartialHit(t, p, 0).None?
  {
  }

  /** The hit of stage 3 is determined by the word-major "first" rule. */
  lemma ReverseHitFirst(t: Table, words: seq<string>, w: nat, i: nat)
    requires w < |words| && i < |t|
    requires |words[w]| > 2 && Contains(t[i].keyword, words[w])
    requires forall v :: 0 <= v < w ==> !ReverseCandidate(t, words[v])
    requires forall j :: 0 <= j < i ==> !Contains(t[j].keyword, words[w])
    ensures ReverseHit(t, words, 0) == Some((w, i))
  {
    assert ReverseCandidate(t, words[w]);
    var h := ReverseHit(t, words, 0);
    var (v, j) := h.value;
    assert ReverseCandidate(t, words[v]);
    assert v == w;
    assert j == i;
  }

  /** A prompt that mentions a (lowercase) keyword of the table always finds
      a model in stage 1, at that keyword or an earlier one. */
  lemma MentionedKeywordFindsModel(t: Table, a: string, i: nat, b: string)
    requires i < |t| && IsLowercase(t[i].keyword)
    ensures var r := MatchPrompt(t, a + t[i].keyword + b);
            r.Some? && r.value.ExactAt? && r.value.i <= i
  {
    var k := t[i].keyword;
    LowerFixesExactlyLowercase(k);
    LowerAppend(a, k);
    LowerAppend(a + k, b);
    ContainsInContext(Lower(a), k, Lower(b));
    assert Contains(Lower(a + k + b), t[i].keyword);
  }

  /** Matching ignores the case of the prompt. */
  lemma CaseInsensitive(t: Table, prompt: string)
    ensures FindModelByKeyword(t, prompt) == FindModelByKeyword(t, Lower(prompt))
  {
    LowerFixesExactlyLowercase(prompt);
  }

  /** On the table built from a directory listing, a match is always a
      ".glb" file of that listing, listed under the keyword that decided. */
  lemma MatchIsListedModelFile(names: seq<string>, prompt: string)
    ensures var t := Collect(names);
            var r := MatchPrompt(t, prompt);
            r.Some? ==> t[r.value.i].filename in names && IsModelFile(t[r.value.i].filename)
                        && t[r.value.i].keyword == KeywordOf(t[r.value.i].filename)
  {
    var t := Collect(names);
    CollectEntries(names);
    var r := MatchPrompt(t, prompt);
    if r.Some? {
      assert t[r.value.i] in t;
    }
  }
}
