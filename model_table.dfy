/** The keyword -> filename table that the server builds once at start-up
    from the listing of its `models` directory (`AVAILABLE_MODELS`).
    A Python dict iterates in insertion order, so the table is a sequence of
    entries with pairwise distinct keywords; assigning to an existing key
    replaces the value in place and keeps the key's position. */
module ModelTable {
  import opened Wrappers
  import opened PyStr

  datatype Entry = Entry(keyword: string, filename: string)

  type Table = seq<Entry>

  /** The dict invariant: no keyword appears twice. */
  predicate DistinctKeys(t: Table)
  {
    forall i, j :: 0 <= i < j < |t| ==> t[i].keyword != t[j].keyword
  }

  /** `list(AVAILABLE_MODELS.keys())`, in iteration order. */
  function Keys(t: Table): (ks: seq<string>)
    ensures |ks| == |t|
    ensures forall i :: 0 <= i < |t| ==> ks[i] == t[i].keyword
  {
    if t == [] then [] else [t[0].keyword] + Keys(t[1..])
  }

  /** Position of keyword `k` at or after `from`: the first one, if any. */
  function FindKey(t: Table, k: string, from: nat): (r: Option<nat>)
    requires from <= |t|
    ensures r.None? <==> forall i :: from <= i < |t| ==> t[i].keyword != k
    ensures r.Some? ==> from <= r.value < |t| && t[r.value].keyword == k
    ensures r.Some? ==> forall i :: from <= i < r.value ==> t[i].keyword != k
    decreases |t| - from
  {
    if from == |t| then None
    else if t[from].keyword == k then Some(from)
    else FindKey(t, k, from + 1)
  }

  /** `t.get(k)`. */
  function Lookup(t: Table, k: string): (r: Option<string>)
    ensures r.None? <==> forall i :: 0 <= i < |t| ==> t[i].keyword != k
    ensures r.Some? ==> Entry(k, r.value) in t
  {
    match FindKey(t, k, 0)
    case None => None
    case Some(i) => assert t[i] == Entry(k, t[i].filename); Some(t[i].filename)
  }

  /** In a table with distinct keys every entry is what its keyword looks up. */
  lemma LookupEntry(t: Table, i: nat)
    requires DistinctKeys(t)
    requires i < |t|
    ensures Lookup(t, t[i].keyword) == Some(t[i].filename)
  {
    var r := FindKey(t, t[i].keyword, 0);
    assert r.Some?;
  }

  /** `t[k] = v`: a new keyword is appended at the end; an existing one keeps
      its position and gets the new value. */
  function Put(t: Table, k: string, v: string): (r: Table)
    ensures DistinctKeys(t) ==> DistinctKeys(r)
    ensures Lookup(r, k) == Some(v)
    ensures forall k' :: k' != k ==> Lookup(r, k') == Lookup(t, k')
    ensures Keys(r) == if Lookup(t, k).Some? then Keys(t) else Keys(t) + [k]
    ensures forall e :: e in r ==> e == Entry(k, v) || e in t
  {
    match FindKey(t, k, 0)
    case Some(i) => ReplaceValue(t, i, k, v); t[i := Entry(k, v)]
    case None => AppendKey(t, k, v); t + [Entry(k, v)]
  }

  /** Assigning to a present keyword changes only its value. */
  lemma ReplaceValue(t: Table, i: nat, k: string, v: string)
    requires FindKey(t, k, 0) == Some(i)
    ensures var r := t[i := Entry(k, v)];
            && (DistinctKeys(t) ==> DistinctKeys(r))
            && Lookup(r, k) == Some(v)
            && (forall k' :: k' != k ==> Lookup(r, k') == Lookup(t, k'))
            && Keys(r) == Keys(t)
            && (forall e :: e in r ==> e == Entry(k, v) || e in t)
  {
    var r := t[i := Entry(k, v)];
    SameKeysAfterReplace(t, i, Entry(k, v));
    SameKeysSameFind(t, r, k);
    forall k' | k' != k ensures Lookup(r, k') == Lookup(t, k') {
      ReplaceKeepsOtherLookup(t, i, Entry(k, v), k');
    }
  }

  /** Replacing the entry at `i` leaves the lookup of other keywords alone. */
  lemma ReplaceKeepsOtherLookup(t: Table, i: nat, e: Entry, k: string)
    requires i < |t| && e.keyword == t[i].keyword && k != e.keyword
    ensures Lookup(t[i := e], k) == Lookup(t, k)
  {
    var r := t[i := e];
    SameKeysAfterReplace(t, i, e);
    SameKeysSameFind(t, r, k);
    var f := FindKey(t, k, 0);
    if f.Some? {
      assert f.value != i && r[f.value] == t[f.value];
    }
  }

  lemma SameKeysAfterReplace(t: Table, i: nat, e: Entry)
    requires i < |t| && e.keyword == t[i].keyword
    ensures var r := t[i := e];
            && |r| == |t|
            && (forall j :: 0 <= j < |t| ==> r[j].keyword == t[j].keyword)
            && (DistinctKeys(t) ==> DistinctKeys(r))
            && Keys(r) == Keys(t)
            && (forall x :: x in r ==> x == e || x in t)
  {
    var r := t[i := e];
    assert forall j :: 0 <= j < |t| ==> r[j].keyword == t[j].keyword;
    forall x | x in r ensures x == e || x in t {
      var j :| 0 <= j < |r| && r[j] == x;
      if j != i { assert r[j] == t[j]; }
    }
  }

  /** Assigning to an absent keyword appends it and changes nothing else. */
  lemma AppendKey(t: Table, k: string, v: string)
    requires FindKey(t, k, 0).None?
    ensures var r := t + [Entry(k, v)];
            && (DistinctKeys(t) ==> DistinctKeys(r))
            && Lookup(r, k) == Some(v)
            && (forall k' :: k' != k ==> Lookup(r, k') == Lookup(t, k'))
            && Keys(r) == Keys(t) + [k]
            && (forall e :: e in r ==> e == Entry(k, v) || e in t)
  {
    var r := t + [Entry(k, v)];
    AppendKeys(t, Entry(k, v));
    if DistinctKeys(t) {
      AppendKeepsDistinct(t, Entry(k, v));
    }
    AppendFindsNew(t, Entry(k, v));
    forall k' | k' != k ensures Lookup(r, k') == Lookup(t, k') {
      AppendKeepsFind(t, Entry(k, v), k');
    }
  }

  lemma AppendKeys(t: Table, e: Entry)
    ensures Keys(t + [e]) == Keys(t) + [e.keyword]
    ensures forall x :: x in t + [e] ==> x == e || x in t
  {
    assert Keys(t + [e]) == Keys(t) + [e.keyword];
  }

  /** An appended keyword that was absent is found at the end. */
  lemma AppendFindsNew(t: Table, e: Entry)
    requires FindKey(t, e.keyword, 0).None?
    ensures Lookup(t + [e], e.keyword) == Some(e.filename)
  {
    var r := t + [e];
    assert forall j :: 0 <= j < |t| ==> r[j] == t[j];
    assert r[|t|] == e;
    assert FindKey(r, e.keyword, 0) == Some(|t|);
  }

  /** Appending an entry under a new keyword keeps the keywords distinct. */
  lemma AppendKeepsDistinct(t: Table, e: Entry)
    requires DistinctKeys(t)
    requires forall i :: 0 <= i < |t| ==> t[i].keyword != e.keyword
    ensures DistinctKeys(t + [e])
  {
    var r := t + [e];
    forall a, b | 0 <= a < b < |r| ensures r[a].keyword != r[b].keyword {
      assert r[a] == t[a];
      if b < |t| { assert r[b] == t[b]; }
    }
  }

  /** Appending an entry does not move any keyword other than its own. */
  lemma AppendKeepsFind(t: Table, e: Entry, k: string)
    requires e.keyword != k
    ensures Lookup(t + [e], k) == Lookup(t, k)
  {
    var r := t + [e];
    var f, g := FindKey(r, k, 0), FindKey(t, k, 0);
    assert forall j :: 0 <= j < |t| ==> r[j] == t[j];
    if g.Some? {
      assert f.Some? && f.value == g.value && r[g.value] == t[g.value];
    }
  }

  /** Two tables with the same keywords in the same places locate every
      keyword at the same position. */
  lemma SameKeysSameFind(t: Table, r: Table, k: string)
    requires |t| == |r|
    requires forall j :: 0 <= j < |t| ==> r[j].keyword == t[j].keyword
    ensures FindKey(r, k, 0) == FindKey(t, k, 0)
  {
    var f, g := FindKey(r, k, 0), FindKey(t, k, 0);
  }

  /** A directory entry the server loads: its name ends in ".glb"
      (case-sensitive). */
  predicate IsModelFile(name: string)
  {
    EndsWith(name, GlbSuffix)
  }

  /** The keyword a model file is listed under:
      `filename.replace('.glb', '').lower()`. */
  function KeywordOf(name: string): (k: string)
    ensures IsLowercase(k)
    ensures |k| <= |name|
  {
    Lower(RemoveAll(name, GlbSuffix))
  }

  /** The ordinary case: "Dragon.glb" is listed under "dragon". */
  lemma KeywordOfPlainName(stem: string)
    requires !Contains(stem, GlbSuffix)
    ensures IsModelFile(stem + GlbSuffix)
    ensures KeywordOf(stem + GlbSuffix) == Lower(stem)
  {
    RemoveGlbOfPlainName(stem);
  }

  /** A name without ".glb" anywhere is only lowercased. */
  lemma KeywordOfGlbFree(name: string)
    requires !Contains(name, GlbSuffix)
    ensures KeywordOf(name) == Lower(name)
  {
    RemoveAllAbsent(name, GlbSuffix);
  }

  /** Every ".glb" is dropped, scanning from the left: the text before the
      leftmost ".glb" is lowercased, and the rest gives its keyword in turn. */
  lemma KeywordOfAtFirstGlb(name: string, i: nat)
    requires OccursAt(name, GlbSuffix, i)
    requires forall j: nat :: j < i ==> !OccursAt(name, GlbSuffix, j)
    ensures KeywordOf(name) == Lower(name[..i]) + KeywordOf(name[i + |GlbSuffix|..])
  {
    RemoveAllAtFirst(name, GlbSuffix, i);
    LowerAppend(name[..i], RemoveAll(name[i + |GlbSuffix|..], GlbSuffix));
  }

  /** "x.glb.glb" is listed under "x": both occurrences go. */
  lemma KeywordOfDoubleSuffix(stem: string)
    requires !Contains(stem, GlbSuffix)
    ensures KeywordOf(stem + GlbSuffix + GlbSuffix) == Lower(stem)
  {
    RemoveGlbAfterPlainStem(stem, GlbSuffix);
    assert GlbSuffix[..4] == GlbSuffix && GlbSuffix[4..] == [];
  }

  /** `name` is a model file listed under keyword `k`. */
  predicate FiledUnder(name: string, k: string)
  {
    IsModelFile(name) && KeywordOf(name) == k
  }

  /** One turn of the loop in `get_available_models`. */
  function AddFile(t: Table, name: string): (r: Table)
    ensures DistinctKeys(t) ==> DistinctKeys(r)
    ensures IsModelFile(name) ==> Lookup(r, KeywordOf(name)) == Some(name)
    ensures forall k :: !FiledUnder(name, k) ==> Lookup(r, k) == Lookup(t, k)
    ensures |t| <= |r| <= |t| + 1
    ensures Keys(r) == if IsModelFile(name) && Lookup(t, KeywordOf(name)).None?
                       then Keys(t) + [KeywordOf(name)] else Keys(t)
  {
    if IsModelFile(name) then Put(t, KeywordOf(name), name) else t
  }

  /** The table after the loop has seen `names`, in listing order. */
  function Collect(names: seq<string>): (t: Table)
    ensures DistinctKeys(t)
    ensures |t| <= |names|
    decreases |names|
  {
    if names == [] then [] else AddFile(Collect(names[..|names| - 1]), names[|names| - 1])
  }

  lemma CollectSnoc(names: seq<string>, i: nat)
    requires i < |names|
    ensures Collect(names[..i + 1]) == AddFile(Collect(names[..i]), names[i])
  {
    assert names[..i + 1][..i] == names[..i];
  }

  /** `name` at position `i` is the last model file in `names` that is listed
      under keyword `k`. */
  predicate LastFileFor(names: seq<string>, k: string, i: nat)
  {
    && i < |names|
    && FiledUnder(names[i], k)
    && forall j :: i < j < |names| ==> !FiledUnder(names[j], k)
  }

  /** Position of the last `true` in `bs`, if any. */
  function LastTrue(bs: seq<bool>): (r: Option<nat>)
    ensures r.None? <==> forall i :: 0 <= i < |bs| ==> !bs[i]
    ensures r.Some? ==> r.value < |bs| && bs[r.value]
    ensures r.Some? ==> forall j :: r.value < j < |bs| ==> !bs[j]
  {
    if bs == [] then None
    else if bs[|bs| - 1] then Some(|bs| - 1)
    else LastTrue(bs[..|bs| - 1])
  }

  /** For each name of the listing, whether it is a model file listed under `k`. */
  function FiledFlags(names: seq<string>, k: string): seq<bool>
  {
    seq(|names|, i requires 0 <= i < |names| => FiledUnder(names[i], k))
  }

  /** The scan files each keyword under the last model file listed for it. */
  lemma {:induction false} CollectLastFiled(names: seq<string>, k: string)
    ensures Lookup(Collect(names), k) ==
              match LastTrue(FiledFlags(names, k))
              case None => None
              case Some(i) => Some(names[i])
    decreases |names|
  {
    if names != [] {
      var init := names[..|names| - 1];
      CollectLastFiled(init, k);
      CollectStep(names, k);
      FlagsStep(names, k);
      var r := LastTrue(FiledFlags(init, k));
      if r.Some? {
        assert init[r.value] == names[r.value];
      }
    }
  }

  /** One more name changes only the lookup of the keyword it is filed under. */
  lemma CollectStep(names: seq<string>, k: string)
    requires names != []
    ensures var last := names[|names| - 1];
            Lookup(Collect(names), k) ==
              if FiledUnder(last, k) then Some(last) else Lookup(Collect(names[..|names| - 1]), k)
  {
    assert Collect(names) == AddFile(Collect(names[..|names| - 1]), names[|names| - 1]);
  }

  /** One more name is the last filed one exactly when it is filed under `k`. */
  lemma FlagsStep(names: seq<string>, k: string)
    requires names != []
    ensures var n := |names|;
            LastTrue(FiledFlags(names, k)) ==
              if FiledUnder(names[n - 1], k) then Some(n - 1) else LastTrue(FiledFlags(names[..n - 1], k))
  {
    var n := |names|;
    var bs := FiledFlags(names, k);
    assert bs[..n - 1] == FiledFlags(names[..n - 1], k);
  }

  /** A keyword maps to nothing exactly when no model file is listed under
      it, and otherwise to the last model file listed under it. */
  lemma CollectLookup(names: seq<string>, k: string)
    ensures Lookup(Collect(names), k).None? <==>
              forall i :: 0 <= i < |names| ==> !FiledUnder(names[i], k)
    ensures forall i: nat :: LastFileFor(names, k, i) ==> Lookup(Collect(names), k) == Some(names[i])
  {
    CollectLastFiled(names, k);
    NoFlagExactlyNoFile(names, k);
    forall i: nat | LastFileFor(names, k, i)
      ensures Lookup(Collect(names), k) == Some(names[i])
    {
      LastFlagIsLastFile(names, k, i);
    }
  }

  lemma NoFlagExactlyNoFile(names: seq<string>, k: string)
    ensures LastTrue(FiledFlags(names, k)).None? <==>
              forall i :: 0 <= i < |names| ==> !FiledUnder(names[i], k)
  {
    var bs := FiledFlags(names, k);
    assert forall i :: 0 <= i < |names| ==> bs[i] == FiledUnder(names[i], k);
  }

  lemma LastFlagIsLastFile(names: seq<string>, k: string, i: nat)
    requires LastFileFor(names, k, i)
    ensures LastTrue(FiledFlags(names, k)) == Some(i)
  {
    var bs := FiledFlags(names, k);
    forall j | i < j < |bs| ensures !bs[j] {
      assert !FiledUnder(names[j], k);
    }
    LastTrueAt(bs, i);
  }

  /** The last `true` is at `i` when `bs[i]` holds and nothing after it does. */
  lemma LastTrueAt(bs: seq<bool>, i: nat)
    requires i < |bs| && bs[i]
    requires forall j :: i < j < |bs| ==> !bs[j]
    ensures LastTrue(bs) == Some(i)
  {
  }

  /** Position of the first model file of `names` listed under `k`, if any;
      `FirstFiledIsFirst` says what it means. */
  function FirstFiled(names: seq<string>, k: string): (r: Option<nat>)
    ensures r.Some? ==> r.value < |names|
    decreases |names|
  {
    if names == [] then None
    else match FirstFiled(names[..|names| - 1], k)
      case Some(p) => Some(p)
      case None => if FiledUnder(names[|names| - 1], k) then Some(|names| - 1) else None
  }

  /** `FirstFiled` finds the first model file listed under `k`, and finds
      nothing exactly when there is none. */
  lemma {:induction false} FirstFiledIsFirst(names: seq<string>, k: string)
    ensures FirstFiled(names, k).None? <==> forall q :: 0 <= q < |names| ==> !FiledUnder(names[q], k)
    ensures FirstFiled(names, k).Some? ==>
              var p := FirstFiled(names, k).value;
              FiledUnder(names[p], k) && forall q :: 0 <= q < p ==> !FiledUnder(names[q], k)
    decreases |names|
  {
    if names != [] {
      var init := names[..|names| - 1];
      FirstFiledIsFirst(init, k);
      assert forall q :: 0 <= q < |init| ==> init[q] == names[q];
    }
  }

  /** A keyword is in the scanned table exactly when some model file of the
      listing is filed under it. */
  lemma {:induction false} FiledExactlyWhenListed(names: seq<string>, k: string)
    ensures FirstFiled(names, k).None? <==> Lookup(Collect(names), k).None?
    decreases |names|
  {
    if names != [] {
      FiledExactlyWhenListed(names[..|names| - 1], k);
      CollectStep(names, k);
    }
  }

  predicate FiledEarlier(names: seq<string>, k1: string, k2: string)
  {
    && FirstFiled(names, k1).Some? && FirstFiled(names, k2).Some?
    && FirstFiled(names, k1).value < FirstFiled(names, k2).value
  }

  /** `ks` lists keywords by the position of the first model file filed
      under each. */
  predicate InFilingOrder(names: seq<string>, ks: seq<string>)
  {
    forall i, j :: 0 <= i < j < |ks| ==> FiledEarlier(names, ks[i], ks[j])
  }

  /** The dict keeps insertion order: the keywords of the scanned table are
      ordered by the position of the first model file filed under each, and
      a later file with the same keyword does not move it. */
  lemma {:induction false} CollectOrder(names: seq<string>)
    ensures InFilingOrder(names, Keys(Collect(names)))
    decreases |names|
  {
    if names != [] {
      CollectOrder(names[..|names| - 1]);
      CollectOrderStep(names);
    }
  }

  /** One more name keeps the table's keywords in filing order. */
  lemma CollectOrderStep(names: seq<string>)
    requires names != []
    requires InFilingOrder(names[..|names| - 1], Keys(Collect(names[..|names| - 1])))
    ensures InFilingOrder(names, Keys(Collect(names)))
  {
    var ks0, ks := Keys(Collect(names[..|names| - 1])), Keys(Collect(names));
    AllKeptFirst(names);
    if ks == ks0 {
      ExtendOrderKept(names, ks0);
    } else {
      var kn := NewKeyAppended(names);
      ExtendOrderNew(names, ks0, kn, ks);
    }
  }

  /** When the last name adds a keyword, it is appended and first filed there. */
  lemma NewKeyAppended(names: seq<string>) returns (kn: string)
    requires names != []
    requires Keys(Collect(names)) != Keys(Collect(names[..|names| - 1]))
    ensures Keys(Collect(names)) == Keys(Collect(names[..|names| - 1])) + [kn]
    ensures FirstFiled(names, kn) == Some(|names| - 1)
  {
    var init, last := names[..|names| - 1], names[|names| - 1];
    CollectKeysStep(names);
    kn := KeywordOf(last);
    FiledExactlyWhenListed(init, kn);
    NewKeyFirstFiled(names, kn);
  }

  /** The keywords after one more name, from `AddFile`. */
  lemma CollectKeysStep(names: seq<string>)
    requires names != []
    ensures var init, last := names[..|names| - 1], names[|names| - 1];
            Keys(Collect(names)) ==
              if IsModelFile(last) && Lookup(Collect(init), KeywordOf(last)).None?
              then Keys(Collect(init)) + [KeywordOf(last)] else Keys(Collect(init))
  {
    CollectLast(names);
  }

  /** Every keyword already in the table keeps its first filing. */
  lemma AllKeptFirst(names: seq<string>)
    requires names != []
    ensures forall k :: k in Keys(Collect(names[..|names| - 1])) ==> KeptFirst(names, k)
  {
    forall k | k in Keys(Collect(names[..|names| - 1])) ensures KeptFirst(names, k) {
      KeptKeyFirstFiled(names, k);
    }
  }

  lemma CollectLast(names: seq<string>)
    requires names != []
    ensures Collect(names) == AddFile(Collect(names[..|names| - 1]), names[|names| - 1])
  {
  }

  /** Keyword `k` was first filed before the last name, and the last name
      does not change that. */
  predicate KeptFirst(names: seq<string>, k: string)
  {
    && names != []
    && FirstFiled(names[..|names| - 1], k).Some?
    && FirstFiled(names, k) == FirstFiled(names[..|names| - 1], k)
    && FirstFiled(names, k).value < |names| - 1
  }

  /** Keywords already in order stay in order when their first filings are kept. */
  lemma ExtendOrderKept(names: seq<string>, ks0: seq<string>)
    requires names != []
    requires InFilingOrder(names[..|names| - 1], ks0)
    requires forall k :: k in ks0 ==> KeptFirst(names, k)
    ensures InFilingOrder(names, ks0)
  {
    forall i, j | 0 <= i < j < |ks0| ensures FiledEarlier(names, ks0[i], ks0[j]) {
      assert FiledEarlier(names[..|names| - 1], ks0[i], ks0[j]);
      assert KeptFirst(names, ks0[i]) && KeptFirst(names, ks0[j]);
    }
  }

  /** A keyword first filed by the last name goes after all kept ones. */
  lemma ExtendOrderNew(names: seq<string>, ks0: seq<string>, kn: string, ks: seq<string>)
    requires names != []
    requires InFilingOrder(names[..|names| - 1], ks0)
    requires forall k :: k in ks0 ==> KeptFirst(names, k)
    requires FirstFiled(names, kn) == Some(|names| - 1)
    requires ks == ks0 + [kn]
    ensures InFilingOrder(names, ks)
  {
    ExtendOrderKept(names, ks0);
    forall i, j | 0 <= i < j < |ks| ensures FiledEarlier(names, ks[i], ks[j]) {
      assert ks[i] == ks0[i] && KeptFirst(names, ks0[i]);
      if j < |ks0| {
        assert ks[j] == ks0[j];
      }
    }
  }

  /** A keyword already in the table before the last name keeps its first
      filing position, which lies before the last name. */
  lemma KeptKeyFirstFiled(names: seq<string>, k: string)
    requires names != [] && k in Keys(Collect(names[..|names| - 1]))
    ensures KeptFirst(names, k)
  {
    var init := names[..|names| - 1];
    var t0 := Collect(init);
    var i :| 0 <= i < |t0| && Keys(t0)[i] == k;
    LookupEntry(t0, i);
    FiledExactlyWhenListed(init, k);
  }

  /** A keyword first filed by the last name is first filed there. */
  lemma NewKeyFirstFiled(names: seq<string>, k: string)
    requires names != [] && FiledUnder(names[|names| - 1], k)
    requires FirstFiled(names[..|names| - 1], k).None?
    ensures FirstFiled(names, k) == Some(|names| - 1)
  {
  }

  /** Only model files enter the table, each under its own keyword. */
  lemma {:induction false} CollectEntries(names: seq<string>)
    ensures forall e :: e in Collect(names) ==>
              e.filename in names && IsModelFile(e.filename) && e.keyword == KeywordOf(e.filename)
    decreases |names|
  {
    if names != [] {
      var init := names[..|names| - 1];
      CollectEntries(init);
      assert forall n :: n in init ==> n in names;
    }
  }

  /** `get_available_models()`: scan the directory listing (`None` when the
      `models` directory does not exist) and fill the table in place. */
  method GetAvailableModels(listing: Option<seq<string>>) returns (models: Table)
    ensures listing.None? ==> models == []
    ensures listing.Some? ==> models == Collect(listing.value)
    ensures DistinctKeys(models)
    ensures forall i :: 0 <= i < |models| ==> IsLowercase(models[i].keyword) && IsModelFile(models[i].filename)
  {
    models := [];
    if listing.Some? {
      var names := listing.value;
      var i := 0;
      while i < |names|
        invariant 0 <= i <= |names|
        invariant models == Collect(names[..i])
      {
        CollectSnoc(names, i);
        models := AddFile(models, names[i]);
        i := i + 1;
      }
      assert names[..i] == names;
      CollectEntries(names);
      assert forall j :: 0 <= j < |models| ==> models[j] in models;
    }
  }
}
