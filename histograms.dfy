/**
 * Language byte histograms (lib/github.ts, `RepositoryLanguages`): a plain
 * object from language name to byte count. Its keys keep insertion order,
 * which decides both the order of skills and the tie-breaks among the
 * primary languages, so a histogram is an association list with distinct
 * keys. This module holds the merge of the per-repository histograms in
 * `getUserProfile` and the ranking of `primaryLanguages`.
 */
module Histograms {
  import opened OrderedSets
  import opened Numbers

  datatype LangBytes = LangBytes(lang: string, bytes: nat)

  type Histogram = seq<LangBytes>

  /** Number of languages kept in `primaryLanguages`. */
  const PrimaryCount: nat := 5

  /** `Object.keys(h)`, in insertion order. */
  function Keys(h: Histogram): (ks: seq<string>)
    ensures |ks| == |h|
    ensures forall i :: 0 <= i < |h| ==> ks[i] == h[i].lang
  {
    seq(|h|, i requires 0 <= i < |h| => h[i].lang)
  }

  /** A well-formed histogram: no language is listed twice. */
  predicate Valid(h: Histogram)
  {
    forall i, j :: 0 <= i < j < |h| ==> h[i].lang != h[j].lang
  }

  /** `h[lang] || 0`: the byte count of `lang`, 0 when it is absent. */
  function Get(h: Histogram, lang: string): nat
  {
    if h == [] then 0
    else if h[0].lang == lang then h[0].bytes
    else Get(h[1..], lang)
  }

  /** `h[lang] = bytes`: an existing key keeps its place, a new key goes last. */
  function Put(h: Histogram, lang: string, bytes: nat): Histogram
  {
    if h == [] then [LangBytes(lang, bytes)]
    else if h[0].lang == lang then [LangBytes(lang, bytes)] + h[1..]
    else [h[0]] + Put(h[1..], lang, bytes)
  }

  // ---------------------------------------------------------------------
  // Lookup and update

  lemma ValidKeys(h: Histogram)
    ensures Valid(h) <==> NoDup(Keys(h))
  {
    if !Valid(h) {
      var i, j :| 0 <= i < j < |h| && h[i].lang == h[j].lang;
      assert Keys(h)[i] == Keys(h)[j];
    }
  }

  lemma ValidPrefix(h: Histogram, n: nat)
    requires Valid(h) && n <= |h|
    ensures Valid(h[..n])
  {
    forall i, j | 0 <= i < j < n ensures h[..n][i].lang != h[..n][j].lang {
      assert h[..n][i] == h[i] && h[..n][j] == h[j];
    }
  }

  lemma {:induction false} GetAbsent(h: Histogram, lang: string)
    requires lang !in Keys(h)
    ensures Get(h, lang) == 0
    decreases |h|
  {
    if h != [] {
      assert Keys(h)[0] == h[0].lang;
      assert forall i :: 0 <= i < |h| - 1 ==> Keys(h[1..])[i] == Keys(h)[i + 1];
      GetAbsent(h[1..], lang);
    }
  }

  /** In a well-formed histogram, looking up a listed language gives its entry's count. */
  lemma {:induction false} GetEntry(h: Histogram, i: nat)
    requires Valid(h) && i < |h|
    ensures Get(h, h[i].lang) == h[i].bytes
    decreases i
  {
    if i > 0 {
      assert h[0].lang != h[i].lang;
      assert h[1..][i - 1] == h[i];
      GetEntry(h[1..], i - 1);
    }
  }

  lemma {:induction false} GetSnoc(h: Histogram, e: LangBytes, lang: string)
    ensures Get(h + [e], lang) ==
      if lang in Keys(h) then Get(h, lang) else if e.lang == lang then e.bytes else 0
    decreases |h|
  {
    if h == [] {
      assert [e][1..] == [];
    } else {
      assert (h + [e])[1..] == h[1..] + [e];
      assert Keys(h)[0] == h[0].lang;
      assert Keys(h) == [h[0].lang] + Keys(h[1..]);
      GetSnoc(h[1..], e, lang);
    }
  }

  lemma {:induction false} PutGet(h: Histogram, lang: string, bytes: nat, k: string)
    ensures Get(Put(h, lang, bytes), k) == if k == lang then bytes else Get(h, k)
    decreases |h|
  {
    if h != [] && h[0].lang != lang {
      PutGet(h[1..], lang, bytes, k);
    }
  }

  lemma KeysCons(e: LangBytes, t: Histogram)
    ensures Keys([e] + t) == [e.lang] + Keys(t)
  {
  }

  /** Writing a key adds it to the key set the way `Set.add` would. */
  lemma {:induction false} PutKeys(h: Histogram, lang: string, bytes: nat)
    ensures Keys(Put(h, lang, bytes)) == Add(Keys(h), lang)
    decreases |h|
  {
    if h != [] {
      assert h == [h[0]] + h[1..];
      KeysCons(h[0], h[1..]);
      if h[0].lang == lang {
        KeysCons(LangBytes(lang, bytes), h[1..]);
        assert lang in Keys(h);
      } else {
        var rest := Put(h[1..], lang, bytes);
        PutKeys(h[1..], lang, bytes);
        KeysCons(h[0], rest);
        assert lang in Keys(h) <==> lang in Keys(h[1..]);
        if lang in Keys(h[1..]) {
          assert Add(Keys(h[1..]), lang) == Keys(h[1..]);
        } else {
          assert Add(Keys(h[1..]), lang) == Keys(h[1..]) + [lang];
          assert Add(Keys(h), lang) == Keys(h) + [lang];
        }
      }
    }
  }

  // ---------------------------------------------------------------------
  // The merge (lib/github.ts:176-181)

  /** Folds one repository's histogram into the running totals, entry by entry. */
  function Accumulate(acc: Histogram, h: Histogram): Histogram
    decreases |h|
  {
    if h == [] then acc
    else
      var a := Accumulate(acc, h[..|h| - 1]);
      var e := h[|h| - 1];
      Put(a, e.lang, Get(a, e.lang) + e.bytes)
  }

  /** Folds the histograms `hs`, in order, into `acc`. */
  function MergeOnto(acc: Histogram, hs: seq<Histogram>): Histogram
    decreases |hs|
  {
    if hs == [] then acc else Accumulate(MergeOnto(acc, hs[..|hs| - 1]), hs[|hs| - 1])
  }

  /** The merged histogram of `getUserProfile`: all histograms folded into `{}`. */
  function Merge(hs: seq<Histogram>): Histogram
  {
    MergeOnto([], hs)
  }

  /** Sum of the byte counts of `lang` over the histograms `hs` (the reference for the merge). */
  function Total(hs: seq<Histogram>, lang: string): nat
    decreases |hs|
  {
    if hs == [] then 0 else Total(hs[..|hs| - 1], lang) + Get(hs[|hs| - 1], lang)
  }

  /** The keys of all histograms, one after the other, as they are met by the merge. */
  function AllKeys(hs: seq<Histogram>): seq<string>
    decreases |hs|
  {
    if hs == [] then [] else AllKeys(hs[..|hs| - 1]) + Keys(hs[|hs| - 1])
  }

  /**
   * The merge as the source writes it: two nested loops that read and write
   * the running totals in place.
   */
  method MergeHistograms(results: seq<Histogram>) returns (languages: Histogram)
    ensures languages == Merge(results)
  {
    languages := [];
    var i := 0;
    while i < |results|
      invariant 0 <= i <= |results|
      invariant languages == MergeOnto([], results[..i])
    {
      var repoLanguages := results[i];
      var j := 0;
      while j < |repoLanguages|
        invariant 0 <= j <= |repoLanguages|
        invariant languages == Accumulate(MergeOnto([], results[..i]), repoLanguages[..j])
      {
        var e := repoLanguages[j];
        languages := Put(languages, e.lang, Get(languages, e.lang) + e.bytes);
        assert repoLanguages[..j + 1][..j] == repoLanguages[..j];
        j := j + 1;
      }
      assert repoLanguages[..j] == repoLanguages;
      assert results[..i + 1][..i] == results[..i];
      i := i + 1;
    }
    assert results[..i] == results;
  }

  lemma {:induction false} AccumulateGet(acc: Histogram, h: Histogram, k: string)
    requires Valid(h)
    ensures Get(Accumulate(acc, h), k) == Get(acc, k) + Get(h, k)
    decreases |h|
  {
    if h != [] {
      var n := |h| - 1;
      var init, e := h[..n], h[n];
      var a := Accumulate(acc, init);
      assert Valid(init) by {
        ValidPrefix(h, n);
      }
      assert Get(Accumulate(acc, h), k) == if k == e.lang then Get(a, e.lang) + e.bytes else Get(a, k) by {
        PutGet(a, e.lang, Get(a, e.lang) + e.bytes, k);
      }
      assert Get(a, k) == Get(acc, k) + Get(init, k) by {
        AccumulateGet(acc, init, k);
      }
      assert Get(h, k) == if k == e.lang then e.bytes else Get(init, k) by {
        assert h == init + [e];
        GetSnoc(init, e, k);
        if k != e.lang && k !in Keys(init) {
          GetAbsent(init, k);
        }
      }
      assert k == e.lang ==> Get(init, k) == 0 by {
        if k == e.lang {
          assert k !in Keys(init) by {
            forall i | 0 <= i < n ensures Keys(init)[i] != k {
              assert h[i].lang != h[n].lang;
            }
          }
          GetAbsent(init, k);
        }
      }
    }
  }

  lemma AccumulateStepKeys(acc: Histogram, h: Histogram)
    requires h != []
    ensures Keys(Accumulate(acc, h)) == Add(Keys(Accumulate(acc, h[..|h| - 1])), h[|h| - 1].lang)
  {
    var a := Accumulate(acc, h[..|h| - 1]);
    var e := h[|h| - 1];
    PutKeys(a, e.lang, Get(a, e.lang) + e.bytes);
  }

  /**
   * The keys after folding in `h`: the old keys, then the new ones in `h`'s
   * order. The old keys must already be an insertion-ordered set.
   */
  lemma {:induction false} AccumulateKeys(acc: Histogram, h: Histogram)
    requires NoDup(Keys(acc))
    ensures Keys(Accumulate(acc, h)) == Dedup(Keys(acc) + Keys(h))
    decreases |h|
  {
    if h == [] {
      assert Keys(acc) + Keys(h) == Keys(acc);
      DedupOfNoDup(Keys(acc));
    } else {
      var n := |h| - 1;
      var init, e := h[..n], h[n];
      var seen := Keys(acc) + Keys(init);
      AccumulateKeys(acc, init);
      AccumulateStepKeys(acc, h);
      assert Keys(acc) + Keys(h) == seen + [e.lang] by {
        assert Keys(h) == Keys(init) + [e.lang];
      }
      DedupSnoc(seen, e.lang);
    }
  }

  lemma {:induction false} MergeOntoGet(acc: Histogram, hs: seq<Histogram>, k: string)
    requires forall i :: 0 <= i < |hs| ==> Valid(hs[i])
    ensures Get(MergeOnto(acc, hs), k) == Get(acc, k) + Total(hs, k)
    decreases |hs|
  {
    if hs != [] {
      var n := |hs| - 1;
      MergeOntoGet(acc, hs[..n], k);
      AccumulateGet(MergeOnto(acc, hs[..n]), hs[n], k);
    }
  }

  lemma {:induction false} MergeOntoKeys(acc: Histogram, hs: seq<Histogram>)
    requires NoDup(Keys(acc))
    ensures Keys(MergeOnto(acc, hs)) == Dedup(Keys(acc) + AllKeys(hs))
    decreases |hs|
  {
    if hs == [] {
      assert Keys(acc) + AllKeys(hs) == Keys(acc);
      DedupOfNoDup(Keys(acc));
    } else {
      var n := |hs| - 1;
      var init, last := hs[..n], hs[n];
      var m := MergeOnto(acc, init);
      var seen := Keys(acc) + AllKeys(init);
      assert Keys(acc) + AllKeys(hs) == seen + Keys(last);
      assert Keys(m) == Dedup(seen) by {
        MergeOntoKeys(acc, init);
      }
      assert Keys(MergeOnto(acc, hs)) == Dedup(Keys(m) + Keys(last)) by {
        DedupNoDup(seen);
        AccumulateKeys(m, last);
      }
      DedupAppend(seen, Keys(last));
    }
  }

  /** Folding into a well-formed histogram keeps it well formed. */
  lemma MergeOntoValid(acc: Histogram, hs: seq<Histogram>)
    requires Valid(acc)
    ensures Valid(MergeOnto(acc, hs))
  {
    ValidKeys(acc);
    MergeOntoKeys(acc, hs);
    DedupNoDup(Keys(acc) + AllKeys(hs));
    ValidKeys(MergeOnto(acc, hs));
  }

  /**
   * lib/github.ts:176-181. The merged histogram is well formed; each
   * language's merged count is the sum of its counts over the fetched
   * histograms; and its keys are the languages in the order they are first
   * met (histogram by histogram, key by key).
   */
  lemma MergeSums(hs: seq<Histogram>)
    requires forall i :: 0 <= i < |hs| ==> Valid(hs[i])
    ensures Valid(Merge(hs))
    ensures forall k :: Get(Merge(hs), k) == Total(hs, k)
    ensures Keys(Merge(hs)) == Dedup(AllKeys(hs))
  {
    MergeOntoKeys([], hs);
    MergeOntoValid([], hs);
    assert Keys([]) + AllKeys(hs) == AllKeys(hs);
    forall k ensures Get(Merge(hs), k) == Total(hs, k) {
      MergeOntoGet([], hs, k);
    }
  }

  lemma {:induction false} MergeOntoAppend(acc: Histogram, a: seq<Histogram>, b: seq<Histogram>)
    ensures MergeOnto(acc, a + b) == MergeOnto(MergeOnto(acc, a), b)
    decreases |b|
  {
    if b == [] {
      assert a + b == a;
    } else {
      var n := |b| - 1;
      MergeOntoAppend(acc, a, b[..n]);
      assert (a + b)[..|a + b| - 1] == a + b[..n];
    }
  }

  /**
   * lib/github.ts:139-143, 176-181. A failed fetch yields `{}`, and merging
   * `{}` at any position leaves the merged histogram exactly as it was.
   */
  lemma EmptyHistogramIsNeutral(a: seq<Histogram>, b: seq<Histogram>)
    ensures Merge(a + [[]] + b) == Merge(a + b)
  {
    MergeOntoAppend([], a + [[]], b);
    MergeOntoAppend([], a, b);
    assert (a + [[]])[..|a|] == a;
  }

  lemma {:induction false} TotalAppend(a: seq<Histogram>, b: seq<Histogram>, k: string)
    ensures Total(a + b, k) == Total(a, k) + Total(b, k)
    decreases |b|
  {
    if b == [] {
      assert a + b == a;
    } else {
      var n := |b| - 1;
      TotalAppend(a, b[..n], k);
      assert (a + b)[..|a + b| - 1] == a + b[..n];
    }
  }

  /**
   * The reference sum of a language's bytes depends only on which
   * histograms there are, not on their order.
   */
  lemma {:induction false} TotalPermutation(xs: seq<Histogram>, ys: seq<Histogram>, k: string)
    requires multiset(xs) == multiset(ys)
    ensures Total(xs, k) == Total(ys, k)
    decreases |xs|
  {
    if xs == [] {
      assert |ys| == |multiset(ys)| == 0;
    } else {
      var n := |xs| - 1;
      var x := xs[n];
      assert x in multiset(ys) by {
        assert x in multiset(xs);
      }
      var j :| 0 <= j < |ys| && ys[j] == x;
      var pre, post := ys[..j], ys[j + 1..];
      assert Total(xs[..n], k) == Total(pre + post, k) by {
        assert xs == xs[..n] + [x];
        assert ys == pre + [x] + post;
        assert multiset(xs) == multiset(xs[..n]) + multiset{x};
        assert multiset(ys) == multiset(pre + post) + multiset{x};
        assert multiset(xs[..n]) == multiset(xs) - multiset{x};
        assert multiset(pre + post) == multiset(ys) - multiset{x};
        TotalPermutation(xs[..n], pre + post, k);
      }
      assert Total(ys, k) == Total(pre, k) + Get(x, k) + Total(post, k) by {
        assert ys == pre + [x] + post;
        TotalAppend(pre + [x], post, k);
        TotalAppend(pre, [x], k);
        assert [x][..0] == [];
      }
      TotalAppend(pre, post, k);
    }
  }

  /**
   * lib/github.ts:170-181. The merged count of every language depends only on
   * which well-formed histograms were fetched, not on the order of the
   * repositories they came from.
   */
  lemma MergePermutation(xs: seq<Histogram>, ys: seq<Histogram>, k: string)
    requires multiset(xs) == multiset(ys)
    requires forall i :: 0 <= i < |xs| ==> Valid(xs[i])
    ensures Get(Merge(xs), k) == Get(Merge(ys), k)
  {
    forall i | 0 <= i < |ys| ensures Valid(ys[i]) {
      assert ys[i] in multiset(xs);
    }
    MergeOntoGet([], xs, k);
    MergeOntoGet([], ys, k);
    TotalPermutation(xs, ys, k);
  }

  // ---------------------------------------------------------------------
  // primaryLanguages (lib/github.ts:187-190)

  /** Entries in non-increasing order of byte count. */
  predicate SortedByBytes(h: Histogram)
  {
    forall i, j :: 0 <= i < j < |h| ==> h[i].bytes >= h[j].bytes
  }

  /** The entries with exactly `v` bytes, in their order. */
  function WithBytes(h: Histogram, v: nat): Histogram
  {
    if h == [] then [] else (if h[0].bytes == v then [h[0]] else []) + WithBytes(h[1..], v)
  }

  /**
   * Inserts `e` into a list sorted by non-increasing bytes, in front of the
   * first entry with no more bytes than `e`.
   */
  function Insert(e: LangBytes, sorted: Histogram): Histogram
  {
    if sorted == [] then [e]
    else if e.bytes >= sorted[0].bytes then [e] + sorted
    else [sorted[0]] + Insert(e, sorted[1..])
  }

  /**
   * `.sort(([, a], [, b]) => b - a)` on the entries: a stable sort by
   * non-increasing byte count (an insertion sort).
   */
  function SortByBytes(h: Histogram): Histogram
  {
    if h == [] then [] else Insert(h[0], SortByBytes(h[1..]))
  }

  /** `primaryLanguages`: the first five keys of the sorted entries. */
  function PrimaryLanguages(languages: Histogram): seq<string>
  {
    var sorted := SortByBytes(languages);
    Keys(sorted[..Min(PrimaryCount, |sorted|)])
  }

  lemma {:induction false} InsertPermutes(e: LangBytes, t: Histogram)
    ensures multiset(Insert(e, t)) == multiset(t) + multiset{e}
    decreases |t|
  {
    if t != [] && e.bytes < t[0].bytes {
      InsertPermutes(e, t[1..]);
      assert t == [t[0]] + t[1..];
    }
  }

  lemma InsertHead(e: LangBytes, t: Histogram)
    ensures Insert(e, t) != []
    ensures Insert(e, t)[0] == e || (t != [] && Insert(e, t)[0] == t[0])
  {
  }

  lemma {:induction false} InsertSorted(e: LangBytes, t: Histogram)
    requires SortedByBytes(t)
    ensures SortedByBytes(Insert(e, t))
    decreases |t|
  {
    if t != [] && e.bytes < t[0].bytes {
      var tail := t[1..];
      var r := Insert(e, tail);
      InsertSorted(e, tail);
      InsertHead(e, tail);
      assert r[0].bytes <= t[0].bytes by {
        if tail != [] {
          assert tail[0] == t[1];
        }
      }
      var ins := [t[0]] + r;
      forall i, j | 0 <= i < j < |ins| ensures ins[i].bytes >= ins[j].bytes {
        if i == 0 {
          assert ins[j] == r[j - 1];
          assert r[0].bytes >= r[j - 1].bytes;
        } else {
          assert ins[i] == r[i - 1] && ins[j] == r[j - 1];
        }
      }
    }
  }

  lemma WithBytesCons(x: LangBytes, t: Histogram, v: nat)
    ensures WithBytes([x] + t, v) == (if x.bytes == v then [x] else []) + WithBytes(t, v)
  {
    assert ([x] + t)[0] == x && ([x] + t)[1..] == t;
  }

  lemma {:induction false} InsertStable(e: LangBytes, t: Histogram, v: nat)
    ensures WithBytes(Insert(e, t), v) == (if e.bytes == v then [e] else []) + WithBytes(t, v)
    decreases |t|
  {
    if t == [] {
      WithBytesCons(e, [], v);
    } else if e.bytes >= t[0].bytes {
      WithBytesCons(e, t, v);
    } else {
      var tail := t[1..];
      InsertStable(e, tail, v);
      WithBytesCons(t[0], Insert(e, tail), v);
      WithBytesCons(t[0], tail, v);
      assert t == [t[0]] + tail;
    }
  }

  lemma {:induction false} SortPermutes(h: Histogram)
    ensures multiset(SortByBytes(h)) == multiset(h)
    decreases |h|
  {
    if h != [] {
      SortPermutes(h[1..]);
      InsertPermutes(h[0], SortByBytes(h[1..]));
      assert h == [h[0]] + h[1..];
    }
  }

  lemma {:induction false} SortIsSorted(h: Histogram)
    ensures SortedByBytes(SortByBytes(h))
    decreases |h|
  {
    if h != [] {
      SortIsSorted(h[1..]);
      InsertSorted(h[0], SortByBytes(h[1..]));
    }
  }

  lemma {:induction false} SortIsStable(h: Histogram, v: nat)
    ensures WithBytes(SortByBytes(h), v) == WithBytes(h, v)
    decreases |h|
  {
    if h != [] {
      SortIsStable(h[1..], v);
      InsertStable(h[0], SortByBytes(h[1..]), v);
    }
  }

  /**
   * lib/github.ts:188. The sort is a permutation of the entries, sorted by
   * non-increasing bytes, and stable: for every byte count, the entries with
   * that count keep their relative (key) order.
   */
  lemma SortByBytesSpec(h: Histogram)
    ensures multiset(SortByBytes(h)) == multiset(h)
    ensures SortedByBytes(SortByBytes(h))
    ensures forall v :: WithBytes(SortByBytes(h), v) == WithBytes(h, v)
  {
    SortPermutes(h);
    SortIsSorted(h);
    forall v ensures WithBytes(SortByBytes(h), v) == WithBytes(h, v) {
      SortIsStable(h, v);
    }
  }

  lemma {:induction false} InsertMembers(e: LangBytes, t: Histogram)
    ensures forall x :: x in Insert(e, t) <==> x == e || x in t
    decreases |t|
  {
    if t != [] && e.bytes < t[0].bytes {
      InsertMembers(e, t[1..]);
      assert t == [t[0]] + t[1..];
    }
  }

  lemma {:induction false} InsertValid(e: LangBytes, t: Histogram)
    requires Valid(t) && forall x :: x in t ==> x.lang != e.lang
    ensures Valid(Insert(e, t))
    decreases |t|
  {
    if t != [] && e.bytes < t[0].bytes {
      var tail := t[1..];
      ValidSuffix(t);
      assert forall x :: x in tail ==> x in t;
      InsertValid(e, tail);
      var r := Insert(e, tail);
      InsertMembers(e, tail);
      assert forall x :: x in r ==> x.lang != t[0].lang by {
        forall x | x in r ensures x.lang != t[0].lang {
          if x != e {
            var k :| 0 <= k < |tail| && tail[k] == x;
            assert t[k + 1] == x;
          }
        }
      }
      ConsValid(t[0], r);
    } else if t != [] {
      ConsValid(e, t);
    }
  }

  lemma ValidSuffix(h: Histogram)
    requires Valid(h) && h != []
    ensures Valid(h[1..])
  {
    forall i, j | 0 <= i < j < |h| - 1 ensures h[1..][i].lang != h[1..][j].lang {
      assert h[1..][i] == h[i + 1] && h[1..][j] == h[j + 1];
    }
  }

  lemma ConsValid(e: LangBytes, t: Histogram)
    requires Valid(t) && forall x :: x in t ==> x.lang != e.lang
    ensures Valid([e] + t)
  {
    var c := [e] + t;
    forall i, j | 0 <= i < j < |c| ensures c[i].lang != c[j].lang {
      assert c[j] == t[j - 1];
      if i > 0 {
        assert c[i] == t[i - 1];
      }
    }
  }

  /** Sorting keeps the entries, so it keeps the keys distinct. */
  lemma {:induction false} SortMembersValid(h: Histogram)
    ensures forall x :: x in SortByBytes(h) <==> x in h
    ensures Valid(h) ==> Valid(SortByBytes(h))
    decreases |h|
  {
    if h != [] {
      var tail := h[1..];
      SortMembersValid(tail);
      InsertMembers(h[0], SortByBytes(tail));
      assert h == [h[0]] + tail;
      if Valid(h) {
        ValidSuffix(h);
        forall x | x in SortByBytes(tail) ensures x.lang != h[0].lang {
          var k :| 0 <= k < |tail| && tail[k] == x;
          assert h[k + 1] == x;
        }
        InsertValid(h[0], SortByBytes(tail));
      }
    }
  }

  lemma MemberBytes(h: Histogram, x: LangBytes)
    requires Valid(h) && x in h
    ensures Get(h, x.lang) == x.bytes
  {
    var b :| 0 <= b < |h| && h[b] == x;
    GetEntry(h, b);
  }

  /** `x` occurs in `s` before `y`. */
  predicate Precedes(s: Histogram, x: LangBytes, y: LangBytes)
  {
    exists i, j :: 0 <= i < j < |s| && s[i] == x && s[j] == y
  }

  /** Putting an entry in front keeps the order of the others. */
  lemma PrecedesCons(c: LangBytes, r: Histogram, x: LangBytes, y: LangBytes)
    requires Precedes(r, x, y)
    ensures Precedes([c] + r, x, y)
  {
    var i, j :| 0 <= i < j < |r| && r[i] == x && r[j] == y;
    assert ([c] + r)[i + 1] == x && ([c] + r)[j + 1] == y;
  }

  /** An entry put in front precedes everything after it. */
  lemma PrecedesHead(c: LangBytes, r: Histogram, y: LangBytes)
    requires y in r
    ensures Precedes([c] + r, c, y)
  {
    var j :| 0 <= j < |r| && r[j] == y;
    assert ([c] + r)[0] == c && ([c] + r)[j + 1] == y;
  }

  /** Precedence in a non-empty histogram, read from its head and its tail. */
  lemma PrecedesTail(t: Histogram, x: LangBytes, y: LangBytes)
    requires Precedes(t, x, y)
    ensures t != [] && t == [t[0]] + t[1..]
    ensures (x == t[0] && y in t[1..]) || Precedes(t[1..], x, y)
  {
    var i, j :| 0 <= i < j < |t| && t[i] == x && t[j] == y;
    assert t[1..][j - 1] == y;
    if i != 0 {
      assert t[1..][i - 1] == x;
    }
  }

  /** Inserting an entry keeps the order of the entries already there. */
  lemma {:induction false} InsertKeepsOrder(e: LangBytes, t: Histogram, x: LangBytes, y: LangBytes)
    requires Precedes(t, x, y)
    ensures Precedes(Insert(e, t), x, y)
    decreases |t|
  {
    PrecedesTail(t, x, y);
    if e.bytes >= t[0].bytes {
      PrecedesCons(e, t, x, y);
    } else if x == t[0] && y in t[1..] {
      InsertMembers(e, t[1..]);
      PrecedesHead(t[0], Insert(e, t[1..]), y);
    } else {
      InsertKeepsOrder(e, t[1..], x, y);
      PrecedesCons(t[0], Insert(e, t[1..]), x, y);
    }
  }

  /** An inserted entry goes before every entry with no more bytes than it. */
  lemma {:induction false} InsertGoesBefore(e: LangBytes, t: Histogram, y: LangBytes)
    requires SortedByBytes(t) && y in t && y.bytes <= e.bytes
    ensures Precedes(Insert(e, t), e, y)
    decreases |t|
  {
    if e.bytes >= t[0].bytes {
      PrecedesHead(e, t, y);
    } else {
      var tail := t[1..];
      assert t == [t[0]] + tail;
      assert y in tail;
      assert SortedByBytes(tail) by {
        forall a, b | 0 <= a < b < |tail| ensures tail[a].bytes >= tail[b].bytes {
          assert tail[a] == t[a + 1] && tail[b] == t[b + 1];
        }
      }
      InsertGoesBefore(e, tail, y);
      PrecedesCons(t[0], Insert(e, tail), e, y);
    }
  }

  /** Of two entries with the same byte count, the sort keeps the earlier one first. */
  lemma {:induction false} SortKeepsTies(h: Histogram, a: nat, b: nat)
    requires a < b < |h| && h[a].bytes == h[b].bytes
    ensures Precedes(SortByBytes(h), h[a], h[b])
    decreases |h|
  {
    var tail := h[1..];
    var st := SortByBytes(tail);
    assert tail[b - 1] == h[b];
    if a == 0 {
      SortMembersValid(tail);
      SortIsSorted(tail);
      InsertGoesBefore(h[0], st, h[b]);
    } else {
      assert tail[a - 1] == h[a];
      SortKeepsTies(tail, a - 1, b - 1);
      InsertKeepsOrder(h[0], st, h[a], h[b]);
    }
  }

  /**
   * lib/github.ts:187-190. Ties are broken by key order: when a language is
   * kept, every earlier language with the same byte count is kept too, and
   * comes before it.
   */
  lemma PrimaryLanguagesTieBreak(languages: Histogram)
    requires Valid(languages)
    ensures forall a, b ::
      (0 <= a < b < |languages| && languages[a].bytes == languages[b].bytes &&
       languages[b].lang in PrimaryLanguages(languages)) ==>
        exists i, j :: 0 <= i < j < |PrimaryLanguages(languages)| &&
          PrimaryLanguages(languages)[i] == languages[a].lang && PrimaryLanguages(languages)[j] == languages[b].lang
  {
    var s := SortByBytes(languages);
    SortMembersValid(languages);
    var m := Min(PrimaryCount, |s|);
    var pl := PrimaryLanguages(languages);
    assert pl == Keys(s[..m]);
    forall a, b | 0 <= a < b < |languages| && languages[a].bytes == languages[b].bytes && languages[b].lang in pl
      ensures exists i, j :: 0 <= i < j < |pl| && pl[i] == languages[a].lang && pl[j] == languages[b].lang
    {
      SortKeepsTies(languages, a, b);
      var i, j :| 0 <= i < j < |s| && s[i] == languages[a] && s[j] == languages[b];
      var q :| 0 <= q < |pl| && pl[q] == languages[b].lang;
      assert s[q].lang == s[j].lang;
      assert q == j;
      assert pl[i] == languages[a].lang;
    }
  }

  /**
   * lib/github.ts:187-190. Given a well-formed merged histogram,
   * `primaryLanguages` has min(5, number of languages) entries, all distinct
   * and all languages of the histogram, in non-increasing order of bytes,
   * and no language left out has more bytes than one that was kept.
   */
  lemma PrimaryLanguagesRanked(languages: Histogram)
    requires Valid(languages)
    ensures |PrimaryLanguages(languages)| == Min(PrimaryCount, |languages|)
    ensures NoDup(PrimaryLanguages(languages))
    ensures forall p :: p in PrimaryLanguages(languages) ==> p in Keys(languages)
    ensures forall i, j :: 0 <= i < j < |PrimaryLanguages(languages)| ==>
      Get(languages, PrimaryLanguages(languages)[i]) >= Get(languages, PrimaryLanguages(languages)[j])
    ensures forall k, p :: k in Keys(languages) && k !in PrimaryLanguages(languages) && p in PrimaryLanguages(languages) ==>
      Get(languages, k) <= Get(languages, p)
  {
    var s := SortByBytes(languages);
    SortByBytesSpec(languages);
    SortMembersValid(languages);
    var m := Min(PrimaryCount, |s|);
    assert |s| == |multiset(s)| == |multiset(languages)| == |languages|;
    var pl := PrimaryLanguages(languages);
    assert pl == Keys(s[..m]);
    ValidPrefix(s, m);
    ValidKeys(s[..m]);
    forall i | 0 <= i < m ensures Get(languages, pl[i]) == s[i].bytes && s[i] in languages {
      MemberBytes(languages, s[i]);
    }
    forall k, p | k in Keys(languages) && k !in pl && p in pl
      ensures Get(languages, k) <= Get(languages, p)
    {
      var a :| 0 <= a < |languages| && Keys(languages)[a] == k;
      assert languages[a] in s;
      var q :| 0 <= q < |s| && s[q] == languages[a];
      assert q >= m;
      var i :| 0 <= i < m && pl[i] == p;
      GetEntry(languages, a);
    }
  }
}
