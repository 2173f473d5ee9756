/** Scanning a list for the first element of a kind, and scanning it again after a stretch of it was replaced. */
module Scans {
  import opened Wrappers

  /** The first place from `k` of an element in `p`, or `end`. */
  ghost function First<T>(s: seq<T>, k: nat, end: nat, p: iset<T>): (r: nat)
    requires k <= end <= |s|
    ensures k <= r <= end && (r < end ==> s[r] in p)
    decreases end - k
  {
    if k == end || s[k] in p then k else First(s, k + 1, end, p)
  }

  lemma {:induction false} NoneBefore<T>(s: seq<T>, k: nat, end: nat, p: iset<T>)
    requires k <= end <= |s|
    ensures forall m :: k <= m < First(s, k, end, p) ==> s[m] !in p
    decreases end - k
  {
    if k < end && s[k] !in p {
      NoneBefore(s, k + 1, end, p);
    }
  }

  lemma {:induction false} FirstIs<T>(s: seq<T>, k: nat, end: nat, p: iset<T>, e: nat)
    requires k <= e <= end <= |s| && (forall m :: k <= m < e ==> s[m] !in p) && (e < end ==> s[e] in p)
    ensures First(s, k, end, p) == e
    decreases e - k
  {
    if k < e {
      FirstIs(s, k + 1, end, p, e);
    }
  }

  /** The list with its elements [i, j) replaced by one. */
  function Spliced<T>(s: seq<T>, i: nat, j: nat, x: T): (r: seq<T>)
    requires i <= j <= |s|
    ensures |r| == |s| - (j - i) + 1
  {
    s[..i] + [x] + s[j..]
  }

  lemma SplicedEnds<T>(s: seq<T>, i: nat, j: nat, x: T)
    requires i <= j <= |s|
    ensures Spliced(s, i, j, x)[..i] == s[..i] && Spliced(s, i, j, x)[i] == x
    ensures Spliced(s, i, j, x)[i + 1..] == s[j..]
  {
  }

  lemma SplicedIndex<T>(s: seq<T>, i: nat, j: nat, x: T, k: nat)
    requires i <= j <= |s| && k < |s|
    ensures k < i ==> Spliced(s, i, j, x)[k] == s[k]
    ensures j <= k ==> Spliced(s, i, j, x)[k - (j - i) + 1] == s[k]
  {
  }

  lemma SplicedBefore<T>(s: seq<T>, i: nat, j: nat, x: T, a: nat, b: nat)
    requires a <= b <= i <= j <= |s|
    ensures Spliced(s, i, j, x)[a..b] == s[a..b]
  {
  }

  lemma SplicedAfter<T>(s: seq<T>, i: nat, j: nat, x: T, a: nat, b: nat)
    requires i <= j <= a <= b <= |s|
    ensures Spliced(s, i, j, x)[a - (j - i) + 1..b - (j - i) + 1] == s[a..b]
  {
  }

  /** What is first before the stretch is first still. */
  lemma FirstBefore<T>(s: seq<T>, i: nat, j: nat, x: T, k: nat, end: nat, p: iset<T>)
    requires k <= i <= j <= end <= |s| && First(s, k, end, p) < i
    ensures First(Spliced(s, i, j, x), k, end - (j - i) + 1, p) == First(s, k, end, p)
  {
    NoneBefore(s, k, end, p);
    FirstIs(Spliced(s, i, j, x), k, end - (j - i) + 1, p, First(s, k, end, p));
  }

  /** If nothing was before the stretch, what replaced it is first, if of the kind. */
  lemma FirstAt<T>(s: seq<T>, i: nat, j: nat, x: T, k: nat, end: nat, p: iset<T>)
    requires k <= i <= j <= end <= |s| && i <= First(s, k, end, p) && x in p
    ensures First(Spliced(s, i, j, x), k, end - (j - i) + 1, p) == i
  {
    NoneBefore(s, k, end, p);
    FirstIs(Spliced(s, i, j, x), k, end - (j - i) + 1, p, i);
  }

  /** If nothing was up to the end of the stretch, and what replaced it is not of the kind, what is first
      after it is first still. */
  lemma FirstBeyond<T>(s: seq<T>, i: nat, j: nat, x: T, k: nat, end: nat, p: iset<T>)
    requires k <= i <= j <= end <= |s| && j <= First(s, k, end, p) && x !in p
    ensures First(Spliced(s, i, j, x), k, end - (j - i) + 1, p) == First(s, k, end, p) - (j - i) + 1
  {
    var out, cut, f := Spliced(s, i, j, x), j - i, First(s, k, end, p);
    NoneBefore(s, k, end, p);
    forall m | k <= m < f - cut + 1 ensures out[m] !in p {
      if m > i {
        assert out[m] == s[m + cut - 1];
      }
    }
    FirstIs(out, k, end - cut + 1, p, f - cut + 1);
  }

  /** Scanning from after the stretch is as it was. */
  lemma FirstAfter<T>(s: seq<T>, i: nat, j: nat, x: T, k: nat, end: nat, p: iset<T>)
    requires i <= j <= k <= end <= |s|
    ensures First(Spliced(s, i, j, x), k - (j - i) + 1, end - (j - i) + 1, p) == First(s, k, end, p) - (j - i) + 1
  {
    var out, cut, f := Spliced(s, i, j, x), j - i, First(s, k, end, p);
    NoneBefore(s, k, end, p);
    forall m | k - cut + 1 <= m < f - cut + 1 ensures out[m] !in p {
      assert out[m] == s[m + cut - 1];
    }
    FirstIs(out, k - cut + 1, end - cut + 1, p, f - cut + 1);
  }

  /** Scanning further finds the same, or something further. */
  lemma FirstFurther<T>(s: seq<T>, k: nat, end: nat, further: nat, p: iset<T>)
    requires k <= end <= further <= |s|
    ensures First(s, k, end, p) < end ==> First(s, k, further, p) == First(s, k, end, p)
    ensures First(s, k, end, p) == end ==> First(s, k, further, p) == First(s, end, further, p)
  {
    NoneBefore(s, k, end, p);
    if First(s, k, end, p) < end {
      FirstIs(s, k, further, p, First(s, k, end, p));
    } else {
      NoneBefore(s, end, further, p);
      FirstIs(s, k, further, p, First(s, end, further, p));
    }
  }

  // ------------------------------------------------------------------ reading a stretch

  /** From the first element that `key` holds of up to the next that is `fresh`. */
  ghost function ReadFrom<T>(s: seq<T>, k: nat, end: nat, key: iset<T>, afresh: iset<T>): Option<seq<T>>
    requires k <= end <= |s|
  {
    var i := First(s, k, end, key);
    if i == end then None else Some(s[i..First(s, i + 1, end, afresh)])
  }

  /** What replaces a stretch that nothing was before reads back alone. */
  lemma ReadAtGap<T>(s: seq<T>, i: nat, j: nat, x: T, k: nat, end: nat, key: iset<T>, afresh: iset<T>)
    requires k <= i <= j <= end <= |s| && i <= First(s, k, end, key) && x in key && (j < end ==> s[j] in afresh)
    ensures var out := Spliced(s, i, j, x);
            && First(out, k, end - (j - i) + 1, key) == i && First(out, i + 1, end - (j - i) + 1, afresh) == i + 1
            && ReadFrom(out, k, end - (j - i) + 1, key, afresh) == Some([x])
  {
    FirstAt(s, i, j, x, k, end, key);
    FirstIs(s, j, end, afresh, j);
    FirstAfter(s, i, j, x, j, end, afresh);
    assert Spliced(s, i, j, x)[i..i + 1] == [x];
  }

  /** ... and goes on with what was read on from the end of the stretch. */
  lemma ReadFromGap<T>(s: seq<T>, i: nat, j: nat, x: T, k: nat, end: nat, key: iset<T>, afresh: iset<T>)
    requires k <= i <= j <= end <= |s| && i <= First(s, k, end, key) && x in key
    ensures ReadFrom(Spliced(s, i, j, x), k, end - (j - i) + 1, key, afresh)
         == Some([x] + s[j..First(s, j, end, afresh)])
  {
    var p := First(s, j, end, afresh);
    FirstAt(s, i, j, x, k, end, key);
    FirstAfter(s, i, j, x, j, end, afresh);
    ReadIs(Spliced(s, i, j, x), k, end - (j - i) + 1, key, afresh, i, p - (j - i) + 1);
    SplicedOn(s, i, j, x, p);
  }

  lemma SplicedOn<T>(s: seq<T>, i: nat, j: nat, x: T, p: nat)
    requires i <= j <= p <= |s|
    ensures Spliced(s, i, j, x)[i..p - (j - i) + 1] == [x] + s[j..p]
  {
    var out, q := Spliced(s, i, j, x), p - (j - i) + 1;
    SplicedEnds(s, i, j, x);
    SplicedAfter(s, i, j, x, j, p);
    assert out[i..q] == [out[i]] + out[i + 1..q];
  }

  /** Reading further, what was read goes on if it was read to the end. */
  lemma ReadFurther<T>(s: seq<T>, k: nat, end: nat, further: nat, key: iset<T>, afresh: iset<T>)
    requires k <= end <= further <= |s| && First(s, k, end, key) < end
    ensures var f := First(s, k, end, key);
            var p := First(s, f + 1, end, afresh);
            var q := if p < end then p else First(s, p, further, afresh);
            ReadFrom(s, k, further, key, afresh) == Some(s[f..p] + s[p..q])
  {
    var f := First(s, k, end, key);
    var p := First(s, f + 1, end, afresh);
    var q := if p < end then p else First(s, p, further, afresh);
    FirstFurther(s, k, end, further, key);
    FirstFurther(s, f + 1, end, further, afresh);
    ReadIs(s, k, further, key, afresh, f, q);
    assert s[f..q] == s[f..p] + s[p..q];
  }

  /** What was read on beyond an element that is put there is read up to it. */
  lemma ReadUpTo<T>(s: seq<T>, i: nat, x: T, k: nat, end: nat, key: iset<T>, afresh: iset<T>)
    requires k <= i <= end <= |s| && First(s, k, i, key) < i && x in afresh
    ensures var f := First(s, k, i, key);
            ReadFrom(Spliced(s, i, i, x), k, end + 1, key, afresh) == Some(s[f..First(s, f + 1, i, afresh)])
  {
    var f := First(s, k, i, key);
    var p := First(s, f + 1, i, afresh);
    FirstFurther(s, k, i, end, key);
    FirstFurther(s, f + 1, i, end, afresh);
    FirstBefore(s, i, i, x, k, end, key);
    if p < i {
      FirstBefore(s, i, i, x, f + 1, end, afresh);
    } else {
      FirstAt(s, i, i, x, f + 1, end, afresh);
    }
    ReadIs(Spliced(s, i, i, x), k, end + 1, key, afresh, f, p);
    SplicedBefore(s, i, i, x, f, p);
  }

  /** What was read before the stretch reads as it did. */
  lemma ReadBeforeGap<T>(s: seq<T>, i: nat, j: nat, x: T, k: nat, end: nat, key: iset<T>, afresh: iset<T>)
    requires k <= i <= j <= end <= |s| && First(s, k, end, key) < i
    requires x in afresh && (i < end ==> s[i] in afresh)
    ensures ReadFrom(Spliced(s, i, j, x), k, end - (j - i) + 1, key, afresh) == ReadFrom(s, k, end, key, afresh)
  {
    var f := First(s, k, end, key);
    var p := First(s, f + 1, end, afresh);
    NoneBefore(s, f + 1, end, afresh);
    assert p <= i;
    FirstBefore(s, i, j, x, k, end, key);
    if p < i {
      FirstBefore(s, i, j, x, f + 1, end, afresh);
    } else {
      FirstAt(s, i, j, x, f + 1, end, afresh);
    }
    SplicedBefore(s, i, j, x, f, p);
    ReadIs(Spliced(s, i, j, x), k, end - (j - i) + 1, key, afresh, f, p);
  }

  lemma ReadIs<T>(s: seq<T>, k: nat, end: nat, key: iset<T>, afresh: iset<T>, f: nat, p: nat)
    requires k <= f < p <= end <= |s| && First(s, k, end, key) == f && First(s, f + 1, end, afresh) == p
    ensures ReadFrom(s, k, end, key, afresh) == Some(s[f..p])
  {
  }

  /** What was read after the stretch, or was nowhere, reads as it did. */
  lemma ReadAfterGap<T>(s: seq<T>, i: nat, j: nat, x: T, k: nat, end: nat, key: iset<T>, afresh: iset<T>)
    requires k <= i <= j <= end <= |s| && j <= First(s, k, end, key) && x !in key
    ensures ReadFrom(Spliced(s, i, j, x), k, end - (j - i) + 1, key, afresh) == ReadFrom(s, k, end, key, afresh)
  {
    var f := First(s, k, end, key);
    FirstBeyond(s, i, j, x, k, end, key);
    if f < end {
      ReadLater(s, i, j, x, k, end, key, afresh, f);
    }
  }

  lemma ReadLater<T>(s: seq<T>, i: nat, j: nat, x: T, k: nat, end: nat, key: iset<T>, afresh: iset<T>, f: nat)
    requires k <= i <= j <= f < end <= |s| && First(s, k, end, key) == f
    requires First(Spliced(s, i, j, x), k, end - (j - i) + 1, key) == f - (j - i) + 1
    ensures ReadFrom(Spliced(s, i, j, x), k, end - (j - i) + 1, key, afresh) == ReadFrom(s, k, end, key, afresh)
  {
    var p := First(s, f + 1, end, afresh);
    FirstAfter(s, i, j, x, f + 1, end, afresh);
    ReadIs(s, k, end, key, afresh, f, p);
    ReadIs(Spliced(s, i, j, x), k, end - (j - i) + 1, key, afresh, f - (j - i) + 1, p - (j - i) + 1);
    SplicedAfter(s, i, j, x, f, p);
  }

  /** Reading anything the stretch was no part of, and what replaced it is not. */
  lemma StretchKeepsReading<T>(s: seq<T>, i: nat, j: nat, x: T, k: nat, end: nat, key: iset<T>, afresh: iset<T>)
    requires k <= i <= j <= end <= |s| && (First(s, k, end, key) < i || j <= First(s, k, end, key))
    requires x !in key && x in afresh && (i < end ==> s[i] in afresh)
    ensures ReadFrom(Spliced(s, i, j, x), k, end - (j - i) + 1, key, afresh) == ReadFrom(s, k, end, key, afresh)
  {
    if First(s, k, end, key) < i {
      ReadBeforeGap(s, i, j, x, k, end, key, afresh);
    } else {
      ReadAfterGap(s, i, j, x, k, end, key, afresh);
    }
  }
}
