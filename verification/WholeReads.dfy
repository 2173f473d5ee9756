/**
 Reading what a list holds of a kind with the blank elements in it, but for those at the end, when the reading may
 go on beyond what an edit of the list saw.
 */
module WholeReads {
  import opened Scans
  import opened Wrappers

  ghost function Trimmed<T>(s: seq<T>, blank: iset<T>): seq<T> {
    if s != [] && s[|s| - 1] in blank then Trimmed(s[..|s| - 1], blank) else s
  }

  /** What is read from the first element of the kind, without the blank ones at its end. */
  ghost function ReadWhole<T>(s: seq<T>, k: nat, e: nat, key: iset<T>, anew: iset<T>, blank: iset<T>): Option<seq<T>>
    requires k <= e <= |s|
  {
    match ReadFrom(s, k, e, key, anew)
    case None => None
    case Some(value) => Some(Trimmed(value, blank))
  }

  /** From here to the next element that starts anew there are blank ones only. */
  ghost predicate BlankOn<T(!new)>(s: seq<T>, from: nat, e: nat, anew: iset<T>, blank: iset<T>)
    requires from <= e <= |s|
  {
    forall x :: x in s[from..First(s, from, e, anew)] ==> x in blank
  }

  lemma {:induction false} TrimmedKeeps<T>(s: seq<T>, blank: iset<T>, m: nat)
    requires m < |s| && s[m] !in blank
    ensures m < |Trimmed(s, blank)|
    decreases |s|
  {
    if s[|s| - 1] in blank {
      TrimmedKeeps(s[..|s| - 1], blank, m);
    }
  }

  lemma {:induction false} TrimmedTail<T(!new)>(a: seq<T>, b: seq<T>, blank: iset<T>)
    requires a != [] && a[|a| - 1] !in blank && forall x :: x in b ==> x in blank
    ensures Trimmed(a + b, blank) == a
    decreases |b|
  {
    if b == [] {
      assert a + b == a;
    } else {
      assert (a + b)[..|a + b| - 1] == a + b[..|b| - 1];
      TrimmedTail(a, b[..|b| - 1], blank);
    }
  }

  /** What follows goes when it is blank, and shows when it is not. */
  lemma TrimmedIff<T(!new)>(a: seq<T>, b: seq<T>, blank: iset<T>)
    requires a != [] && a[|a| - 1] !in blank
    ensures Trimmed(a + b, blank) == a <==> forall x :: x in b ==> x in blank
  {
    if forall x :: x in b ==> x in blank {
      TrimmedTail(a, b, blank);
    } else {
      var m :| 0 <= m < |b| && b[m] !in blank;
      assert (a + b)[|a| + m] == b[m];
      TrimmedKeeps(a + b, blank, |a| + m);
    }
  }

  /** What replaces a stretch is read alone exactly when only blank elements follow it. */
  lemma SetAloneIff<T(!new)>(s: seq<T>, i: nat, j: nat, x: T, k: nat, e: nat, key: iset<T>, anew: iset<T>,
                             blank: iset<T>)
    requires k <= i <= j <= e <= |s| && i <= First(s, k, e, key) && x in key && x !in blank
    ensures ReadWhole(Spliced(s, i, j, x), k, e - (j - i) + 1, key, anew, blank) == Some([x])
       <==> BlankOn(s, j, e, anew, blank)
  {
    ReadFromGap(s, i, j, x, k, e, key, anew);
    TrimmedIff([x], s[j..First(s, j, e, anew)], blank);
  }

  /** What is read before `end` is all there is exactly when it ends before, or only blank elements follow. */
  lemma SeenIsAllIff<T(!new)>(s: seq<T>, k: nat, end: nat, e: nat, key: iset<T>, anew: iset<T>, blank: iset<T>)
    requires k <= end <= e <= |s| && First(s, k, end, key) < end && forall m :: k <= m < end ==> s[m] !in blank
    ensures var f := First(s, k, end, key);
            var p := First(s, f + 1, end, anew);
            ReadWhole(s, k, e, key, anew, blank) == Some(s[f..p]) <==> p < end || BlankOn(s, end, e, anew, blank)
  {
    var f := First(s, k, end, key);
    var p := First(s, f + 1, end, anew);
    var more := s[p..if p < end then p else First(s, p, e, anew)];
    ReadFurther(s, k, end, e, key, anew);
    assert s[f..p][p - f - 1] == s[p - 1];
    TrimmedIff(s[f..p], more, blank);
  }

  /** Once an element is put at `end`, what is read before it is all there is. */
  lemma SeenIsLeft<T(!new)>(s: seq<T>, k: nat, end: nat, e: nat, x: T, key: iset<T>, anew: iset<T>, blank: iset<T>)
    requires k <= end <= e <= |s| && First(s, k, end, key) < end && x in anew
    requires forall m :: k <= m < end ==> s[m] !in blank
    ensures var f := First(s, k, end, key);
            ReadWhole(Spliced(s, end, end, x), k, e + 1, key, anew, blank) == Some(s[f..First(s, f + 1, end, anew)])
  {
    var f := First(s, k, end, key);
    var p := First(s, f + 1, end, anew);
    ReadUpTo(s, end, x, k, e, key, anew);
    assert s[f..p][p - f - 1] == s[p - 1];
  }

  /** The first element of the kind stands after the stretch, or before it and what is read with it. */
  ghost predicate Aside<T(!new)>(s: seq<T>, i: nat, j: nat, x: T, k: nat, e: nat, key: iset<T>, anew: iset<T>) {
    && k <= i <= j <= e <= |s| && x !in key && x in anew
    && (j <= First(s, k, e, key) || (First(s, k, e, key) < i && i < e && s[i] in anew))
  }

  lemma AsideStays<T(!new)>(s: seq<T>, i: nat, j: nat, x: T, k: nat, e: nat, key: iset<T>, anew: iset<T>,
                            blank: iset<T>)
    requires Aside(s, i, j, x, k, e, key, anew)
    ensures ReadWhole(Spliced(s, i, j, x), k, e - (j - i) + 1, key, anew, blank) == ReadWhole(s, k, e, key, anew, blank)
  {
    if j <= First(s, k, e, key) {
      ReadAfterGap(s, i, j, x, k, e, key, anew);
    } else {
      ReadBeforeGap(s, i, j, x, k, e, key, anew);
    }
  }
}
