/** Stripping white space, as Python does at both ends of a text. */
module Texts {

  predicate IsSpace(c: char) {
    || '\t' <= c <= '\r' || '\U{1c}' <= c <= ' ' || '\U{2000}' <= c <= '\U{200a}'
    || c in {'\U{85}', '\U{a0}', '\U{1680}', '\U{2028}', '\U{2029}', '\U{202f}', '\U{205f}', '\U{3000}'}
  }

  const WHITE := {'\t', '\n', '\U{b}', '\U{c}', '\r', '\U{1c}', '\U{1d}', '\U{1e}', '\U{1f}', ' ', '\U{85}', '\U{a0}',
                  '\U{1680}', '\U{2000}', '\U{2001}', '\U{2002}', '\U{2003}', '\U{2004}', '\U{2005}', '\U{2006}',
                  '\U{2007}', '\U{2008}', '\U{2009}', '\U{200a}', '\U{2028}', '\U{2029}', '\U{202f}', '\U{205f}',
                  '\U{3000}'}

  /** The white space of Unicode, character by character. */
  lemma WhiteSpaceIs(c: char)
    ensures IsSpace(c) <==> c in WHITE
  {
  }

  function StripLeft(s: string): string {
    if s != "" && IsSpace(s[0]) then StripLeft(s[1..]) else s
  }

  function StripRight(s: string): string {
    if s != "" && IsSpace(s[|s| - 1]) then StripRight(s[..|s| - 1]) else s
  }

  function Strip(s: string): string {
    StripRight(StripLeft(s))
  }

  /** Neither end is white space. */
  predicate Plain(s: string) {
    s != "" && !IsSpace(s[0]) && !IsSpace(s[|s| - 1])
  }

  predicate Spaces(s: string) {
    forall i :: 0 <= i < |s| ==> IsSpace(s[i])
  }

  lemma {:induction false} LeftIsDropped(s: string) returns (a: string)
    ensures s == a + StripLeft(s) && Spaces(a) && (StripLeft(s) == "" || !IsSpace(StripLeft(s)[0]))
  {
    if s != "" && IsSpace(s[0]) {
      var rest := LeftIsDropped(s[1..]);
      a := [s[0]] + rest;
      assert s == [s[0]] + (rest + StripLeft(s[1..]));
      forall i | 0 <= i < |a| ensures IsSpace(a[i]) {
        assert a[i] == if i == 0 then s[0] else rest[i - 1];
      }
    } else {
      a := "";
    }
  }

  lemma {:induction false} RightIsDropped(s: string) returns (b: string)
    ensures s == StripRight(s) + b && Spaces(b)
    ensures StripRight(s) == "" || (!IsSpace(StripRight(s)[|StripRight(s)| - 1]) && StripRight(s)[0] == s[0])
  {
    if s != "" && IsSpace(s[|s| - 1]) {
      var rest := RightIsDropped(s[..|s| - 1]);
      b := rest + [s[|s| - 1]];
      assert s == s[..|s| - 1] + [s[|s| - 1]];
      forall i | 0 <= i < |b| ensures IsSpace(b[i]) {
        assert b[i] == if i == |rest| then s[|s| - 1] else rest[i];
      }
    } else {
      b := "";
    }
  }

  /** Only white space is dropped, and none is left at either end. */
  lemma StripIs(s: string) returns (a: string, b: string)
    ensures s == a + Strip(s) + b && Spaces(a) && Spaces(b) && (Strip(s) == "" || Plain(Strip(s)))
  {
    a := LeftIsDropped(s);
    b := RightIsDropped(StripLeft(s));
    assert a + (Strip(s) + b) == a + Strip(s) + b;
  }

  /** Nothing is left exactly of white space. */
  lemma NothingLeftIff(s: string)
    ensures Strip(s) == "" <==> Spaces(s)
  {
    var a, _ := StripIs(s);
    if Strip(s) != "" {
      assert s[|a|] == Strip(s)[0];
    }
  }

  /** However it is padded, a text that is plain is what is left. */
  lemma {:induction false} PaddedStrips(a: string, s: string, b: string)
    requires Spaces(a) && Spaces(b) && Plain(s)
    ensures Strip(a + s + b) == s
    decreases |a| + |b|
  {
    var t := a + s + b;
    if a != "" {
      assert t[1..] == a[1..] + s + b;
      PaddedStrips(a[1..], s, b);
    } else if b != "" {
      assert t[..|t| - 1] == a + s + b[..|b| - 1];
      PaddedStrips(a, s, b[..|b| - 1]);
      assert StripLeft(t) == t && StripLeft(t[..|t| - 1]) == t[..|t| - 1];
    } else {
      assert t == s;
    }
  }

  lemma PlainStrips(s: string)
    requires Plain(s)
    ensures Strip(s) == s
  {
  }
}
