/**
 * The pieces of Go's `strings` and `unicode` packages that the program relies on:
 * `unicode.IsSpace`, `strings.TrimSpace` and `strings.Split(s, "")`.
 * A Go string is modelled as its sequence of runes.
 */
module Text {

  /** Go's `unicode.IsSpace`: the Latin-1 spaces plus the other Unicode White_Space runes. */
  predicate IsSpace(c: char)
  {
    || c == '\t' || c == '\n' || c == '\U{000B}' || c == '\U{000C}' || c == '\r' || c == ' '
    || c == '\U{0085}' || c == '\U{00A0}' || c == '\U{1680}'
    || ('\U{2000}' <= c <= '\U{200A}')
    || c == '\U{2028}' || c == '\U{2029}' || c == '\U{202F}' || c == '\U{205F}' || c == '\U{3000}'
  }

  /** Every rune of `s` is a space (true of the empty string). */
  predicate AllSpace(s: string)
  {
    forall i :: 0 <= i < |s| ==> IsSpace(s[i])
  }

  /** The runes of `s` that are not spaces, in their original order. */
  function NonBlank(s: string): (r: string)
    ensures |r| <= |s|
    ensures forall i :: 0 <= i < |r| ==> !IsSpace(r[i])
  {
    if s == [] then []
    else if IsSpace(s[0]) then NonBlank(s[1..])
    else [s[0]] + NonBlank(s[1..])
  }

  lemma {:induction false} NonBlankAppend(a: string, b: string)
    ensures NonBlank(a + b) == NonBlank(a) + NonBlank(b)
  {
    if a == [] {
      assert a + b == b;
    } else {
      assert (a + b)[1..] == a[1..] + b;
      NonBlankAppend(a[1..], b);
    }
  }

  /** A string of spaces has no non-blank runes, and only such a string. */
  lemma {:induction false} NonBlankEmpty(s: string)
    ensures NonBlank(s) == [] <==> AllSpace(s)
  {
    if s != [] {
      NonBlankEmpty(s[1..]);
      if NonBlank(s) == [] {
        assert IsSpace(s[0]);
        forall i | 0 <= i < |s| ensures IsSpace(s[i]) {
          if i > 0 { assert s[i] == s[1..][i - 1]; }
        }
      }
      if AllSpace(s) {
        assert AllSpace(s[1..]) by {
          forall i | 0 <= i < |s| - 1 ensures IsSpace(s[1..][i]) { assert s[1..][i] == s[i + 1]; }
        }
      }
    }
  }

  /** `strings.TrimLeftFunc(s, unicode.IsSpace)`: drops the leading spaces. */
  function TrimLeft(s: string): (r: string)
    ensures |r| <= |s|
    ensures r != [] ==> r[|r| - 1] == s[|s| - 1]
    ensures AllSpace(s[..|s| - |r|])
    ensures r == [] || !IsSpace(r[0])
    ensures NonBlank(r) == NonBlank(s)
  {
    if s != [] && IsSpace(s[0]) then
      var t := TrimLeft(s[1..]);
      assert AllSpace(s[..|s| - |t|]) by {
        forall i | 0 <= i < |s| - |t| ensures IsSpace(s[i]) {
          if i > 0 { assert s[i] == s[1..][..|s| - 1 - |t|][i - 1]; }
        }
      }
      t
    else s
  }

  /** `strings.TrimRightFunc(s, unicode.IsSpace)`: drops the trailing spaces. */
  function TrimRight(s: string): (r: string)
    ensures |r| <= |s|
    ensures r != [] ==> r[0] == s[0]
    ensures AllSpace(s[|r|..])
    ensures r == [] || !IsSpace(r[|r| - 1])
    ensures NonBlank(r) == NonBlank(s)
  {
    if s != [] && IsSpace(s[|s| - 1]) then
      var init := s[..|s| - 1];
      var t := TrimRight(init);
      assert s == init + [s[|s| - 1]];
      NonBlankAppend(init, [s[|s| - 1]]);
      assert s[..|t|] == init[..|t|];
      assert AllSpace(s[|t|..]) by {
        forall i | |t| <= i < |s| ensures IsSpace(s[i]) {
          if i < |s| - 1 { assert s[i] == init[|t|..][i - |t|]; }
        }
      }
      t
    else s
  }

  /**
   * `strings.TrimSpace`: the string without its leading and trailing spaces.
   * Trimming keeps every non-blank rune, and gives the empty string exactly
   * when the input holds nothing but spaces.
   */
  function TrimSpace(s: string): (r: string)
    ensures |r| <= |s|
    ensures r == [] || (!IsSpace(r[0]) && !IsSpace(r[|r| - 1]))
    ensures NonBlank(r) == NonBlank(s)
    ensures r == [] <==> AllSpace(s)
  {
    var r := TrimRight(TrimLeft(s));
    NonBlankEmpty(s);
    NonBlankEmpty(r);
    r
  }

  /** What `TrimLeft` keeps is a suffix of its input. */
  lemma {:induction false} TrimLeftIsSuffix(s: string)
    ensures TrimLeft(s) == s[|s| - |TrimLeft(s)|..]
  {
    if s != [] && IsSpace(s[0]) {
      TrimLeftIsSuffix(s[1..]);
    }
  }

  /** What `TrimRight` keeps is a prefix of its input. */
  lemma {:induction false} TrimRightIsPrefix(s: string)
    ensures TrimRight(s) == s[..|TrimRight(s)|]
  {
    if s != [] && IsSpace(s[|s| - 1]) {
      TrimRightIsPrefix(s[..|s| - 1]);
    }
  }

  /**
   * What `TrimSpace` keeps is one contiguous run of its input, with only
   * spaces before it and only spaces after it: inner spaces stay.
   */
  lemma TrimSpaceIsInfix(s: string)
    ensures exists i :: (0 <= i <= |s| - |TrimSpace(s)|
                          && TrimSpace(s) == s[i..i + |TrimSpace(s)|]
                          && AllSpace(s[..i]) && AllSpace(s[i + |TrimSpace(s)|..]))
  {
    var left := TrimLeft(s);
    var r := TrimRight(left);
    var lo := |s| - |left|;
    TrimLeftIsSuffix(s);
    TrimRightIsPrefix(left);
    assert left == s[lo..];
    assert r == s[lo..lo + |r|];
    assert left[|r|..] == s[lo + |r|..];
    assert AllSpace(s[..lo]) && AllSpace(s[lo + |r|..]);
  }

  /** Trimming a one-rune string gives the empty string for a space and the rune itself otherwise. */
  lemma TrimSpaceRune(c: char)
    ensures TrimSpace([c]) == if IsSpace(c) then [] else [c]
  {
    if !IsSpace(c) {
      assert [c][0] == c;
      assert !AllSpace([c]);
      var r := TrimSpace([c]);
      assert |r| == 1;
      assert NonBlank(r) == [r[0]];
    }
  }

  /** `strings.Split(s, "")`: one single-rune string per rune of `s`, in order. */
  function Explode(s: string): (r: seq<string>)
    ensures |r| == |s|
    ensures forall i :: 0 <= i < |s| ==> r[i] == [s[i]]
  {
    seq(|s|, i requires 0 <= i < |s| => [s[i]])
  }

  lemma {:induction false} ExplodeAppend(a: string, b: string)
    ensures Explode(a + b) == Explode(a) + Explode(b)
  {
    assert |Explode(a + b)| == |Explode(a) + Explode(b)|;
    forall i | 0 <= i < |a + b| ensures Explode(a + b)[i] == (Explode(a) + Explode(b))[i] {
      if i < |a| { assert (a + b)[i] == a[i]; } else { assert (a + b)[i] == b[i - |a|]; }
    }
  }

  lemma ExplodeRune(c: char)
    ensures Explode([c]) == [[c]]
  {
    assert Explode([c])[0] == [c];
  }
}
