/** `String.prototype.trim`, as the search handler applies it to the typed ID. */
module JsText {

  /** The characters ECMAScript counts as WhiteSpace or LineTerminator, which `trim` removes. */
  const WhiteSpace: set<char> := {
    '\t', '\n', '\U{B}', '\U{C}', '\r', ' ', '\U{A0}', '\U{1680}',
    '\U{2000}', '\U{2001}', '\U{2002}', '\U{2003}', '\U{2004}', '\U{2005}',
    '\U{2006}', '\U{2007}', '\U{2008}', '\U{2009}', '\U{200A}',
    '\U{2028}', '\U{2029}', '\U{202F}', '\U{205F}', '\U{3000}', '\U{FEFF}'
  }

  /** Drops the leading characters that belong to `ws`. */
  function TrimStart(s: string, ws: set<char>): string
  {
    if s != [] && s[0] in ws then TrimStart(s[1..], ws) else s
  }

  /** Drops the trailing characters that belong to `ws`. */
  function TrimEnd(s: string, ws: set<char>): string
  {
    if s != [] && s[|s| - 1] in ws then TrimEnd(s[..|s| - 1], ws) else s
  }

  /** `s.trim()`. */
  function Trim(s: string): string
  {
    TrimEnd(TrimStart(s, WhiteSpace), WhiteSpace)
  }

  /** TrimStart leaves the suffix after the longest prefix drawn from `ws`. */
  lemma {:induction false} TrimStartSpec(s: string, ws: set<char>)
    ensures |TrimStart(s, ws)| <= |s| && TrimStart(s, ws) == s[|s| - |TrimStart(s, ws)|..]
    ensures TrimStart(s, ws) == [] || TrimStart(s, ws)[0] !in ws
    ensures forall i :: 0 <= i < |s| - |TrimStart(s, ws)| ==> s[i] in ws
  {
    if s != [] && s[0] in ws {
      TrimStartSpec(s[1..], ws);
      var r := TrimStart(s, ws);
      assert r == TrimStart(s[1..], ws);
      forall i | 0 <= i < |s| - |r| ensures s[i] in ws {
        if i > 0 {
          assert s[i] == s[1..][i - 1];
        }
      }
    }
  }

  /** TrimEnd leaves the prefix before the longest suffix drawn from `ws`. */
  lemma {:induction false} TrimEndSpec(s: string, ws: set<char>)
    ensures |TrimEnd(s, ws)| <= |s| && TrimEnd(s, ws) == s[..|TrimEnd(s, ws)|]
    ensures TrimEnd(s, ws) == [] || TrimEnd(s, ws)[|TrimEnd(s, ws)| - 1] !in ws
    ensures forall i :: |TrimEnd(s, ws)| <= i < |s| ==> s[i] in ws
  {
    if s != [] && s[|s| - 1] in ws {
      var t := s[..|s| - 1];
      TrimEndSpec(t, ws);
      var r := TrimEnd(s, ws);
      assert r == TrimEnd(t, ws);
      assert r == s[..|r|];
      forall i | |r| <= i < |s| ensures s[i] in ws {
        if i < |s| - 1 {
          assert s[i] == t[i];
        }
      }
    }
  }

  /** Trimming both ends leaves the slice between the two runs of `ws` characters. */
  lemma TrimBothSlice(s: string, ws: set<char>) returns (a: nat, b: nat)
    ensures a <= b <= |s| && TrimEnd(TrimStart(s, ws), ws) == s[a..b]
    ensures forall i :: 0 <= i < a ==> s[i] in ws
    ensures forall i :: b <= i < |s| ==> s[i] in ws
    ensures a < b ==> s[a] !in ws && s[b - 1] !in ws
  {
    var t := TrimStart(s, ws);
    TrimStartSpec(s, ws);
    a := |s| - |t|;
    b := TrimEndInside(s, a, ws);
  }

  /** Trimming the end of the suffix `s[a..]` leaves a slice `s[a..b]` followed only by `ws` characters. */
  lemma TrimEndInside(s: string, a: nat, ws: set<char>) returns (b: nat)
    requires a <= |s|
    ensures a <= b <= |s| && TrimEnd(s[a..], ws) == s[a..b]
    ensures forall i :: b <= i < |s| ==> s[i] in ws
    ensures a < b ==> s[b - 1] !in ws
  {
    var t := s[a..];
    var r := TrimEnd(t, ws);
    TrimEndSpec(t, ws);
    b := a + |r|;
    assert r == s[a..b] by {
      assert t[..|r|] == s[a..b];
    }
    forall i | b <= i < |s| ensures s[i] in ws {
      assert s[i] == t[i - a];
    }
  }

  /**
   * The trimmed text is the slice of `s` left after removing white space
   * from both ends, and neither end of it is white space.
   */
  lemma TrimIsSlice(s: string) returns (a: nat, b: nat)
    ensures a <= b <= |s| && Trim(s) == s[a..b]
    ensures forall i :: 0 <= i < a ==> s[i] in WhiteSpace
    ensures forall i :: b <= i < |s| ==> s[i] in WhiteSpace
    ensures a < b ==> s[a] !in WhiteSpace && s[b - 1] !in WhiteSpace
  {
    a, b := TrimBothSlice(s, WhiteSpace);
  }

  /** The ID check fails exactly when the typed text is empty or all white space. */
  lemma TrimEmptyIff(s: string)
    ensures Trim(s) == [] <==> forall i :: 0 <= i < |s| ==> s[i] in WhiteSpace
  {
    var a, b := TrimBothSlice(s, WhiteSpace);
  }

  /** Text with no white space at either end is left as it is. */
  lemma TrimUnpadded(s: string)
    requires s == [] || (s[0] !in WhiteSpace && s[|s| - 1] !in WhiteSpace)
    ensures Trim(s) == s
  {
    assert TrimStart(s, WhiteSpace) == s;
    assert TrimEnd(s, WhiteSpace) == s;
  }

  /** One space on either side of text that has no white space at its ends is removed. */
  lemma TrimPadded(s: string)
    requires s != [] && s[0] !in WhiteSpace && s[|s| - 1] !in WhiteSpace
    ensures Trim(" " + s + " ") == s
  {
    var p := " " + s + " ";
    assert p[0] == ' ' && p[1..] == s + " ";
    assert TrimStart(p, WhiteSpace) == s + " ";
    assert (s + " ")[..|s|] == s;
    assert TrimEnd(s + " ", WhiteSpace) == TrimEnd(s, WhiteSpace);
    TrimUnpadded(s);
  }

  /** Trimming twice changes nothing more. */
  lemma TrimIdempotent(s: string)
    ensures Trim(Trim(s)) == Trim(s)
  {
    var a, b := TrimBothSlice(s, WhiteSpace);
    TrimUnpadded(Trim(s));
  }
}
