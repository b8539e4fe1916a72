/**
 * The part of JavaScript's string semantics the upload handler relies on:
 * String.prototype.trim (section 22.1.3.30 of ECMA-262, 2022 edition), which
 * removes leading and trailing white space and line terminators.
 */
module JsString {

  /** WhiteSpace (section 12.2) and LineTerminator (section 12.3) code points:
      TAB, VT, FF, SP, NBSP, ZWNBSP, the other "Zs" space separators,
      LF, CR, LS and PS. */
  predicate IsWhiteSpace(c: char) {
    var n := c as int;
    || n == 0x09 || n == 0x0B || n == 0x0C || n == 0x20 || n == 0xA0 || n == 0xFEFF
    || n == 0x1680 || (0x2000 <= n <= 0x200A) || n == 0x202F || n == 0x205F || n == 0x3000
    || n == 0x0A || n == 0x0D || n == 0x2028 || n == 0x2029
  }

  /** Every character of s from index lo up to, not including, hi is white space. */
  predicate BlankBetween(s: string, lo: int, hi: int)
    requires 0 <= lo <= hi <= |s|
  {
    forall i :: lo <= i < hi ==> IsWhiteSpace(s[i])
  }

  predicate AllWhiteSpace(s: string) {
    BlankBetween(s, 0, |s|)
  }

  /** A string trim leaves alone: it neither starts nor ends with white space. */
  predicate Trimmed(s: string) {
    s == [] || (!IsWhiteSpace(s[0]) && !IsWhiteSpace(s[|s| - 1]))
  }

  /** Drops the leading white space: the result is a suffix of s, what was
      dropped is all white space, and the result does not start with any. */
  function TrimStart(s: string): (r: string)
    ensures |r| <= |s| && r == s[|s| - |r|..]
    ensures BlankBetween(s, 0, |s| - |r|)
    ensures r == [] || !IsWhiteSpace(r[0])
  {
    if |s| > 0 && IsWhiteSpace(s[0]) then
      var r := TrimStart(s[1..]);
      assert BlankBetween(s, 0, |s| - |r|) by {
        forall i | 1 <= i < |s| - |r| ensures IsWhiteSpace(s[i]) {
          assert s[i] == s[1..][i - 1];
        }
      }
      r
    else s
  }

  /** Drops the trailing white space: the result is a prefix of s, what was
      dropped is all white space, and the result does not end with any. */
  function TrimEnd(s: string): (r: string)
    ensures |r| <= |s| && r == s[..|r|]
    ensures BlankBetween(s, |r|, |s|)
    ensures r == [] || !IsWhiteSpace(r[|r| - 1])
  {
    if |s| > 0 && IsWhiteSpace(s[|s| - 1]) then
      var r := TrimEnd(s[..|s| - 1]);
      assert BlankBetween(s, |r|, |s|) by {
        forall i | |r| <= i < |s| - 1 ensures IsWhiteSpace(s[i]) {
          assert s[i] == s[..|s| - 1][i];
        }
      }
      r
    else s
  }

  /** String.prototype.trim: drops the leading white space, then the
      trailing white space. The result carries no padding of its own. */
  function Trim(s: string): (r: string)
    ensures Trimmed(r)
  {
    if |s| > 0 && IsWhiteSpace(s[0]) then Trim(s[1..])
    else
      var r := TrimEnd(s);
      assert r != [] ==> r[0] == s[0];
      r
  }

  /** Trim is TrimString(s, start+end) of section 22.1.3.30.1: the trailing
      trim of the leading trim. */
  lemma {:induction false} TrimIsBothEnds(s: string)
    ensures Trim(s) == TrimEnd(TrimStart(s))
  {
    if |s| > 0 && IsWhiteSpace(s[0]) {
      TrimIsBothEnds(s[1..]);
    }
  }

  /** s is t with nothing but white space on either side. */
  ghost predicate PaddedBy(s: string, t: string) {
    exists a :: 0 <= a <= |s| - |t| && Padding(s, t, a)
  }

  /** t stands at index a of s, with only white space before and after it. */
  ghost predicate Padding(s: string, t: string, a: int)
    requires 0 <= a <= |s| - |t|
  {
    s[a..a + |t|] == t && BlankBetween(s, 0, a) && BlankBetween(s, a + |t|, |s|)
  }

  /** What trim removes is white space on either side of its result. */
  lemma TrimPadding(s: string)
    ensures PaddedBy(s, Trim(s))
  {
    TrimIsBothEnds(s);
    BothEndsPadding(s);
  }

  /** The same, for the two trims one after the other. */
  lemma BothEndsPadding(s: string)
    ensures PaddedBy(s, TrimEnd(TrimStart(s)))
  {
    var t := TrimStart(s);
    PaddingOfParts(s, t, TrimEnd(t));
  }

  /** A suffix t of s after white space, and a prefix r of t before white
      space: r stands in s with only white space around it. */
  lemma PaddingOfParts(s: string, t: string, r: string)
    requires |t| <= |s| && t == s[|s| - |t|..] && BlankBetween(s, 0, |s| - |t|)
    requires |r| <= |t| && r == t[..|r|] && BlankBetween(t, |r|, |t|)
    ensures PaddedBy(s, r)
  {
    var a := |s| - |t|;
    assert s[a..a + |r|] == r by {
      assert s[a..a + |r|] == t[..|r|];
    }
    assert BlankBetween(s, a + |r|, |s|) by {
      forall i | a + |r| <= i < |s| ensures IsWhiteSpace(s[i]) {
        assert s[i] == t[i - a];
      }
    }
    assert Padding(s, r, a);
  }

  /** Where the first non-blank character stands is where TrimStart begins. */
  lemma {:induction false} TrimStartAt(s: string, a: nat)
    requires a <= |s| && BlankBetween(s, 0, a) && (a == |s| || !IsWhiteSpace(s[a]))
    ensures TrimStart(s) == s[a..]
  {
    if a > 0 {
      assert IsWhiteSpace(s[0]);
      assert BlankBetween(s[1..], 0, a - 1) by {
        forall i | 0 <= i < a - 1 ensures IsWhiteSpace(s[1..][i]) {
          assert s[1..][i] == s[i + 1];
        }
      }
      assert a < |s| ==> s[1..][a - 1] == s[a];
      assert s[1..][a - 1..] == s[a..];
      TrimStartAt(s[1..], a - 1);
    }
  }

  /** Just after the last non-blank character is where TrimEnd stops. */
  lemma {:induction false} TrimEndAt(s: string, b: nat)
    requires b <= |s| && BlankBetween(s, b, |s|) && (b == 0 || !IsWhiteSpace(s[b - 1]))
    ensures TrimEnd(s) == s[..b]
    decreases |s| - b
  {
    if b < |s| {
      assert IsWhiteSpace(s[|s| - 1]);
      var s' := s[..|s| - 1];
      assert BlankBetween(s', b, |s'|) by {
        forall i | b <= i < |s'| ensures IsWhiteSpace(s'[i]) {
          assert s'[i] == s[i];
        }
      }
      assert b > 0 ==> s'[b - 1] == s[b - 1];
      assert s'[..b] == s[..b];
      TrimEndAt(s', b);
    }
  }

  /** A string of white space only trims to nothing. */
  lemma BlankTrimsEmpty(s: string, a: int)
    requires 0 <= a <= |s| && BlankBetween(s, 0, a) && BlankBetween(s, a, |s|)
    ensures TrimEnd(TrimStart(s)) == []
  {
    TrimStartAt(s, |s|);
  }

  /** A non-empty trimmed core with white space around it is what the two
      trims leave. */
  lemma CoreIsBothEnds(s: string, t: string, a: int)
    requires t != [] && Trimmed(t) && 0 <= a <= |s| - |t| && Padding(s, t, a)
    ensures TrimEnd(TrimStart(s)) == t
  {
    CoreSlices(s, t, a);
    TrimStartAt(s, a);
    TrimEndAt(s[a..], |t|);
  }

  /** Seen from index a, the core t is a prefix with only white space after it. */
  lemma CoreSlices(s: string, t: string, a: int)
    requires t != [] && Trimmed(t) && 0 <= a <= |s| - |t| && Padding(s, t, a)
    ensures !IsWhiteSpace(s[a])
    ensures var u := s[a..];
      && !IsWhiteSpace(u[|t| - 1]) && BlankBetween(u, |t|, |u|) && u[..|t|] == t
  {
    assert s[a] == t[0];
    var u := s[a..];
    assert u[|t| - 1] == t[|t| - 1];
    assert BlankBetween(u, |t|, |u|) by {
      forall i | |t| <= i < |u| ensures IsWhiteSpace(u[i]) {
        assert u[i] == s[a + i];
      }
    }
    assert u[..|t|] == t;
  }

  /** The padding decomposition of a string is unique: whatever trimmed core
      is surrounded only by white space is exactly what Trim returns. */
  lemma TrimUnique(s: string, t: string)
    requires Trimmed(t) && PaddedBy(s, t)
    ensures Trim(s) == t
  {
    TrimIsBothEnds(s);
    var a :| 0 <= a <= |s| - |t| && Padding(s, t, a);
    if t == [] {
      BlankTrimsEmpty(s, a);
    } else {
      CoreIsBothEnds(s, t, a);
    }
  }

  /** Trimming a string that has no padding returns it unchanged, and only then. */
  lemma TrimFixpoint(s: string)
    ensures Trim(s) == s <==> Trimmed(s)
  {
    if Trimmed(s) {
      assert s[0..|s|] == s;
      assert Padding(s, s, 0);
      TrimUnique(s, s);
    }
  }

  /** Trimming twice is the same as trimming once. */
  lemma TrimIdempotent(s: string)
    ensures Trim(Trim(s)) == Trim(s)
  {
    TrimFixpoint(Trim(s));
  }

  /** Adding white space around a string does not change what trim returns. */
  lemma TrimIgnoresPadding(p: string, s: string, q: string)
    requires AllWhiteSpace(p) && AllWhiteSpace(q)
    ensures Trim(p + s + q) == Trim(s)
  {
    var t := Trim(s);
    TrimPadding(s);
    var a :| 0 <= a <= |s| - |t| && Padding(s, t, a);
    var x := p + s + q;
    var a' := |p| + a;
    assert x[a'..a' + |t|] == t by {
      assert x[a'..a' + |t|] == s[a..a + |t|];
    }
    assert BlankBetween(x, 0, a') by {
      forall i | 0 <= i < a' ensures IsWhiteSpace(x[i]) {
        if i < |p| { assert x[i] == p[i]; } else { assert x[i] == s[i - |p|]; }
      }
    }
    assert BlankBetween(x, a' + |t|, |x|) by {
      forall i | a' + |t| <= i < |x| ensures IsWhiteSpace(x[i]) {
        if i < |p| + |s| { assert x[i] == s[i - |p|]; } else { assert x[i] == q[i - |p| - |s|]; }
      }
    }
    assert Padding(x, t, a');
    TrimUnique(x, t);
  }
}
