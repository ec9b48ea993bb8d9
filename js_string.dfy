/**
 * The two string built-ins the dataset wizard relies on: String.prototype.trim and
 * String.prototype.toLowerCase. Trim strips exactly the characters ECMAScript counts as
 * WhiteSpace or LineTerminator; lowering is ASCII only.
 */
module JsString {

  /** ECMAScript WhiteSpace and LineTerminator code points (what trim strips). */
  predicate IsWhitespace(c: char) {
    var n := c as int;
    n == 0x09 || n == 0x0A || n == 0x0B || n == 0x0C || n == 0x0D || n == 0x20
    || n == 0xA0 || n == 0x1680 || (0x2000 <= n <= 0x200A)
    || n == 0x2028 || n == 0x2029 || n == 0x202F || n == 0x205F || n == 0x3000 || n == 0xFEFF
  }

  predicate AllWhitespace(s: string) {
    forall i :: 0 <= i < |s| ==> IsWhitespace(s[i])
  }

  /** trimStart: `s` without its leading whitespace. */
  function TrimStart(s: string): (r: string)
    ensures |r| <= |s| && r == s[|s| - |r|..]
    ensures AllWhitespace(s[..|s| - |r|])
    ensures r == [] || !IsWhitespace(r[0])
  {
    if s != [] && IsWhitespace(s[0]) then TrimStart(s[1..]) else s
  }

  /** trimEnd: `s` without its trailing whitespace. */
  function TrimEnd(s: string): (r: string)
    ensures |r| <= |s| && r == s[..|r|]
    ensures AllWhitespace(s[|r|..])
    ensures r == [] || !IsWhitespace(r[|r| - 1])
  {
    if s != [] && IsWhitespace(s[|s| - 1]) then TrimEnd(s[..|s| - 1]) else s
  }

  /** String.prototype.trim. */
  function Trim(s: string): string {
    TrimEnd(TrimStart(s))
  }

  /** The ASCII part of toLowerCase: A-Z become a-z, every other character is kept. */
  function LowerChar(c: char): char {
    if 'A' <= c <= 'Z' then (c as int + 32) as char else c
  }

  function ToLower(s: string): (r: string)
    ensures |r| == |s|
  {
    seq(|s|, i requires 0 <= i < |s| => LowerChar(s[i]))
  }

  // ---------------------------------------------------------------------------------------------
  // Properties

  lemma {:induction false} TrimStartPadded(w: string, s: string)
    requires AllWhitespace(w)
    ensures TrimStart(w + s) == TrimStart(s)
  {
    if w != [] {
      assert (w + s)[1..] == w[1..] + s;
      TrimStartPadded(w[1..], s);
    } else {
      assert w + s == s;
    }
  }

  lemma {:induction false} TrimEndPadded(s: string, w: string)
    requires AllWhitespace(w)
    ensures TrimEnd(s + w) == TrimEnd(s)
  {
    if w != [] {
      var n := |w| - 1;
      assert (s + w)[..|s + w| - 1] == s + w[..n];
      TrimEndPadded(s, w[..n]);
    } else {
      assert s + w == s;
    }
  }

  /** trimEnd of a string with one more character in front. */
  lemma {:induction false} TrimEndCons(c: char, s: string)
    ensures TrimEnd([c] + s) == if TrimEnd(s) == [] && IsWhitespace(c) then [] else [c] + TrimEnd(s)
  {
    var t := [c] + s;
    if s != [] && IsWhitespace(s[|s| - 1]) {
      assert t[..|t| - 1] == [c] + s[..|s| - 1];
      TrimEndCons(c, s[..|s| - 1]);
    }
  }

  /** Stripping the two ends can happen in either order. */
  lemma {:induction false} TrimCommutes(s: string)
    ensures TrimEnd(TrimStart(s)) == TrimStart(TrimEnd(s))
  {
    if s != [] {
      assert s == [s[0]] + s[1..];
      TrimEndCons(s[0], s[1..]);
      if IsWhitespace(s[0]) {
        TrimCommutes(s[1..]);
        if TrimEnd(s[1..]) != [] {
          assert TrimStart([s[0]] + TrimEnd(s[1..])) == TrimStart(TrimEnd(s[1..])) by {
            assert ([s[0]] + TrimEnd(s[1..]))[1..] == TrimEnd(s[1..]);
          }
        }
      }
    }
  }

  /** trim ignores any whitespace padding around its argument. */
  lemma TrimPadded(w1: string, s: string, w2: string)
    requires AllWhitespace(w1) && AllWhitespace(w2)
    ensures Trim(w1 + s + w2) == Trim(s)
  {
    calc {
      Trim(w1 + s + w2);
      { assert w1 + s + w2 == w1 + (s + w2); }
      TrimEnd(TrimStart(w1 + (s + w2)));
      { TrimStartPadded(w1, s + w2); }
      TrimEnd(TrimStart(s + w2));
      { TrimCommutes(s + w2); }
      TrimStart(TrimEnd(s + w2));
      { TrimEndPadded(s, w2); }
      TrimStart(TrimEnd(s));
      { TrimCommutes(s); }
      Trim(s);
    }
  }

  lemma LowerKeepsWhitespace(c: char)
    ensures IsWhitespace(LowerChar(c)) == IsWhitespace(c)
  {
  }

  lemma {:induction false} LowerTrimStart(s: string)
    ensures ToLower(TrimStart(s)) == TrimStart(ToLower(s))
  {
    if s != [] {
      var l := ToLower(s);
      assert l[1..] == ToLower(s[1..]);
      LowerKeepsWhitespace(s[0]);
      if IsWhitespace(s[0]) {
        assert IsWhitespace(l[0]);
        LowerTrimStart(s[1..]);
      } else {
        assert !IsWhitespace(l[0]);
        assert TrimStart(l) == l;
      }
    }
  }

  lemma {:induction false} LowerTrimEnd(s: string)
    ensures ToLower(TrimEnd(s)) == TrimEnd(ToLower(s))
  {
    if s != [] {
      var n := |s| - 1;
      assert ToLower(s)[..n] == ToLower(s[..n]);
      LowerKeepsWhitespace(s[n]);
      if IsWhitespace(s[n]) {
        LowerTrimEnd(s[..n]);
      }
    }
  }

  /** Lowering and trimming can happen in either order: lowering never creates or removes whitespace. */
  lemma LowerTrim(s: string)
    ensures ToLower(Trim(s)) == Trim(ToLower(s))
  {
    LowerTrimEnd(TrimStart(s));
    LowerTrimStart(s);
  }
}
