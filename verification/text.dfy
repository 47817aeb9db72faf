/** String helpers shared by the news pipeline: ECMAScript whitespace, `trim()`,
    the `replace(/\s+/g, ' ')` normalisation, `startsWith`, `includes`,
    `substring(0, n)` and decimal rendering of naturals (template literals).
    Strings are sequences of Unicode scalar values. */
module Text {

  /** The characters matched by `\s` and removed by `trim()`: ECMAScript
      WhiteSpace (TAB, VT, FF, SP, NBSP, ZWNBSP and the Zs category) and
      LineTerminator (LF, CR, LS, PS). */
  const WHITESPACE: string :=
    "\t\n\U{B}\U{C}\r \U{A0}\U{1680}\U{2000}\U{2001}\U{2002}\U{2003}\U{2004}\U{2005}"
    + "\U{2006}\U{2007}\U{2008}\U{2009}\U{200A}\U{2028}\U{2029}\U{202F}\U{205F}\U{3000}\U{FEFF}"

  predicate IsWhitespace(c: char) {
    Listed(c, WHITESPACE)
  }

  /** `c` is one of `chars`. */
  predicate Listed(c: char, chars: string) {
    chars != [] && (chars[0] == c || Listed(c, chars[1..]))
  }

  lemma {:induction false} ListedAt(c: char, chars: string, i: nat)
    requires i < |chars| && chars[i] == c
    ensures Listed(c, chars)
  {
    if i > 0 {
      ListedAt(c, chars[1..], i - 1);
    }
  }

  /** The space is whitespace (the one member of the list that runs collapse to). */
  lemma SpaceIsWhitespace()
    ensures IsWhitespace(' ')
  {
    ListedAt(' ', WHITESPACE, 5);
  }

  predicate AllWhitespace(s: string) {
    forall i :: 0 <= i < |s| ==> IsWhitespace(s[i])
  }

  /** Neither end of `s` is whitespace. */
  predicate Trimmed(s: string) {
    s == [] || (!IsWhitespace(s[0]) && !IsWhitespace(s[|s| - 1]))
  }

  /** The length of the whitespace run that `s` starts with. */
  function LeadingWhitespace(s: string): (n: nat)
    ensures n <= |s|
  {
    if s == [] || !IsWhitespace(s[0]) then 0 else 1 + LeadingWhitespace(s[1..])
  }

  /** The length of the whitespace run that `s` ends with. */
  function TrailingWhitespace(s: string): (n: nat)
    ensures n <= |s|
  {
    if s == [] || !IsWhitespace(s[|s| - 1]) then 0 else 1 + TrailingWhitespace(s[..|s| - 1])
  }

  /** The counted run is whitespace and is maximal. */
  lemma {:induction false} LeadingWhitespaceRun(s: string)
    ensures AllWhitespace(s[..LeadingWhitespace(s)])
    ensures LeadingWhitespace(s) < |s| ==> !IsWhitespace(s[LeadingWhitespace(s)])
  {
    if s != [] && IsWhitespace(s[0]) {
      LeadingWhitespaceRun(s[1..]);
      var n := LeadingWhitespace(s[1..]);
      assert s[..n + 1] == [s[0]] + s[1..][..n];
    }
  }

  lemma {:induction false} TrailingWhitespaceRun(s: string)
    ensures AllWhitespace(s[|s| - TrailingWhitespace(s)..])
    ensures TrailingWhitespace(s) < |s| ==> !IsWhitespace(s[|s| - TrailingWhitespace(s) - 1])
  {
    if s != [] && IsWhitespace(s[|s| - 1]) {
      var p := s[..|s| - 1];
      TrailingWhitespaceRun(p);
      var n := TrailingWhitespace(p);
      assert s[|s| - (n + 1)..] == p[|p| - n..] + [s[|s| - 1]];
    }
  }

  /** A string that is all whitespace is one leading run. */
  lemma {:induction false} LeadingWhitespaceOfBlank(s: string)
    requires AllWhitespace(s)
    ensures LeadingWhitespace(s) == |s|
  {
    if s != [] {
      LeadingWhitespaceOfBlank(s[1..]);
    }
  }

  /** Text after a character that is not whitespace does not affect the
      leading run. */
  lemma {:induction false} LeadingWhitespaceAppend(a: string, x: string)
    requires a != [] && !IsWhitespace(a[|a| - 1])
    ensures LeadingWhitespace(a + x) == LeadingWhitespace(a) < |a|
  {
    if IsWhitespace(a[0]) {
      assert (a + x)[1..] == a[1..] + x;
      LeadingWhitespaceAppend(a[1..], x);
    }
  }

  /** A whitespace run in front of text that does not start with whitespace
      is exactly the leading run. */
  lemma {:induction false} LeadingWhitespacePast(w: string, b: string)
    requires AllWhitespace(w)
    requires b == [] || !IsWhitespace(b[0])
    ensures LeadingWhitespace(w + b) == |w|
  {
    if w != [] {
      assert (w + b)[1..] == w[1..] + b;
      LeadingWhitespacePast(w[1..], b);
    } else {
      assert w + b == b;
    }
  }

  /** `trimStart()`: drops the leading whitespace run. */
  function TrimStart(s: string): (r: string)
    ensures r == s[LeadingWhitespace(s)..]
  {
    s[LeadingWhitespace(s)..]
  }

  /** `trimEnd()`: drops the trailing whitespace run. */
  function TrimEnd(s: string): (r: string)
    ensures r == s[..|s| - TrailingWhitespace(s)]
  {
    s[..|s| - TrailingWhitespace(s)]
  }

  /** `String.prototype.trim`: no whitespace is left at either end. */
  function Trim(s: string): (r: string)
    ensures Trimmed(r)
    ensures |r| <= |s|
  {
    var t := TrimStart(s);
    LeadingWhitespaceRun(s);
    TrailingWhitespaceRun(t);
    TrimEnd(t)
  }

  /** What `trim()` removes: the result is the slice of `s` that starts after
      its leading whitespace run and is followed only by whitespace. With
      `Trimmed` this pins the result down. */
  lemma TrimMeaning(s: string)
    ensures var i := LeadingWhitespace(s); var r := Trim(s);
            i + |r| <= |s| && s[i..i + |r|] == r
            && AllWhitespace(s[..i]) && AllWhitespace(s[i + |r|..]) && Trimmed(r)
  {
    var i := LeadingWhitespace(s);
    var t := TrimStart(s);
    var r := Trim(s);
    LeadingWhitespaceRun(s);
    TrailingWhitespaceRun(t);
    assert s[i..i + |r|] == t[..|r|];
    assert s[i + |r|..] == t[|r|..];
  }

  /** Trimming leaves a string without whitespace at its ends unchanged, so
      `trim()` is idempotent. */
  lemma TrimOfTrimmed(s: string)
    requires Trimmed(s)
    ensures Trim(s) == s
  {
  }

  lemma TrimIdempotent(s: string)
    ensures Trim(Trim(s)) == Trim(s)
  {
    TrimOfTrimmed(Trim(s));
  }

  /** A blank string trims to the empty string. */
  lemma TrimOfWhitespace(s: string)
    requires AllWhitespace(s)
    ensures Trim(s) == []
  {
    LeadingWhitespaceOfBlank(s);
  }

  /** Whitespace occurs only as single spaces. */
  predicate Collapsed(s: string) {
    forall i :: 0 <= i < |s| && IsWhitespace(s[i]) ==>
      s[i] == ' ' && (i + 1 < |s| ==> !IsWhitespace(s[i + 1]))
  }

  /** The characters of `s` that are not whitespace, in order. */
  function Visible(s: string): (r: string)
    ensures |r| <= |s|
  {
    if s == [] then []
    else (if IsWhitespace(s[0]) then [] else [s[0]]) + Visible(s[1..])
  }

  lemma {:induction false} VisibleAppend(a: string, b: string)
    ensures Visible(a + b) == Visible(a) + Visible(b)
  {
    if a == [] {
      assert a + b == b;
    } else {
      assert (a + b)[1..] == a[1..] + b;
      VisibleAppend(a[1..], b);
    }
  }

  lemma {:induction false} VisibleOfWhitespace(s: string)
    requires AllWhitespace(s)
    ensures Visible(s) == []
  {
    if s != [] {
      VisibleOfWhitespace(s[1..]);
    }
  }

  lemma VisibleBetweenWhitespace(a: string, b: string, c: string)
    requires AllWhitespace(a) && AllWhitespace(c)
    ensures Visible(a + b + c) == Visible(b)
  {
    VisibleAppend(a + b, c);
    VisibleOfWhitespace(c);
    VisibleAppend(a, b);
    VisibleOfWhitespace(a);
  }

  /** Trimming drops only whitespace. */
  lemma VisibleOfTrim(s: string)
    ensures Visible(Trim(s)) == Visible(s)
  {
    TrimMeaning(s);
    var i := LeadingWhitespace(s);
    var r := Trim(s);
    assert s == s[..i] + r + s[i + |r|..];
    VisibleBetweenWhitespace(s[..i], r, s[i + |r|..]);
  }

  /** `s.replace(/\s+/g, ' ')`: a whitespace run becomes one space. The
      result is empty, starts with whitespace and ends with whitespace
      exactly when `s` is, does; `CollapseRun` and `CollapseAppend` say
      where the spaces go. */
  function Collapse(s: string): (r: string)
    ensures |r| <= |s|
    ensures r == [] <==> s == []
    decreases |s|
  {
    if s == [] then []
    else if IsWhitespace(s[0]) then " " + Collapse(TrimStart(s))
    else [s[0]] + Collapse(s[1..])
  }

  /** Collapsing keeps whitespace at an end exactly where there was some. */
  lemma {:induction false} CollapseKeepsEnds(s: string)
    ensures var r := Collapse(s);
            r != [] ==> (IsWhitespace(r[0]) <==> IsWhitespace(s[0]))
                        && (IsWhitespace(r[|r| - 1]) <==> IsWhitespace(s[|s| - 1]))
    decreases |s|
  {
    if s != [] {
      SpaceIsWhitespace();
      if IsWhitespace(s[0]) {
        var t := TrimStart(s);
        CollapseKeepsEnds(t);
        LeadingWhitespaceRun(s);
        if t == [] {
          assert s[|s| - 1] in s[..LeadingWhitespace(s)];
        }
      } else {
        CollapseKeepsEnds(s[1..]);
      }
    }
  }

  /** Collapsing text after a character that is not whitespace is collapsing
      the two parts separately. */
  lemma {:induction false} CollapseAppend(a: string, x: string)
    requires a == [] || !IsWhitespace(a[|a| - 1])
    ensures Collapse(a + x) == Collapse(a) + Collapse(x)
    decreases |a|
  {
    if a == [] {
      assert a + x == x;
    } else if IsWhitespace(a[0]) {
      LeadingWhitespaceAppend(a, x);
      var t := TrimStart(a);
      assert t[|t| - 1] == a[|a| - 1];
      assert TrimStart(a + x) == t + x;
      CollapseAppend(t, x);
      assert Collapse(a + x) == " " + Collapse(t + x);
    } else {
      var y := a[1..];
      assert (a + x)[1..] == y + x;
      assert y == [] || y[|y| - 1] == a[|a| - 1];
      CollapseAppend(y, x);
      assert Collapse(a + x) == [a[0]] + Collapse(y + x);
    }
  }

  /** A maximal whitespace run, whatever its characters and length, becomes
      exactly one space in place. */
  lemma CollapseRun(a: string, w: string, b: string)
    requires w != [] && AllWhitespace(w)
    requires a == [] || !IsWhitespace(a[|a| - 1])
    requires b == [] || !IsWhitespace(b[0])
    ensures Collapse(a + w + b) == Collapse(a) + " " + Collapse(b)
  {
    var y := w + b;
    calc {
      Collapse(a + w + b);
      { assert a + w + b == a + y; }
      Collapse(a + y);
      { CollapseAppend(a, y); }
      Collapse(a) + Collapse(y);
      { CollapseLeadingRun(w, b); }
      Collapse(a) + (" " + Collapse(b));
      Collapse(a) + " " + Collapse(b);
    }
  }

  lemma CollapseLeadingRun(w: string, b: string)
    requires w != [] && AllWhitespace(w)
    requires b == [] || !IsWhitespace(b[0])
    ensures Collapse(w + b) == " " + Collapse(b)
  {
    var y := w + b;
    assert y[0] == w[0];
    LeadingWhitespacePast(w, b);
    assert TrimStart(y) == b;
  }

  /** The result is collapsed. */
  lemma {:induction false} CollapseIsCollapsed(s: string)
    ensures Collapsed(Collapse(s))
    decreases |s|
  {
    if s != [] {
      if IsWhitespace(s[0]) {
        CollapseIsCollapsed(TrimStart(s));
        LeadingWhitespaceRun(s);
        CollapseKeepsEnds(TrimStart(s));
        CollapsedSpaceBefore(Collapse(TrimStart(s)));
      } else {
        CollapseIsCollapsed(s[1..]);
        CollapsedVisibleBefore(s[0], Collapse(s[1..]));
      }
    }
  }

  /** Collapsing keeps the visible characters in order. */
  lemma {:induction false} CollapseKeepsVisible(s: string)
    ensures Visible(Collapse(s)) == Visible(s)
    decreases |s|
  {
    if s != [] {
      if IsWhitespace(s[0]) {
        var i := LeadingWhitespace(s);
        var t := TrimStart(s);
        CollapseKeepsVisible(t);
        LeadingWhitespaceRun(s);
        assert s == s[..i] + t;
        VisibleAppend(s[..i], t);
        VisibleOfWhitespace(s[..i]);
        SpaceIsWhitespace();
        VisibleAppend(" ", Collapse(t));
      } else {
        CollapseKeepsVisible(s[1..]);
        VisibleAppend([s[0]], Collapse(s[1..]));
      }
    }
  }

  lemma CollapsedSpaceBefore(x: string)
    requires Collapsed(x)
    requires x == [] || !IsWhitespace(x[0])
    ensures Collapsed(" " + x)
  {
    var r := " " + x;
    forall i | 0 <= i < |r| && IsWhitespace(r[i])
      ensures r[i] == ' ' && (i + 1 < |r| ==> !IsWhitespace(r[i + 1]))
    {
      if i > 0 {
        assert r[i] == x[i - 1];
      }
    }
  }

  lemma CollapsedVisibleBefore(c: char, x: string)
    requires Collapsed(x) && !IsWhitespace(c)
    ensures Collapsed([c] + x)
  {
    var r := [c] + x;
    forall i | 0 <= i < |r| && IsWhitespace(r[i])
      ensures r[i] == ' ' && (i + 1 < |r| ==> !IsWhitespace(r[i + 1]))
    {
      assert r[i] == x[i - 1];
    }
  }

  /** A collapsed string is a fixed point, so `Collapse` is idempotent. */
  lemma {:induction false} CollapseOfCollapsed(s: string)
    requires Collapsed(s)
    ensures Collapse(s) == s
    decreases |s|
  {
    if s != [] {
      CollapsedTail(s);
      CollapseOfCollapsed(s[1..]);
      if IsWhitespace(s[0]) {
        assert s[1..] == [] || !IsWhitespace(s[1..][0]);
        assert LeadingWhitespace(s[1..]) == 0;
        assert TrimStart(s) == s[1..];
      }
    }
  }

  lemma CollapsedTail(s: string)
    requires s != [] && Collapsed(s)
    ensures Collapsed(s[1..])
  {
    forall i | 0 <= i < |s[1..]| && IsWhitespace(s[1..][i])
      ensures s[1..][i] == ' ' && (i + 1 < |s[1..]| ==> !IsWhitespace(s[1..][i + 1]))
    {
      assert s[1..][i] == s[i + 1];
    }
  }

  lemma CollapseIdempotent(s: string)
    ensures Collapse(Collapse(s)) == Collapse(s)
  {
    CollapseIsCollapsed(s);
    CollapseOfCollapsed(Collapse(s));
  }

  /** Collapsing a trimmed string keeps it trimmed. */
  lemma CollapseKeepsTrimmed(s: string)
    requires Trimmed(s)
    ensures Trimmed(Collapse(s))
  {
    CollapseKeepsEnds(s);
  }

  /** `s.startsWith(p)`. */
  predicate StartsWith(s: string, p: string) {
    |p| <= |s| && s[..|p|] == p
  }

  /** `p` occurs in `s` starting at position `i`. */
  predicate OccursAt(s: string, p: string, i: int) {
    0 <= i <= |s| - |p| && s[i..i + |p|] == p
  }

  /** `s.includes(p)`: `p` occurs at some position of `s`. */
  predicate Contains(s: string, p: string)
    decreases |s|
  {
    StartsWith(s, p) || (s != [] && Contains(s[1..], p))
  }

  /** `Contains` is the positional occurrence it is meant to be. */
  lemma {:induction false} ContainsIff(s: string, p: string)
    ensures Contains(s, p) <==> exists i :: OccursAt(s, p, i)
    decreases |s|
  {
    if s == [] {
      if exists i :: OccursAt(s, p, i) {
        var i :| OccursAt(s, p, i);
        assert StartsWith(s, p);
      }
      if Contains(s, p) {
        assert OccursAt(s, p, 0);
      }
    } else {
      ContainsIff(s[1..], p);
      if exists i :: OccursAt(s, p, i) {
        var i :| OccursAt(s, p, i);
        if i > 0 {
          assert s[1..][i - 1..i - 1 + |p|] == p;
          assert OccursAt(s[1..], p, i - 1);
        } else {
          assert StartsWith(s, p);
        }
      }
      if Contains(s, p) {
        if StartsWith(s, p) {
          assert OccursAt(s, p, 0);
        } else {
          var i :| OccursAt(s[1..], p, i);
          assert s[i + 1..i + 1 + |p|] == p;
          assert OccursAt(s, p, i + 1);
        }
      }
    }
  }

  /** An occurrence survives putting text in front, which is what a URL prefix does. */
  lemma {:induction false} ContainsAfterPrefix(a: string, s: string, p: string)
    requires Contains(s, p)
    ensures Contains(a + s, p)
    decreases |a|
  {
    if a == [] {
      assert a + s == s;
    } else {
      assert (a + s)[1..] == a[1..] + s;
      ContainsAfterPrefix(a[1..], s, p);
    }
  }

  /** `s.substring(0, n)` for a non-negative `n`. */
  function Take(s: string, n: nat): (r: string)
    ensures |r| <= n && |r| <= |s|
    ensures r == s[..|r|]
    ensures |s| <= n ==> r == s
  {
    if |s| <= n then s else s[..n]
  }

  /** `s.replace(/<from>/g, to)` for a one-character pattern. */
  function ReplaceChar(s: string, from: char, to: char): (r: string)
    ensures |r| == |s|
    ensures forall i :: 0 <= i < |r| ==> r[i] == (if s[i] == from then to else s[i])
  {
    seq(|s|, i requires 0 <= i < |s| => if s[i] == from then to else s[i])
  }

  predicate IsDigit(c: char) {
    '0' <= c <= '9'
  }

  function DigitChar(d: nat): (c: char)
    requires d < 10
    ensures IsDigit(c)
  {
    ['0', '1', '2', '3', '4', '5', '6', '7', '8', '9'][d]
  }

  function DigitValue(c: char): nat
    requires IsDigit(c)
  {
    c as int - '0' as int
  }

  /** The value of a string of decimal digits. */
  function DecimalValue(s: string): nat
    requires forall i :: 0 <= i < |s| ==> IsDigit(s[i])
  {
    if s == [] then 0 else 10 * DecimalValue(s[..|s| - 1]) + DigitValue(s[|s| - 1])
  }

  /** `${n}` for a natural number: decimal digits, no leading zero. */
  function NatToString(n: nat): (r: string)
    ensures r != []
    ensures forall i :: 0 <= i < |r| ==> IsDigit(r[i])
    ensures r[0] == '0' ==> n == 0
  {
    if n < 10 then [DigitChar(n)] else NatToString(n / 10) + [DigitChar(n % 10)]
  }

  /** Reading the rendered digits back gives the number. */
  lemma {:induction false} NatToStringRoundTrip(n: nat)
    ensures DecimalValue(NatToString(n)) == n
  {
    if n >= 10 {
      var r := NatToString(n);
      assert r[..|r| - 1] == NatToString(n / 10);
      NatToStringRoundTrip(n / 10);
    }
  }
}
