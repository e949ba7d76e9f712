/** The few pieces of java.lang.String and Long behaviour the core relies on:
    decimal rendering of ids, trim(), contains() and the one-character
    form of split(). A Dafny char is a Unicode scalar value, so a string here counts
    one char per code point where Java's length() counts UTF-16 code units; the two
    agree on text inside the Basic Multilingual Plane. */
module Strings {

  /** The decimal digit for d. */
  function Digit(d: nat): (c: char)
    requires d < 10
    ensures '0' <= c <= '9'
    ensures c as int == 48 + d
  {
    (48 + d) as char
  }

  /** Long.toString for a non-negative id: decimal, no sign, no leading zeros. */
  function NatToString(n: nat): (s: string)
    ensures |s| >= 1
    ensures n >= 10 <==> |s| >= 2
    ensures forall i :: 0 <= i < |s| ==> '0' <= s[i] <= '9'
  {
    if n < 10 then [Digit(n)] else NatToString(n / 10) + [Digit(n % 10)]
  }

  /** Different ids render differently, so "user_" + id and topic names never collide. */
  lemma {:induction false} NatToStringInjective(a: nat, b: nat)
    requires NatToString(a) == NatToString(b)
    ensures a == b
  {
    var sa, sb := NatToString(a), NatToString(b);
    if a < 10 && b < 10 {
      assert sa[0] == Digit(a) && sb[0] == Digit(b);
    } else if a >= 10 && b >= 10 {
      assert sa == NatToString(a / 10) + [Digit(a % 10)];
      assert sb == NatToString(b / 10) + [Digit(b % 10)];
      assert sa[..|sa| - 1] == NatToString(a / 10);
      assert sb[..|sb| - 1] == NatToString(b / 10);
      NatToStringInjective(a / 10, b / 10);
      assert sa[|sa| - 1] == Digit(a % 10) && sb[|sb| - 1] == Digit(b % 10);
    } else {
      assert false;
    }
  }

  // ---------------------------------------------------------------- trim

  /** What String.trim removes: any character at or below U+0020. */
  predicate IsTrimmable(c: char) {
    c <= ' '
  }

  function TrimStart(s: string): (r: string)
    ensures |r| <= |s| && r == s[|s| - |r|..]
    ensures forall i :: 0 <= i < |s| - |r| ==> IsTrimmable(s[i])
    ensures r == [] || !IsTrimmable(r[0])
  {
    if s != [] && IsTrimmable(s[0]) then TrimStart(s[1..]) else s
  }

  function TrimEnd(s: string): (r: string)
    ensures |r| <= |s| && r == s[..|r|]
    ensures forall i :: |r| <= i < |s| ==> IsTrimmable(s[i])
    ensures r == [] || !IsTrimmable(r[|r| - 1])
  {
    if s != [] && IsTrimmable(s[|s| - 1]) then TrimEnd(s[..|s| - 1]) else s
  }

  /** String.trim: the longest infix of s that neither starts nor ends with a trimmable character. */
  function Trim(s: string): (r: string)
    ensures r == [] || (!IsTrimmable(r[0]) && !IsTrimmable(r[|r| - 1]))
    ensures |r| <= |s|
    ensures exists k :: TrimmedAt(s, k, r)
  {
    TrimIsInfix(s);
    TrimEnd(TrimStart(s))
  }

  /** r is the infix of s starting at k, and everything before and after it is trimmable. */
  predicate TrimmedAt(s: string, k: nat, r: string) {
    k + |r| <= |s| && r == s[k..k + |r|]
    && (forall i :: 0 <= i < k ==> IsTrimmable(s[i]))
    && (forall i :: k + |r| <= i < |s| ==> IsTrimmable(s[i]))
  }

  lemma {:induction false} TrimIsInfix(s: string)
    ensures TrimmedAt(s, |s| - |TrimStart(s)|, TrimEnd(TrimStart(s)))
  {
    var t := TrimStart(s);
    var r := TrimEnd(t);
    assert TrimmedAt(s, |s| - |t|, t);
    assert TrimmedAt(t, 0, r);
    PrefixOfTrimmedSuffix(s, t, r);
  }

  /** Cutting a trimmable head and then a trimmable tail leaves an infix. */
  lemma PrefixOfTrimmedSuffix(s: string, t: string, r: string)
    requires |t| <= |s| && TrimmedAt(s, |s| - |t|, t)
    requires TrimmedAt(t, 0, r)
    ensures TrimmedAt(s, |s| - |t|, r)
  {
    var k := |s| - |t|;
    assert r == s[k..k + |r|];
    forall i | k + |r| <= i < |s|
      ensures IsTrimmable(s[i])
    {
      assert s[i] == t[i - k];
    }
  }

  /** trim().isEmpty(), the blank test of the name fallback. */
  predicate IsBlank(s: string) {
    Trim(s) == []
  }

  lemma {:induction false} TrimStartOfUntrimmable(s: string)
    requires s == [] || !IsTrimmable(s[0])
    ensures TrimStart(s) == s
  {
  }

  lemma {:induction false} TrimEndOfUntrimmable(s: string)
    requires s == [] || !IsTrimmable(s[|s| - 1])
    ensures TrimEnd(s) == s
  {
  }

  /** trim() leaves a string alone exactly when it neither starts nor ends with a trimmable character. */
  lemma TrimFixedPoint(s: string)
    ensures Trim(s) == s <==> (s == [] || (!IsTrimmable(s[0]) && !IsTrimmable(s[|s| - 1])))
  {
    if s == [] || (!IsTrimmable(s[0]) && !IsTrimmable(s[|s| - 1])) {
      TrimStartOfUntrimmable(s);
      TrimEndOfUntrimmable(s);
    }
  }

  /** trim() is idempotent. */
  lemma TrimIdempotent(s: string)
    ensures Trim(Trim(s)) == Trim(s)
  {
    TrimFixedPoint(Trim(s));
  }

  lemma {:induction false} TrimStartAllTrimmable(s: string)
    requires forall i :: 0 <= i < |s| ==> IsTrimmable(s[i])
    ensures TrimStart(s) == []
  {
    if s != [] {
      TrimStartAllTrimmable(s[1..]);
    }
  }

  lemma {:induction false} SolidCharNotBlank(s: string, k: nat)
    requires k < |s| && !IsTrimmable(s[k])
    ensures !IsBlank(s)
  {
    var t := TrimStart(s);
    assert |s| - |t| <= k;
    assert t != [] && !IsTrimmable(t[0]);
  }

  /** A string is blank exactly when every character is trimmable. */
  lemma {:induction false} BlankIffAllTrimmable(s: string)
    ensures IsBlank(s) <==> forall i :: 0 <= i < |s| ==> IsTrimmable(s[i])
  {
    if forall i :: 0 <= i < |s| ==> IsTrimmable(s[i]) {
      TrimStartAllTrimmable(s);
    } else {
      var k :| 0 <= k < |s| && !IsTrimmable(s[k]);
      SolidCharNotBlank(s, k);
    }
  }

  /** A string without any trimmable character is its own trim. */
  lemma TrimOfSolid(s: string)
    requires forall i :: 0 <= i < |s| ==> !IsTrimmable(s[i])
    ensures Trim(s) == s
  {
    TrimFixedPoint(s);
  }

  // ------------------------------------------------------------ contains

  /** String.contains: sub occurs somewhere in s. */
  predicate Contains(s: string, sub: string) {
    sub <= s || (s != [] && Contains(s[1..], sub))
  }

  // --------------------------------------------------------------- split

  /** Every piece between occurrences of sep, empty pieces included. */
  function Pieces(s: string, sep: char): (parts: seq<string>)
    ensures |parts| >= 1
    ensures forall i :: 0 <= i < |parts| ==> sep !in parts[i]
    ensures sep !in s ==> parts == [s]
    ensures sep in s ==> |parts| >= 2
  {
    if s == [] then [""]
    else
      var rest := Pieces(s[1..], sep);
      assert sep !in s ==> s == [s[0]] + s[1..] && rest == [s[1..]];
      if s[0] == sep then [""] + rest else [[s[0]] + rest[0]] + rest[1..]
  }

  /** The pieces glued back together with sep between them. */
  function Join(parts: seq<string>, sep: char): string
    requires |parts| >= 1
  {
    if |parts| == 1 then parts[0] else parts[0] + [sep] + Join(parts[1..], sep)
  }

  /** Splitting then joining gives the string back. */
  lemma {:induction false} JoinPieces(s: string, sep: char)
    ensures Join(Pieces(s, sep), sep) == s
  {
    if s != [] {
      var rest := Pieces(s[1..], sep);
      JoinPieces(s[1..], sep);
      if s[0] == sep {
        assert Pieces(s, sep)[1..] == rest;
      } else if |rest| == 1 {
        assert Pieces(s, sep) == [[s[0]] + rest[0]];
      } else {
        var parts := Pieces(s, sep);
        assert parts[1..] == rest[1..];
        assert Join(rest, sep) == rest[0] + [sep] + Join(rest[1..], sep);
      }
    }
  }

  /** Java's split with limit 0 discards trailing empty strings. */
  function DropTrailingEmpty(parts: seq<string>): (r: seq<string>)
    ensures |r| <= |parts| && r == parts[..|r|]
    ensures forall i :: |r| <= i < |parts| ==> parts[i] == ""
    ensures r == [] || r[|r| - 1] != ""
  {
    if parts != [] && parts[|parts| - 1] == "" then DropTrailingEmpty(parts[..|parts| - 1]) else parts
  }

  /** String.split(sep) for a one-character pattern that is not a regular-expression
      metacharacter: when sep does not occur the result is the string itself, otherwise
      the pieces with trailing empty ones discarded. */
  function JavaSplit(s: string, sep: char): (parts: seq<string>)
    ensures forall i :: 0 <= i < |parts| ==> sep !in parts[i]
    ensures sep !in s ==> parts == [s]
    ensures sep in s ==> parts == [] || parts[|parts| - 1] != ""
  {
    if sep !in s then [s] else DropTrailingEmpty(Pieces(s, sep))
  }

  /** n copies of c. */
  function Repeat(c: char, n: nat): (r: string)
    ensures |r| == n && forall i :: 0 <= i < n ==> r[i] == c
  {
    if n == 0 then [] else Repeat(c, n - 1) + [c]
  }

  lemma {:induction false} JoinSnoc(parts: seq<string>, last: string, sep: char)
    requires |parts| >= 1
    ensures Join(parts + [last], sep) == Join(parts, sep) + [sep] + last
  {
    if |parts| > 1 {
      assert (parts + [last])[1..] == parts[1..] + [last];
      JoinSnoc(parts[1..], last, sep);
    }
  }

  lemma {:induction false} JoinEmptyTail(parts: seq<string>, n: nat, sep: char)
    requires |parts| >= 1
    requires n <= |parts| - 1
    requires forall i :: |parts| - n <= i < |parts| ==> parts[i] == ""
    ensures Join(parts, sep) == Join(parts[..|parts| - n], sep) + Repeat(sep, n)
  {
    if n > 0 {
      var init := parts[..|parts| - 1];
      assert parts == init + [""];
      JoinSnoc(init, "", sep);
      JoinEmptyTail(init, n - 1, sep);
      assert init[..|init| - (n - 1)] == parts[..|parts| - n];
      assert Repeat(sep, n) == Repeat(sep, n - 1) + [sep];
      assert Join(init, sep) + [sep] + "" == Join(init, sep) + [sep];
    } else {
      assert parts[..|parts|] == parts;
    }
  }

  /** When split finds the separator and keeps some piece, the original string is
      those pieces joined by sep followed only by separators. */
  lemma {:induction false} JavaSplitRoundTrip(s: string, sep: char)
    requires sep in s && JavaSplit(s, sep) != []
    ensures s == Join(JavaSplit(s, sep), sep) + Repeat(sep, |Pieces(s, sep)| - |JavaSplit(s, sep)|)
  {
    var all := Pieces(s, sep);
    var kept := JavaSplit(s, sep);
    JoinPieces(s, sep);
    JoinEmptyTail(all, |all| - |kept|, sep);
    assert all[..|kept|] == kept;
  }
}
