/** The few JavaScript string operations the pages rely on. */
module Strings {

  /**
   * `String.prototype.trim` removes ECMAScript WhiteSpace and LineTerminator
   * code points: tab, vertical tab, form feed, space, no-break space, the byte
   * order mark, the other space separators, and the four line terminators.
   */
  predicate IsJsSpace(c: char) {
    c == '\U{9}' || c == '\U{A}' || c == '\U{B}' || c == '\U{C}' || c == '\U{D}'
    || c == ' ' || c == '\U{A0}' || c == '\U{1680}' || ('\U{2000}' <= c <= '\U{200A}')
    || c == '\U{2028}' || c == '\U{2029}' || c == '\U{202F}' || c == '\U{205F}'
    || c == '\U{3000}' || c == '\U{FEFF}'
  }

  function TrimStart(s: string): (r: string)
    ensures |r| <= |s| && r == s[|s| - |r|..]
    ensures r == "" || !IsJsSpace(r[0])
    ensures forall i :: 0 <= i < |s| - |r| ==> IsJsSpace(s[i])
  {
    if s != [] && IsJsSpace(s[0]) then
      var r := TrimStart(s[1..]);
      assert s[1..][|s| - 1 - |r|..] == s[|s| - |r|..];
      assert forall i :: 1 <= i < |s| - |r| ==> s[i] == s[1..][i - 1];
      r
    else s
  }

  function TrimEnd(s: string): (r: string)
    ensures |r| <= |s| && r == s[..|r|]
    ensures r == "" || !IsJsSpace(r[|r| - 1])
    ensures forall i :: |r| <= i < |s| ==> IsJsSpace(s[i])
  {
    if s != [] && IsJsSpace(s[|s| - 1]) then
      var r := TrimEnd(s[..|s| - 1]);
      assert s[..|s| - 1][..|r|] == s[..|r|];
      assert forall i :: |r| <= i < |s| - 1 ==> s[i] == s[..|s| - 1][i];
      r
    else s
  }

  /** `s.trim()`. */
  function Trim(s: string): string {
    TrimEnd(TrimStart(s))
  }

  /** A string made of white space only trims to the empty string. */
  predicate Blank(s: string) {
    forall i :: 0 <= i < |s| ==> IsJsSpace(s[i])
  }

  lemma TrimStartBlank(s: string)
    ensures TrimStart(s) == "" <==> Blank(s)
  {
    var r := TrimStart(s);
    if r != "" {
      assert r[0] == s[|s| - |r|];
    }
  }

  /** The trimmed string is empty exactly when the input is all white space. */
  lemma TrimBlank(s: string)
    ensures Trim(s) == "" <==> Blank(s)
  {
    TrimStartBlank(s);
    var t := TrimStart(s);
    if t != "" {
      assert TrimEnd(t) != "" by { assert !IsJsSpace(t[0]); }
    }
  }

  /** Trimming leaves no white space at either end, so trimming again changes nothing. */
  lemma TrimIdempotent(s: string)
    ensures Trim(Trim(s)) == Trim(s)
  {
    var t := Trim(s);
    var u := TrimStart(s);
    if t != "" {
      assert t[0] == u[0];
      assert TrimStart(t) == t;
      assert TrimEnd(t) == t;
    }
  }

  /** `toLowerCase` on the Latin capitals A to Z; every other code point is kept. */
  function LowerChar(c: char): (r: char)
    ensures 'A' <= c <= 'Z' ==> 'a' <= r <= 'z'
    ensures !('A' <= c <= 'Z') ==> r == c
  {
    if 'A' <= c <= 'Z' then (c as int + 32) as char else c
  }

  function ToLower(s: string): (r: string)
    ensures |r| == |s|
    ensures forall i :: 0 <= i < |s| ==> r[i] == LowerChar(s[i])
  {
    if s == [] then [] else [LowerChar(s[0])] + ToLower(s[1..])
  }

  /** Lower-casing never turns white space into something else or back. */
  lemma LowerKeepsSpace(c: char)
    ensures IsJsSpace(LowerChar(c)) <==> IsJsSpace(c)
  {
  }

  /** Both sides cut the same number of characters from the start. */
  lemma LowerTrimStart(s: string)
    ensures TrimStart(ToLower(s)) == ToLower(TrimStart(s))
  {
    var l := ToLower(s);
    var t, u := TrimStart(s), TrimStart(l);
    var n, m := |s| - |t|, |s| - |u|;
    // the first character kept on either side is no white space on both
    if n < |s| { LowerKeepsSpace(s[n]); assert l[n] == LowerChar(s[n]); }
    if m < |s| { LowerKeepsSpace(s[m]); assert l[m] == LowerChar(s[m]); }
    assert m == n;
    assert u == l[n..];
    assert l[n..] == ToLower(t);
  }

  /**
   * Both sides cut the same number of characters from the end, since a
   * character is white space exactly when its lower-case form is.
   */
  lemma LowerTrimEnd(s: string)
    ensures TrimEnd(ToLower(s)) == ToLower(TrimEnd(s))
  {
    var l := ToLower(s);
    var t, u := TrimEnd(s), TrimEnd(l);
    var n, m := |t|, |u|;
    // the last character kept on either side is no white space on both
    if n > 0 { LowerKeepsSpace(s[n - 1]); assert l[n - 1] == LowerChar(s[n - 1]); }
    if m > 0 { LowerKeepsSpace(s[m - 1]); assert l[m - 1] == LowerChar(s[m - 1]); }
    assert m == n;
    assert u == l[..n];
    assert l[..n] == ToLower(t);
  }

  /** Lower-casing and trimming commute. */
  lemma LowerTrim(s: string)
    ensures Trim(ToLower(s)) == ToLower(Trim(s))
  {
    LowerTrimStart(s);
    LowerTrimEnd(TrimStart(s));
  }

  /** `s.startsWith(prefix)`. */
  predicate StartsWith(s: string, prefix: string) {
    |prefix| <= |s| && s[..|prefix|] == prefix
  }

  function DigitChar(d: nat): char
    requires d < 10
  {
    "0123456789"[d]
  }

  function NatToString(n: nat): (r: string)
    ensures |r| >= 1
    ensures forall i :: 0 <= i < |r| ==> '0' <= r[i] <= '9'
  {
    if n < 10 then [DigitChar(n)] else NatToString(n / 10) + [DigitChar(n % 10)]
  }

  /** Decimal rendering of an integer in a template literal, as `${n}` prints it. */
  function IntToString(n: int): (r: string)
    ensures r != ""
    ensures (r[0] == '-') <==> n < 0
  {
    if n < 0 then "-" + NatToString(-n) else NatToString(n)
  }

  /** Different digits are different characters. */
  lemma DigitCharInjective(d: nat, e: nat)
    requires d < 10 && e < 10
    ensures DigitChar(d) == DigitChar(e) ==> d == e
  {
  }

  /** Different numbers print differently. */
  lemma {:induction false} NatToStringInjective(a: nat, b: nat)
    ensures NatToString(a) == NatToString(b) ==> a == b
    decreases a
  {
    var sa, sb := NatToString(a), NatToString(b);
    if sa == sb {
      if a < 10 && b < 10 {
        DigitCharInjective(a, b);
      } else if a >= 10 && b >= 10 {
        var pa, pb := NatToString(a / 10), NatToString(b / 10);
        assert sa == pa + [DigitChar(a % 10)];
        assert sb == pb + [DigitChar(b % 10)];
        assert pa == sa[..|sa| - 1] && pb == sb[..|sb| - 1];
        NatToStringInjective(a / 10, b / 10);
        assert sa[|sa| - 1] == DigitChar(a % 10) && sb[|sb| - 1] == DigitChar(b % 10);
        DigitCharInjective(a % 10, b % 10);
      }
    }
  }

  /** Different integers print differently. */
  lemma IntToStringInjective(a: int, b: int)
    ensures IntToString(a) == IntToString(b) ==> a == b
  {
    var sa, sb := IntToString(a), IntToString(b);
    if sa == sb {
      assert (a < 0) == (b < 0) by {
        assert sa[0] == sb[0];
      }
      if a < 0 {
        var na, nb := NatToString(-a), NatToString(-b);
        assert sa == "-" + na && sb == "-" + nb;
        assert na == sa[1..] && nb == sb[1..];
        NatToStringInjective(-a, -b);
      } else {
        assert sa == NatToString(a) && sb == NatToString(b);
        NatToStringInjective(a, b);
      }
    }
  }

  /** `parts.filter(Boolean).join(sep)`: empty parts are dropped before joining. */
  function JoinNonEmpty(parts: seq<string>, sep: string): string {
    if parts == [] then ""
    else if parts[0] == "" then JoinNonEmpty(parts[1..], sep)
    else
      var rest := JoinNonEmpty(parts[1..], sep);
      if rest == "" then parts[0] else parts[0] + sep + rest
  }
}
