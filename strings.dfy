/**
 * The string primitives the scripts rely on: String.prototype.trim, startsWith,
 * includes, and the tokenisation behind Element.classList.
 */
module Strings {

  /** WhiteSpace and LineTerminator as String.prototype.trim removes them: tab, vertical tab,
      form feed, space, no-break space, byte order mark, the Zs space separators, line feed,
      carriage return and the two Unicode line and paragraph separators. */
  predicate IsTrimmable(c: char)
  {
    c == '\t' || c == '\U{B}' || c == '\U{C}' || c == ' ' || c == '\U{A0}' || c == '\U{FEFF}'
    || c == '\U{1680}' || ('\U{2000}' <= c <= '\U{200A}') || c == '\U{202F}' || c == '\U{205F}'
    || c == '\U{3000}' || c == '\n' || c == '\r' || c == '\U{2028}' || c == '\U{2029}'
  }

  /** The input without its leading trimmable characters. */
  function TrimStart(s: string): (r: string)
    ensures |r| <= |s| && r == s[|s| - |r|..]
    ensures forall k :: 0 <= k < |s| - |r| ==> IsTrimmable(s[k])
    ensures r != [] ==> !IsTrimmable(r[0])
  {
    if s != [] && IsTrimmable(s[0]) then TrimStart(s[1..]) else s
  }

  /** The input without its trailing trimmable characters. */
  function TrimEnd(s: string): (r: string)
    ensures |r| <= |s| && r == s[..|r|]
    ensures forall k :: |r| <= k < |s| ==> IsTrimmable(s[k])
    ensures r != [] ==> !IsTrimmable(r[|r| - 1])
  {
    if s != [] && IsTrimmable(s[|s| - 1]) then TrimEnd(s[..|s| - 1]) else s
  }

  /** String.prototype.trim. */
  function Trim(s: string): (r: string)
    ensures r != [] ==> !IsTrimmable(r[0]) && !IsTrimmable(r[|r| - 1])
    ensures r == [] <==> forall k :: 0 <= k < |s| ==> IsTrimmable(s[k])
    ensures s == [] || (!IsTrimmable(s[0]) && !IsTrimmable(s[|s| - 1])) ==> r == s
  {
    var t := TrimStart(s);
    var r := TrimEnd(t);
    assert r != [] ==> r[0] == t[0];
    assert t == [] ==> forall k :: 0 <= k < |s| ==> IsTrimmable(s[k]);
    assert r == [] ==> t == [];
    r
  }

  /** Trimming a trimmed string changes nothing. */
  lemma TrimIdempotent(s: string)
    ensures Trim(Trim(s)) == Trim(s)
  {
  }

  /** String.prototype.startsWith. */
  predicate StartsWith(s: string, prefix: string)
  {
    |prefix| <= |s| && s[..|prefix|] == prefix
  }

  /** String.prototype.includes: the needle occurs somewhere in s. */
  predicate Contains(s: string, needle: string)
    decreases |s|
  {
    StartsWith(s, needle) || (s != [] && Contains(s[1..], needle))
  }

  /** Contains holds exactly when the needle starts at some position of s. */
  lemma {:induction false} ContainsAt(s: string, needle: string)
    ensures Contains(s, needle) <==> exists i :: 0 <= i <= |s| && StartsWith(s[i..], needle)
  {
    assert s[0..] == s;
    if s != [] {
      ContainsAt(s[1..], needle);
      if Contains(s[1..], needle) {
        var i :| 0 <= i <= |s| - 1 && StartsWith(s[1..][i..], needle);
        assert s[1..][i..] == s[i + 1..];
      }
      if i :| 0 <= i <= |s| && StartsWith(s[i..], needle) {
        if i > 0 {
          assert s[1..][i - 1..] == s[i..];
        }
      }
    }
  }

  /** The empty needle occurs in every string, so `includes('')` is always true. */
  lemma ContainsEmpty(s: string)
    ensures Contains(s, "")
  {
  }

  /** The ASCII whitespace that separates the tokens of a class attribute. */
  predicate IsAsciiWhitespace(c: char)
  {
    c == '\t' || c == '\n' || c == '\U{C}' || c == '\r' || c == ' '
  }

  /** The longest prefix of s without ASCII whitespace. */
  function LeadingToken(s: string): (w: string)
    ensures |w| <= |s| && w == s[..|w|]
    ensures forall k :: 0 <= k < |w| ==> !IsAsciiWhitespace(w[k])
    ensures |w| < |s| ==> IsAsciiWhitespace(s[|w|])
  {
    if s == [] || IsAsciiWhitespace(s[0]) then []
    else [s[0]] + LeadingToken(s[1..])
  }

  /** The tokens of a class attribute, in order, as Element.classList holds them
      (duplicates are kept; they do not matter to `contains`). */
  function ClassTokens(s: string): (tokens: seq<string>)
    ensures forall t :: t in tokens ==> t != [] && forall k :: 0 <= k < |t| ==> !IsAsciiWhitespace(t[k])
    decreases |s|
  {
    if s == [] then []
    else if IsAsciiWhitespace(s[0]) then ClassTokens(s[1..])
    else
      var w := LeadingToken(s);
      [w] + ClassTokens(s[|w|..])
  }

  /** c occurs in s at position i as a whole token: preceded by whitespace or the start, and
      followed by whitespace or the end. */
  predicate TokenAt(s: string, c: string, i: int)
  {
    0 <= i && i + |c| <= |s| && s[i..i + |c|] == c
    && (i == 0 || IsAsciiWhitespace(s[i - 1]))
    && (i + |c| == |s| || IsAsciiWhitespace(s[i + |c|]))
  }

  /** Away from the start, an occurrence in a suffix is an occurrence in the whole string. */
  lemma TokenShift(s: string, c: string, d: nat, i: int)
    requires d <= |s| && i >= 0
    requires i >= 1 || (d >= 1 && IsAsciiWhitespace(s[d - 1]))
    ensures TokenAt(s[d..], c, i) <==> TokenAt(s, c, i + d)
  {
    var t := s[d..];
    if i + |c| <= |t| {
      assert t[i..i + |c|] == s[i + d..i + d + |c|];
      if i >= 1 {
        assert t[i - 1] == s[i + d - 1];
      }
      if i + |c| < |t| {
        assert t[i + |c|] == s[i + d + |c|];
      }
    }
  }

  /** No token starts on whitespace. */
  lemma NoTokenOnWhitespace(s: string, c: string, i: int)
    requires c != [] && !IsAsciiWhitespace(c[0])
    requires 0 <= i < |s| && IsAsciiWhitespace(s[i])
    ensures !TokenAt(s, c, i)
  {
  }

  /** At the start of a string that starts with a token, the only token is that one. */
  lemma TokenAtStart(s: string, c: string)
    requires c != [] && forall k :: 0 <= k < |c| ==> !IsAsciiWhitespace(c[k])
    ensures TokenAt(s, c, 0) <==> c == LeadingToken(s)
  {
    var w := LeadingToken(s);
    if TokenAt(s, c, 0) {
      assert s[..|c|] == c;
      assert |c| == |w|;
    }
  }

  /** Inside the leading token no other token starts. */
  lemma NoTokenInsideLeading(s: string, c: string, i: int)
    requires 0 < i <= |LeadingToken(s)|
    ensures !TokenAt(s, c, i)
  {
    var w := LeadingToken(s);
    assert s[i - 1] == w[i - 1];
  }

  /** The tokens after position 0 of s are those of its suffix from d, when none starts
      before d and the cut at d splits no token. */
  lemma {:induction false} ExistsShift(s: string, c: string, d: nat)
    requires 1 <= d <= |s|
    requires forall i :: 0 < i < d ==> !TokenAt(s, c, i)
    requires IsAsciiWhitespace(s[d - 1]) || (!TokenAt(s, c, d) && !TokenAt(s[d..], c, 0))
    ensures (exists i :: i > 0 && TokenAt(s, c, i)) <==> exists j :: TokenAt(s[d..], c, j)
  {
    if exists i :: i > 0 && TokenAt(s, c, i) {
      var i :| i > 0 && TokenAt(s, c, i);
      TokenShift(s, c, d, i - d);
    }
    if exists j :: TokenAt(s[d..], c, j) {
      var j :| TokenAt(s[d..], c, j);
      TokenShift(s, c, d, j);
    }
  }

  /** A class name is in the class list exactly when it occurs in the attribute as a
      whitespace-delimited run. */
  lemma {:induction false} ClassTokensAt(s: string, c: string)
    requires c != [] && forall k :: 0 <= k < |c| ==> !IsAsciiWhitespace(c[k])
    ensures HasClass(s, c) <==> exists i :: TokenAt(s, c, i)
    decreases |s|
  {
    if s == [] {
    } else if IsAsciiWhitespace(s[0]) {
      ClassTokensAt(s[1..], c);
      NoTokenOnWhitespace(s, c, 0);
      ExistsShift(s, c, 1);
    } else {
      var w := LeadingToken(s);
      var t := s[|w|..];
      ClassTokensAt(t, c);
      assert ClassTokens(s) == [w] + ClassTokens(t);
      TokenAtStart(s, c);
      forall i | 0 < i <= |w| ensures !TokenAt(s, c, i) {
        NoTokenInsideLeading(s, c, i);
      }
      if |w| < |s| {
        NoTokenOnWhitespace(t, c, 0);
        ExistsShift(s, c, |w|);
      } else {
        assert forall i :: i > 0 ==> !TokenAt(s, c, i);
      }
    }
  }

  /** Element.classList.contains. */
  predicate HasClass(className: string, c: string)
  {
    c in ClassTokens(className)
  }

  /** A class attribute that is exactly one token holds that token. */
  lemma {:induction false} SingleClass(c: string)
    requires c != [] && forall k :: 0 <= k < |c| ==> !IsAsciiWhitespace(c[k])
    ensures HasClass(c, c)
  {
    LeadingTokenAll(c);
  }

  /** A string without whitespace is its own leading token. */
  lemma {:induction false} LeadingTokenAll(s: string)
    requires forall k :: 0 <= k < |s| ==> !IsAsciiWhitespace(s[k])
    ensures LeadingToken(s) == s
  {
    if s != [] {
      LeadingTokenAll(s[1..]);
    }
  }
}
