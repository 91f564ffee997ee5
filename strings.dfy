/**
 * The few JavaScript string operations the core relies on: `startsWith`,
 * `includes`, `split` on one character, `trim`, `toLowerCase`/`toUpperCase`
 * (ASCII letters only), the `replace(/\D/g, '')` digit filter and `String(n)`.
 */
module Strings {
  import opened Seqs

  /** `s.startsWith(prefix)` */
  predicate StartsWith(s: string, prefix: string)
  {
    |prefix| <= |s| && s[..|prefix|] == prefix
  }

  /** `s.includes(sub)`: sub occurs in s at some position; "" occurs everywhere. */
  predicate Contains(s: string, sub: string)
    decreases |s|
  {
    StartsWith(s, sub) || (|s| > 0 && Contains(s[1..], sub))
  }

  lemma {:induction false} ContainsAt(s: string, sub: string, i: nat)
    requires i + |sub| <= |s| && s[i..i + |sub|] == sub
    ensures Contains(s, sub)
    decreases i
  {
    if i > 0 {
      assert s[1..][i - 1..i - 1 + |sub|] == s[i..i + |sub|];
      ContainsAt(s[1..], sub, i - 1);
    }
  }

  /** sub occurs in s starting at position i. */
  predicate OccursAt(s: string, sub: string, i: nat)
  {
    i + |sub| <= |s| && s[i..i + |sub|] == sub
  }

  /** `includes` as an occurrence at some position. */
  lemma {:induction false} ContainsIff(s: string, sub: string)
    ensures Contains(s, sub) <==> exists i: nat :: OccursAt(s, sub, i)
    decreases |s|
  {
    if exists i: nat :: OccursAt(s, sub, i) {
      var i: nat :| OccursAt(s, sub, i);
      ContainsAt(s, sub, i);
    }
    if Contains(s, sub) {
      if StartsWith(s, sub) {
        assert OccursAt(s, sub, 0);
      } else {
        ContainsIff(s[1..], sub);
        var i: nat :| OccursAt(s[1..], sub, i);
        assert s[i + 1..i + 1 + |sub|] == s[1..][i..i + |sub|];
        assert OccursAt(s, sub, i + 1);
      }
    }
  }

  /** Number of occurrences of c in s. */
  function Count(s: string, c: char): nat
  {
    if |s| == 0 then 0 else (if s[0] == c then 1 else 0) + Count(s[1..], c)
  }

  /**
   * `s.split(sep)` for a one-character separator: the pieces between the
   * separators, so there is always one piece more than there are separators.
   */
  function Split(s: string, sep: char): (parts: seq<string>)
    ensures |parts| == Count(s, sep) + 1
    ensures forall k | 0 <= k < |parts| :: sep !in parts[k]
    decreases |s|
  {
    if |s| == 0 then [""]
    else if s[0] == sep then [""] + Split(s[1..], sep)
    else
      var rest := Split(s[1..], sep);
      [[s[0]] + rest[0]] + rest[1..]
  }

  /**
   * The last piece of a split (what `pop()` takes) is the text after the last
   * separator: a suffix of s without separators, which is all of s when there
   * is only one piece and is otherwise preceded by a separator.
   */
  lemma {:induction false} LastPiece(s: string, sep: char)
    ensures var parts := Split(s, sep);
      var p := parts[|parts| - 1];
      && |p| <= |s| && s[|s| - |p|..] == p && sep !in p
      && (|parts| == 1 ==> p == s)
      && (|parts| > 1 ==> |p| < |s| && s[|s| - |p| - 1] == sep)
    decreases |s|
  {
    if |s| > 0 {
      LastPiece(s[1..], sep);
      var rest := Split(s[1..], sep);
      var parts := Split(s, sep);
      if s[0] == sep {
        assert parts == [""] + rest;
        assert parts[|parts| - 1] == rest[|rest| - 1];
      } else {
        assert parts == [[s[0]] + rest[0]] + rest[1..];
        if |rest| == 1 {
          assert parts[0] == [s[0]] + s[1..] == s;
        } else {
          assert parts[|parts| - 1] == rest[|rest| - 1];
        }
      }
    }
  }

  /** `parts.join(sep)`, the inverse of Split. */
  function Join(parts: seq<string>, sep: char): string
    requires |parts| >= 1
  {
    if |parts| == 1 then parts[0] else parts[0] + [sep] + Join(parts[1..], sep)
  }

  /** Joining the pieces of a split gives back the original string. */
  lemma {:induction false} JoinSplit(s: string, sep: char)
    ensures Join(Split(s, sep), sep) == s
    decreases |s|
  {
    if |s| == 0 {
    } else if s[0] == sep {
      JoinSplit(s[1..], sep);
      assert s == [sep] + s[1..];
    } else {
      JoinSplit(s[1..], sep);
      var rest := Split(s[1..], sep);
      if |rest| == 1 {
        assert Split(s, sep) == [[s[0]] + rest[0]];
      } else {
        assert Split(s, sep)[1..] == rest[1..];
        assert s == [s[0]] + (rest[0] + [sep] + Join(rest[1..], sep));
      }
    }
  }

  lemma {:induction false} SplitSingle(p: string, sep: char)
    requires sep !in p
    ensures Split(p, sep) == [p]
    decreases |p|
  {
    if |p| > 0 {
      SplitSingle(p[1..], sep);
      assert [p[0]] + p[1..] == p;
    }
  }

  lemma {:induction false} SplitCons(p: string, rest: string, sep: char)
    requires sep !in p
    ensures Split(p + [sep] + rest, sep) == [p] + Split(rest, sep)
    decreases |p|
  {
    var s := p + [sep] + rest;
    if |p| == 0 {
      assert s[1..] == rest;
    } else {
      assert s[1..] == p[1..] + [sep] + rest;
      SplitCons(p[1..], rest, sep);
      assert [p[0]] + p[1..] == p;
    }
  }

  /** Splitting a join of separator-free pieces gives back the pieces. */
  lemma {:induction false} SplitJoin(parts: seq<string>, sep: char)
    requires |parts| >= 1
    requires forall k | 0 <= k < |parts| :: sep !in parts[k]
    ensures Split(Join(parts, sep), sep) == parts
    decreases |parts|
  {
    if |parts| == 1 {
      SplitSingle(parts[0], sep);
    } else {
      SplitJoin(parts[1..], sep);
      SplitCons(parts[0], Join(parts[1..], sep), sep);
    }
  }

  /** The characters `trim` removes: ECMAScript WhiteSpace and LineTerminator. */
  predicate IsWhitespace(c: char)
  {
    c == ' ' || c == '\t' || c == '\n' || c == '\r' || c == '\U{000B}' || c == '\U{000C}'
    || c == '\U{00A0}' || c == '\U{1680}' || ('\U{2000}' <= c <= '\U{200A}')
    || c == '\U{2028}' || c == '\U{2029}' || c == '\U{202F}' || c == '\U{205F}'
    || c == '\U{3000}' || c == '\U{FEFF}'
  }

  function TrimStart(s: string): (r: string)
    ensures |r| <= |s| && r == s[|s| - |r|..]
    ensures r == [] || !IsWhitespace(r[0])
    ensures forall k | 0 <= k < |s| - |r| :: IsWhitespace(s[k])
    decreases |s|
  {
    if |s| > 0 && IsWhitespace(s[0]) then TrimStart(s[1..]) else s
  }

  function TrimEnd(s: string): (r: string)
    ensures |r| <= |s| && r == s[..|r|]
    ensures r == [] || !IsWhitespace(r[|r| - 1])
    ensures forall k | |r| <= k < |s| :: IsWhitespace(s[k])
    decreases |s|
  {
    if |s| > 0 && IsWhitespace(s[|s| - 1]) then TrimEnd(s[..|s| - 1]) else s
  }

  /** `s.trim()`: s with its leading and trailing whitespace removed and
      nothing else; empty exactly when s is all whitespace; otherwise it
      neither starts nor ends with whitespace. */
  function Trim(s: string): (r: string)
    ensures r == [] <==> forall k | 0 <= k < |s| :: IsWhitespace(s[k])
    ensures r != [] ==> !IsWhitespace(r[0]) && !IsWhitespace(r[|r| - 1])
    ensures exists i: nat :: TrimmedAt(s, r, i)
    ensures Contains(s, r)
  {
    TrimInfix(s);
    TrimDecomposes(s);
    TrimAllWhitespace(s);
    TrimEnd(TrimStart(s))
  }

  lemma TrimInfix(s: string)
    ensures Contains(s, TrimEnd(TrimStart(s)))
  {
    var t := TrimStart(s);
    var r := TrimEnd(t);
    var off := |s| - |t|;
    assert t == s[off..];
    assert r == t[..|r|];
    assert r == s[off..][..|r|];
    assert s[off..][..|r|] == s[off..off + |r|];
    ContainsAt(s, r, off);
  }

  /** r is s[i..i + |r|], and everything of s before and after it is
      whitespace. */
  predicate TrimmedAt(s: string, r: string, i: nat)
  {
    && OccursAt(s, r, i)
    && (forall k | 0 <= k < i :: IsWhitespace(s[k]))
    && (forall k | i + |r| <= k < |s| :: IsWhitespace(s[k]))
  }

  /** What TrimStart and TrimEnd remove lies before and after the result. */
  lemma {:induction false} TrimDecomposes(s: string)
    ensures TrimmedAt(s, TrimEnd(TrimStart(s)), |s| - |TrimStart(s)|)
  {
    var t := TrimStart(s);
    var r := TrimEnd(t);
    var i := |s| - |t|;
    assert OccursAt(s, r, i) by {
      assert t == s[i..];
      assert r == t[..|r|];
    }
    assert forall k | 0 <= k < i :: IsWhitespace(s[k]);
    assert forall k | i + |r| <= k < |s| :: IsWhitespace(s[k]) by {
      forall k | i + |r| <= k < |s|
        ensures IsWhitespace(s[k])
      {
        assert t == s[i..];
        assert s[k] == t[k - i];
      }
    }
  }

  lemma TrimAllWhitespace(s: string)
    ensures TrimEnd(TrimStart(s)) == [] <==> forall k | 0 <= k < |s| :: IsWhitespace(s[k])
    ensures TrimEnd(TrimStart(s)) != [] ==> !IsWhitespace(TrimEnd(TrimStart(s))[0])
  {
    var t := TrimStart(s);
    var r := TrimEnd(t);
    if r == [] {
      assert t == [];
    } else {
      assert r[0] == t[0];
    }
  }

  predicate IsAsciiUpper(c: char) { 'A' <= c <= 'Z' }
  predicate IsAsciiLower(c: char) { 'a' <= c <= 'z' }

  function LowerChar(c: char): char
  {
    if IsAsciiUpper(c) then (c as int + 32) as char else c
  }

  function UpperChar(c: char): char
  {
    if IsAsciiLower(c) then (c as int - 32) as char else c
  }

  /** `s.toLowerCase()`, for ASCII letters: the same length, each of 'A'..'Z'
      replaced by its letter in 'a'..'z', every other character kept. */
  function ToLower(s: string): (r: string)
    ensures |r| == |s|
    ensures forall k | 0 <= k < |r| :: !IsAsciiUpper(r[k])
    ensures forall k | 0 <= k < |s| && IsAsciiUpper(s[k]) :: r[k] == (s[k] as int + 32) as char && IsAsciiLower(r[k])
    ensures forall k | 0 <= k < |s| && !IsAsciiUpper(s[k]) :: r[k] == s[k]
  {
    seq(|s|, k requires 0 <= k < |s| => LowerChar(s[k]))
  }

  predicate IsDigit(c: char) { '0' <= c <= '9' }

  predicate AllDigits(s: string)
  {
    forall k | 0 <= k < |s| :: IsDigit(s[k])
  }

  /** `s.replace(/\D/g, '')`: the digits of s, in order. */
  function Digits(s: string): (r: string)
    ensures AllDigits(r)
    ensures IsSubsequence(r, s)
    ensures forall ch :: multiset(r)[ch] == if IsDigit(ch) then multiset(s)[ch] else 0
    ensures |r| <= |s|
    ensures AllDigits(s) ==> r == s
    ensures |r| == 0 <==> forall k | 0 <= k < |s| :: !IsDigit(s[k])
  {
    if |s| == 0 then ""
    else
      assert s == [s[0]] + s[1..];
      var rest := Digits(s[1..]);
      if IsDigit(s[0]) then
        assert ([s[0]] + rest)[1..] == rest;
        [s[0]] + rest
      else rest
  }

  function DigitChar(d: nat): char
    requires d < 10
  {
    ('0' as int + d) as char
  }

  function NatToString(n: nat): (r: string)
    ensures |r| >= 1 && AllDigits(r)
  {
    if n < 10 then [DigitChar(n)] else NatToString(n / 10) + [DigitChar(n % 10)]
  }

  /** `String(n)` for an integer. */
  function IntToString(n: int): string
  {
    if n < 0 then "-" + NatToString(-n) else NatToString(n)
  }
}
