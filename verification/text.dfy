/**
 * The string helpers the form uses: `String.prototype.trim`,
 * `String.prototype.toLowerCase` on ASCII text, `includes` of one character,
 * and a split at the first occurrence of a character that undoes joining.
 */
module Text {
  import opened Options

  /**
   * The characters `trim` removes: ECMAScript WhiteSpace (tab, vertical tab,
   * form feed, the zero-width no-break space and every space separator) and
   * LineTerminator (line feed, carriage return, line and paragraph separator).
   */
  predicate IsTrimmable(c: char) {
    || c == '\t' || c == '\n' || c == '\U{000B}' || c == '\U{000C}' || c == '\r'
    || c == ' ' || c == '\U{00A0}' || c == '\U{1680}'
    || ('\U{2000}' <= c <= '\U{200A}')
    || c == '\U{2028}' || c == '\U{2029}' || c == '\U{202F}' || c == '\U{205F}'
    || c == '\U{3000}' || c == '\U{FEFF}'
  }

  predicate AllTrimmable(s: string) {
    forall i :: 0 <= i < |s| ==> IsTrimmable(s[i])
  }

  /** Drops the leading trimmable characters: what is left is a suffix that starts with a kept character. */
  function TrimStart(s: string): (r: string)
    ensures |r| <= |s| && r == s[|s| - |r|..]
    ensures AllTrimmable(s[..|s| - |r|])
    ensures |r| > 0 ==> !IsTrimmable(r[0])
  {
    if |s| > 0 && IsTrimmable(s[0]) then
      var r := TrimStart(s[1..]);
      TrimStartStep(s, r);
      r
    else s
  }

  /** Dropping one more leading trimmable character keeps the suffix shape. */
  lemma TrimStartStep(s: string, r: string)
    requires |s| > 0 && IsTrimmable(s[0])
    requires |r| <= |s| - 1 && r == s[1..][|s| - 1 - |r|..]
    requires AllTrimmable(s[1..][..|s| - 1 - |r|])
    ensures r == s[|s| - |r|..]
    ensures AllTrimmable(s[..|s| - |r|])
  {
    var k := |s| - |r|;
    assert s[1..][k - 1..] == s[k..];
    forall i | 0 <= i < k
      ensures IsTrimmable(s[..k][i])
    {
      if i > 0 {
        assert s[..k][i] == s[1..][..k - 1][i - 1];
      }
    }
  }

  /** Drops the trailing trimmable characters: what is left is a prefix that ends with a kept character. */
  function TrimEnd(s: string): (r: string)
    ensures |r| <= |s| && r == s[..|r|]
    ensures AllTrimmable(s[|r|..])
    ensures |r| > 0 ==> !IsTrimmable(r[|r| - 1])
  {
    if |s| > 0 && IsTrimmable(s[|s| - 1]) then
      var r := TrimEnd(s[..|s| - 1]);
      assert s[..|s| - 1][|r|..] == s[|r|..|s| - 1];
      r
    else s
  }

  /**
   * `s.trim()`: s with its leading and trailing trimmable characters removed.
   * The result is the infix s[i..j] whose outside is all trimmable and whose
   * ends are not.
   */
  function Trim(s: string): (r: string)
    ensures exists i, j :: 0 <= i <= j <= |s| && r == s[i..j] && AllTrimmable(s[..i]) && AllTrimmable(s[j..])
    ensures |r| > 0 ==> !IsTrimmable(r[0]) && !IsTrimmable(r[|r| - 1])
  {
    var t := TrimStart(s);
    var r := TrimEnd(t);
    TrimInfix(s, t, r);
    r
  }

  lemma TrimInfix(s: string, t: string, r: string)
    requires |t| <= |s| && t == s[|s| - |t|..] && AllTrimmable(s[..|s| - |t|])
    requires |r| <= |t| && r == t[..|r|] && AllTrimmable(t[|r|..])
    ensures exists i, j :: 0 <= i <= j <= |s| && r == s[i..j] && AllTrimmable(s[..i]) && AllTrimmable(s[j..])
  {
    var i, j := |s| - |t|, |s| - |t| + |r|;
    assert r == s[i..j];
    assert s[j..] == t[|r|..];
  }

  /** Trimming a kept core padded with trimmable characters on both sides gives back the core. */
  lemma {:induction false} TrimPadded(a: string, m: string, b: string)
    requires AllTrimmable(a) && AllTrimmable(b)
    requires |m| > 0 ==> !IsTrimmable(m[0]) && !IsTrimmable(m[|m| - 1])
    ensures Trim(a + m + b) == m
  {
    if |m| == 0 {
      assert AllTrimmable(a + m + b);
    } else {
      assert a + m + b == a + (m + b);
      TrimStartPadded(a, m + b);
      TrimEndPadded(m, b);
    }
  }

  lemma {:induction false} TrimStartPadded(a: string, t: string)
    requires AllTrimmable(a)
    requires |t| > 0 ==> !IsTrimmable(t[0])
    ensures TrimStart(a + t) == t
  {
    if |a| > 0 {
      assert (a + t)[1..] == a[1..] + t;
      TrimStartPadded(a[1..], t);
    } else {
      assert a + t == t;
    }
  }

  lemma {:induction false} TrimEndPadded(m: string, b: string)
    requires AllTrimmable(b)
    requires |m| > 0 && !IsTrimmable(m[|m| - 1])
    ensures TrimEnd(m + b) == m
  {
    if |b| > 0 {
      assert (m + b)[..|m + b| - 1] == m + b[..|b| - 1];
      TrimEndPadded(m, b[..|b| - 1]);
    } else {
      assert m + b == m;
    }
  }

  /** Trimming twice is trimming once. */
  lemma TrimIdempotent(s: string)
    ensures Trim(Trim(s)) == Trim(s)
  {
    var r := Trim(s);
    TrimPadded([], r, []);
    assert [] + r + [] == r;
  }

  /** `toLowerCase` on one character, for the ASCII letters. */
  function LowerChar(c: char): char {
    if 'A' <= c <= 'Z' then (c as int - 'A' as int + 'a' as int) as char else c
  }

  /** `s.toLowerCase()` for ASCII text: every upper-case letter becomes lower case, nothing else changes. */
  function LowerAscii(s: string): (r: string)
    ensures |r| == |s|
    ensures forall i :: 0 <= i < |s| ==> r[i] == LowerChar(s[i])
  {
    if |s| == 0 then [] else [LowerChar(s[0])] + LowerAscii(s[1..])
  }

  /** Lower-casing leaves no upper-case ASCII letter and is idempotent. */
  lemma LowerAsciiIdempotent(s: string)
    ensures forall i :: 0 <= i < |s| ==> !('A' <= LowerAscii(s)[i] <= 'Z')
    ensures LowerAscii(LowerAscii(s)) == LowerAscii(s)
  {
  }

  /**
   * Splits s at the first occurrence of c into the text before it and the
   * text after it; None when c does not occur.
   */
  function SplitAtFirst(s: string, c: char): (r: Option<(string, string)>)
    ensures r.None? <==> c !in s
    ensures r.Some? ==> r.value.0 + [c] + r.value.1 == s && c !in r.value.0
  {
    if |s| == 0 then None
    else if s[0] == c then Some(([], s[1..]))
    else
      match SplitAtFirst(s[1..], c)
      case None => None
      case Some((before, after)) =>
        assert [s[0]] + before + [c] + after == s;
        Some(([s[0]] + before, after))
  }

  /** Splitting undoes joining at a character the first part does not contain. */
  lemma {:induction false} SplitAtFirstJoin(a: string, c: char, b: string)
    requires c !in a
    ensures SplitAtFirst(a + [c] + b, c) == Some((a, b))
  {
    if |a| == 0 {
      assert a + [c] + b == [c] + b;
    } else {
      assert (a + [c] + b)[1..] == a[1..] + [c] + b;
      SplitAtFirstJoin(a[1..], c, b);
      assert [a[0]] + a[1..] == a;
    }
  }

  /** Trimming never removes a character that is not trimmable, and never adds one. */
  lemma TrimKeeps(value: string, c: char)
    requires !IsTrimmable(c)
    ensures c in Trim(value) <==> c in value
  {
    var i, j :| 0 <= i <= j <= |value| && Trim(value) == value[i..j]
      && AllTrimmable(value[..i]) && AllTrimmable(value[j..]);
    InfixKeeps(value, i, j, c);
  }

  /** A character that is not trimmable occurs in the infix exactly when it occurs at all. */
  lemma InfixKeeps(value: string, i: int, j: int, c: char)
    requires 0 <= i <= j <= |value|
    requires AllTrimmable(value[..i]) && AllTrimmable(value[j..])
    requires !IsTrimmable(c)
    ensures c in value[i..j] <==> c in value
  {
    if c in value {
      var k :| 0 <= k < |value| && value[k] == c;
      MarginsTrimmable(value, i, j);
      assert value[i..j][k - i] == c;
    }
  }

  /** Everything outside the trimmed infix is trimmable. */
  lemma MarginsTrimmable(value: string, i: int, j: int)
    requires 0 <= i <= j <= |value|
    requires AllTrimmable(value[..i]) && AllTrimmable(value[j..])
    ensures forall k :: 0 <= k < i ==> IsTrimmable(value[k])
    ensures forall k :: j <= k < |value| ==> IsTrimmable(value[k])
  {
    forall k | 0 <= k < i
      ensures IsTrimmable(value[k])
    {
      assert value[..i][k] == value[k];
    }
    forall k | j <= k < |value|
      ensures IsTrimmable(value[k])
    {
      assert value[j..][k - j] == value[k];
    }
  }
}
