/**
 * JavaScript strings as UTF-16 code units, and the "code unit less than"
 * order of the WHATWG Infra Standard, which `URLSearchParams.sort()` uses to
 * compare names.
 *
 * Dafny strings hold Unicode scalar values; the names a `URLSearchParams`
 * object stores are scalar value strings too, so `Encode` loses nothing, and
 * `DecodeEncode` proves it.
 */
module CodeUnits {
  import opened Options

  /** One UTF-16 code unit. */
  type Unit = u: int | 0 <= u < 0x1_0000

  predicate IsHighSurrogate(u: int) { 0xD800 <= u < 0xDC00 }

  predicate IsLowSurrogate(u: int) { 0xDC00 <= u < 0xE000 }

  /** The one or two code units of a scalar value. */
  function EncodeChar(c: char): seq<Unit> {
    var v := c as int;
    if v < 0x1_0000 then [v as Unit]
    else [(0xD800 + (v - 0x1_0000) / 0x400) as Unit, (0xDC00 + (v - 0x1_0000) % 0x400) as Unit]
  }

  /** The code units of a string, as JavaScript sees it. */
  function Encode(s: string): seq<Unit> {
    if |s| == 0 then [] else EncodeChar(s[0]) + Encode(s[1..])
  }

  /** The scalar value a high and a low surrogate stand for. */
  function SurrogatePair(hi: Unit, lo: Unit): (c: int)
    requires IsHighSurrogate(hi) && IsLowSurrogate(lo)
    ensures 0x1_0000 <= c < 0x11_0000
  {
    0x1_0000 + (hi as int - 0xD800) * 0x400 + (lo as int - 0xDC00)
  }

  /** Decodes well-formed UTF-16; an unpaired surrogate gives None. */
  function Decode(u: seq<Unit>): Option<string>
    decreases |u|
  {
    if |u| == 0 then Some([])
    else if IsHighSurrogate(u[0]) then
      if |u| >= 2 && IsLowSurrogate(u[1]) then
        var c := SurrogatePair(u[0], u[1]);
        match Decode(u[2..])
        case Some(rest) => Some([c as char] + rest)
        case None => None
      else None
    else if IsLowSurrogate(u[0]) then None
    else
      match Decode(u[1..])
      case Some(rest) => Some([u[0] as char] + rest)
      case None => None
  }

  /** Decoding one encoded scalar value gives it back. */
  lemma DecodeEncodeChar(c: char, rest: seq<Unit>)
    ensures |EncodeChar(c)| == 1 ==> !IsHighSurrogate(EncodeChar(c)[0]) && !IsLowSurrogate(EncodeChar(c)[0])
    ensures |EncodeChar(c)| == 2 ==> IsHighSurrogate(EncodeChar(c)[0]) && IsLowSurrogate(EncodeChar(c)[1])
    ensures |EncodeChar(c)| == 1 ==> EncodeChar(c)[0] as char == c
    ensures |EncodeChar(c)| == 2 ==>
      SurrogatePair(EncodeChar(c)[0], EncodeChar(c)[1]) as char == c
  {
    var v := c as int;
    if v >= 0x1_0000 {
      var w := v - 0x1_0000;
      assert w == (w / 0x400) * 0x400 + w % 0x400;
    }
  }

  /** UTF-16 encoding is a round trip: every string is recovered from its code units. */
  lemma {:induction false} DecodeEncode(s: string)
    ensures Decode(Encode(s)) == Some(s)
  {
    if |s| > 0 {
      var e := EncodeChar(s[0]);
      DecodeEncodeChar(s[0], Encode(s[1..]));
      DecodeEncode(s[1..]);
      var u := Encode(s);
      assert u == e + Encode(s[1..]);
      assert u[|e|..] == Encode(s[1..]);
      if |e| == 1 {
        assert u[0] == e[0];
      } else {
        assert u[0] == e[0] && u[1] == e[1];
      }
      assert [s[0]] + s[1..] == s;
    }
  }

  /** Different strings have different code units. */
  lemma EncodeInjective(a: string, b: string)
    requires Encode(a) == Encode(b)
    ensures a == b
  {
    DecodeEncode(a);
    DecodeEncode(b);
  }

  /** The Infra Standard's "code unit less than", computed one unit at a time. */
  predicate UnitsLess(a: seq<Unit>, b: seq<Unit>) {
    if |b| == 0 then false
    else if |a| == 0 then true
    else a[0] < b[0] || (a[0] == b[0] && UnitsLess(a[1..], b[1..]))
  }

  predicate IsPrefix(a: seq<Unit>, b: seq<Unit>) {
    |a| <= |b| && b[..|a|] == a
  }

  /**
   * "Code unit less than" as the Infra Standard writes its steps: false when
   * b is a prefix of a, true when a is a prefix of b, otherwise decided by the
   * first index at which the two differ.
   */
  predicate InfraLess(a: seq<Unit>, b: seq<Unit>) {
    if IsPrefix(b, a) then false
    else if IsPrefix(a, b) then true
    else exists n :: 0 <= n < |a| && n < |b| && a[..n] == b[..n] && a[n] < b[n]
  }

  lemma PrefixTail(a: seq<Unit>, b: seq<Unit>)
    requires |a| > 0 && |b| > 0 && a[0] == b[0]
    ensures IsPrefix(a, b) <==> IsPrefix(a[1..], b[1..])
  {
    if |a| <= |b| {
      assert b[..|a|] == [b[0]] + b[1..][..|a| - 1];
      assert a == [a[0]] + a[1..];
    }
  }

  /** Differing first units decide both orders alike. */
  lemma InfraLessHead(a: seq<Unit>, b: seq<Unit>)
    requires |a| > 0 && |b| > 0 && a[0] != b[0]
    ensures InfraLess(a, b) <==> a[0] < b[0]
  {
    assert !IsPrefix(b, a) && !IsPrefix(a, b);
    if a[0] < b[0] {
      assert a[..0] == b[..0];
    } else {
      forall n | 0 <= n < |a| && n < |b| && a[..n] == b[..n]
        ensures a[n] >= b[n]
      {
        if n > 0 {
          assert false;
        }
      }
    }
  }

  /** A first difference after an equal first unit is a first difference of the tails. */
  lemma FirstDifferenceTail(a: seq<Unit>, b: seq<Unit>)
    requires |a| > 0 && |b| > 0 && a[0] == b[0]
    ensures (exists n :: 0 <= n < |a| && n < |b| && a[..n] == b[..n] && a[n] < b[n])
        <==> (exists m :: 0 <= m < |a| - 1 && m < |b| - 1 && a[1..][..m] == b[1..][..m] && a[1..][m] < b[1..][m])
  {
    var a', b' := a[1..], b[1..];
    if m :| 0 <= m < |a'| && m < |b'| && a'[..m] == b'[..m] && a'[m] < b'[m] {
      assert a[..m + 1] == [a[0]] + a'[..m];
      assert b[..m + 1] == [b[0]] + b'[..m];
      assert a[m + 1] == a'[m] && b[m + 1] == b'[m];
    }
    if n :| 0 <= n < |a| && n < |b| && a[..n] == b[..n] && a[n] < b[n] {
      assert n > 0;
      assert a'[..n - 1] == a[..n][1..];
      assert b'[..n - 1] == b[..n][1..];
      assert a'[n - 1] == a[n] && b'[n - 1] == b[n];
    }
  }

  /** The recursive order is exactly the standard's order. */
  lemma {:induction false} UnitsLessIsInfraLess(a: seq<Unit>, b: seq<Unit>)
    ensures UnitsLess(a, b) <==> InfraLess(a, b)
  {
    if |b| == 0 {
      assert IsPrefix(b, a);
    } else if |a| == 0 {
      assert !IsPrefix(b, a) && IsPrefix(a, b);
    } else if a[0] != b[0] {
      InfraLessHead(a, b);
    } else {
      UnitsLessIsInfraLess(a[1..], b[1..]);
      PrefixTail(a, b);
      PrefixTail(b, a);
      FirstDifferenceTail(a, b);
    }
  }

  lemma {:induction false} UnitsLessIrreflexive(a: seq<Unit>)
    ensures !UnitsLess(a, a)
  {
    if |a| > 0 {
      UnitsLessIrreflexive(a[1..]);
    }
  }

  lemma {:induction false} UnitsLessTransitive(a: seq<Unit>, b: seq<Unit>, c: seq<Unit>)
    requires UnitsLess(a, b) && UnitsLess(b, c)
    ensures UnitsLess(a, c)
  {
    if |a| > 0 && a[0] == b[0] && b[0] == c[0] {
      UnitsLessTransitive(a[1..], b[1..], c[1..]);
    }
  }

  lemma {:induction false} UnitsLessTrichotomy(a: seq<Unit>, b: seq<Unit>)
    ensures UnitsLess(a, b) || UnitsLess(b, a) || a == b
  {
    if |a| > 0 && |b| > 0 && a[0] == b[0] {
      UnitsLessTrichotomy(a[1..], b[1..]);
      if a[1..] == b[1..] {
        assert a == [a[0]] + a[1..] && b == [b[0]] + b[1..];
      }
    }
  }

  /** Name order used by `URLSearchParams.sort()`: code unit less than on the UTF-16 encodings. */
  predicate Less(a: string, b: string) {
    UnitsLess(Encode(a), Encode(b))
  }

  /** `Less` is a strict total order on strings. */
  lemma LessIrreflexive(a: string)
    ensures !Less(a, a)
  {
    UnitsLessIrreflexive(Encode(a));
  }

  lemma LessTransitive(a: string, b: string, c: string)
    requires Less(a, b) && Less(b, c)
    ensures Less(a, c)
  {
    UnitsLessTransitive(Encode(a), Encode(b), Encode(c));
  }

  lemma LessTrichotomy(a: string, b: string)
    ensures Less(a, b) || Less(b, a) || a == b
  {
    UnitsLessTrichotomy(Encode(a), Encode(b));
    if Encode(a) == Encode(b) {
      EncodeInjective(a, b);
    }
  }

  /** Two strings that are not less than each other are equal. */
  lemma NotLessAntisymmetric(a: string, b: string)
    requires !Less(a, b) && !Less(b, a)
    ensures a == b
  {
    LessTrichotomy(a, b);
  }

  /** A name below another is not above it. */
  lemma LessAsymmetric(a: string, b: string)
    requires Less(a, b)
    ensures !Less(b, a)
  {
    LessIrreflexive(a);
    if Less(b, a) {
      LessTransitive(a, b, a);
    }
  }

  /** "Not less" chains: if b is not below a and c is not below b, then c is not below a. */
  lemma NotLessTransitive(a: string, b: string, c: string)
    requires !Less(b, a) && !Less(c, b)
    ensures !Less(c, a)
  {
    LessTrichotomy(a, b);
    LessTrichotomy(b, c);
    if a != b && b != c {
      LessTransitive(a, b, c);
      LessAsymmetric(a, c);
    }
  }

  /** A string is below every proper extension of it. */
  lemma {:induction false} UnitsLessPrefix(a: seq<Unit>, b: seq<Unit>)
    requires |b| > 0
    ensures UnitsLess(a, a + b)
  {
    if |a| > 0 {
      assert (a + b)[1..] == a[1..] + b;
      UnitsLessPrefix(a[1..], b);
    }
  }

  lemma {:induction false} EncodeAppend(a: string, b: string)
    ensures Encode(a + b) == Encode(a) + Encode(b)
  {
    if |a| > 0 {
      assert (a + b)[1..] == a[1..] + b;
      EncodeAppend(a[1..], b);
    } else {
      assert a + b == b;
    }
  }

  lemma LessProperPrefix(a: string, b: string)
    requires |b| > 0
    ensures Less(a, a + b)
  {
    EncodeAppend(a, b);
    UnitsLessPrefix(Encode(a), Encode(b));
  }

  /** Strings whose first scalar values are below U+10000 and differ compare by those values. */
  lemma LessByFirstChar(a: string, b: string)
    requires |a| > 0 && |b| > 0
    requires a[0] as int < b[0] as int < 0x1_0000
    ensures Less(a, b)
  {
  }
}
