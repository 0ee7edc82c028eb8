/**
 * rawurlencode as section 2.1 and section 2.3 of RFC 3986 describe it: the
 * unreserved bytes A-Z a-z 0-9 - . _ ~ stay as they are, every other byte
 * becomes '%' and two upper-case hexadecimal digits. Decode is its partner:
 * it reads such text back, and fails on a '%' not followed by two hex digits.
 */
module RawUrl {
  import opened PhpStrings
  import opened Wrappers

  const PERCENT: byte := 37  // '%'

  /** The unreserved set of section 2.3 of RFC 3986. */
  predicate IsUnreserved(b: byte)
  {
    (65 <= b <= 90) || (97 <= b <= 122) || (48 <= b <= 57)  // A-Z a-z 0-9
    || b == 45 || b == 46 || b == 95 || b == 126            // - . _ ~
  }

  predicate IsUpperHex(b: byte) { (48 <= b <= 57) || (65 <= b <= 70) }  // 0-9 A-F

  predicate IsHex(b: byte) { IsUpperHex(b) || (97 <= b <= 102) }       // also a-f

  /** The upper-case hexadecimal digit of a value below 16. */
  function HexDigit(n: int): (h: byte)
    requires 0 <= n < 16
    ensures IsUpperHex(h)
  {
    if n < 10 then 48 + n else 55 + n
  }

  /** The value of a hexadecimal digit, either case. */
  function HexValue(h: byte): (n: int)
    requires IsHex(h)
    ensures 0 <= n < 16
  {
    if h <= 57 then h - 48 else if h <= 70 then h - 55 else h - 87
  }

  lemma HexValueOfDigit(n: int)
    requires 0 <= n < 16
    ensures HexValue(HexDigit(n)) == n
  {
  }

  /** The byte written as the escape '%' h1 h2. */
  function EscapedByte(h1: byte, h2: byte): byte
    requires IsHex(h1) && IsHex(h2)
  {
    HexValue(h1) * 16 + HexValue(h2)
  }

  /** One byte as rawurlencode writes it. */
  function EncodeByte(b: byte): (t: seq<byte>)
    ensures IsUnreserved(b) ==> t == [b]
    ensures !IsUnreserved(b) ==> |t| == 3 && t[0] == PERCENT && IsUpperHex(t[1]) && IsUpperHex(t[2])
                                 && EscapedByte(t[1], t[2]) == b
  {
    if IsUnreserved(b) then [b]
    else
      HexValueOfDigit(b / 16);
      HexValueOfDigit(b % 16);
      [PERCENT, HexDigit(b / 16), HexDigit(b % 16)]
  }

  /**
   * Text in the form rawurlencode produces: unreserved bytes, and escapes
   * '%' h1 h2 with upper-case digits that stand for a byte outside the
   * unreserved set.
   */
  predicate Canonical(t: seq<byte>)
    decreases |t|
  {
    t == []
    || (IsUnreserved(t[0]) && Canonical(t[1..]))
    || (|t| >= 3 && t[0] == PERCENT && IsUpperHex(t[1]) && IsUpperHex(t[2])
        && !IsUnreserved(EscapedByte(t[1], t[2])) && Canonical(t[3..]))
  }

  /** rawurlencode of a whole string: the bytes encoded one after the other. */
  function Encode(s: seq<byte>): seq<byte>
  {
    if s == [] then [] else EncodeByte(s[0]) + Encode(s[1..])
  }

  /**
   * The encoding is at least as long as the input, empty only for the empty
   * input, and made only of unreserved bytes, '%' and upper-case hex digits.
   */
  lemma {:induction false} EncodeAlphabet(s: seq<byte>)
    ensures |Encode(s)| >= |s| && (Encode(s) == [] <==> s == [])
    ensures forall i | 0 <= i < |Encode(s)| ::
              IsUnreserved(Encode(s)[i]) || Encode(s)[i] == PERCENT || IsUpperHex(Encode(s)[i])
    decreases |s|
  {
    if s != [] {
      EncodeAlphabet(s[1..]);
      var e := EncodeByte(s[0]);
      var t := Encode(s);
      assert t == e + Encode(s[1..]);
      forall i | 0 <= i < |t| ensures IsUnreserved(t[i]) || t[i] == PERCENT || IsUpperHex(t[i]) {
        if i >= |e| {
          assert t[i] == Encode(s[1..])[i - |e|];
        }
      }
    }
  }

  /** Percent-decoding; None when a '%' is not followed by two hex digits. */
  function Decode(t: seq<byte>): Option<seq<byte>>
    decreases |t|
  {
    if t == [] then Some([])
    else if t[0] == PERCENT then
      if |t| >= 3 && IsHex(t[1]) && IsHex(t[2]) then
        match Decode(t[3..])
        case None => None
        case Some(rest) => Some([EscapedByte(t[1], t[2])] + rest)
      else None
    else
      match Decode(t[1..])
      case None => None
      case Some(rest) => Some([t[0]] + rest)
  }

  /** Encoding never produces a '/', so an encoded segment stays one segment. */
  lemma EncodeHasNoSlash(s: seq<byte>)
    ensures SLASH !in Encode(s)
  {
    var t := Encode(s);
    EncodeAlphabet(s);
    forall i | 0 <= i < |t| ensures t[i] != SLASH {
      assert IsUnreserved(t[i]) || t[i] == PERCENT || IsUpperHex(t[i]);
    }
  }

  /** What rawurlencode produces is always in canonical form. */
  lemma {:induction false} EncodeCanonical(s: seq<byte>)
    ensures Canonical(Encode(s))
    decreases |s|
  {
    if s != [] {
      EncodeCanonical(s[1..]);
      var t := Encode(s);
      var e := EncodeByte(s[0]);
      assert t == e + Encode(s[1..]);
      if IsUnreserved(s[0]) {
        assert t[1..] == Encode(s[1..]);
      } else {
        assert t[3..] == Encode(s[1..]);
      }
    }
  }

  /** Decoding what rawurlencode produced gives back exactly the original bytes. */
  lemma {:induction false} DecodeEncode(s: seq<byte>)
    ensures Decode(Encode(s)) == Some(s)
    decreases |s|
  {
    if s != [] {
      DecodeEncode(s[1..]);
      var t := Encode(s);
      assert t == EncodeByte(s[0]) + Encode(s[1..]);
      if IsUnreserved(s[0]) {
        assert t[1..] == Encode(s[1..]);
      } else {
        assert t[3..] == Encode(s[1..]);
      }
      assert [s[0]] + s[1..] == s;
    }
  }

  /**
   * Conversely, canonical text decodes, and encoding the decoded bytes gives
   * the text back: Encode is a bijection onto canonical text.
   */
  lemma {:induction false} EncodeDecode(t: seq<byte>)
    requires Canonical(t)
    ensures Decode(t).Some? && Encode(Decode(t).value) == t
    decreases |t|
  {
    if t != [] {
      if IsUnreserved(t[0]) {
        EncodeDecode(t[1..]);
        var rest := Decode(t[1..]).value;
        assert Decode(t) == Some([t[0]] + rest);
        assert Encode([t[0]] + rest) == [t[0]] + Encode(rest);
        assert t == [t[0]] + t[1..];
      } else {
        EncodeDecode(t[3..]);
        var rest := Decode(t[3..]).value;
        var b := EscapedByte(t[1], t[2]);
        assert Decode(t) == Some([b] + rest);
        EncodeEscape(t[1], t[2]);
        assert ([b] + rest)[1..] == rest;
        assert Encode([b] + rest) == t[..3] + Encode(rest);
        assert t == t[..3] + t[3..];
      }
    }
  }

  /** An escape with upper-case digits of a reserved byte is how rawurlencode writes that byte. */
  lemma EncodeEscape(h1: byte, h2: byte)
    requires IsUpperHex(h1) && IsUpperHex(h2) && !IsUnreserved(EscapedByte(h1, h2))
    ensures EncodeByte(EscapedByte(h1, h2)) == [PERCENT, h1, h2]
  {
    var e := EncodeByte(EscapedByte(h1, h2));
    assert HexValue(e[1]) == HexValue(h1) && HexValue(e[2]) == HexValue(h2);
  }

  /** Two strings with the same encoding are the same string. */
  lemma EncodeInjective(s1: seq<byte>, s2: seq<byte>)
    requires Encode(s1) == Encode(s2)
    ensures s1 == s2
  {
    DecodeEncode(s1);
    DecodeEncode(s2);
  }

  /** Text made only of unreserved bytes is left exactly as it is. */
  lemma {:induction false} EncodeUnreserved(s: seq<byte>)
    requires forall i | 0 <= i < |s| :: IsUnreserved(s[i])
    ensures Encode(s) == s
    decreases |s|
  {
    if s != [] {
      EncodeUnreserved(s[1..]);
      assert [s[0]] + s[1..] == s;
    }
  }

  /** A single space, 32, is written '%' '2' '0'. */
  lemma EncodeOneSpace()
    ensures Encode([32]) == [PERCENT, 50, 48]
  {
    assert EncodeByte(32) == [PERCENT, 50, 48];
    assert Encode([32]) == EncodeByte(32) + Encode([]);
  }

  /** A space between unreserved text is written as "%20": "my clip" becomes "my%20clip". */
  lemma EncodeSpace(a: seq<byte>, b: seq<byte>)
    requires forall i | 0 <= i < |a| :: IsUnreserved(a[i])
    requires forall i | 0 <= i < |b| :: IsUnreserved(b[i])
    ensures Encode(a + ([32] + b)) == a + ([PERCENT, 50, 48] + b)  // a + "%20" + b
  {
    EncodeConcat([32], b);
    EncodeOneSpace();
    EncodeUnreserved(b);
    EncodeAfterUnreserved(a, [32] + b);
  }

  /** An unreserved prefix passes through, and the rest is encoded after it. */
  lemma EncodeAfterUnreserved(a: seq<byte>, s: seq<byte>)
    requires forall i | 0 <= i < |a| :: IsUnreserved(a[i])
    ensures Encode(a + s) == a + Encode(s)
  {
    EncodeConcat(a, s);
    EncodeUnreserved(a);
  }

  /** Encoding is applied byte by byte, so it distributes over concatenation. */
  lemma {:induction false} EncodeConcat(a: seq<byte>, b: seq<byte>)
    ensures Encode(a + b) == Encode(a) + Encode(b)
    decreases |a|
  {
    if a == [] {
      assert a + b == b;
    } else {
      assert (a + b)[1..] == a[1..] + b;
      EncodeConcat(a[1..], b);
    }
  }
}
