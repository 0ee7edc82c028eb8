/**
 * PHP's byte-string functions used by the scan loop of api.php: strtolower,
 * ltrim, rtrim, str_replace, explode, implode and SplFileInfo::getExtension.
 * A PHP string is a sequence of bytes with no encoding attached.
 */
module PhpStrings {

  type byte = b: int | 0 <= b < 256

  const SLASH: byte := 47      // '/'
  const BACKSLASH: byte := 92  // '\'
  const DOT: byte := 46        // '.'

  /** The bytes of an ASCII literal, one byte per character. */
  function Bytes(s: string): seq<byte>
  {
    seq(|s|, i requires 0 <= i < |s| => (s[i] as int) % 256)
  }

  predicate IsUpper(b: byte) { 65 <= b <= 90 }  // 'A'..'Z'

  /** strtolower on one byte: only the ASCII letters A-Z change. */
  function LowerByte(b: byte): (r: byte)
    ensures !IsUpper(r)
    ensures IsUpper(b) ==> 97 <= r <= 122 && r - 97 == b - 65  // 'A'..'Z' to the same letter in 'a'..'z'
    ensures !IsUpper(b) ==> r == b
  {
    if IsUpper(b) then b + 32 else b
  }

  /** strtolower: every byte A-Z becomes a-z, every other byte is kept. */
  function ToLower(s: seq<byte>): seq<byte>
  {
    seq(|s|, i requires 0 <= i < |s| => LowerByte(s[i]))
  }

  /** The whole upper-case alphabet 'A'..'Z' becomes the lower-case alphabet 'a'..'z', letter for letter. */
  lemma ToLowerAlphabet()
    ensures ToLower(seq(26, i requires 0 <= i < 26 => 65 + i)) == seq(26, i requires 0 <= i < 26 => 97 + i)
  {
    var upper: seq<byte> := seq(26, i requires 0 <= i < 26 => 65 + i);
    forall i | 0 <= i < 26
      ensures ToLower(upper)[i] == 97 + i
    {
      assert IsUpper(upper[i]);
    }
  }

  /** Lower-casing twice is lower-casing once. */
  lemma ToLowerIdempotent(s: seq<byte>)
    ensures ToLower(ToLower(s)) == ToLower(s)
  {
    assert forall i | 0 <= i < |s| :: ToLower(ToLower(s))[i] == ToLower(s)[i];
  }

  /** ltrim($s, $chars): drops the longest prefix made only of bytes in `chars`. */
  function LTrim(s: seq<byte>, chars: set<byte>): seq<byte>
  {
    if s != [] && s[0] in chars then LTrim(s[1..], chars) else s
  }

  /** ltrim keeps a suffix, every byte it drops is in the set, and what it keeps does not start with one. */
  lemma {:induction false} LTrimSpec(s: seq<byte>, chars: set<byte>)
    ensures var r := LTrim(s, chars);
            |r| <= |s| && r == s[|s| - |r|..] &&
            (forall i | 0 <= i < |s| - |r| :: s[i] in chars) &&
            (r == [] || r[0] !in chars)
  {
    if s != [] && s[0] in chars {
      LTrimSpec(s[1..], chars);
      var r := LTrim(s, chars);
      assert s[1..][|s| - 1 - |r|..] == s[|s| - |r|..];
      assert forall i | 1 <= i < |s| - |r| :: s[i] == s[1..][i - 1];
    }
  }

  /** rtrim($s, $chars): drops the longest suffix made only of bytes in `chars`. */
  function RTrim(s: seq<byte>, chars: set<byte>): seq<byte>
  {
    if s != [] && s[|s| - 1] in chars then RTrim(s[..|s| - 1], chars) else s
  }

  /** rtrim keeps a prefix, every byte it drops is in the set, and what it keeps does not end with one. */
  lemma {:induction false} RTrimSpec(s: seq<byte>, chars: set<byte>)
    ensures var r := RTrim(s, chars);
            |r| <= |s| && r == s[..|r|] &&
            (forall i | |r| <= i < |s| :: s[i] in chars) &&
            (r == [] || r[|r| - 1] !in chars)
  {
    if s != [] && s[|s| - 1] in chars {
      RTrimSpec(s[..|s| - 1], chars);
      var r := RTrim(s, chars);
      assert s[..|s| - 1][..|r|] == s[..|r|];
      assert forall i | |r| <= i < |s| - 1 :: s[i] == s[..|s| - 1][i];
    }
  }

  /** rtrim removes exactly one trailing byte of the set when the byte before it is not in the set. */
  lemma RTrimOne(s: seq<byte>, c: byte, chars: set<byte>)
    requires c in chars && (s == [] || s[|s| - 1] !in chars)
    ensures RTrim(s + [c], chars) == s
  {
    assert (s + [c])[..|s|] == s;
  }

  /** `search` occurs in `s` starting at position `i`. */
  predicate OccursAt(search: seq<byte>, s: seq<byte>, i: int)
  {
    0 <= i <= |s| && search <= s[i..]
  }

  /**
   * str_replace($search, $replace, $s) for one search string: scans left to
   * right and replaces EVERY non-overlapping occurrence, wherever it is.
   * An empty search string leaves the subject unchanged.
   */
  function StrReplace(s: seq<byte>, search: seq<byte>, replace: seq<byte>): seq<byte>
    decreases |s|
  {
    if search == [] || s == [] then s
    else if search <= s then replace + StrReplace(s[|search|..], search, replace)
    else [s[0]] + StrReplace(s[1..], search, replace)
  }

  /** Where the search string does not occur, str_replace changes nothing. */
  lemma {:induction false} StrReplaceNoOccurrence(s: seq<byte>, search: seq<byte>, replace: seq<byte>)
    requires forall i | 0 <= i <= |s| :: !OccursAt(search, s, i)
    ensures StrReplace(s, search, replace) == s
    decreases |s|
  {
    if search != [] && s != [] {
      assert !OccursAt(search, s, 0);
      assert s[0..] == s;
      forall i | 0 <= i <= |s[1..]| ensures !OccursAt(search, s[1..], i) {
        assert !OccursAt(search, s, i + 1);
        assert s[1..][i..] == s[i + 1..];
      }
      StrReplaceNoOccurrence(s[1..], search, replace);
    }
  }

  /** A search string with a byte that `s` never holds does not occur in `s`. */
  lemma NoOccurrenceWithoutByte(search: seq<byte>, s: seq<byte>, k: int)
    requires 0 <= k < |search| && search[k] !in s
    ensures forall i | 0 <= i <= |s| :: !OccursAt(search, s, i)
  {
    forall i | 0 <= i <= |s| ensures !OccursAt(search, s, i) {
      if i + k < |s| {
        assert s[i + k] in s;
        assert s[i..][k] == s[i + k];
      }
    }
  }

  /**
   * Removing a non-empty `root` from `root + rest` gives back `rest` when the
   * root does not occur again inside `rest`.
   */
  lemma RemoveLeadingRoot(root: seq<byte>, rest: seq<byte>)
    requires root != []
    requires forall i | 0 <= i <= |rest| :: !OccursAt(root, rest, i)
    ensures StrReplace(root + rest, root, []) == rest
  {
    assert (root + rest)[|root|..] == rest;
    StrReplaceNoOccurrence(rest, root, []);
  }

  /** Replacing one byte by another maps every position on its own and keeps the length. */
  lemma {:induction false} StrReplaceByte(s: seq<byte>, from: byte, to: byte)
    ensures |StrReplace(s, [from], [to])| == |s|
    ensures forall i | 0 <= i < |s| ::
      StrReplace(s, [from], [to])[i] == (if s[i] == from then to else s[i])
    decreases |s|
  {
    if s != [] {
      StrReplaceByte(s[1..], from, to);
      if [from] <= s {
        assert s[|[from]|..] == s[1..];
      }
    }
  }

  /**
   * explode($d, $s): the pieces of `s` between occurrences of `d`, in order.
   * There is always at least one piece and no piece contains `d`.
   */
  function Explode(d: byte, s: seq<byte>): (parts: seq<seq<byte>>)
    ensures |parts| >= 1
    ensures forall k | 0 <= k < |parts| :: d !in parts[k]
    decreases |s|
  {
    if s == [] then [[]]
    else
      var rest := Explode(d, s[1..]);
      if s[0] == d then [[]] + rest
      else [[s[0]] + rest[0]] + rest[1..]
  }

  /** implode($d, $parts): the pieces joined with `d` between neighbours. */
  function Implode(d: byte, parts: seq<seq<byte>>): seq<byte>
    decreases |parts|
  {
    if parts == [] then []
    else if |parts| == 1 then parts[0]
    else parts[0] + [d] + Implode(d, parts[1..])
  }

  /** Every byte of a piece of explode is a byte of the string. */
  lemma {:induction false} ExplodeBytes(d: byte, s: seq<byte>, k: int, b: byte)
    requires 0 <= k < |Explode(d, s)| && b in Explode(d, s)[k]
    ensures b in s
    decreases |s|
  {
    if s != [] {
      var rest := Explode(d, s[1..]);
      if s[0] == d {
        ExplodeBytes(d, s[1..], k - 1, b);
      } else if k > 0 {
        ExplodeBytes(d, s[1..], k, b);
      } else if b != s[0] {
        ExplodeBytes(d, s[1..], 0, b);
      }
    }
  }

  /** Joining the pieces of explode gives back the string. */
  lemma {:induction false} ImplodeExplode(d: byte, s: seq<byte>)
    ensures Implode(d, Explode(d, s)) == s
    decreases |s|
  {
    if s != [] {
      var rest := Explode(d, s[1..]);
      ImplodeExplode(d, s[1..]);
      if s[0] == d {
        assert Explode(d, s)[1..] == rest;
      } else {
        var parts := Explode(d, s);
        assert parts[0] == [s[0]] + rest[0];
        if |rest| == 1 {
          assert parts == [[s[0]] + rest[0]];
        } else {
          assert parts[1..] == rest[1..];
          assert Implode(d, rest) == rest[0] + [d] + Implode(d, rest[1..]);
        }
      }
    }
  }

  /** A piece without `d`, followed by `d` and more text, is the first piece of explode. */
  lemma {:induction false} ExplodeCons(d: byte, a: seq<byte>, b: seq<byte>)
    requires d !in a
    ensures Explode(d, a + [d] + b) == [a] + Explode(d, b)
    decreases |a|
  {
    if a == [] {
      assert ([] + [d] + b)[1..] == b;
    } else {
      ExplodeCons(d, a[1..], b);
      assert (a + [d] + b)[1..] == a[1..] + [d] + b;
      assert [a[0]] + a[1..] == a;
    }
  }

  /** A string without `d` explodes into itself alone. */
  lemma {:induction false} ExplodeSingle(d: byte, a: seq<byte>)
    requires d !in a
    ensures Explode(d, a) == [a]
    decreases |a|
  {
    if a != [] {
      ExplodeSingle(d, a[1..]);
      assert [a[0]] + a[1..] == a;
    }
  }

  /** Exploding what implode joined gives back the pieces, when no piece contains `d`. */
  lemma {:induction false} ExplodeImplode(d: byte, parts: seq<seq<byte>>)
    requires parts != []
    requires forall k | 0 <= k < |parts| :: d !in parts[k]
    ensures Explode(d, Implode(d, parts)) == parts
    decreases |parts|
  {
    if |parts| == 1 {
      ExplodeSingle(d, parts[0]);
    } else {
      ExplodeImplode(d, parts[1..]);
      ExplodeCons(d, parts[0], Implode(d, parts[1..]));
    }
  }

  /** The first piece of explode is empty exactly when `s` is empty or begins with `d`. */
  lemma ExplodeFirstEmpty(d: byte, s: seq<byte>)
    ensures Explode(d, s)[0] == [] <==> (s == [] || s[0] == d)
  {
  }

  /** The joined string begins with the first piece. */
  lemma ImplodeStartsWithFirst(d: byte, parts: seq<seq<byte>>)
    requires parts != []
    ensures parts[0] <= Implode(d, parts)
  {
  }

  /**
   * SplFileInfo::getExtension: the bytes after the last '.' of the name, or
   * nothing when the name has no '.'.
   */
  function Extension(name: seq<byte>): (ext: seq<byte>)
    ensures DOT !in ext
    ensures DOT !in name ==> ext == []
    ensures DOT in name ==> |ext| < |name| && name[|name| - |ext| - 1] == DOT && ext == name[|name| - |ext|..]
    decreases |name|
  {
    if name == [] || name[|name| - 1] == DOT then []
    else if DOT !in name[..|name| - 1] then []
    else Extension(name[..|name| - 1]) + [name[|name| - 1]]
  }

  /** A name that ends in '.' and dot-free bytes has exactly those bytes as its extension. */
  lemma ExtensionOfDotSuffix(name: seq<byte>, n: int)
    requires 0 <= n < |name| && name[|name| - n - 1] == DOT && DOT !in name[|name| - n..]
    ensures Extension(name) == name[|name| - n..]
  {
    var ext := Extension(name);
    assert name[|name| - n - 1] in name;
    assert forall j | |name| - n <= j < |name| :: name[j] == name[|name| - n..][j - (|name| - n)];
    assert forall j | 0 <= j < |ext| :: ext[j] == name[|name| - |ext| + j];
    assert |ext| == n;
  }

  /** Lower-casing commutes with taking a suffix. */
  lemma ToLowerSuffix(s: seq<byte>, k: int)
    requires 0 <= k <= |s|
    ensures ToLower(s)[k..] == ToLower(s[k..])
  {
    assert forall j | 0 <= j < |s| - k :: ToLower(s)[k..][j] == ToLower(s)[k + j];
  }

  /** Lower-casing a name lower-cases its extension and nothing more. */
  lemma ExtensionOfLower(name: seq<byte>)
    ensures Extension(ToLower(name)) == ToLower(Extension(name))
  {
    ToLowerKeepsDots(name);
    if DOT in name {
      var ext := Extension(name);
      var lower := ToLower(name);
      var n := |ext|;
      ToLowerSuffix(name, |name| - n);
      ToLowerKeepsDots(ext);
      assert lower[|lower| - n - 1] == DOT;
      ExtensionOfDotSuffix(lower, n);
    }
  }

  /** strtolower leaves '.' alone and produces '.' from nothing else. */
  lemma ToLowerKeepsDots(s: seq<byte>)
    ensures DOT in ToLower(s) <==> DOT in s
  {
    var r := ToLower(s);
    if DOT in s {
      var i :| 0 <= i < |s| && s[i] == DOT;
      assert r[i] == DOT;
    }
    if DOT in r {
      var i :| 0 <= i < |r| && r[i] == DOT;
      assert s[i] == DOT;
    }
  }

  /** Bytes at which no occurrence starts are copied through one by one. */
  lemma {:induction false} StrReplaceAfterPlain(a: seq<byte>, search: seq<byte>, rest: seq<byte>)
    requires search != []
    requires forall i | 0 <= i < |a| :: !OccursAt(search, a + rest, i)
    ensures StrReplace(a + rest, search, []) == a + StrReplace(rest, search, [])
    decreases |a|
  {
    if a == [] {
      assert a + rest == rest;
    } else {
      var s := a + rest;
      assert !OccursAt(search, s, 0);
      assert s[0..] == s;
      assert s[1..] == a[1..] + rest;
      forall i | 0 <= i < |a[1..]| ensures !OccursAt(search, a[1..] + rest, i) {
        assert !OccursAt(search, s, i + 1);
        assert s[i + 1..] == (a[1..] + rest)[i..];
      }
      StrReplaceAfterPlain(a[1..], search, rest);
      assert [a[0]] + a[1..] == a;
    }
  }

  /** The pieces joined with `sep` between neighbours (implode with a string glue). */
  function JoinWith(sep: seq<byte>, parts: seq<seq<byte>>): seq<byte>
    decreases |parts|
  {
    if parts == [] then []
    else if |parts| == 1 then parts[0]
    else parts[0] + (sep + JoinWith(sep, parts[1..]))
  }

  /** The pieces concatenated with nothing between them. */
  function Concat(parts: seq<seq<byte>>): seq<byte>
    decreases |parts|
  {
    if parts == [] then [] else parts[0] + Concat(parts[1..])
  }

  /**
   * str_replace deletes every occurrence of the root, not only a leading one:
   * p0 + root + p1 + ... + root + pn loses all n copies and becomes
   * p0 + p1 + ... + pn, provided no copy of the root starts inside a piece.
   * For example "/v/a/v/x" without "/v" is "/a/x".
   */
  lemma {:induction false} StrReplaceRemovesEveryOccurrence(root: seq<byte>, parts: seq<seq<byte>>)
    requires root != []
    requires forall k, i | 0 <= k < |parts| && 0 <= i < |parts[k]| ::
               !OccursAt(root, JoinWith(root, parts[k..]), i)
    ensures StrReplace(JoinWith(root, parts), root, []) == Concat(parts)
    decreases |parts|
  {
    if |parts| == 1 {
      var p := parts[0];
      assert parts[0..] == parts;
      forall i | 0 <= i <= |p| ensures !OccursAt(root, p, i) {
        if i < |p| {
          assert !OccursAt(root, JoinWith(root, parts[0..]), i);
        }
      }
      StrReplaceNoOccurrence(p, root, []);
      assert Concat(parts) == p + Concat(parts[1..]);
    } else if |parts| > 1 {
      var p, rest := parts[0], parts[1..];
      assert parts[0..] == parts;
      assert JoinWith(root, parts) == p + (root + JoinWith(root, rest));
      forall i | 0 <= i < |p| ensures !OccursAt(root, p + (root + JoinWith(root, rest)), i) {
        assert !OccursAt(root, JoinWith(root, parts[0..]), i);
      }
      StrReplaceAfterPlain(p, root, root + JoinWith(root, rest));
      StrReplaceMatch(root, JoinWith(root, rest));
      forall k, i | 0 <= k < |rest| && 0 <= i < |rest[k]|
        ensures !OccursAt(root, JoinWith(root, rest[k..]), i)
      {
        assert rest[k..] == parts[k + 1..];
        assert !OccursAt(root, JoinWith(root, parts[k + 1..]), i);
      }
      StrReplaceRemovesEveryOccurrence(root, rest);
    }
  }

  /** An occurrence at the front is deleted and the scan goes on after it. */
  lemma StrReplaceMatch(search: seq<byte>, rest: seq<byte>)
    requires search != []
    ensures StrReplace(search + rest, search, []) == StrReplace(rest, search, [])
  {
    assert search <= search + rest;
    assert (search + rest)[|search|..] == rest;
  }
}
