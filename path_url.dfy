/**
 * From a file's pathname to its public URL (api.php lines 41-55): remove the
 * video root, strip leading separators, turn '\' into '/', percent-encode each
 * '/'-separated segment, and join the result onto the base URL.
 */
module PathUrl {
  import opened PhpStrings
  import opened Wrappers
  import RawUrl

  /** The separators ltrim removes from the front of the relative path. */
  const SEPARATORS: set<byte> := {SLASH, BACKSLASH}

  /** The relative path with its separators normalised to '/'. */
  function RelativePath(root: seq<byte>, pathname: seq<byte>): seq<byte>
  {
    var stripped := LTrim(StrReplace(pathname, root, []), SEPARATORS);
    StrReplace(stripped, [BACKSLASH], [SLASH])
  }

  /**
   * The relative path holds no '\' and does not begin with a separator; it is
   * what remains of the pathname, once every occurrence of the root is removed
   * and the leading separators are trimmed, with each '\' turned into '/'.
   */
  lemma RelativePathNormalised(root: seq<byte>, pathname: seq<byte>)
    ensures var rel := RelativePath(root, pathname);
            BACKSLASH !in rel && (rel == [] || rel[0] !in SEPARATORS)
    ensures var stripped := LTrim(StrReplace(pathname, root, []), SEPARATORS);
            var rel := RelativePath(root, pathname);
            |rel| == |stripped| &&
            forall i | 0 <= i < |rel| :: rel[i] == (if stripped[i] == BACKSLASH then SLASH else stripped[i])
  {
    var stripped := LTrim(StrReplace(pathname, root, []), SEPARATORS);
    LTrimSpec(StrReplace(pathname, root, []), SEPARATORS);
    StrReplaceByte(stripped, BACKSLASH, SLASH);
  }

  /** When the root occurs only at the front, the relative path is the rest, trimmed and normalised. */
  lemma RelativePathOfRootPrefix(root: seq<byte>, rest: seq<byte>)
    requires root != []
    requires forall i | 0 <= i <= |rest| :: !OccursAt(root, rest, i)
    ensures RelativePath(root, root + rest) == StrReplace(LTrim(rest, SEPARATORS), [BACKSLASH], [SLASH])
  {
    RemoveLeadingRoot(root, rest);
  }

  /**
   * The usual case: for a pathname root + '/' + rel, where rel is already in
   * normal form and the root does not occur again after it, the relative path is rel.
   */
  lemma RelativePathOfChild(root: seq<byte>, rel: seq<byte>)
    requires root != []
    requires forall i | 0 <= i <= |rel| + 1 :: !OccursAt(root, [SLASH] + rel, i)
    requires BACKSLASH !in rel && (rel == [] || rel[0] !in SEPARATORS)
    ensures RelativePath(root, root + [SLASH] + rel) == rel
  {
    var rest := [SLASH] + rel;
    assert root + [SLASH] + rel == root + rest;
    RemoveLeadingRoot(root, rest);
    assert rest[1..] == rel;
    assert LTrim(rel, SEPARATORS) == rel;
    assert LTrim(rest, SEPARATORS) == rel;
    NoOccurrenceWithoutByte([BACKSLASH], rel, 0);
    StrReplaceNoOccurrence(rel, [BACKSLASH], [SLASH]);
  }

  /** rawurlencode applied to every segment, in order. */
  function EncodeSegments(parts: seq<seq<byte>>): seq<seq<byte>>
  {
    seq(|parts|, k requires 0 <= k < |parts| => RawUrl.Encode(parts[k]))
  }

  /** explode('/'), rawurlencode every part, implode('/'). */
  function EncodePath(rel: seq<byte>): seq<byte>
  {
    Implode(SLASH, EncodeSegments(Explode(SLASH, rel)))
  }

  /** Percent-decoding of every segment; None if one of them fails. */
  function DecodeSegments(parts: seq<seq<byte>>): (r: Option<seq<seq<byte>>>)
    ensures r.Some? ==> |r.value| == |parts|
    decreases |parts|
  {
    if parts == [] then Some([])
    else
      match RawUrl.Decode(parts[0])
      case None => None
      case Some(p) =>
        match DecodeSegments(parts[1..])
        case None => None
        case Some(ps) => Some([p] + ps)
  }

  /** The partner of EncodePath: split on '/', decode every segment, join with '/'. */
  function DecodePath(enc: seq<byte>): Option<seq<byte>>
  {
    match DecodeSegments(Explode(SLASH, enc))
    case None => None
    case Some(parts) => Some(Implode(SLASH, parts))
  }

  /**
   * Splitting the encoded path on '/' gives as many segments as splitting the
   * relative path, in the same order; each is the encoding of the original
   * segment, holds no '/', is in canonical percent-encoded form and decodes
   * back to the original segment.
   */
  lemma EncodePathSegments(rel: seq<byte>)
    ensures var parts := Explode(SLASH, rel);
            var encParts := Explode(SLASH, EncodePath(rel));
            |encParts| == |parts| &&
            forall k | 0 <= k < |parts| ::
              encParts[k] == RawUrl.Encode(parts[k]) && SLASH !in encParts[k] &&
              RawUrl.Canonical(encParts[k]) && RawUrl.Decode(encParts[k]) == Some(parts[k])
  {
    var parts := Explode(SLASH, rel);
    var enc := EncodeSegments(parts);
    forall k | 0 <= k < |enc| ensures SLASH !in enc[k] {
      RawUrl.EncodeHasNoSlash(parts[k]);
    }
    ExplodeImplode(SLASH, enc);
    forall k | 0 <= k < |parts|
      ensures RawUrl.Canonical(enc[k]) && RawUrl.Decode(enc[k]) == Some(parts[k])
    {
      RawUrl.EncodeCanonical(parts[k]);
      RawUrl.DecodeEncode(parts[k]);
    }
  }

  /** Decoding every encoded segment gives back the segments. */
  lemma {:induction false} DecodeSegmentsEncode(parts: seq<seq<byte>>)
    ensures DecodeSegments(EncodeSegments(parts)) == Some(parts)
    decreases |parts|
  {
    if parts != [] {
      RawUrl.DecodeEncode(parts[0]);
      assert EncodeSegments(parts)[1..] == EncodeSegments(parts[1..]);
      DecodeSegmentsEncode(parts[1..]);
      assert [parts[0]] + parts[1..] == parts;
    }
  }

  /** Decoding the encoded path segment by segment reconstructs the relative path exactly. */
  lemma DecodePathEncode(rel: seq<byte>)
    ensures DecodePath(EncodePath(rel)) == Some(rel)
  {
    var parts := Explode(SLASH, rel);
    EncodePathSegments(rel);
    assert Explode(SLASH, EncodePath(rel)) == EncodeSegments(parts);
    DecodeSegmentsEncode(parts);
    ImplodeExplode(SLASH, rel);
  }

  /** The encoded path begins with '/' only if the relative path does. */
  lemma EncodePathStart(rel: seq<byte>)
    requires rel == [] || rel[0] != SLASH
    ensures var enc := EncodePath(rel); enc == [] || enc[0] != SLASH
  {
    var parts := Explode(SLASH, rel);
    var encParts := EncodeSegments(parts);
    ImplodeStartsWithFirst(SLASH, encParts);
    ExplodeFirstEmpty(SLASH, rel);
    if |parts| == 1 {
      assert EncodePath(rel) == encParts[0];
    }
    if parts[0] != [] {
      RawUrl.EncodeHasNoSlash(parts[0]);
      assert encParts[0][0] in encParts[0];
    }
  }

  /** A path of unreserved bytes and '/' comes out of the encoding unchanged. */
  lemma EncodePathUnreserved(rel: seq<byte>)
    requires forall i | 0 <= i < |rel| :: RawUrl.IsUnreserved(rel[i]) || rel[i] == SLASH
    ensures EncodePath(rel) == rel
  {
    var parts := Explode(SLASH, rel);
    forall k | 0 <= k < |parts| ensures RawUrl.Encode(parts[k]) == parts[k] {
      forall i | 0 <= i < |parts[k]| ensures RawUrl.IsUnreserved(parts[k][i]) {
        ExplodeBytes(SLASH, rel, k, parts[k][i]);
        assert parts[k][i] != SLASH;
      }
      RawUrl.EncodeUnreserved(parts[k]);
    }
    assert EncodeSegments(parts) == parts;
    ImplodeExplode(SLASH, rel);
  }

  /** rtrim($base, '/') . '/' . ltrim($encoded, '/') */
  function JoinUrl(base: seq<byte>, encoded: seq<byte>): seq<byte>
  {
    RTrim(base, {SLASH}) + [SLASH] + LTrim(encoded, {SLASH})
  }

  /** The URL api.php records for a file below `root`. */
  function FileUrl(baseUrl: seq<byte>, root: seq<byte>, pathname: seq<byte>): seq<byte>
  {
    JoinUrl(baseUrl, EncodePath(RelativePath(root, pathname)))
  }

  /**
   * The URL is the base without its trailing slashes, exactly one '/', and the
   * whole encoded relative path: the ltrim at the join never removes anything,
   * and the byte on either side of the joining '/' is not a '/'.
   */
  lemma FileUrlShape(baseUrl: seq<byte>, root: seq<byte>, pathname: seq<byte>)
    ensures var head := RTrim(baseUrl, {SLASH});
            var enc := EncodePath(RelativePath(root, pathname));
            var url := FileUrl(baseUrl, root, pathname);
            url == head + [SLASH] + enc &&
            (head == [] || head[|head| - 1] != SLASH) &&
            (enc == [] || enc[0] != SLASH)
  {
    var rel := RelativePath(root, pathname);
    RelativePathNormalised(root, pathname);
    EncodePathStart(rel);
    RTrimSpec(baseUrl, {SLASH});
  }

  /** The base URL configured in api.php. */
  function DefaultBaseUrl(): (b: seq<byte>)
  {
    Bytes("./video/")
  }

  /**
   * With the configured base './video/', every URL is './video/' followed by
   * the whole encoded path, and the byte after './video/', if any, is not
   * another '/'.
   */
  lemma DefaultUrl(root: seq<byte>, pathname: seq<byte>)
    ensures var url := FileUrl(DefaultBaseUrl(), root, pathname);
            url == DefaultBaseUrl() + EncodePath(RelativePath(root, pathname)) &&
            (|url| > 8 ==> url[8] != SLASH)
  {
    var head := Bytes("./video");
    assert DefaultBaseUrl() == head + [SLASH];
    RTrimOne(head, SLASH, {SLASH});
    FileUrlShape(DefaultBaseUrl(), root, pathname);
  }
}
