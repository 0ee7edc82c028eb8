# Random video API: the scan loop, in Dafny

`api.php` answers a request with one random video found under a video root.
It walks the directory tree. For every regular file whose lower-cased
extension is one of `mp4 mov avi mkv webm flv`, it does four things:

- it derives a path relative to the root, removing every occurrence of the root string, trimming leading `/` and `\`, and turning `\` into `/`;
- it percent-encodes each `/`-separated segment with `rawurlencode`;
- it joins the result onto the base URL `./video/`;
- if the file still exists, it appends a record (filename, path, URL, size, mtime) to a list.

The request fails in three cases:
- the root is not a directory;
- the scan throws, because the iterator meets an unreadable directory or `getSize`/`getMTime` cannot read a file;
- the list ends up empty.

Otherwise it returns the record at an index `array_rand` picks.

This project models that logic and proves properties of it.

- `wrappers.dfy` (`Wrappers`): `Option` and `Result`.
- `php_strings.dfy` (`PhpStrings`): the PHP byte-string functions the loop uses. Strings are `seq<byte>`, with `byte` the integers 0..255. It covers `strtolower`, `ltrim`, `rtrim`, `str_replace` with one search string, `explode`, `implode` and `SplFileInfo::getExtension`.
- `raw_url.dfy` (`RawUrl`): `rawurlencode` as section 2.1 and section 2.3 of RFC 3986 define it. Unreserved bytes `A-Z a-z 0-9 - . _ ~` stay as they are; every other byte becomes `%` and two upper-case hex digits. `Decode` is a strict percent-decoder written as its partner, so the round trip can be stated.
- `path_url.dfy` (`PathUrl`): the relative path, the per-segment encoding and the URL join.
- `video_scan.dfy` (`VideoScan`): the file entries and the records, the extension filter, and `Collected`, the list the loop builds as a function of the walk. `CollectVideos` is the `foreach` itself, a loop proved to build `Collected`. `PickRandomVideo` is the whole request.

The filesystem is an input. The walk is a sequence of `FileEntry` values in the iterator's order. Each entry carries what `getPathname`, `getFilename`, `isFile`, `getSize`, `getMTime` and the `file_exists` re-check reported. `is_dir` of the root is a boolean parameter, and so is whether the scan throws.

`str_replace` removes the root wherever it occurs in the pathname, not only at the front, and the model keeps that. `PhpStrings.StrReplaceRemovesEveryOccurrence` states it for any number of copies: below root `/v`, the pathname `/v/a/v/x` loses both copies. `PathUrl.RelativePathOfChild` gives the usual case, where the root does not recur and the relative path is simply what follows `root + '/'`.

## Model

| member | source | states |
|---|---|---|
| PhpStrings.LowerByte | api.php:37 | strtolower of one byte turns each letter A-Z into the same letter in a-z, and leaves every other byte as it is |
| PhpStrings.ToLowerAlphabet | api.php:37 | strtolower of the whole alphabet A..Z is the alphabet a..z, letter for letter |
| PhpStrings.ToLowerIdempotent | api.php:37 | lower-casing an already lower-cased string changes nothing |
| PhpStrings.Extension | api.php:37 | getExtension never contains '.'; it is empty when the name has no '.'; otherwise it is exactly the bytes after the last '.' of the name |
| PhpStrings.ExtensionOfDotSuffix | api.php:37 | a name ending in '.' followed by n dot-free bytes has those n bytes as its extension |
| PhpStrings.ExtensionOfLower | api.php:37 | the extension of the lower-cased name is the lower-cased extension, so the order of strtolower and getExtension does not matter |
| PhpStrings.LTrimSpec | api.php:41-44 | ltrim keeps a suffix of its input, every byte it drops is in the trim set, and what it keeps does not start with a byte of the set |
| PhpStrings.RTrimSpec | api.php:55 | rtrim keeps a prefix of its input, every byte it drops is in the trim set, and what it keeps does not end with a byte of the set |
| PhpStrings.RTrimOne | api.php:55 | rtrim of s + '/' is s when s does not already end in '/' (how './video/' loses exactly one '/') |
| PhpStrings.StrReplaceNoOccurrence | api.php:42 | where the search string occurs nowhere, str_replace returns its subject unchanged |
| PhpStrings.StrReplaceAfterPlain | api.php:42 | bytes at which no occurrence starts are copied through, and the replacement goes on after them |
| PhpStrings.RemoveLeadingRoot | api.php:42 | removing a non-empty root from root + rest gives rest when the root does not occur again in rest |
| PhpStrings.StrReplaceRemovesEveryOccurrence | api.php:42 | str_replace deletes every copy of the root, not only a leading one: p0 + root + p1 + ... + root + pn becomes p0 + p1 + ... + pn, for any number of pieces, when no copy of the root starts inside a piece |
| PhpStrings.StrReplaceByte | api.php:47 | replacing '\' by '/' keeps the length and maps each position on its own: a '\' becomes '/', any other byte stays |
| PhpStrings.Explode | api.php:50 | explode yields at least one piece and no piece contains the delimiter |
| PhpStrings.ImplodeExplode | api.php:50-52 | joining the pieces of explode with the delimiter gives back the string |
| PhpStrings.ExplodeImplode | api.php:50-52 | exploding what implode joined gives back the pieces, when none contains the delimiter |
| PhpStrings.ExplodeBytes | api.php:50 | every byte of a piece of explode is a byte of the string it came from |
| RawUrl.EncodeByte | api.php:51 | an unreserved byte is written as itself; any other byte as '%' and two upper-case hex digits that denote that byte |
| RawUrl.EncodeAlphabet | api.php:51 | rawurlencode output is at least as long as its input, is empty only for empty input, and consists only of unreserved bytes, '%' and upper-case hex digits |
| RawUrl.EncodeHasNoSlash | api.php:51 | an encoded segment never contains '/' |
| RawUrl.EncodeCanonical | api.php:51 | every encoding is canonical: unreserved bytes, and escapes with upper-case digits that stand only for reserved bytes |
| RawUrl.DecodeEncode | api.php:51 | percent-decoding the encoding of any byte string gives back exactly that string |
| RawUrl.EncodeDecode | api.php:51 | conversely, every canonical text decodes, and re-encoding the result gives the text back, so the encoding is a bijection onto canonical text |
| RawUrl.EncodeInjective | api.php:51 | two byte strings with the same encoding are equal |
| RawUrl.EncodeUnreserved | api.php:51 | text made only of unreserved bytes is left exactly as it is |
| RawUrl.EncodeConcat | api.php:51 | the encoding distributes over concatenation |
| RawUrl.EncodeSpace | api.php:51 | a space between unreserved text is written "%20", as in "my clip" to "my%20clip" |
| PathUrl.RelativePathNormalised | api.php:41-47 | the relative path contains no '\' and does not begin with '/' or '\'; it has the length of the trimmed, root-less pathname, and each of its bytes is that byte with '\' turned into '/' |
| PathUrl.RelativePathOfRootPrefix | api.php:41-47 | when the root occurs only at the front, the relative path is the rest, trimmed and with separators normalised |
| PathUrl.RelativePathOfChild | api.php:41-47 | for a pathname root + '/' + rel, with rel normalised and no second copy of the root, the relative path is rel |
| PathUrl.EncodePathSegments | api.php:50-52 | splitting the encoded path on '/' gives as many segments as splitting the relative path, in the same order; each is the encoding of its original, contains no '/', is canonical and decodes to the original segment |
| PathUrl.DecodeSegmentsEncode | api.php:50-52 | decoding the list of encoded segments gives back the list of segments |
| PathUrl.DecodePathEncode | api.php:50-52 | decoding the encoded path segment by segment and joining with '/' gives back the relative path exactly |
| PathUrl.EncodePathStart | api.php:50-55 | the encoded path does not start with '/' when the relative path does not, so the ltrim at the join removes nothing |
| PathUrl.EncodePathUnreserved | api.php:50-52 | a path of unreserved bytes and '/' comes out of the encoding unchanged |
| PathUrl.FileUrlShape | api.php:55 | the URL is rtrim(base, '/'), exactly one '/', and the whole encoded path; neither side of the joining '/' is another '/' |
| PathUrl.DefaultUrl | api.php:55 | with the base './video/' of line 18, every URL is './video/' followed by the whole encoded path, and the byte after './video/' is never a second '/' |
| VideoScan.FilterIgnoresCase | api.php:37-38 | two filenames equal up to ASCII case pass or fail the extension filter together |
| VideoScan.AllowedExtensionIff | api.php:37-38 | with non-empty, dot-free allowed extensions, a name passes if and only if it ends in '.' followed by bytes whose lower-case form is allowed |
| VideoScan.DefaultFilterIff | api.php:37-38 | with the list of line 17, a name passes if and only if it ends in '.' followed by mp4, mov, avi, mkv, webm or flv in any mix of case |
| VideoScan.ExtensionAfterDot | api.php:37 | the extension of stem + '.' + ext, for a dot-free ext, is ext |
| VideoScan.FilterByExtension | api.php:37-38 | stem + '.' + ext, for a dot-free ext, passes exactly when ext lower-cased is allowed |
| VideoScan.ReadmeRejected | api.php:37-38 | "readme.txt" fails the configured filter |
| VideoScan.ClipAccepted | api.php:37-38 | "clip.MP4" passes the configured filter |
| VideoScan.CollectedConcat | api.php:35-73 | the records of a concatenated walk are those of the first part followed by those of the second |
| VideoScan.CollectedSnoc | api.php:35-73 | one more entry appends its record when it is a candidate (a file, allowed extension, still there) and adds nothing otherwise |
| VideoScan.CollectedPrefix | api.php:35-73 | the records of the first i + 1 entries are those of the first i, then what entry i contributes |
| VideoScan.CollectVideos | api.php:31-73 | the loop, with its two `continue` skips, builds exactly the list of records of the candidates, in walk order |
| VideoScan.CollectedAt | api.php:65-71 | a candidate's record sits at its rank (the number of records before it) and carries that entry's own filename, size and mtime, and the path and URL computed from that entry's own pathname |
| VideoScan.CollectedOrder | api.php:65 | walk order is kept: an earlier candidate's record comes before a later entry's |
| VideoScan.CollectedComplete | api.php:36-71 | every candidate of the walk has its record in the list |
| VideoScan.CollectedSound | api.php:36-71 | every record in the list is the record of some candidate of the walk |
| VideoScan.CollectedOneOfTwo | api.php:35-73 | of two entries where only the first is a candidate, only the first's record is collected |
| VideoScan.PickRandomVideo | api.php:27-80 | a root that is not a directory fails with that root; a scan that throws fails with the scan error; an empty list fails with "no video files"; otherwise the result is a success holding one of the collected records, which is the record of a candidate of the walk |
| VideoScan.ClipRelativePath | api.php:41-47 | below root "/v", "/v/a/b/clip.MP4" has relative path "a/b/clip.MP4" |
| VideoScan.ClipPathUnchanged | api.php:50-52 | encoding leaves "a/b/clip.MP4" as it is |
| VideoScan.ClipUrl | api.php:50-55 | that clip's URL is './video/' followed by "a/b/clip.MP4" |
| VideoScan.ClipScenario | api.php:35-71 | a walk below "/v" of "a/b/clip.MP4" and "a/readme.txt" collects one record: the clip, with its own name, size and mtime, path "a/b/clip.MP4" and URL './video/' + "a/b/clip.MP4" |

## Left out

- HTTP plumbing is not modelled: the response headers, the OPTIONS preflight branch with its `exit` (api.php:2-13), and `http_response_code(500)` (api.php:89). These are side effects with no logic in them.
- The JSON answer written by `json_encode` (api.php:83-86, 90-97) is not modelled, nor the text of the two exception messages (api.php:28, 76). The model returns `Result<VideoRecord, ApiError>`. `DirectoryUnavailable` carries the root that the first message prints.
- The filesystem is an input, not a model. `realpath` (api.php:16) gives the root string, which is empty when it fails. `is_dir` (api.php:27) is the `rootIsDir` parameter. The walk order of the recursive iterator (api.php:32-35) is the order of the `walk` sequence. `isFile`, `getFilename`, `file_exists`, `getSize` and `getMTime` (api.php:36, 58, 66, 69-70) are fields of each entry. The model does not relate an entry's filename to its pathname.
- VideoScan.PickRandomVideo: `array_rand` (api.php:80) is an arbitrary index in range; its uniformity is a probabilistic property that is not stated.
- VideoScan.PickRandomVideo: the exceptions raised during the scan are one input, `scanThrows`. They are `UnexpectedValueException` from the iterator on an unreadable directory (api.php:32-35, built without `CATCH_GET_CHILD`) and `RuntimeException` from `getSize`/`getMTime` on a file that can no longer be read (api.php:69-70). The model does not say which entry throws. It treats the walk as either finishing or throwing, and all three exceptions as the single error that the catch at api.php:88 produces.
- Debug logging with `error_log` and `date`, and the `debug_info` of the error answer (api.php:19, 23-25, 59-61, 93-96), are not modelled; with `debug` false they do nothing.
- PhpStrings.LowerByte: `strtolower` is modelled byte-wise for ASCII A-Z only, as PHP 8.2 and later do; locale-dependent lower-casing of bytes above 127 is not modelled.
- VideoScan.HasAllowedExtension: `in_array` without strict mode compares loosely; the model compares bytes exactly. The two agree for the configured non-numeric extensions, but not for numeric strings such as "1e1" and "10".
- RawUrl.Decode is not in the source. It is the partner written for the round trip, and it is stricter than PHP's `rawurldecode`: it rejects a '%' not followed by two hex digits instead of keeping it.
- Multibyte and Unicode interpretation of filenames is not modelled: all strings are byte sequences, as `rawurlencode` and `strtolower` treat them.
- Sizes and modification times are unbounded integers; PHP's integer width does not matter here since they are only copied.
