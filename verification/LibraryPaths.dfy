/**
 How the browser client turns a library path into a URL path: one percent-encoded component per
 path segment (section 3.3 of RFC 3986).  Three routes share the scheme.
 */
module LibraryPaths {
  import opened Options
  import opened Strings
  import opened PercentEncoding

  // What String.prototype.trim removes.
  predicate IsSpace(c: char) {
    || '\t' <= c <= '\r' || c == ' ' || c == '\U{00A0}' || c == '\U{1680}'
    || '\U{2000}' <= c <= '\U{200A}' || c == '\U{2028}' || c == '\U{2029}' || c == '\U{202F}'
    || c == '\U{205F}' || c == '\U{3000}' || c == '\U{FEFF}'
  }

  predicate IsSlash(c: char) {
    c == '/'
  }

  const FILES := "/api/v1/files"
  const LIBRARY := "/api/v1/video/library"
  const STREAM := "/api/v1/video/stream"

  function Trimmed(path: string): (r: string) {
    StripRight(StripLeft(Strip(path, IsSpace), IsSlash), IsSlash)
  }

  function EncodeAll(segments: seq<string>): (r: seq<string>)
    ensures |r| == |segments|
    ensures forall i :: 0 <= i < |r| ==> r[i] == Encode(segments[i])
  {
    if |segments| == 0 then [] else [Encode(segments[0])] + EncodeAll(segments[1..])
  }

  function EncodedSegments(trimmed: string): (r: string) {
    Join(EncodeAll(NonEmpty(Split(trimmed, '/'))), '/')
  }

  // The files and the video-library routes: the empty path is the route itself.
  function EncodeUnder(route: string, path: string): (url: string) {
    var trimmed := Trimmed(path);
    if |trimmed| == 0 then route else route + "/" + EncodedSegments(trimmed)
  }

  function EncodeFilePath(path: string): (url: string) {
    EncodeUnder(FILES, path)
  }

  function EncodeLibraryPath(path: string): (url: string) {
    EncodeUnder(LIBRARY, path)
  }

  function EncodeStreamPath(path: string): (url: string) {
    STREAM + "/" + EncodedSegments(Trimmed(path))
  }

  lemma SpaceIff(c: char)
    ensures IsSpace(c) <==> c in "\t\n\U{000B}\U{000C}\r \U{00A0}\U{1680}\U{2000}\U{2001}\U{2002}\U{2003}\U{2004}\U{2005}\U{2006}\U{2007}\U{2008}\U{2009}\U{200A}\U{2028}\U{2029}\U{202F}\U{205F}\U{3000}\U{FEFF}"
  {
  }

  ghost predicate IsTrimmedOf(path: string, before: string, left: string, trimmed: string, right: string, after: string) {
    && path == before + (left + (trimmed + right) + after)
    && AllDropped(before, IsSpace) && AllDropped(after, IsSpace) && Bare(left + (trimmed + right), IsSpace)
    && (forall i :: 0 <= i < |left| ==> left[i] == '/') && (forall i :: 0 <= i < |right| ==> right[i] == '/')
    && !("/" <= trimmed) && (|trimmed| > 0 ==> trimmed[|trimmed| - 1] != '/')
  }

  // Trimming takes off white space at both ends, and then slashes at both ends.
  lemma TrimmedIs(path: string)
    ensures exists before, left, right, after :: IsTrimmedOf(path, before, left, Trimmed(path), right, after)
  {
    var bare := Strip(path, IsSpace);
    var before, after := StripIs(path, IsSpace);
    var left := StripLeftIs(bare, IsSlash);
    var right := StripRightIs(StripLeft(bare, IsSlash), IsSlash);
    StripLeftIsSuffix(bare, IsSlash);
    StripRightIsPrefix(StripLeft(bare, IsSlash), IsSlash);
    assert IsTrimmedOf(path, before, left, Trimmed(path), right, after);
  }

  /******* What the URL says *******/

  // The segments a path names: what is between slashes, once the path is trimmed of white space.
  function Segments(path: string): (r: seq<string>) {
    NonEmpty(Split(Strip(path, IsSpace), '/'))
  }

  function DecodeAll(parts: seq<string>): (r: Option<seq<string>>) {
    if |parts| == 0 then Some([])
    else
      match Decode(parts[0])
      case None => None
      case Some(head) =>
        match DecodeAll(parts[1..])
        case None => None
        case Some(tail) => Some([head] + tail)
  }

  // The server's reading of a URL: drop the route, split, decode every segment.
  function SegmentsOfUrl(route: string, url: string): (r: Option<seq<string>>) {
    if route <= url then DecodeAll(NonEmpty(Split(url[|route|..], '/'))) else None
  }

  /******* Stripping slashes changes no segment *******/

  lemma {:induction false} SlashesBefore(s: string)
    ensures NonEmpty(Split(StripLeft(s, IsSlash), '/')) == NonEmpty(Split(s, '/'))
  {
    if |s| > 0 && s[0] == '/' {
      SlashesBefore(s[1..]);
      assert ([[]] + Split(s[1..], '/'))[1..] == Split(s[1..], '/');
    }
  }

  lemma {:induction false} SlashesAfter(s: string)
    ensures NonEmpty(Split(StripRight(s, IsSlash), '/')) == NonEmpty(Split(s, '/'))
  {
    if |s| > 0 && s[|s| - 1] == '/' {
      var t := s[..|s| - 1];
      assert s == t + ['/'] + [];
      SlashesAfter(t);
      SplitConcat(t, [], '/');
      NonEmptyAppend(Split(t, '/'), [[]]);
    }
  }

  lemma TrimmedSegments(path: string)
    ensures NonEmpty(Split(Trimmed(path), '/')) == Segments(path)
    ensures |Trimmed(path)| == 0 <==> |Segments(path)| == 0
  {
    var s := Strip(path, IsSpace);
    SlashesBefore(s);
    SlashesAfter(StripLeft(s, IsSlash));
    var t := Trimmed(path);
    if |t| > 0 {
      StripLeftIsSuffix(s, IsSlash);
      StripRightIsPrefix(StripLeft(s, IsSlash), IsSlash);
      assert t[0] != '/';
      assert |Split(t, '/')[0]| > 0;
    }
  }

  /******* The URL gives the segments back *******/

  lemma {:induction false} DecodeAllEncodeAll(segments: seq<string>)
    ensures DecodeAll(EncodeAll(segments)) == Some(segments)
  {
    if |segments| > 0 {
      DecodeEncode(segments[0]);
      DecodeAllEncodeAll(segments[1..]);
      assert EncodeAll(segments)[1..] == EncodeAll(segments[1..]);
      assert [segments[0]] + segments[1..] == segments;
    }
  }

  lemma PartsAfterSlash(parts: seq<string>)
    requires forall i :: 0 <= i < |parts| ==> |parts[i]| > 0 && Without(parts[i], '/')
    ensures NonEmpty(Split("/" + Join(parts, '/'), '/')) == parts
  {
    var s := Join(parts, '/');
    assert ("/" + s)[1..] == s;
    assert ([[]] + Split(s, '/'))[1..] == Split(s, '/');
    if |parts| > 0 {
      SplitJoin(parts, '/');
      NonEmptyOfNonEmpty(parts);
    } else {
      assert NonEmpty([[]]) == NonEmpty([[]][1..]) == [];
    }
  }

  lemma EncodedPart(s: string)
    requires |s| > 0
    ensures |Encode(s)| > 0 && Without(Encode(s), '/')
  {
    EncodeAlphabet(s);
    assert !IsEncodedChar('/');
  }

  lemma EncodedParts(segments: seq<string>)
    requires forall i :: 0 <= i < |segments| ==> |segments[i]| > 0
    ensures NonEmpty(Split("/" + Join(EncodeAll(segments), '/'), '/')) == EncodeAll(segments)
  {
    forall i | 0 <= i < |segments| ensures |Encode(segments[i])| > 0 && Without(Encode(segments[i]), '/') {
      EncodedPart(segments[i]);
    }
    PartsAfterSlash(EncodeAll(segments));
  }

  lemma SegmentsAreNonEmpty(path: string)
    ensures forall i :: 0 <= i < |Segments(path)| ==> |Segments(path)[i]| > 0
  {
    JoinSplit(Strip(path, IsSpace), '/');
    NonEmptyParts(Split(Strip(path, IsSpace), '/'), '/');
  }

  lemma AfterRoute(route: string, tail: string)
    ensures route <= route + "/" + tail && (route + "/" + tail)[|route|..] == "/" + tail
  {
    assert route + "/" + tail == route + ("/" + tail);
  }

  lemma SegmentsReadBack(route: string, segments: seq<string>)
    requires forall i :: 0 <= i < |segments| ==> |segments[i]| > 0
    ensures SegmentsOfUrl(route, route + "/" + Join(EncodeAll(segments), '/')) == Some(segments)
  {
    AfterRoute(route, Join(EncodeAll(segments), '/'));
    EncodedParts(segments);
    DecodeAllEncodeAll(segments);
  }

  // Any URL of the shape route + "/" + segments reads back as the segments.
  lemma ReadBack(route: string, path: string)
    ensures SegmentsOfUrl(route, route + "/" + EncodedSegments(Trimmed(path))) == Some(Segments(path))
  {
    TrimmedSegments(path);
    SegmentsAreNonEmpty(path);
    SegmentsReadBack(route, Segments(path));
  }

  lemma EncodeUnderReadsBack(route: string, path: string)
    ensures SegmentsOfUrl(route, EncodeUnder(route, path)) == Some(Segments(path))
  {
    TrimmedSegments(path);
    if |Trimmed(path)| == 0 {
      assert route[|route|..] == "";
    } else {
      ReadBack(route, path);
    }
  }

  // All three encoders can be read back.
  lemma EncodersReadBack(path: string)
    ensures SegmentsOfUrl("/api/v1/files", EncodeFilePath(path)) == Some(Segments(path))
    ensures SegmentsOfUrl("/api/v1/video/library", EncodeLibraryPath(path)) == Some(Segments(path))
    ensures SegmentsOfUrl("/api/v1/video/stream", EncodeStreamPath(path)) == Some(Segments(path))
  {
    EncodeUnderReadsBack(FILES, path);
    EncodeUnderReadsBack(LIBRARY, path);
    ReadBack(STREAM, path);
  }

  // Two paths share a URL exactly when they name the same segments.
  lemma SameUrlIffSameSegments(p: string, q: string)
    ensures EncodeFilePath(p) == EncodeFilePath(q) <==> Segments(p) == Segments(q)
    ensures EncodeLibraryPath(p) == EncodeLibraryPath(q) <==> Segments(p) == Segments(q)
    ensures EncodeStreamPath(p) == EncodeStreamPath(q) <==> Segments(p) == Segments(q)
  {
    EncodersReadBack(p);
    EncodersReadBack(q);
    TrimmedSegments(p);
    TrimmedSegments(q);
  }
}
