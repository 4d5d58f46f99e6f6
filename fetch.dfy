/**
 * The archive fetcher of `main` in src/main.rs: what the program does with
 * the body of the `fileOperations.redirect` response. A body of 900 bytes or
 * more is taken as the archive. A shorter one is read as UTF-8 text; when it
 * is the object store's `InvalidRequest` error, the path inside its
 * `<Resource>` element is appended to the server to form a plain GET.
 */
module Fetch {
  import opened Base
  import Text
  import Utf8

  /** Bodies shorter than this many bytes are taken to be error messages. */
  const Threshold := 900
  const Marker := "<Error><Code>InvalidRequest</Code>"
  const OpenTag := "<Resource>"
  const CloseTag := "</Resource>"

  /** What the program goes on to do with a redirect body. */
  datatype Fetch =
    | DirectArchive(bytes: seq<byte>)  // written to outline-backup.zip as it is
    | FallbackGet(url: string)         // the archive is fetched from this URL instead
    | NoArchiveWritten                 // "Another error occured": nothing written, no exit
    | NotUtf8                          // `String::from_utf8(..).unwrap()` panics
    | NoResource                       // `.nth(1).unwrap()` panics: no `<Resource>`

  /**
   * `split("<Resource>").nth(1)` followed by `split("</Resource>").nth(0)`:
   * None when the text has no `<Resource>`, which the program unwraps.
   */
  function ExtractResource(text: string): Option<string>
  {
    match Text.Nth(Text.Split(text, OpenTag), 1)
    case None => None
    case Some(piece) => Some(Text.Split(piece, CloseTag)[0])
  }

  /** The decision the program takes on the redirect body `body`. */
  function ClassifyRedirect(body: seq<byte>, server: string): (f: Fetch)
    ensures f.DirectArchive? <==> |body| >= Threshold
    ensures f.DirectArchive? ==> f.bytes == body
    ensures f.NotUtf8? <==> |body| < Threshold && Utf8.Decode(body).None?
  {
    if |body| >= Threshold then DirectArchive(body)
    else match Utf8.Decode(body)
      case None => NotUtf8
      case Some(text) =>
        if Text.Contains(text, Marker) then
          match ExtractResource(text)
          case None => NoResource
          case Some(path) => FallbackGet(server + path)
        else
          NoArchiveWritten
  }

  /**
   * What the extraction yields: nothing exactly when there is no `<Resource>`;
   * otherwise the text right after the first `<Resource>`, up to the first
   * `</Resource>` or the next `<Resource>` or the end of the text, whichever
   * comes first, and containing neither tag.
   */
  lemma ExtractResourceSound(text: string)
    ensures ExtractResource(text).None? <==> !Text.Contains(text, OpenTag)
    ensures ExtractResource(text).Some? ==>
      var start := Text.Find(text, OpenTag).value + |OpenTag|;
      var r := ExtractResource(text).value;
      var after := text[start..];
      && |r| <= |after| && after[..|r|] == r
      && !Text.Contains(r, OpenTag) && !Text.Contains(r, CloseTag)
      && (|r| == |after| || Text.OccursAt(after, CloseTag, |r|) || Text.OccursAt(after, OpenTag, |r|))
  {
    match Text.Find(text, OpenTag)
    case None =>
    case Some(i) =>
      var after := text[i + |OpenTag|..];
      assert Text.Split(text, OpenTag)[1] == Text.Split(after, OpenTag)[0];
      CutSound(after);
  }

  /** The text after the first `<Resource>`, cut at the next tag of either kind. */
  lemma CutSound(after: string)
    ensures
      var r := Text.Split(Text.Split(after, OpenTag)[0], CloseTag)[0];
      && |r| <= |after| && after[..|r|] == r
      && !Text.Contains(r, OpenTag) && !Text.Contains(r, CloseTag)
      && (|r| == |after| || Text.OccursAt(after, CloseTag, |r|) || Text.OccursAt(after, OpenTag, |r|))
  {
    var piece := Text.Split(after, OpenTag)[0];
    var r := Text.Split(piece, CloseTag)[0];
    Text.FirstPiece(after, OpenTag);
    Text.FirstPiece(piece, CloseTag);
    Text.PrefixFree(piece, OpenTag, |r|);
    assert after[..|r|] == piece[..|r|];
    if |r| < |piece| {
      assert after[|r|..|r| + |CloseTag|] == piece[|r|..|r| + |CloseTag|];
    }
  }

  /** The tags of the object store's error message, character by character. */
  lemma TagShapes()
    ensures OpenTag[0] == CloseTag[0] == '<'
    ensures forall k :: 0 < k < |OpenTag| ==> OpenTag[k] != '<'
    ensures forall k :: 0 < k < |CloseTag| ==> CloseTag[k] != '<'
    ensures OpenTag[1] != CloseTag[1]
  {
  }

  /** The first `<Resource>` in `before + <Resource> + after` is the one right after `before`. */
  lemma FirstOpenTag(before: string, after: string)
    requires !Text.Contains(before, OpenTag)
    ensures Text.Find(before + OpenTag + after, OpenTag) == Some(|before|)
  {
    TagShapes();
    var text := before + OpenTag + after;
    assert text == before + (OpenTag + after);
    Text.NoOccurrenceBefore(before, OpenTag + after, OpenTag);
    assert text[|before|..|before| + |OpenTag|] == OpenTag;
    Text.FindLeftmost(text, OpenTag, |before|);
  }

  /** In `path + </Resource> + rest`, no `<Resource>` starts before the closing tag has ended. */
  lemma NoOpenTagBeforeClose(path: string, rest: string)
    requires !Text.Contains(path, OpenTag)
    ensures forall j :: 0 <= j < |path| + |CloseTag| ==> !Text.OccursAt(path + CloseTag + rest, OpenTag, j)
  {
    TagShapes();
    var after := path + CloseTag + rest;
    assert after == path + (CloseTag + rest);
    Text.NoOccurrenceBefore(path, CloseTag + rest, OpenTag);
    forall j | |path| <= j < |path| + |CloseTag|
      ensures !Text.OccursAt(after, OpenTag, j)
    {
      if j + |OpenTag| <= |after| {
        if j == |path| {
          assert after[j..j + |OpenTag|][1] == after[j + 1] == CloseTag[1];
        } else {
          assert after[j..j + |OpenTag|][0] == after[j] == CloseTag[j - |path|];
        }
      }
    }
  }

  /** A text made of `path` and then a closing tag is cut right before that tag. */
  lemma CutAtCloseTag(path: string, tail: string)
    requires !Text.Contains(path, CloseTag)
    requires |CloseTag| <= |tail| && tail[..|CloseTag|] == CloseTag
    ensures Text.Split(path + tail, CloseTag)[0] == path
  {
    var piece := path + tail;
    assert tail[0] == CloseTag[0];
    assert forall k :: 0 < k < |CloseTag| ==> CloseTag[k] != CloseTag[0];
    Text.NoOccurrenceBefore(path, tail, CloseTag);
    assert piece[|path|..|path| + |CloseTag|] == tail[..|CloseTag|];
    Text.FindLeftmost(piece, CloseTag, |path|);
    Text.SplitFirst(piece, CloseTag);
    assert piece[..|path|] == path;
  }

  /** After a first `<Resource>` that follows `before`, the second piece of the split is the first piece of the rest. */
  lemma SecondPiece(before: string, after: string)
    requires !Text.Contains(before, OpenTag)
    ensures |Text.Split(before + OpenTag + after, OpenTag)| >= 2
    ensures Text.Split(before + OpenTag + after, OpenTag)[1] == Text.Split(after, OpenTag)[0]
  {
    var text := before + OpenTag + after;
    FirstOpenTag(before, after);
    assert text[|before| + |OpenTag|..] == after;
  }

  /** Splitting `path + </Resource> + rest` at `<Resource>` keeps `path + </Resource>` in the first piece. */
  lemma PieceKeepsClose(path: string, rest: string)
    requires !Text.Contains(path, OpenTag)
    ensures var piece := Text.Split(path + CloseTag + rest, OpenTag)[0];
      |piece| >= |path| + |CloseTag| && piece[..|path| + |CloseTag|] == path + CloseTag
  {
    var after := path + CloseTag + rest;
    NoOpenTagBeforeClose(path, rest);
    Text.SplitFirst(after, OpenTag);
    assert after[..|path| + |CloseTag|] == path + CloseTag;
  }

  /** The element's content, cut from `path + </Resource> + rest`, is `path`. */
  lemma CutPath(path: string, rest: string)
    requires !Text.Contains(path, OpenTag) && !Text.Contains(path, CloseTag)
    ensures Text.Split(Text.Split(path + CloseTag + rest, OpenTag)[0], CloseTag)[0] == path
  {
    PieceKeepsClose(path, rest);
    var piece := Text.Split(path + CloseTag + rest, OpenTag)[0];
    var tail := piece[|path|..];
    assert piece == path + tail;
    assert tail[..|CloseTag|] == piece[|path|..|path| + |CloseTag|] == CloseTag;
    CutAtCloseTag(path, tail);
  }

  /** `ExtractResource` in terms of the second piece of the split. */
  lemma ExtractVia(text: string, after: string, path: string)
    requires |Text.Split(text, OpenTag)| >= 2
    requires Text.Split(text, OpenTag)[1] == Text.Split(after, OpenTag)[0]
    requires Text.Split(Text.Split(after, OpenTag)[0], CloseTag)[0] == path
    ensures ExtractResource(text) == Some(path)
  {
  }

  /**
   * The fallback path is exactly what stands between the first `<Resource>`
   * and the `</Resource>` that closes it, provided nothing before the
   * element opens another one and the path contains neither tag.
   */
  lemma ExtractBetweenTags(before: string, path: string, rest: string)
    requires !Text.Contains(before, OpenTag)
    requires !Text.Contains(path, OpenTag) && !Text.Contains(path, CloseTag)
    ensures ExtractResource(before + OpenTag + path + CloseTag + rest) == Some(path)
  {
    var after := path + CloseTag + rest;
    assert before + OpenTag + path + CloseTag + rest == before + OpenTag + after;
    SecondPiece(before, after);
    CutPath(path, rest);
    ExtractVia(before + OpenTag + after, after, path);
  }

  /**
   * The fallback URL: a short, well-formed error body whose `<Resource>`
   * element holds `path` makes the program GET `server + path`.
   */
  lemma FallbackUrl(server: string, before: string, path: string, rest: string)
    requires Text.Contains(before + OpenTag + path + CloseTag + rest, Marker)
    requires |Utf8.Encode(before + OpenTag + path + CloseTag + rest)| < Threshold
    requires !Text.Contains(before, OpenTag)
    requires !Text.Contains(path, OpenTag) && !Text.Contains(path, CloseTag)
    ensures ClassifyRedirect(Utf8.Encode(before + OpenTag + path + CloseTag + rest), server)
         == FallbackGet(server + path)
  {
    Utf8.DecodeEncode(before + OpenTag + path + CloseTag + rest);
    ExtractBetweenTags(before, path, rest);
  }

  /** A short body that is text without the marker leads nowhere: no fallback, no archive, no exit. */
  lemma ShortWithoutMarker(body: seq<byte>, server: string)
    requires |body| < Threshold
    requires Utf8.Decode(body).Some? && !Text.Contains(Utf8.Decode(body).value, Marker)
    ensures ClassifyRedirect(body, server) == NoArchiveWritten
  {
  }

  /** A short body with the marker and no `<Resource>` makes the program panic. */
  lemma MarkerWithoutResource(body: seq<byte>, server: string)
    requires |body| < Threshold && Utf8.Decode(body).Some?
    requires Text.Contains(Utf8.Decode(body).value, Marker)
    requires !Text.Contains(Utf8.Decode(body).value, OpenTag)
    ensures ClassifyRedirect(body, server) == NoResource
  {
    ExtractResourceSound(Utf8.Decode(body).value);
  }

  /** The marker itself opens no `<Resource>` element. */
  lemma MarkerHasNoOpenTag()
    ensures !Text.Contains(Marker, OpenTag)
  {
    Text.NoLeadingPair(Marker, OpenTag);
  }

  /** A path without `<` contains neither tag. */
  lemma PlainPath(path: string)
    requires forall j :: 0 <= j < |path| ==> path[j] != '<'
    ensures !Text.Contains(path, OpenTag) && !Text.Contains(path, CloseTag)
  {
    Text.NoLeadingChar(path, OpenTag);
    Text.NoLeadingChar(path, CloseTag);
  }

  lemma ExamplePathIsPlain()
    ensures !Text.Contains("/minio/path/x", OpenTag) && !Text.Contains("/minio/path/x", CloseTag)
  {
    PlainPath("/minio/path/x");
  }

  /**
   * A worked case: the object store's error naming `/minio/path/x`,
   * received from `https://wiki.example.com`, sends the program to
   * `https://wiki.example.com/minio/path/x`.
   */
  lemma ExampleFallback()
    ensures ClassifyRedirect(Utf8.Encode(Marker + OpenTag + "/minio/path/x" + CloseTag), "https://wiki.example.com")
         == FallbackGet("https://wiki.example.com/minio/path/x")
  {
    var server, path := "https://wiki.example.com", "/minio/path/x";
    assert server + path == "https://wiki.example.com/minio/path/x";
    var text := Marker + OpenTag + path + CloseTag;
    assert text + "" == text;
    assert text[..|Marker|] == Marker;
    assert Text.OccursAt(text, Marker, 0);
    MarkerHasNoOpenTag();
    ExamplePathIsPlain();
    FallbackUrl(server, Marker, path, "");
  }
}
