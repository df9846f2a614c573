/**
 * The multipart body extractor of api/detect.py (`parse_multipart_body`):
 * split the raw body on `--` + boundary, take the first piece that looks
 * like the file part and in which the pattern matches (a file piece with
 * nothing after its blank line is skipped), and decode the bytes from just
 * after its first blank line up to the first later position where `\r\n--`
 * follows, the piece ends, or only a final LF remains.
 */
module Multipart {
  import opened Wrappers
  import opened Seqs
  import opened Utf8

  const CR: byte := 13
  const LF: byte := 10
  const DASH: byte := 45

  /** `\r\n\r\n`, the blank line that ends a part's headers. */
  const HEADER_END: seq<byte> := [CR, LF, CR, LF]
  /** `\r\n--`, the lookahead that ends the content span. */
  const NEXT_DELIMITER: seq<byte> := [CR, LF, DASH, DASH]
  /** `b'Content-Type: text/csv'`. */
  const CSV_TYPE_MARKER: seq<byte> :=
    [0x43, 0x6f, 0x6e, 0x74, 0x65, 0x6e, 0x74, 0x2d, 0x54, 0x79, 0x70,
     0x65, 0x3a, 0x20, 0x74, 0x65, 0x78, 0x74, 0x2f, 0x63, 0x73, 0x76]
  /** `b'filename='`. */
  const FILENAME_MARKER: seq<byte> := [0x66, 0x69, 0x6c, 0x65, 0x6e, 0x61, 0x6d, 0x65, 0x3d]

  /** `b'--' + boundary.encode()`. */
  function Delimiter(boundary: string): (d: seq<byte>)
    ensures |d| >= 2 && d[0] == DASH && d[1] == DASH
  {
    [DASH, DASH] + Encode(boundary)
  }

  /** The attribute test: the piece declares `Content-Type: text/csv` or carries `filename=`. */
  predicate IsFilePart(part: seq<byte>)
  {
    Contains(part, CSV_TYPE_MARKER) || Contains(part, FILENAME_MARKER)
  }

  /**
   * The lookahead `(?=\r\n--|$)` at position `e`. Without MULTILINE, Python's
   * `$` matches at the end of the piece and also just before a single
   * newline that ends it.
   */
  predicate LookaheadAt(part: seq<byte>, e: int)
  {
    OccursAt(part, NEXT_DELIMITER, e)
    || e == |part|
    || (0 <= e == |part| - 1 && part[e] == LF)
  }

  /** The smallest position at or after `from` where the lookahead holds (the lazy `.+?`). */
  function SpanEnd(part: seq<byte>, from: nat): (e: nat)
    requires from <= |part|
    ensures from <= e <= |part| && LookaheadAt(part, e)
    ensures forall j :: from <= j < e ==> !LookaheadAt(part, j)
    decreases |part| - from
  {
    if LookaheadAt(part, from) then from else SpanEnd(part, from + 1)
  }

  /** A half-open range of byte positions. */
  datatype Span = Span(start: nat, end: nat)

  /**
   * The group of `re.search(b'\r\n\r\n(.+?)(?=\r\n--|$)', part, re.DOTALL)`,
   * found by a left-to-right scan: the span starts right after the first
   * `\r\n\r\n`, holds at least one byte, and ends at the first position after
   * its first byte where the lookahead holds.
   */
  function ContentSpan(part: seq<byte>): (r: Option<Span>)
    ensures r.Some? ==> r.value.start < r.value.end <= |part|
  {
    match IndexFrom(part, HEADER_END, 0)
    case None => None
    case Some(p) =>
      if p + 4 < |part| then Some(Span(p + 4, SpanEnd(part, p + 5))) else None
  }

  /**
   * What the pattern means, independently of how it is scanned: the pattern
   * matches with the group spanning `b` to `e`, so `\r\n\r\n` ends at `b`.
   */
  ghost predicate RegexMatch(part: seq<byte>, b: int, e: int)
  {
    OccursAt(part, HEADER_END, b - 4) && b < e <= |part| && LookaheadAt(part, e)
  }

  /**
   * The scan finds what `re.search` finds: the match with the leftmost start
   * and, for that start, the shortest group (the quantifier is lazy); and
   * nothing when the pattern matches nowhere.
   */
  lemma ContentSpanIsLeftmostLazyMatch(part: seq<byte>)
    ensures ContentSpan(part).None? ==> forall b, e :: !RegexMatch(part, b, e)
    ensures ContentSpan(part).Some? ==>
              var s := ContentSpan(part).value;
              && RegexMatch(part, s.start, s.end)
              && (forall b, e :: b < s.start ==> !RegexMatch(part, b, e))
              && (forall e :: e < s.end ==> !RegexMatch(part, s.start, e))
  {
  }

  /** A piece the loop stops at: it passes the attribute test and the pattern matches in it. */
  predicate Selectable(part: seq<byte>)
  {
    IsFilePart(part) && ContentSpan(part).Some?
  }

  /** The index of the first selectable piece. */
  function FirstSelectable(parts: seq<seq<byte>>): (k: Option<nat>)
    ensures k.Some? ==> k.value < |parts| && Selectable(parts[k.value])
    ensures k.Some? ==> forall j :: 0 <= j < k.value ==> !Selectable(parts[j])
    ensures k.None? ==> forall j :: 0 <= j < |parts| ==> !Selectable(parts[j])
  {
    if parts == [] then None
    else if Selectable(parts[0]) then Some(0)
    else
      match FirstSelectable(parts[1..])
      case None => None
      case Some(k) => Some(k + 1)
  }

  /** What `parse_multipart_body` returns or raises. */
  datatype Extraction =
    | Found(text: string)          // the decoded content
    | Missing                      // `None`
    | Undecodable(offset: nat)     // `UnicodeDecodeError`, offset within the span

  /** `match.group(1).decode('utf-8')` for a selectable piece. */
  function DecodeSpan(part: seq<byte>): (r: Extraction)
    requires ContentSpan(part).Some?
    ensures !r.Missing?
  {
    var s := ContentSpan(part).value;
    match Decode(part[s.start..s.end])
    case Decoded(t) => Found(t)
    case Invalid(k) => Undecodable(k)
  }

  /** The pieces the extractor scans. */
  function Parts(body: seq<byte>, boundary: string): (parts: seq<seq<byte>>)
    ensures |parts| >= 1 && Join(parts, Delimiter(boundary)) == body
  {
    JoinSplit(body, Delimiter(boundary));
    Split(body, Delimiter(boundary))
  }

  /** `parse_multipart_body(body, boundary)` as a function of its inputs. */
  function Extract(body: seq<byte>, boundary: string): Extraction
  {
    var parts := Parts(body, boundary);
    match FirstSelectable(parts)
    case None => Missing
    case Some(k) => DecodeSpan(parts[k])
  }

  /** The loop of `parse_multipart_body`: the scan stops at the first selectable piece (the source's `break`). */
  method ParseMultipartBody(body: seq<byte>, boundary: string) returns (r: Extraction)
    ensures r == Extract(body, boundary)
  {
    var parts := Parts(body, boundary);
    r := Missing;
    var i := 0;
    while i < |parts|
      invariant 0 <= i <= |parts|
      invariant forall j :: 0 <= j < i ==> !Selectable(parts[j])
      invariant r == Missing
    {
      var part := parts[i];
      if Contains(part, CSV_TYPE_MARKER) || Contains(part, FILENAME_MARKER) {
        var span := ContentSpan(part);
        if span.Some? {
          var s := span.value;
          match Decode(part[s.start..s.end]) {
            case Decoded(t) => r := Found(t);
            case Invalid(k) => r := Undecodable(k);
          }
          FirstMatchWins(body, boundary, i);
          return;
        }
      }
      i := i + 1;
    }
    MissingIffNothingSelectable(body, boundary);
  }

  /** The result is `None` exactly when no piece is selectable. */
  lemma MissingIffNothingSelectable(body: seq<byte>, boundary: string)
    ensures Extract(body, boundary) == Missing <==>
              forall j :: 0 <= j < |Parts(body, boundary)| ==> !Selectable(Parts(body, boundary)[j])
  {
  }

  /** With no piece that declares `text/csv` or carries `filename=`, the result is `None`. */
  lemma MissingWithoutFilePart(body: seq<byte>, boundary: string)
    requires forall j :: 0 <= j < |Parts(body, boundary)| ==> !IsFilePart(Parts(body, boundary)[j])
    ensures Extract(body, boundary) == Missing
  {
  }

  /**
   * First match wins: the result comes from the earliest piece that passes
   * the attribute test and has a blank line followed by at least one byte;
   * a file piece without such content is skipped.
   */
  lemma FirstMatchWins(body: seq<byte>, boundary: string, k: nat)
    requires k < |Parts(body, boundary)| && Selectable(Parts(body, boundary)[k])
    requires forall j :: 0 <= j < k ==> !Selectable(Parts(body, boundary)[j])
    ensures Extract(body, boundary) == DecodeSpan(Parts(body, boundary)[k])
  {
  }

  /**
   * The bounds of the content: what is returned is the decoding of a
   * non-empty span of the selected piece that starts right after its first
   * `\r\n\r\n` and ends at the first lookahead position after the span's
   * first byte.
   */
  lemma FoundContentBounds(body: seq<byte>, boundary: string, t: string)
    requires Extract(body, boundary) == Found(t)
    ensures exists k, p, e ::
              && 0 <= k < |Parts(body, boundary)|
              && var part := Parts(body, boundary)[k];
              && IsFilePart(part)
              && (forall j :: 0 <= j < k ==> !Selectable(Parts(body, boundary)[j]))
              && IndexFrom(part, HEADER_END, 0) == Some(p)
              && p + 4 < e <= |part| && LookaheadAt(part, e)
              && (forall j :: p + 5 <= j < e ==> !LookaheadAt(part, j))
              && Decode(part[p + 4..e]) == Decoded(t)
  {
    var parts := Parts(body, boundary);
    var k := FirstSelectable(parts).value;
    var s := ContentSpan(parts[k]).value;
    var p := IndexFrom(parts[k], HEADER_END, 0).value;
    assert IndexFrom(parts[k], HEADER_END, 0) == Some(p);
    assert s.start == p + 4;
  }

  /** Content that is returned is never empty, so `not file_content` is only ever true of `None`. */
  lemma FoundIsNonEmpty(body: seq<byte>, boundary: string)
    requires Extract(body, boundary).Found?
    ensures |Extract(body, boundary).text| > 0
  {
  }

  /**
   * In a piece laid out the usual way, headers, blank line, content, then the
   * CRLF that came before the next delimiter, the lookahead `\r\n--` cannot
   * fire at that CRLF (the split already removed the dashes), and `$` fires
   * just before the final LF: the span is the content plus the CR.
   */
  lemma SpanKeepsCarriageReturn(head: seq<byte>, content: seq<byte>)
    requires |content| > 0
    requires forall i :: 0 <= i < |head| ==> !OccursAt(head + HEADER_END + content + [CR, LF], HEADER_END, i)
    requires !Contains(content, NEXT_DELIMITER)
    ensures var part := head + HEADER_END + content + [CR, LF];
            && ContentSpan(part) == Some(Span(|head| + 4, |part| - 1))
            && part[|head| + 4..|part| - 1] == content + [CR]
  {
    var part := head + HEADER_END + content + [CR, LF];
    var b := |head| + 4;
    var n := |part|;
    assert part[|head|..b] == HEADER_END;
    assert OccursAt(part, HEADER_END, |head|);
    assert IndexFrom(part, HEADER_END, 0) == Some(|head|);
    forall j | b + 1 <= j < n - 1 ensures !LookaheadAt(part, j) {
      if j + 4 <= n - 2 {
        if OccursAt(part, NEXT_DELIMITER, j) {
          assert content[j - b..j - b + 4] == part[j..j + 4];
          assert OccursAt(content, NEXT_DELIMITER, j - b);
        }
      } else if j + 4 <= n {
        assert part[n - 2] == CR;
        assert part[j..j + 4][n - 2 - j] == CR;
      }
    }
    assert LookaheadAt(part, n - 1);
    assert SpanEnd(part, b + 1) == n - 1;
    assert part[b..n - 1] == content + [CR];
  }
}
