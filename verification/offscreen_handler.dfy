/**
 * The `parseXML` message handler of offscreen.js: it checks the caption
 * payload, reads the `<text>` elements of the parsed document in order, keeps
 * those with non-blank text, and answers `{success, transcript}` or
 * `{success: false, error}`. The browser's XML parser and JSON parser are
 * outside the model: their outcomes arrive as inputs beside the raw text, and
 * `decodeHTMLEntities` is the parameter `decode`.
 */
module OffscreenHandler {
  import opened Wrappers
  import opened JsString
  import opened Sequences
  import opened Segments
  import opened AlternativeParsing

  /**
   * One `<text>` element: its text content, and its `start` and `dur`
   * attributes as numbers (`None` when the attribute is missing or empty).
   */
  datatype TextElement = TextElement(content: string, start: Option<real>, dur: Option<real>)

  /** What parsing the payload as XML gives: a reported syntax error, or the `<text>` elements. */
  datatype XmlDocument = ParserError(message: string) | Parsed(textElements: seq<TextElement>)

  /** The reply sent back through `sendResponse`. */
  datatype Response = Success(transcript: seq<Segment>) | Failure(error: string)

  const EmptyContentError: string := "Empty XML content"
  const ParseFailedPrefix: string := "XML parsing failed: "
  const NoTextElementsError: string := "No text elements found in XML"
  /** The message of the TypeError the logging line raises when `xmlText` is undefined. */
  const MissingPayloadError: string := "Cannot read properties of undefined (reading 'substring')"

  /** `x` is a whole number of hundredths. */
  predicate IsHundredths(x: real) {
    (x * 100.0).Floor as real == x * 100.0
  }

  /**
   * `Math.round(x * 100) / 100`. `Math.round` rounds halves up, towards
   * positive infinity, so this is the floor of `100x + 1/2`, in hundredths.
   */
  function Round2(x: real): real {
    (x * 100.0 + 0.5).Floor as real / 100.0
  }

  /** Rounding moves a value by at most half a hundredth, onto a whole number of hundredths. */
  lemma Round2Bounds(x: real)
    ensures x - 0.005 < Round2(x) <= x + 0.005
    ensures IsHundredths(Round2(x))
  {
  }

  /** A value already in hundredths is left as it is. */
  lemma Round2Exact(x: real)
    requires IsHundredths(x)
    ensures Round2(x) == x
  {
    var n := (x * 100.0).Floor;
    assert (x * 100.0 + 0.5).Floor == n;
  }

  /** Rounding twice is rounding once. */
  lemma Round2Idempotent(x: real)
    ensures Round2(Round2(x)) == Round2(x)
  {
    Round2Bounds(x);
    Round2Exact(Round2(x));
  }

  /** The segment pushed for one element, when its text is not blank. */
  function Cue(e: TextElement, decode: string -> string): Segment {
    var start := e.start.GetOr(0.0);
    var duration := e.dur.GetOr(0.0);
    Segment(Trim(decode(e.content)), Round2(start), Round2(duration), Round2(start + duration))
  }

  /**
   * A cue's text is the trimmed decoded content; a missing `start` or `dur`
   * counts as 0; each time is the given one rounded to hundredths, and `end`
   * is the rounded sum of the unrounded times, so it lies within one
   * hundredth of the rounded `start` plus the rounded `duration`.
   */
  lemma CueSpec(e: TextElement, decode: string -> string)
    ensures var seg := Cue(e, decode);
      && seg.text == Trim(decode(e.content))
      && (e.start.None? ==> seg.start == 0.0)
      && (e.dur.None? ==> seg.duration == 0.0)
      && (e.start.Some? ==> seg.start == Round2(e.start.value))
      && (e.dur.Some? ==> seg.duration == Round2(e.dur.value))
      && seg.end == Round2(e.start.GetOr(0.0) + e.dur.GetOr(0.0))
      && IsHundredths(seg.start) && IsHundredths(seg.duration) && IsHundredths(seg.end)
      && -0.01 <= seg.end - (seg.start + seg.duration) <= 0.01
  {
    var seg := Cue(e, decode);
    var start := e.start.GetOr(0.0);
    var duration := e.dur.GetOr(0.0);
    Round2Exact(0.0);
    Round2Bounds(start);
    Round2Bounds(duration);
    Round2Bounds(start + duration);
    var a := (seg.start * 100.0).Floor;
    var b := (seg.duration * 100.0).Floor;
    var c := (seg.end * 100.0).Floor;
    assert -1 <= c - a - b <= 1;
  }

  /** A cue is already trimmed and rounded: doing either again changes nothing. */
  lemma CueStable(e: TextElement, decode: string -> string)
    ensures var seg := Cue(e, decode);
      && Trim(seg.text) == seg.text
      && Round2(seg.start) == seg.start
      && Round2(seg.duration) == seg.duration
      && Round2(seg.end) == seg.end
  {
    var seg := Cue(e, decode);
    TrimIdempotent(decode(e.content));
    CueSpec(e, decode);
    Round2Exact(seg.start);
    Round2Exact(seg.duration);
    Round2Exact(seg.end);
  }

  /**
   * The end time need not be the sum of the two rounded times: an element with
   * `start="1.004"` and `dur="1.004"` gets start 1.0, duration 1.0 and end 2.01.
   */
  lemma CueEndNotRoundedSum()
    ensures var seg := Cue(TextElement("a", Some(1.004), Some(1.004)), s => s);
      seg.start == 1.0 && seg.duration == 1.0 && seg.end == 2.01
  {
    assert (1.004 * 100.0 + 0.5).Floor == 100;
    assert (2.008 * 100.0 + 0.5).Floor == 201;
  }

  /** Every element mapped to its segment, in document order. */
  function Cues(es: seq<TextElement>, decode: string -> string): (r: seq<Segment>)
    ensures |r| == |es|
    ensures forall i :: 0 <= i < |es| ==> r[i] == Cue(es[i], decode)
  {
    seq(|es|, i requires 0 <= i < |es| => Cue(es[i], decode))
  }

  /** The transcript the primary loop builds: the cues whose trimmed text is non-empty. */
  function PrimarySegments(es: seq<TextElement>, decode: string -> string): seq<Segment> {
    Filter(Cues(es, decode), HasText)
  }

  /**
   * One more element either adds, at the end, the segment the loop body
   * builds for it, or adds nothing when its decoded text is blank.
   */
  lemma PrimarySegmentsStep(es: seq<TextElement>, i: nat, decode: string -> string)
    requires i < |es|
    ensures var e := es[i];
      var text := decode(e.content);
      var start := e.start.GetOr(0.0);
      var duration := e.dur.GetOr(0.0);
      PrimarySegments(es[..i + 1], decode) == PrimarySegments(es[..i], decode) +
        if Trim(text) != [] then [Segment(Trim(text), Round2(start), Round2(duration), Round2(start + duration))]
        else []
  {
    var all := Cues(es[..i + 1], decode);
    assert all[..i] == Cues(es[..i], decode);
    assert all[i] == Cue(es[i], decode);
    assert Filter(all, HasText) == Filter(all[..i], HasText) + if HasText(all[i]) then [all[i]] else [];
  }

  /**
   * The primary path drops exactly the elements whose decoded text is blank,
   * keeps the others in document order, and so returns at most one segment
   * per element, each with non-empty trimmed text.
   */
  lemma PrimarySegmentsByElement(es: seq<TextElement>, decode: string -> string)
    ensures var out := PrimarySegments(es, decode);
      var ks := KeptIndices(Cues(es, decode), HasText);
      && |out| == |ks| <= |es|
      && IncreasingBelow(ks, |es|)
      && (forall k :: 0 <= k < |ks| ==> out[k] == Cue(es[ks[k]], decode) && NonBlankText(out[k]))
      && (forall i :: 0 <= i < |es| ==> (!IsBlank(decode(es[i].content)) <==> i in ks))
  {
    var cues := Cues(es, decode);
    FilterByIndices(cues, HasText);
    forall i | 0 <= i < |es| ensures !IsBlank(decode(es[i].content)) <==> i in KeptIndices(cues, HasText) {
      assert cues[i].text == Trim(decode(es[i].content));
    }
    forall k | 0 <= k < |KeptIndices(cues, HasText)| ensures NonBlankText(PrimarySegments(es, decode)[k]) {
      var t := PrimarySegments(es, decode)[k].text;
      assert t != [] && !IsSpace(t[0]);
    }
  }

  /**
   * Elements that are all blank give an empty transcript; the handler still
   * reports that as a success, unlike a document with no `<text>` element at all.
   */
  lemma {:induction false} PrimaryAllBlank(es: seq<TextElement>, decode: string -> string)
    requires forall i :: 0 <= i < |es| ==> IsBlank(decode(es[i].content))
    ensures PrimarySegments(es, decode) == []
  {
    if es != [] {
      var n := |es| - 1;
      PrimaryAllBlank(es[..n], decode);
      PrimarySegmentsStep(es, n, decode);
      assert es[..n + 1] == es;
    }
  }

  /**
   * The handler's loop over the `<text>` elements: decode each element's
   * text, default a missing `start` or `dur` to 0, and push a rounded segment
   * when the trimmed text is non-empty.
   */
  method CollectSegments(elements: seq<TextElement>, decode: string -> string)
    returns (transcript: seq<Segment>)
    ensures transcript == PrimarySegments(elements, decode)
  {
    transcript := [];
    var i := 0;
    while i < |elements|
      invariant 0 <= i <= |elements|
      invariant transcript == PrimarySegments(elements[..i], decode)
    {
      var element := elements[i];
      var decoded := decode(element.content);
      var start := element.start.GetOr(0.0);
      var duration := element.dur.GetOr(0.0);
      PrimarySegmentsStep(elements, i, decode);
      if Trim(decoded) != [] {
        var seg := Segment(Trim(decoded), Round2(start), Round2(duration), Round2(start + duration));
        transcript := transcript + [seg];
      }
      i := i + 1;
    }
    assert elements[..i] == elements;
  }

  /**
   * The handler for a `parseXML` message carrying `xmlText`, whose XML parse
   * is `doc` and whose JSON reading is `json`.
   */
  method HandleParseXml(xmlText: Option<string>, doc: XmlDocument, json: JsonPayload, decode: string -> string)
    returns (resp: Response)
    ensures xmlText.None? ==> resp == Failure(MissingPayloadError)
    ensures xmlText.Some? && IsBlank(xmlText.value) ==> resp == Failure(EmptyContentError)
    ensures xmlText.Some? && !IsBlank(xmlText.value) && doc.ParserError? ==>
      resp == Failure(ParseFailedPrefix + doc.message)
    ensures xmlText.Some? && !IsBlank(xmlText.value) && doc.Parsed? && doc.textElements == [] ==>
      var alt := TryAlternativeParsing(xmlText.value, json, decode);
      resp == if alt != [] then Success(alt) else Failure(NoTextElementsError)
    ensures xmlText.Some? && !IsBlank(xmlText.value) && doc.Parsed? && doc.textElements != [] ==>
      resp == Success(PrimarySegments(doc.textElements, decode))
  {
    if xmlText.None? {
      return Failure(MissingPayloadError);
    }
    var text := xmlText.value;
    if text == [] || Trim(text) == [] {
      return Failure(EmptyContentError);
    }
    if doc.ParserError? {
      return Failure(ParseFailedPrefix + doc.message);
    }
    var elements := doc.textElements;
    if |elements| == 0 {
      var transcript := TryAlternativeParsing(text, json, decode);
      if |transcript| > 0 {
        return Success(transcript);
      }
      return Failure(NoTextElementsError);
    }
    var transcript := CollectSegments(elements, decode);
    return Success(transcript);
  }
}
