/**
 * `tryAlternativeParsing` (offscreen.js): the recovery path taken when the
 * parsed caption document holds no `<text>` element. It first reads the
 * payload as the JSON event form; when that does not apply it scans the raw
 * text with the regular expression `/<text[^>]*>(.*?)<\/text>/g` and gives
 * each match a synthetic five-second slot.
 */
module AlternativeParsing {
  import opened Wrappers
  import opened JsString
  import opened Sequences
  import opened Segments

  // ----- JSON event form -----

  /** One entry of an event's `segs` list; `utf8` may be missing. */
  datatype Seg = Seg(utf8: Option<string>)

  /** One entry of `events`: optional `segs`, times in whole milliseconds. */
  datatype CaptionEvent = CaptionEvent(segs: Option<seq<Seg>>, tStartMs: int, dDurationMs: int)

  /**
   * What `JSON.parse(xmlText)` and the `jsonData.events` test make of the
   * payload: not JSON at all (the parse throws), JSON whose `events` is
   * missing or falsy (or cannot be mapped over, which throws), or an `events` list.
   */
  datatype JsonPayload = NotJson | WithoutEvents | WithEvents(events: seq<CaptionEvent>)

  /** `segs.map(seg => seg.utf8).join('')`: a missing `utf8` joins as the empty string. */
  function JoinUtf8(segs: seq<Seg>): (r: string)
    ensures |r| == Utf8Length(segs)
  {
    if segs == [] then [] else JoinUtf8(segs[..|segs| - 1]) + segs[|segs| - 1].utf8.GetOr([])
  }

  /** Total length of the present `utf8` fragments. */
  function Utf8Length(segs: seq<Seg>): nat {
    if segs == [] then 0 else Utf8Length(segs[..|segs| - 1]) + |segs[|segs| - 1].utf8.GetOr([])|
  }

  /** A single fragment joins to its `utf8` text, or to nothing when `utf8` is missing. */
  lemma JoinUtf8Single(t: string)
    ensures JoinUtf8([Seg(Some(t))]) == t
    ensures JoinUtf8([Seg(None)]) == []
  {
    assert [Seg(Some(t))][..0] == [];
    assert [Seg(None)][..0] == [];
  }

  /** Joining two runs of fragments is joining each run and concatenating, in order. */
  lemma {:induction false} JoinUtf8Append(a: seq<Seg>, b: seq<Seg>)
    ensures JoinUtf8(a + b) == JoinUtf8(a) + JoinUtf8(b)
  {
    if b == [] {
      assert a + b == a;
    } else {
      var n := |b| - 1;
      var last := b[n].utf8.GetOr([]);
      JoinUtf8Append(a, b[..n]);
      assert (a + b)[..|a + b| - 1] == a + b[..n];
      assert (a + b)[|a + b| - 1] == b[n];
      calc {
        JoinUtf8(a + b);
        JoinUtf8(a + b[..n]) + last;
        (JoinUtf8(a) + JoinUtf8(b[..n])) + last;
        { AppendAssoc(JoinUtf8(a), JoinUtf8(b[..n]), last); }
        JoinUtf8(a) + (JoinUtf8(b[..n]) + last);
        JoinUtf8(a) + JoinUtf8(b);
      }
    }
  }

  /** The text of an event: its fragments joined, or empty when it has no `segs`. */
  function EventText(e: CaptionEvent): string {
    match e.segs
    case None => []
    case Some(segs) => JoinUtf8(segs)
  }

  /** The segment an event maps to, before blank ones are filtered out. */
  function EventSegment(e: CaptionEvent): (seg: Segment)
    ensures seg.text == EventText(e)
    ensures seg.start * 1000.0 == e.tStartMs as real
    ensures seg.duration * 1000.0 == e.dDurationMs as real
    ensures seg.end * 1000.0 == (e.tStartMs + e.dDurationMs) as real
    ensures seg.end == seg.start + seg.duration
  {
    Segment(EventText(e), e.tStartMs as real / 1000.0, e.dDurationMs as real / 1000.0,
            (e.tStartMs + e.dDurationMs) as real / 1000.0)
  }

  /** The `filter(item => item.text.trim())` test of the JSON path. */
  predicate NonBlankText(seg: Segment) {
    !IsBlank(seg.text)
  }

  /** Every event mapped to its segment, in event order. */
  function EventSegments(events: seq<CaptionEvent>): (r: seq<Segment>)
    ensures |r| == |events|
    ensures forall i :: 0 <= i < |events| ==> r[i] == EventSegment(events[i])
  {
    seq(|events|, i requires 0 <= i < |events| => EventSegment(events[i]))
  }

  /** The JSON path: map every event, then drop those whose text is blank. */
  function JsonSegments(events: seq<CaptionEvent>): seq<Segment> {
    Filter(EventSegments(events), NonBlankText)
  }

  // ----- Regular-expression scan -----

  const OpenTag: string := "<text"
  const CloseTag: string := "</text>"

  /** The character classes the scans below look for. */
  datatype CharClass = GreaterThan | LineBreak

  /** `c` belongs to `cls`: the `>` that closes `[^>]*`, or a character `.` refuses. */
  predicate InClass(c: char, cls: CharClass) {
    match cls
    case GreaterThan => c == '>'
    case LineBreak => IsLineTerminator(c)
  }

  /** `pat` occurs in `s` starting at position `i`. */
  predicate OccursAt(s: string, pat: string, i: nat) {
    i + |pat| <= |s| && forall n :: 0 <= n < |pat| ==> s[i + n] == pat[n]
  }

  /** The first position at or after `from` whose character is in `cls`, or `|s|`. */
  function FindFrom(s: string, from: nat, cls: CharClass): (k: nat)
    requires from <= |s|
    ensures from <= k <= |s|
    ensures k < |s| ==> InClass(s[k], cls)
    ensures forall j :: from <= j < k ==> !InClass(s[j], cls)
    decreases |s| - from
  {
    if from == |s| || InClass(s[from], cls) then from else FindFrom(s, from + 1, cls)
  }

  /** With no character of `cls` in `[from, k)`, the search reaches at least `k`. */
  lemma {:induction false} FindFromSkips(s: string, from: nat, cls: CharClass, k: nat)
    requires from <= k <= |s|
    requires forall j :: from <= j < k ==> !InClass(s[j], cls)
    ensures FindFrom(s, from, cls) >= k
    decreases k - from
  {
    if from < k {
      FindFromSkips(s, from + 1, cls, k);
    }
  }

  /** The first character of `cls` at or after `from` is where the search stops. */
  lemma FindFromIs(s: string, from: nat, cls: CharClass, k: nat)
    requires from <= k <= |s|
    requires k < |s| ==> InClass(s[k], cls)
    requires forall j :: from <= j < k ==> !InClass(s[j], cls)
    ensures FindFrom(s, from, cls) == k
  {
    FindFromSkips(s, from, cls, k);
  }

  /** The first position at or after `from` where `pat` occurs, or `|s|`. */
  function IndexOf(s: string, pat: string, from: nat): (k: nat)
    requires from <= |s|
    ensures from <= k <= |s|
    ensures k < |s| ==> OccursAt(s, pat, k)
    ensures forall j :: from <= j < k ==> !OccursAt(s, pat, j)
    decreases |s| - from
  {
    if from == |s| || OccursAt(s, pat, from) then from else IndexOf(s, pat, from + 1)
  }

  /** The first occurrence at or after `from` is where the search stops. */
  lemma {:induction false} IndexOfIs(s: string, pat: string, from: nat, k: nat)
    requires from <= k < |s| && OccursAt(s, pat, k)
    requires forall j :: from <= j < k ==> !OccursAt(s, pat, j)
    ensures IndexOf(s, pat, from) == k
    decreases k - from
  {
    if from < k {
      IndexOfIs(s, pat, from + 1, k);
    }
  }

  /**
   * Declarative reading of the expression at position `i`: `<text` at `i`;
   * `[^>]*>` runs to the first `>` after it, at `g`; the lazy `(.*?)` stops at
   * the first `</text>` after `g`, and crosses no line terminator on the way;
   * the match ends at `e`.
   */
  ghost predicate LazyMatch(s: string, i: nat, g: nat, e: nat) {
    && OccursAt(s, OpenTag, i)
    && i + |OpenTag| <= g && g < |s| && s[g] == '>'
    && (forall k :: i + |OpenTag| <= k < g ==> s[k] != '>')
    && g + 1 + |CloseTag| <= e <= |s|
    && OccursAt(s, CloseTag, e - |CloseTag|)
    && (forall k :: g < k < e - |CloseTag| ==> !IsLineTerminator(s[k]))
    && (forall k :: g < k < e - |CloseTag| ==> !OccursAt(s, CloseTag, k))
  }

  /** Where the expression's match starting at `i` ends, if it matches there. */
  function MatchEnd(s: string, i: nat): (e: Option<nat>)
    requires i <= |s|
    ensures e.Some? ==> i + |OpenTag| < e.value <= |s|
  {
    if !OccursAt(s, OpenTag, i) then None
    else
      var g := FindFrom(s, i + |OpenTag|, GreaterThan);
      if g == |s| then None
      else
        var close := IndexOf(s, CloseTag, g + 1);
        var nl := FindFrom(s, g + 1, LineBreak);
        if close == |s| || nl < close then None
        else Some(close + |CloseTag|)
  }

  /**
   * A match `MatchEnd` finds is a lazy match of the expression: it runs to the
   * first `>`, then to the first `</text>` after it, with no line terminator between.
   */
  lemma MatchEndSound(s: string, i: nat)
    requires i <= |s|
    ensures MatchEnd(s, i).Some? ==>
      LazyMatch(s, i, FindFrom(s, i + |OpenTag|, GreaterThan), MatchEnd(s, i).value)
  {
  }

  /** The match `MatchEnd` finds is the only one the expression has at `i`. */
  lemma MatchEndComplete(s: string, i: nat, g: nat, e: nat)
    requires i <= |s| && LazyMatch(s, i, g, e)
    ensures MatchEnd(s, i) == Some(e)
  {
    var close := e - |CloseTag|;
    FindFromIs(s, i + |OpenTag|, GreaterThan, g);
    IndexOfIs(s, CloseTag, g + 1, close);
    FindFromSkips(s, g + 1, LineBreak, close);
    assert OccursAt(s, OpenTag, i) && g != |s|;
    assert !(close == |s| || FindFrom(s, g + 1, LineBreak) < close);
    assert e == close + |CloseTag|;
  }

  /**
   * `xmlText.match(/<text[^>]*>(.*?)<\/text>/g)` from position `from` on:
   * the non-overlapping matches, leftmost first (an empty list stands for `null`).
   */
  function MatchAll(s: string, from: nat): seq<string>
    requires from <= |s|
    decreases |s| - from
  {
    if from == |s| then []
    else match MatchEnd(s, from)
      case Some(e) => [s[from..e]] + MatchAll(s, e)
      case None => MatchAll(s, from + 1)
  }

  /** Every string the scan returns starts with `<text` and ends with `</text>`. */
  lemma {:induction false} MatchAllShape(s: string, from: nat)
    requires from <= |s|
    ensures forall m :: m in MatchAll(s, from) ==>
      |OpenTag| + |CloseTag| < |m| && OccursAt(m, OpenTag, 0) && OccursAt(m, CloseTag, |m| - |CloseTag|)
    decreases |s| - from
  {
    if from < |s| {
      match MatchEnd(s, from)
      case Some(e) =>
        MatchEndSound(s, from);
        MatchAllShape(s, e);
        var m := s[from..e];
        assert OccursAt(m, OpenTag, 0) by {
          forall n | 0 <= n < |OpenTag| ensures m[n] == OpenTag[n] {
            assert m[n] == s[from + n];
          }
        }
        assert OccursAt(m, CloseTag, |m| - |CloseTag|) by {
          forall n | 0 <= n < |CloseTag| ensures m[|m| - |CloseTag| + n] == CloseTag[n] {
            assert m[|m| - |CloseTag| + n] == s[e - |CloseTag| + n];
          }
        }
        MatchAllHit(s, from);
      case None =>
        MatchAllShape(s, from + 1);
        MatchAllSkip(s, from);
    }
  }

  /**
   * The global scan returns the leftmost match at or after `from`, then
   * resumes where that match ends: the positions it passes over hold no match.
   */
  lemma {:induction false} MatchAllLeftmost(s: string, from: nat, i: nat)
    requires from <= i <= |s|
    requires MatchEnd(s, i).Some?
    requires forall j :: from <= j < i ==> MatchEnd(s, j).None?
    ensures MatchAll(s, from) == [s[i..MatchEnd(s, i).value]] + MatchAll(s, MatchEnd(s, i).value)
    decreases i - from
  {
    if from < i {
      MatchAllSkip(s, from);
      MatchAllLeftmost(s, from + 1, i);
    } else {
      MatchAllHit(s, from);
    }
  }

  /** A position where no match starts is passed over. */
  lemma MatchAllSkip(s: string, from: nat)
    requires from < |s| && MatchEnd(s, from).None?
    ensures MatchAll(s, from) == MatchAll(s, from + 1)
  {
  }

  /** A match at the scan position is returned first, and the scan resumes after it. */
  lemma MatchAllHit(s: string, from: nat)
    requires from <= |s| && MatchEnd(s, from).Some?
    ensures MatchAll(s, from) == [s[from..MatchEnd(s, from).value]] + MatchAll(s, MatchEnd(s, from).value)
  {
  }

  /** When no position at or after `from` starts a match, the scan finds nothing. */
  lemma {:induction false} MatchAllNone(s: string, from: nat)
    requires from <= |s|
    requires forall j :: from <= j <= |s| ==> MatchEnd(s, j).None?
    ensures MatchAll(s, from) == []
    decreases |s| - from
  {
    if from < |s| {
      assert MatchEnd(s, from).None?;
      MatchAllNone(s, from + 1);
    }
  }

  /** No `<` is followed, anywhere later, by a `>`: no complete tag is left. */
  predicate NoTag(s: string) {
    forall a, b :: 0 <= a < b < |s| && s[a] == '<' ==> s[b] != '>'
  }

  /**
   * `text.replace(/<[^>]*>/g, '')`: each `<` up to the first `>` after it is
   * removed; a `<` with no `>` after it stays, and so does the rest of the text.
   */
  function StripTags(s: string): (r: string)
    ensures |r| <= |s|
    ensures NoTag(r)
  {
    if s == [] then []
    else if s[0] == '<' then
      var g := FindFrom(s, 1, GreaterThan);
      if g < |s| then StripTags(s[g + 1..]) else s
    else
      var rest := StripTags(s[1..]);
      assert forall b :: 0 < b < |[s[0]] + rest| ==> ([s[0]] + rest)[b] == rest[b - 1];
      [s[0]] + rest
  }

  /** A text with no complete tag in it is left alone. */
  lemma {:induction false} StripTagsNoTag(s: string)
    requires NoTag(s)
    ensures StripTags(s) == s
  {
    if s != [] && s[0] != '<' {
      assert NoTag(s[1..]) by {
        forall a, b | 0 <= a < b < |s[1..]| && s[1..][a] == '<' ensures s[1..][b] != '>' {
          assert s[a + 1] == '<';
        }
      }
      StripTagsNoTag(s[1..]);
    }
  }

  /** Text before the first `<` is kept as it is. */
  lemma {:induction false} StripTagsPlain(a: string, s: string)
    requires forall k :: 0 <= k < |a| ==> a[k] != '<'
    ensures StripTags(a + s) == a + StripTags(s)
  {
    if a != [] {
      StripTagsPlain(a[1..], s);
      var x := a + s;
      assert x[0] == a[0] && x[1..] == a[1..] + s;
      assert StripTags(x) == [a[0]] + StripTags(a[1..] + s);
      assert a + StripTags(s) == [a[0]] + (a[1..] + StripTags(s));
    } else {
      assert a + s == s;
    }
  }

  /** A `<`, the text up to the next `>`, and that `>` are removed together. */
  lemma StripTagsTag(t: string, s: string)
    requires forall k :: 0 <= k < |t| ==> t[k] != '>'
    ensures StripTags("<" + t + ">" + s) == StripTags(s)
  {
    var x := "<" + t + ">" + s;
    assert x[|t| + 1] == '>';
    assert forall k :: 1 <= k <= |t| ==> x[k] == t[k - 1];
    assert FindFrom(x, 1, GreaterThan) == |t| + 1;
    assert x[|t| + 2..] == s;
  }

  /** A `<` with no `>` anywhere after it stays, with everything after it. */
  lemma StripTagsUnclosed(t: string)
    requires forall k :: 0 <= k < |t| ==> t[k] != '>'
    ensures StripTags("<" + t) == "<" + t
  {
    var x := "<" + t;
    assert x[1..] == t;
    assert forall k :: 1 <= k < |x| ==> !InClass(x[k], GreaterThan) by {
      forall k | 1 <= k < |x| ensures !InClass(x[k], GreaterThan) {
        assert x[k] == x[1..][k - 1];
      }
    }
    FindFromSkips(x, 1, GreaterThan, |x|);
    assert x[0] == '<';
  }

  /** Stripping tags twice is stripping them once. */
  lemma StripTagsIdempotent(s: string)
    ensures StripTags(StripTags(s)) == StripTags(s)
  {
    StripTagsNoTag(StripTags(s));
  }

  /** Nominal length, in seconds, of the slot each regex-recovered segment gets. */
  const RegexSlot: real := 5.0

  /** The segment the `index`-th match maps to, before empty ones are filtered out. */
  function RegexSegment(m: string, index: nat, decode: string -> string): (seg: Segment)
    ensures seg.start == RegexSlot * index as real
    ensures seg.duration == RegexSlot
    ensures seg.end == seg.start + seg.duration
    ensures seg.text == [] || (!IsSpace(seg.text[0]) && !IsSpace(seg.text[|seg.text| - 1]))
  {
    Segment(Trim(decode(StripTags(m))), index as real * 5.0, 5.0, (index + 1) as real * 5.0)
  }

  /** Every match mapped to its segment, numbered by its position among all matches. */
  function MatchSegments(ms: seq<string>, decode: string -> string): (r: seq<Segment>)
    ensures |r| == |ms|
    ensures forall i :: 0 <= i < |ms| ==> r[i] == RegexSegment(ms[i], i, decode)
  {
    seq(|ms|, i requires 0 <= i < |ms| => RegexSegment(ms[i], i, decode))
  }

  /** The regex path: scan the whole text, map every match, drop empty texts. */
  function RegexSegments(xmlText: string, decode: string -> string): seq<Segment> {
    Filter(MatchSegments(MatchAll(xmlText, 0), decode), HasText)
  }

  /**
   * The JSON path keeps exactly the events whose text is not blank, in event
   * order, each with the times its milliseconds give.
   */
  lemma JsonSegmentsByEvent(events: seq<CaptionEvent>)
    ensures var out := JsonSegments(events);
      var ks := KeptIndices(EventSegments(events), NonBlankText);
      && |out| == |ks|
      && IncreasingBelow(ks, |events|)
      && (forall k :: 0 <= k < |ks| ==> out[k] == EventSegment(events[ks[k]]))
      && (forall i :: 0 <= i < |events| ==> (!IsBlank(EventText(events[i])) <==> i in ks))
  {
    FilterByIndices(EventSegments(events), NonBlankText);
  }

  /** When no event's text is blank, there is one segment per event, in event order. */
  lemma JsonSegmentsAllKept(events: seq<CaptionEvent>)
    requires forall i :: 0 <= i < |events| ==> !IsBlank(EventText(events[i]))
    ensures |JsonSegments(events)| == |events|
    ensures forall i :: 0 <= i < |events| ==>
      JsonSegments(events)[i] == EventSegment(events[i])
  {
    FilterAll(EventSegments(events), NonBlankText);
  }

  /**
   * The regex path keeps the matches whose stripped, decoded, trimmed text is
   * non-empty, in scan order; the k-th kept one sits in the slot of its
   * position among ALL matches, so a dropped match leaves a gap, and the
   * slots never overlap.
   */
  lemma RegexSegmentsBySlot(xmlText: string, decode: string -> string)
    ensures var ms := MatchAll(xmlText, 0);
      var out := RegexSegments(xmlText, decode);
      var ks := KeptIndices(MatchSegments(ms, decode), HasText);
      && |out| == |ks|
      && IncreasingBelow(ks, |ms|)
      && (forall k :: 0 <= k < |ks| ==>
            && out[k].text == Trim(decode(StripTags(ms[ks[k]])))
            && NonBlankText(out[k])
            && out[k].start == RegexSlot * ks[k] as real
            && out[k].duration == RegexSlot
            && out[k].end == out[k].start + RegexSlot)
      && (forall i :: 0 <= i < |ms| ==> (Trim(decode(StripTags(ms[i]))) != [] <==> i in ks))
      && (forall k :: 0 <= k < |out| - 1 ==> out[k].end <= out[k + 1].start)
  {
    var ms := MatchAll(xmlText, 0);
    var segs := MatchSegments(ms, decode);
    var out := RegexSegments(xmlText, decode);
    var ks := KeptIndices(segs, HasText);
    FilterByIndices(segs, HasText);
    forall k | 0 <= k < |ks|
      ensures out[k].text == Trim(decode(StripTags(ms[ks[k]])))
      ensures NonBlankText(out[k])
      ensures out[k].start == RegexSlot * ks[k] as real
      ensures out[k].duration == RegexSlot
      ensures out[k].end == out[k].start + RegexSlot
    {
      assert out[k] == segs[ks[k]] == RegexSegment(ms[ks[k]], ks[k], decode);
      assert out[k].text != [] && !IsSpace(out[k].text[0]);
    }
    forall i | 0 <= i < |ms| ensures Trim(decode(StripTags(ms[i]))) != [] <==> i in ks {
      assert segs[i].text == Trim(decode(StripTags(ms[i])));
    }
    forall k | 0 <= k < |out| - 1 ensures out[k].end <= out[k + 1].start {
      assert ks[k] < ks[k + 1];
    }
  }

  /** `tryAlternativeParsing(xmlText)`: the JSON event form first, the regex scan otherwise. */
  function TryAlternativeParsing(xmlText: string, json: JsonPayload, decode: string -> string): (r: seq<Segment>)
    ensures forall k :: 0 <= k < |r| ==> NonBlankText(r[k]) && r[k].end == r[k].start + r[k].duration
    ensures json.WithEvents? ==> |r| <= |json.events|
    ensures !json.WithEvents? ==> forall k :: 0 <= k < |r| ==> r[k].duration == RegexSlot
    ensures json.WithEvents? ==> r == JsonSegments(json.events)
    ensures !json.WithEvents? ==> r == RegexSegments(xmlText, decode)
  {
    match json
    case WithEvents(events) =>
      JsonSegmentsByEvent(events);
      JsonSegments(events)
    case _ =>
      RegexSegmentsBySlot(xmlText, decode);
      RegexSegments(xmlText, decode)
  }

  /**
   * When the payload holds no `events` list and no position of the text starts
   * a match of the expression, neither reading applies and the result is empty.
   */
  lemma AlternativeNothing(xmlText: string, json: JsonPayload, decode: string -> string)
    requires !json.WithEvents?
    requires forall j :: 0 <= j <= |xmlText| ==> MatchEnd(xmlText, j).None?
    ensures TryAlternativeParsing(xmlText, json, decode) == []
  {
    MatchAllNone(xmlText, 0);
    assert MatchSegments(MatchAll(xmlText, 0), decode) == [];
  }
}
