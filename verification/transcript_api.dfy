/**
 * backend/python/transcript_api.py: the video-id extraction of `get_video_id`
 * and the `/transcript` endpoint that joins the fetched caption lines. The URL
 * arrives already split by `urlparse` and `parse_qs`; the transcript fetch is
 * the parameter `fetch`.
 */
module TranscriptApi {
  import opened Wrappers

  /** The values `parse_qs` lists for one key: never an empty list. */
  type QueryValues = s: seq<string> | |s| > 0 witness [""]

  /** A URL as `urlparse` splits it: lower-cased host name (if any), path, parsed query. */
  datatype ParsedUrl = ParsedUrl(hostname: Option<string>, path: string, query: map<string, QueryValues>)

  const ShortHost: string := "youtu.be"
  const WatchHosts: set<string> := {"www.youtube.com", "youtube.com"}

  /** `get_video_id(url)`. */
  function GetVideoId(u: ParsedUrl): (id: Option<string>)
    ensures id.Some? ==> u.hostname.Some? && (u.hostname.value == ShortHost || u.hostname.value in WatchHosts)
    ensures u.hostname == Some(ShortHost) ==>
      id.Some? && (u.path == [] ==> id.value == []) && (u.path != [] ==> u.path == [u.path[0]] + id.value)
    ensures u.hostname.Some? && u.hostname.value in WatchHosts ==>
      (id.Some? <==> "v" in u.query) && (id.Some? ==> id.value == u.query["v"][0])
  {
    if u.hostname == Some(ShortHost) then
      Some(if u.path == [] then [] else u.path[1..])
    else if u.hostname.Some? && u.hostname.value in WatchHosts then
      if "v" in u.query then Some(u.query["v"][0]) else None
    else
      None
  }

  /** The parsed form of `https://youtu.be/<id>`. */
  function ShortLink(id: string): ParsedUrl {
    ParsedUrl(Some(ShortHost), "/" + id, map[])
  }

  /** A short link gives back the id it was built from. */
  lemma ShortLinkRoundTrip(id: string)
    ensures GetVideoId(ShortLink(id)) == Some(id)
  {
    assert ("/" + id)[1..] == id;
  }

  /** A watch URL on either accepted host gives the first `v` value, whatever else the query holds. */
  lemma WatchLinkRoundTrip(host: string, path: string, query: map<string, QueryValues>, id: string, more: seq<string>)
    requires host in WatchHosts
    ensures GetVideoId(ParsedUrl(Some(host), path, query["v" := [id] + more])) == Some(id)
  {
  }

  /**
   * `https://www.youtube.com/shorts/abc123` has no `v` parameter, so no id
   * is found, and neither is one for a YouTube host other than the three accepted.
   */
  lemma OtherShapesGiveNone()
    ensures GetVideoId(ParsedUrl(Some("www.youtube.com"), "/shorts/abc123", map[])) == None
    ensures GetVideoId(ParsedUrl(Some("m.youtube.com"), "/watch", map["v" := ["abc123"]])) == None
    ensures GetVideoId(ParsedUrl(None, "", map[])) == None
  {
    assert "m.youtube.com" != ShortHost;
    assert "m.youtube.com" !in WatchHosts;
  }

  // ----- The newline join of the transcript text -----

  /** `"\n".join(texts)`. */
  function JoinLines(texts: seq<string>): string
    decreases |texts|
  {
    if texts == [] then []
    else if |texts| == 1 then texts[0]
    else texts[0] + "\n" + JoinLines(texts[1..])
  }

  /** Python's `s.split("\n")`: the pieces between newlines, always at least one. */
  function SplitLines(s: string): (r: seq<string>)
    ensures |r| >= 1
  {
    if s == [] then [[]]
    else
      var rest := SplitLines(s[1..]);
      if s[0] == '\n' then [[]] + rest else [[s[0]] + rest[0]] + rest[1..]
  }

  /** Total length of the texts. */
  function TotalLength(texts: seq<string>): nat {
    if texts == [] then 0 else |texts[0]| + TotalLength(texts[1..])
  }

  predicate NoNewline(t: string) {
    forall i :: 0 <= i < |t| ==> t[i] != '\n'
  }

  /** A text without newlines splits into itself, and a newline after it starts the next piece. */
  lemma {:induction false} SplitLinesPrefix(t: string, rest: string)
    requires NoNewline(t)
    ensures SplitLines(t) == [t]
    ensures SplitLines(t + "\n" + rest) == [t] + SplitLines(rest)
  {
    if t != [] {
      SplitLinesPrefix(t[1..], rest);
      assert (t + "\n" + rest)[1..] == t[1..] + "\n" + rest;
      assert [t[0]] + t[1..] == t;
    } else {
      assert t + "\n" + rest == "\n" + rest;
    }
  }

  /**
   * Splitting the joined text at newlines gives the texts back, when none of
   * them holds a newline itself and there is at least one: the separator
   * appears exactly between consecutive texts, never before the first or
   * after the last.
   */
  lemma {:induction false} SplitJoinLines(texts: seq<string>)
    requires |texts| >= 1
    requires forall i :: 0 <= i < |texts| ==> NoNewline(texts[i])
    ensures SplitLines(JoinLines(texts)) == texts
  {
    var t := texts[0];
    if |texts| == 1 {
      SplitLinesPrefix(t, []);
      assert texts == [t];
    } else {
      var tail := texts[1..];
      SplitLinesPrefix(t, JoinLines(tail));
      SplitJoinLines(tail);
      assert JoinLines(texts) == t + "\n" + JoinLines(tail);
      assert texts == [t] + tail;
    }
  }

  /** The joined text is as long as the texts together plus one newline between each pair. */
  lemma {:induction false} JoinLinesLength(texts: seq<string>)
    ensures |JoinLines(texts)| == TotalLength(texts) + (if texts == [] then 0 else |texts| - 1)
  {
    if |texts| > 1 {
      JoinLinesLength(texts[1..]);
    } else if |texts| == 1 {
      assert texts[1..] == [];
    }
  }

  /** Adding a text at the end adds one newline and that text. */
  lemma {:induction false} JoinLinesSnoc(texts: seq<string>, t: string)
    requires texts != []
    ensures JoinLines(texts + [t]) == JoinLines(texts) + "\n" + t
  {
    if |texts| == 1 {
      assert (texts + [t])[1..] == [t];
    } else {
      assert (texts + [t])[1..] == texts[1..] + [t];
      JoinLinesSnoc(texts[1..], t);
    }
  }

  // ----- The endpoint -----

  /** One fetched caption line; only its `text` is used. */
  datatype Entry = Entry(text: string, start: real, duration: real)

  /** The JSON body of a reply. */
  datatype Body = TranscriptBody(transcript: string) | ErrorBody(error: string)

  /** An HTTP status and JSON body, as the Flask handler returns them. */
  datatype Reply = Reply(status: nat, body: Body)

  const InvalidUrlError: string := "Invalid YouTube URL"

  /** The `text` of every entry, in order. */
  function Texts(entries: seq<Entry>): (r: seq<string>)
    ensures |r| == |entries|
    ensures forall i :: 0 <= i < |entries| ==> r[i] == entries[i].text
  {
    seq(|entries|, i requires 0 <= i < |entries| => entries[i].text)
  }

  /**
   * `get_transcript()` for a request whose `url` parses as `u`; `fetch(id)` is
   * the transcript library's answer, a list of entries or the message of the
   * exception it raised.
   */
  function GetTranscript(u: ParsedUrl, fetch: string -> Result<seq<Entry>, string>): (r: Reply)
    ensures (GetVideoId(u) == None || GetVideoId(u) == Some([])) <==> r == Reply(400, ErrorBody(InvalidUrlError))
    ensures r.status == 200 ==> r.body.TranscriptBody?
    ensures r.status in {200, 400, 500}
  {
    var videoId := GetVideoId(u);
    if videoId == None || videoId.value == [] then Reply(400, ErrorBody(InvalidUrlError))
    else match fetch(videoId.value)
      case Ok(entries) => Reply(200, TranscriptBody(JoinLines(Texts(entries))))
      case Err(message) => Reply(500, ErrorBody(message))
  }

  /** An unusable id is answered without consulting the transcript source at all. */
  lemma InvalidIdSkipsFetch(u: ParsedUrl, f: string -> Result<seq<Entry>, string>, g: string -> Result<seq<Entry>, string>)
    requires GetVideoId(u) == None || GetVideoId(u) == Some([])
    ensures GetTranscript(u, f) == GetTranscript(u, g)
  {
  }

  /** `https://youtu.be/` yields the empty id, and so the invalid-URL reply. */
  lemma EmptyShortLinkIsInvalid(fetch: string -> Result<seq<Entry>, string>)
    ensures GetTranscript(ParsedUrl(Some(ShortHost), "/", map[]), fetch) == Reply(400, ErrorBody(InvalidUrlError))
  {
  }

  /**
   * A successful fetch for a valid id is answered with status 200 and the
   * entries' texts, one per line: splitting the reply at newlines gives the
   * texts back when none of them holds a newline.
   */
  lemma TranscriptLines(u: ParsedUrl, fetch: string -> Result<seq<Entry>, string>)
    requires GetVideoId(u).Some? && GetVideoId(u).value != []
    requires fetch(GetVideoId(u).value).Ok?
    ensures var entries := fetch(GetVideoId(u).value).value;
      && GetTranscript(u, fetch).status == 200
      && GetTranscript(u, fetch).body.transcript == JoinLines(Texts(entries))
      && |GetTranscript(u, fetch).body.transcript| ==
           TotalLength(Texts(entries)) + (if entries == [] then 0 else |entries| - 1)
      && (entries == [] ==> GetTranscript(u, fetch).body.transcript == [])
      && (entries != [] && (forall i :: 0 <= i < |entries| ==> NoNewline(entries[i].text)) ==>
            SplitLines(GetTranscript(u, fetch).body.transcript) == Texts(entries))
  {
    var entries := fetch(GetVideoId(u).value).value;
    JoinLinesLength(Texts(entries));
    if entries != [] && (forall i :: 0 <= i < |entries| ==> NoNewline(entries[i].text)) {
      SplitJoinLines(Texts(entries));
    }
  }
}
