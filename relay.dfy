/** The relay between the browser and the language-model API
    (poc-app/proxy/server.mjs), without the HTTP plumbing: routing, the
    request check, the sorted notes rendered into the request text, the
    images pulled out of their data URLs into message parts, and the mapping
    of the upstream outcome to the relay's own response. */
module Relay {
  import opened Util
  import opened Calendar
  import opened Sorting
  import opened Dates
  import Prompt

  // ---------------------------------------------------------------------------
  // Requests and responses
  // ---------------------------------------------------------------------------

  /** An image of a posted note; `dataUrl` is `None` when absent or not a string. */
  datatype RelayImage = RelayImage(dataUrl: Option<string>)

  /** A posted note: `text` is `None` when absent or falsy, `images` when absent. */
  datatype RelayEntry = RelayEntry(date: string, text: Option<string>, images: Option<seq<RelayImage>>)

  /** The posted `weekRange`, each end `None` when absent. */
  datatype RelayRange = RelayRange(weekStart: Option<string>, weekEnd: Option<string>)

  /** The posted `entries` property: absent (defaulted to `[]`), something that
      is not an array, or an array of notes. */
  datatype EntriesField = Missing | NotAnArray | Items(items: seq<RelayEntry>)

  /** The request body after `JSON.parse(body || "{}")`: text that does not
      parse (with the parser's message), or the fields the relay reads. */
  datatype RequestBody = Malformed(message: string) | Fields(entries: EntriesField, weekRange: Option<RelayRange>)

  /** A request: its method, the path of its URL, and its body. */
  datatype Request = Request(httpMethod: string, pathname: string, body: RequestBody)

  /** A base64 image: its media type and its payload. */
  datatype ImageSource = ImageSource(mediaType: string, data: string)

  /** One part of the user message sent upstream. */
  datatype Part = TextPart(text: string) | ImagePart(source: ImageSource)

  /** The upstream reply body after `JSON.parse`: not JSON (with the parser's
      message), or JSON whose `content[0].text` is present or not. */
  datatype ReplyJson = NotJson(message: string) | Json(firstText: Option<string>)

  /** What the upstream call produced: an exception (network failure), or a
      response with its status, its body text and that text parsed. */
  datatype UpstreamOutcome = FetchFailed(message: string) | Responded(status: int, text: string, json: ReplyJson)

  /** The JSON object the relay answers with. `ContentJson(None)` is
      `{"content": undefined}`, which serialises as `{}`. */
  datatype ResponseBody = NoBody | ErrorJson(error: string) | ContentJson(content: Option<string>)

  datatype Response = Response(status: int, headers: seq<(string, string)>, body: ResponseBody)

  const ApiPath: string := "/api/claude"

  const PreflightHeaders: seq<(string, string)> := [
    ("Access-Control-Allow-Origin", "*"),
    ("Access-Control-Allow-Methods", "POST, OPTIONS"),
    ("Access-Control-Allow-Headers", "Content-Type, Authorization")
  ]

  /** The 404 and 400 answers carry only a content type. */
  const JsonHeaders: seq<(string, string)> := [("Content-Type", "application/json")]

  /** Every answer given after the upstream call, or after an exception, also
      allows any origin. */
  const JsonCorsHeaders: seq<(string, string)> := [("Content-Type", "application/json"), ("Access-Control-Allow-Origin", "*")]

  // ---------------------------------------------------------------------------
  // The request text
  // ---------------------------------------------------------------------------

  /** The seven instruction lines the relay's header starts with. */
  const RelayIntro: seq<string> := [
    "이번 주(월~금) 데일리 메모를 주간회의용으로 요약해줘.",
    "- 섹션: 완료 / 진행 중 / 블로커 / 결정 / 요청(지원 필요)",
    "- 섹션당 3~6줄, 같은 내용은 합쳐서 한 줄로 표현",
    "- 날짜 순서를 고려해 흐름을 이해하고, 반복 태스크는 한 문장으로 통합",
    "- 사람/팀/프로젝트 이름은 원문 유지",
    "- 불확실한 내용은 “(확인 필요)”라고 표기",
    "- “없음”, “TL;DR” 같은 메타 표현은 쓰지 말 것"
  ]

  /** The header gets the period line only when both ends are present and non-empty. */
  predicate HasPeriod(weekRange: Option<RelayRange>)
  {
    && weekRange.Some?
    && weekRange.value.weekStart.Some? && weekRange.value.weekStart.value != ""
    && weekRange.value.weekEnd.Some? && weekRange.value.weekEnd.value != ""
  }

  /** The header lines as the relay assembles them. */
  function RelayHeaderLines(weekRange: Option<RelayRange>): seq<string>
  {
    RelayIntro
      + (if HasPeriod(weekRange)
         then [Prompt.PeriodLine(weekRange.value.weekStart.value, weekRange.value.weekEnd.value)]
         else [])
      + ["", Prompt.DailyTitle]
  }

  /** The header is built by pushing onto the instruction lines. */
  method BuildHeader(weekRange: Option<RelayRange>) returns (header: seq<string>)
    ensures header == RelayHeaderLines(weekRange)
  {
    header := RelayIntro;
    if HasPeriod(weekRange) {
      header := header + [Prompt.PeriodLine(weekRange.value.weekStart.value, weekRange.value.weekEnd.value)];
    }
    header := header + ["", Prompt.DailyTitle];
  }

  /** A posted note as a line: date, colon, space and the trimmed text (`""` when absent). */
  function RelayLine(e: RelayEntry): string
  {
    e.date + ": " + Trim(match e.text case Some(t) => t case None => "")
  }

  function RelayLines(entries: seq<RelayEntry>): (r: seq<string>)
    ensures |r| == |entries| && forall i :: 0 <= i < |r| ==> r[i] == RelayLine(entries[i])
  {
    seq(|entries|, i requires 0 <= i < |entries| => RelayLine(entries[i]))
  }

  /** `userText`: the header lines, a line feed, then the note lines, each
      joined by line feeds. */
  function UserText(sorted: seq<RelayEntry>, weekRange: Option<RelayRange>): string
  {
    Join(RelayHeaderLines(weekRange), "\n") + "\n" + Join(RelayLines(sorted), "\n")
  }

  /** The header's shape: the instruction lines, the period line exactly when
      both ends are given, then an empty line and the title. */
  lemma RelayHeaderShape(weekRange: Option<RelayRange>)
    ensures var h := RelayHeaderLines(weekRange);
      && |h| == (if HasPeriod(weekRange) then 10 else 9)
      && h[..7] == RelayIntro
      && h[|h| - 2] == "" && h[|h| - 1] == Prompt.DailyTitle
      && (HasPeriod(weekRange) ==>
            h[7] == Prompt.PeriodLine(weekRange.value.weekStart.value, weekRange.value.weekEnd.value))
      && (!HasPeriod(weekRange) ==> h == RelayIntro + ["", Prompt.DailyTitle])
  {
  }

  /** The request text is the joined header, one line feed, then the first
      note's line (there is always one: empty lists are refused earlier). */
  lemma UserTextStart(sorted: seq<RelayEntry>, weekRange: Option<RelayRange>)
    requires sorted != []
    ensures Join(RelayHeaderLines(weekRange), "\n") + "\n" + RelayLine(sorted[0]) <= UserText(sorted, weekRange)
  {
    JoinStartsWithFirst(RelayLines(sorted), "\n");
  }

  // ---------------------------------------------------------------------------
  // extractImage
  // ---------------------------------------------------------------------------

  const DataPrefix: string := "data:"
  const Base64Marker: string := ";base64,"
  const OctetStream: string := "application/octet-stream"

  /** The characters `.` does not match in a JavaScript regular expression. */
  predicate IsLineTerminator(c: char)
  {
    c == '\n' || c == '\r' || c == '\U{2028}' || c == '\U{2029}'
  }

  predicate HasLineTerminator(s: string)
  {
    exists k :: 0 <= k < |s| && IsLineTerminator(s[k])
  }

  predicate MarkerAt(s: string, q: int)
  {
    0 <= q && q + |Base64Marker| <= |s| && s[q..q + |Base64Marker|] == Base64Marker
  }

  /** The first position at or after `from` where `;base64,` occurs. */
  function FindMarker(s: string, from: nat): (r: Option<nat>)
    ensures r.Some? ==> from <= r.value && MarkerAt(s, r.value)
    ensures forall q :: from <= q && (r.None? || q < r.value) ==> !MarkerAt(s, q)
    decreases |s| - from
  {
    if from + |Base64Marker| > |s| then None
    else if MarkerAt(s, from) then Some(from)
    else FindMarker(s, from + 1)
  }

  /** `extractImage`. A data URL is matched against `^data:(.*?);base64,(.*)$`:
      the match exists exactly when the text after `data:` has no line
      terminator and contains `;base64,`, and the lazy group then ends at the
      first `;base64,`. An empty media type becomes `application/octet-stream`.
      Any other non-empty string is taken as raw base64 data. */
  function ExtractImage(dataUrl: Option<string>): (r: Option<ImageSource>)
    ensures r.Some? ==> r.value.mediaType != ""
  {
    match dataUrl
    case None => None
    case Some(s) =>
      if s == "" then None
      else if DataPrefix <= s then
        if HasLineTerminator(s[|DataPrefix|..]) then None
        else
          match FindMarker(s, |DataPrefix|)
          case None => None
          case Some(p) =>
            var mt := s[|DataPrefix|..p];
            Some(ImageSource(if mt == "" then OctetStream else mt, s[p + |Base64Marker|..]))
      else Some(ImageSource(OctetStream, s))
  }

  /** A data URL `data:<type>;base64,<data>` in the form section 3 of RFC 2397
      gives its media type (or the default for an empty one) and its data back,
      provided the type has no `;` and neither part has a line terminator. */
  lemma ExtractDataUrl(mt: string, data: string)
    requires forall k :: 0 <= k < |mt| ==> mt[k] != ';' && !IsLineTerminator(mt[k])
    requires !HasLineTerminator(data)
    ensures ExtractImage(Some(DataPrefix + mt + Base64Marker + data)) ==
      Some(ImageSource(if mt == "" then OctetStream else mt, data))
  {
    var s := DataPrefix + mt + Base64Marker + data;
    var p := |DataPrefix| + |mt|;
    assert DataPrefix <= s;
    assert s[|DataPrefix|..] == mt + Base64Marker + data;
    assert !HasLineTerminator(s[|DataPrefix|..]) by {
      forall k | 0 <= k < |s| - |DataPrefix| ensures !IsLineTerminator(s[|DataPrefix|..][k]) {
        if k >= |mt| + |Base64Marker| {
          assert s[|DataPrefix|..][k] == data[k - |mt| - |Base64Marker|];
        }
      }
    }
    assert MarkerAt(s, p) by {
      assert s[p..p + |Base64Marker|] == Base64Marker;
    }
    forall q | |DataPrefix| <= q < p ensures !MarkerAt(s, q) {
      assert s[q] == mt[q - |DataPrefix|];
    }
    assert FindMarker(s, |DataPrefix|) == Some(p);
    assert s[|DataPrefix|..p] == mt;
    assert s[p + |Base64Marker|..] == data;
  }

  /** A non-empty string not starting with `data:` is raw data of the default type. */
  lemma ExtractRaw(s: string)
    requires s != "" && !(DataPrefix <= s)
    ensures ExtractImage(Some(s)) == Some(ImageSource(OctetStream, s))
  {
  }

  /** No image when the value is absent or empty, or a `data:` URL without `;base64,`. */
  lemma ExtractNone(s: string)
    requires DataPrefix <= s
    requires forall q :: 0 <= q ==> !MarkerAt(s, q)
    ensures ExtractImage(Some(s)) == None && ExtractImage(Some("")) == None && ExtractImage(None) == None
  {
  }

  // ---------------------------------------------------------------------------
  // The message parts
  // ---------------------------------------------------------------------------

  /** `entry.images || []`. */
  function ImagesOf(e: RelayEntry): seq<RelayImage>
  {
    match e.images case Some(imgs) => imgs case None => []
  }

  /** The part an image contributes: one image part if it can be extracted. */
  function ImagePartOf(img: RelayImage): seq<Part>
  {
    match ExtractImage(img.dataUrl) case Some(src) => [ImagePart(src)] case None => []
  }

  /** The image parts of a list of images, in order. */
  function ImagesParts(imgs: seq<RelayImage>): seq<Part>
  {
    if imgs == [] then [] else ImagesParts(imgs[..|imgs| - 1]) + ImagePartOf(imgs[|imgs| - 1])
  }

  /** The image parts of the notes: note by note, image by image. */
  function ImageParts(entries: seq<RelayEntry>): seq<Part>
  {
    if entries == [] then [] else ImageParts(entries[..|entries| - 1]) + ImagesParts(ImagesOf(entries[|entries| - 1]))
  }

  /** The `content` array: the text part, then a part for every image that
      extracts, pushed in two nested loops over the sorted notes and their images. */
  method BuildContent(sorted: seq<RelayEntry>, userText: string) returns (content: seq<Part>)
    ensures content == [TextPart(userText)] + ImageParts(sorted)
  {
    content := [TextPart(userText)];
    var i := 0;
    while i < |sorted|
      invariant 0 <= i <= |sorted|
      invariant content == [TextPart(userText)] + ImageParts(sorted[..i])
    {
      var imgs := ImagesOf(sorted[i]);
      ghost var before := content;
      var j := 0;
      while j < |imgs|
        invariant 0 <= j <= |imgs|
        invariant content == before + ImagesParts(imgs[..j])
      {
        var parsed := ExtractImage(imgs[j].dataUrl);
        ImagesPartsStep(imgs, j);
        AppendAssoc(before, ImagesParts(imgs[..j]), ImagePartOf(imgs[j]));
        if parsed.Some? {
          content := content + [ImagePart(parsed.value)];
        } else {
          assert ImagePartOf(imgs[j]) == [];
        }
        j := j + 1;
      }
      assert imgs[..j] == imgs;
      ImagePartsStep(sorted, i);
      AppendAssoc([TextPart(userText)], ImageParts(sorted[..i]), ImagesParts(imgs));
      i := i + 1;
    }
    assert sorted[..i] == sorted;
  }

  lemma AppendAssoc<T>(a: seq<T>, b: seq<T>, c: seq<T>)
    ensures a + b + c == a + (b + c)
  {
  }

  lemma ImagesPartsStep(imgs: seq<RelayImage>, j: int)
    requires 0 <= j < |imgs|
    ensures ImagesParts(imgs[..j + 1]) == ImagesParts(imgs[..j]) + ImagePartOf(imgs[j])
  {
    assert imgs[..j + 1][..j] == imgs[..j];
  }

  lemma ImagePartsStep(entries: seq<RelayEntry>, i: int)
    requires 0 <= i < |entries|
    ensures ImageParts(entries[..i + 1]) == ImageParts(entries[..i]) + ImagesParts(ImagesOf(entries[i]))
  {
    assert entries[..i + 1][..i] == entries[..i];
  }

  /** The images among `imgs` that extract, counted from the front. */
  function ExtractableCount(imgs: seq<RelayImage>): nat
  {
    if imgs == [] then 0 else (if ExtractImage(imgs[0].dataUrl).Some? then 1 else 0) + ExtractableCount(imgs[1..])
  }

  /** The extractable images of all notes. */
  function TotalExtractable(entries: seq<RelayEntry>): nat
  {
    if entries == [] then 0 else ExtractableCount(ImagesOf(entries[0])) + TotalExtractable(entries[1..])
  }

  lemma {:induction false} ImagesPartsAppend(a: seq<RelayImage>, b: seq<RelayImage>)
    ensures ImagesParts(a + b) == ImagesParts(a) + ImagesParts(b)
    decreases |b|
  {
    if b != [] {
      var n := |b|;
      assert (a + b)[..|a + b| - 1] == a + b[..n - 1];
      ImagesPartsAppend(a, b[..n - 1]);
    } else {
      assert a + b == a;
    }
  }

  lemma {:induction false} ImagePartsAppend(a: seq<RelayEntry>, b: seq<RelayEntry>)
    ensures ImageParts(a + b) == ImageParts(a) + ImageParts(b)
    decreases |b|
  {
    if b != [] {
      var n := |b|;
      assert (a + b)[..|a + b| - 1] == a + b[..n - 1];
      ImagePartsAppend(a, b[..n - 1]);
    } else {
      assert a + b == a;
    }
  }

  /** Every extractable image gives one part. */
  lemma {:induction false} ImagesPartsLength(imgs: seq<RelayImage>)
    ensures |ImagesParts(imgs)| == ExtractableCount(imgs)
  {
    if imgs != [] {
      ImagesPartsAppend([imgs[0]], imgs[1..]);
      assert [imgs[0]] + imgs[1..] == imgs;
      assert ImagesParts([imgs[0]]) == ImagePartOf(imgs[0]) by {
        assert [imgs[0]][..0] == [];
      }
      ImagesPartsLength(imgs[1..]);
    }
  }

  /** The content holds the text part and one part per extractable image. */
  lemma {:induction false} ContentLength(entries: seq<RelayEntry>)
    ensures |ImageParts(entries)| == TotalExtractable(entries)
  {
    if entries != [] {
      ImagePartsAppend([entries[0]], entries[1..]);
      assert [entries[0]] + entries[1..] == entries;
      assert ImageParts([entries[0]]) == ImagesParts(ImagesOf(entries[0])) by {
        assert [entries[0]][..0] == [];
      }
      ImagesPartsLength(ImagesOf(entries[0]));
      ContentLength(entries[1..]);
    }
  }

  /** Every image part comes from extracting some image of some note. */
  lemma {:induction false} ImagePartsFromImages(entries: seq<RelayEntry>, k: int)
    requires 0 <= k < |ImageParts(entries)|
    ensures exists e, img :: e in entries && img in ImagesOf(e) && ImagePartOf(img) == [ImageParts(entries)[k]]
    decreases |entries|
  {
    var n := |entries|;
    var front := ImageParts(entries[..n - 1]);
    if k < |front| {
      ImagePartsFromImages(entries[..n - 1], k);
      var e, img :| e in entries[..n - 1] && img in ImagesOf(e) && ImagePartOf(img) == [front[k]];
      assert e in entries;
    } else {
      var e := entries[n - 1];
      ImagesPartFrom(ImagesOf(e), k - |front|);
    }
  }

  lemma {:induction false} ImagesPartFrom(imgs: seq<RelayImage>, k: int)
    requires 0 <= k < |ImagesParts(imgs)|
    ensures exists img :: img in imgs && ImagePartOf(img) == [ImagesParts(imgs)[k]]
    decreases |imgs|
  {
    var n := |imgs|;
    var front := ImagesParts(imgs[..n - 1]);
    if k < |front| {
      ImagesPartFrom(imgs[..n - 1], k);
      var img :| img in imgs[..n - 1] && ImagePartOf(img) == [front[k]];
      assert img in imgs;
    } else {
      assert ImagesParts(imgs)[k] == ImagePartOf(imgs[n - 1])[0];
    }
  }

  // ---------------------------------------------------------------------------
  // The handler
  // ---------------------------------------------------------------------------

  /** The sort key of a posted note: the day number of its date. */
  function RelayDateKey(e: RelayEntry): int
  {
    match ParseISO(e.date) case Some(c) => DayNumber(c) case None => 0
  }

  /** Every posted date denotes a day, so the sort comparator never yields NaN. */
  predicate RelayDatesParse(items: seq<RelayEntry>)
  {
    forall i :: 0 <= i < |items| ==> ParseISO(items[i].date).Some?
  }

  /** An OPTIONS request is a preflight, on any path. */
  predicate IsPreflight(req: Request)
  {
    req.httpMethod == "OPTIONS"
  }

  /** The one route served: POST to the API path. */
  predicate IsRouted(req: Request)
  {
    req.httpMethod == "POST" && req.pathname == ApiPath
  }

  /** A non-empty array of notes was posted. */
  predicate HasEntries(f: EntriesField)
  {
    f.Items? && |f.items| > 0
  }

  /** The requests that lead to an upstream call. */
  predicate Forwarded(req: Request)
  {
    IsRouted(req) && req.body.Fields? && HasEntries(req.body.entries)
  }

  /** The message content sent upstream for a list of posted notes. */
  function UpstreamContent(items: seq<RelayEntry>, weekRange: Option<RelayRange>): seq<Part>
  {
    var sorted := SortBy(items, RelayDateKey);
    [TextPart(UserText(sorted, weekRange))] + ImageParts(sorted)
  }

  /** The relay's answer once the upstream call is made: a non-2xx status is
      passed through with the upstream body as the error, a 2xx body that is
      JSON gives 200 with the trimmed first text, and every exception on the
      way (network failure, a body that is not JSON) gives 500 with its message. */
  function MapOutcome(outcome: UpstreamOutcome): (r: Response)
    ensures r.headers == JsonCorsHeaders
    ensures r.status == 200 <==> outcome.Responded? && 200 <= outcome.status <= 299 && outcome.json.Json?
    ensures outcome.Responded? && !(200 <= outcome.status <= 299) ==>
      r.status == outcome.status && r.body == ErrorJson(outcome.text)
    ensures r.status == 200 ==> r.body == ContentJson(
      match outcome.json.firstText case Some(t) => Some(Trim(t)) case None => None)
    ensures outcome.FetchFailed? ==> r.status == 500 && r.body == ErrorJson(outcome.message)
    ensures outcome.Responded? && 200 <= outcome.status <= 299 && outcome.json.NotJson? ==>
      r.status == 500 && r.body == ErrorJson(outcome.json.message)
  {
    match outcome
    case FetchFailed(m) => Response(500, JsonCorsHeaders, ErrorJson(m))
    case Responded(status, text, json) =>
      if !(200 <= status <= 299) then Response(status, JsonCorsHeaders, ErrorJson(text))
      else
        match json
        case NotJson(m) => Response(500, JsonCorsHeaders, ErrorJson(m))
        case Json(first) =>
          Response(200, JsonCorsHeaders, ContentJson(match first case Some(t) => Some(Trim(t)) case None => None))
  }

  /** `handler`: the response to a request and the message content sent
      upstream, if any. `outcome` stands for what the upstream call yields. */
  method Handle(req: Request, outcome: UpstreamOutcome) returns (resp: Response, sent: Option<seq<Part>>)
    requires req.body.Fields? && req.body.entries.Items? ==> RelayDatesParse(req.body.entries.items)
    ensures sent.Some? <==> Forwarded(req)
    ensures IsPreflight(req) ==> resp == Response(204, PreflightHeaders, NoBody)
    ensures !IsPreflight(req) && !IsRouted(req) ==> resp == Response(404, JsonHeaders, ErrorJson("Not found"))
    ensures IsRouted(req) && req.body.Malformed? ==>
      resp == Response(500, JsonCorsHeaders, ErrorJson(req.body.message))
    ensures IsRouted(req) && req.body.Fields? && !HasEntries(req.body.entries) ==>
      resp == Response(400, JsonHeaders, ErrorJson("entries are required"))
    ensures Forwarded(req) ==>
      sent == Some(UpstreamContent(req.body.entries.items, req.body.weekRange)) && resp == MapOutcome(outcome)
  {
    sent := None;
    if req.httpMethod == "OPTIONS" {
      resp := Response(204, PreflightHeaders, NoBody);
      return;
    }
    if req.httpMethod != "POST" || req.pathname != ApiPath {
      resp := Response(404, JsonHeaders, ErrorJson("Not found"));
      return;
    }
    match req.body
    case Malformed(message) =>
      resp := Response(500, JsonCorsHeaders, ErrorJson(message));
    case Fields(entries, weekRange) =>
      if !entries.Items? || |entries.items| == 0 {
        resp := Response(400, JsonHeaders, ErrorJson("entries are required"));
        return;
      }
      var sorted := SortBy(entries.items, RelayDateKey);
      var header := BuildHeader(weekRange);
      var bodyText := Join(RelayLines(sorted), "\n");
      var userText := Join(header, "\n") + "\n" + bodyText;
      var content := BuildContent(sorted, userText);
      sent := Some(content);
      resp := MapOutcome(outcome);
  }

  /** The notes are sent in date order: the text lines follow the stable sort
      of the posted notes, oldest first. */
  lemma SentInDateOrder(items: seq<RelayEntry>, weekRange: Option<RelayRange>)
    requires RelayDatesParse(items) && items != []
    ensures var sorted := SortBy(items, RelayDateKey);
      && UpstreamContent(items, weekRange)[0] == TextPart(UserText(sorted, weekRange))
      && multiset(sorted) == multiset(items)
      && RelayDatesParse(sorted) && SortedBy(sorted, RelayDateKey)
      && |UpstreamContent(items, weekRange)| == 1 + TotalExtractable(sorted)
  {
    var sorted := SortBy(items, RelayDateKey);
    ContentLength(sorted);
    forall i | 0 <= i < |sorted| ensures ParseISO(sorted[i].date).Some? {
      assert sorted[i] in multiset(items);
    }
  }
}
