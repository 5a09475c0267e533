/** The parts of services/geminiService.ts that shape what the model sends back into what the
    application shows: the base URL, the streaming fold, the pick of structured data, theme
    discovery, the data-URL split, the two validators with their fallback records, the batch and
    screenshot array guards, and the field overwrite on re-analysis.

    Every call to the model is cut off at its return value: a reply is the text it carried (the
    empty string standing for a missing `text`), a streamed reply is the list of its chunks, and
    a call that throws is `None` where the source catches the exception. */
module GeminiService {
  import opened Maybe
  import opened JsString
  import opened JsonValue
  import opened Sanitiser

  // ---------------------------------------------------------------------------------------
  // Configuration

  const DefaultBaseUrl := "https://gemini.kunkun1023.xyz"

  /** `replace(/\/$/, "")`: one slash at the very end is dropped. */
  function TrimTrailingSlash(url: string): (r: string)
    ensures |url| - 1 <= |r| <= |url| && r == url[..|r|]
  {
    if |url| > 0 && url[|url| - 1] == '/' then url[..|url| - 1] else url
  }

  /** A URL without a slash at its end is kept as it is; one slash added to any URL is taken
      off again. */
  lemma TrimTrailingSlashInverse(url: string)
    ensures |url| == 0 || url[|url| - 1] != '/' ==> TrimTrailingSlash(url) == url
    ensures TrimTrailingSlash(url + "/") == url
  {
    assert (url + "/")[..|url|] == url;
  }

  /** The first configured value that is neither missing nor empty, else the default proxy;
      then the trailing slash goes. The two arguments stand for the two environment variables
      in the order they are consulted. */
  function ResolveBaseUrl(primary: Option<string>, secondary: Option<string>): (r: string)
    ensures primary.Some? && primary.value != "" ==> r == TrimTrailingSlash(primary.value)
    ensures ((primary.None? || primary.value == "") && secondary.Some? && secondary.value != "")
              ==> r == TrimTrailingSlash(secondary.value)
    ensures ((primary.None? || primary.value == "") && (secondary.None? || secondary.value == ""))
              ==> r == DefaultBaseUrl
  {
    var chosen :=
      if primary.Some? && primary.value != "" then primary.value
      else if secondary.Some? && secondary.value != "" then secondary.value
      else DefaultBaseUrl;
    TrimTrailingSlash(chosen)
  }

  /** The first configured key that is neither missing nor empty, else the empty string. */
  function ResolveApiKey(primary: Option<string>, secondary: Option<string>): (k: string)
    ensures k == "" <==> (primary.None? || primary.value == "") && (secondary.None? || secondary.value == "")
    ensures primary.Some? && primary.value != "" ==> k == primary.value
    ensures ((primary.None? || primary.value == "") && secondary.Some? && secondary.value != "")
              ==> k == secondary.value
  {
    if primary.Some? && primary.value != "" then primary.value
    else if secondary.Some? && secondary.value != "" then secondary.value
    else ""
  }

  /** What the SDK client is built with: the key, and the base URL only when it is not empty. */
  datatype ClientOptions = ClientOptions(apiKey: string, baseUrl: Option<string>)

  /** `getGenAIClient`: no key is an error; an empty base URL (a configured value that was a
      lone slash) is not passed on. The four arguments are the environment variables in the
      order they are consulted. */
  function ClientConfig(key1: Option<string>, key2: Option<string>,
                        url1: Option<string>, url2: Option<string>): (r: Result<ClientOptions>)
    ensures r.Err? <==> ResolveApiKey(key1, key2) == ""
    ensures r.Err? ==> r.message == "API Key missing."
    ensures r.Ok? ==> r.value.apiKey == ResolveApiKey(key1, key2) && r.value.apiKey != ""
    ensures r.Ok? ==> (r.value.baseUrl.None? <==> ResolveBaseUrl(url1, url2) == "")
    ensures r.Ok? && r.value.baseUrl.Some? ==> r.value.baseUrl.value == ResolveBaseUrl(url1, url2)
  {
    var key := ResolveApiKey(key1, key2);
    var url := ResolveBaseUrl(url1, url2);
    if key == "" then Err("API Key missing.")
    else Ok(ClientOptions(key, if url == "" then None else Some(url)))
  }

  /** Only a configured base URL that is a single slash leaves the client without one; unset
      variables give the default proxy. */
  lemma EmptyBaseUrlOnlyFromSlash(url1: Option<string>, url2: Option<string>)
    ensures ResolveBaseUrl(url1, url2) == "" <==>
              (if url1.Some? && url1.value != "" then url1.value == "/"
               else url2.Some? && url2.value == "/")
  {
  }

  // ---------------------------------------------------------------------------------------
  // Streaming

  /** One streamed chunk; its `text` may be missing. */
  datatype Chunk = Chunk(text: Option<string>)

  /** `if (chunk.text)`: only chunks carrying a non-empty text count. */
  predicate Carries(c: Chunk) {
    c.text.Some? && c.text.value != ""
  }

  /** The texts of the chunks that count, in arrival order. */
  function Texts(chunks: seq<Chunk>): (ts: seq<string>)
    ensures |ts| <= |chunks|
    ensures forall k | 0 <= k < |ts| :: ts[k] != ""
  {
    if |chunks| == 0 then []
    else
      var last := chunks[|chunks| - 1];
      Texts(chunks[..|chunks| - 1]) + (if Carries(last) then [last.text.value] else [])
  }

  /** Chunks without text contribute nothing, wherever they stand. */
  lemma {:induction false} TextsAppend(a: seq<Chunk>, b: seq<Chunk>)
    ensures Texts(a + b) == Texts(a) + Texts(b)
    decreases |b|
  {
    if |b| == 0 {
      assert a + b == a;
    } else {
      var init, last := b[..|b| - 1], b[|b| - 1];
      var tail := if Carries(last) then [last.text.value] else [];
      InitLast(a, b);
      calc {
        Texts(a + b);
        Texts(a + init) + tail;
        { TextsAppend(a, init); }
        (Texts(a) + Texts(init)) + tail;
        { AppendAssoc(Texts(a), Texts(init), tail); }
        Texts(a) + Texts(b);
      }
    }
  }

  /** `a` is a proper prefix of `b`. */
  predicate StrictPrefix(a: string, b: string) {
    |a| < |b| && b[..|a|] == a
  }

  /** The running concatenations of a list of texts: entry `k` joins the first `k + 1`. */
  function Running(ts: seq<string>): (rs: seq<string>)
    ensures |rs| == |ts|
  {
    if |ts| == 0 then [] else Running(ts[..|ts| - 1]) + [Concat(ts)]
  }

  /** Entry `k` of the running concatenations is the concatenation of the first `k + 1` texts,
      and with non-empty texts each entry is a proper prefix of the next. */
  lemma {:induction false} RunningIsPrefixChain(ts: seq<string>)
    ensures forall k | 0 <= k < |ts| :: Running(ts)[k] == Concat(ts[..k + 1])
    ensures (forall k | 0 <= k < |ts| :: ts[k] != "") ==>
              forall k | 0 <= k < |ts| - 1 :: StrictPrefix(Running(ts)[k], Running(ts)[k + 1])
    decreases |ts|
  {
    if |ts| > 0 {
      var init := ts[..|ts| - 1];
      RunningIsPrefixChain(init);
      var rs := Running(ts);
      assert rs == Running(init) + [Concat(ts)];
      forall k | 0 <= k < |ts| ensures rs[k] == Concat(ts[..k + 1]) {
        if k < |ts| - 1 {
          assert init[..k + 1] == ts[..k + 1];
        } else {
          assert ts[..k + 1] == ts;
        }
      }
      if forall k | 0 <= k < |ts| :: ts[k] != "" {
        forall k | 0 <= k < |ts| - 1 ensures StrictPrefix(rs[k], rs[k + 1]) {
          assert ts[..k + 2][..k + 1] == ts[..k + 1];
          assert rs[k + 1] == rs[k] + ts[k + 1];
        }
      }
    }
  }

  /** The loop shared by `startStockChat` and `sendFollowUpMessage`: each chunk with text is
      appended to the buffer and the buffer so far is handed to the stream callback. `updates`
      lists the values the callback receives. */
  method FoldStream(chunks: seq<Chunk>) returns (fullText: string, updates: seq<string>)
    ensures fullText == Concat(Texts(chunks))
    ensures |updates| == |Texts(chunks)|
    ensures forall k | 0 <= k < |updates| :: updates[k] == Concat(Texts(chunks)[..k + 1])
    ensures forall k | 0 <= k < |updates| - 1 :: StrictPrefix(updates[k], updates[k + 1])
    ensures |updates| > 0 ==> updates[|updates| - 1] == fullText
    ensures |updates| == 0 ==> fullText == ""
  {
    fullText := "";
    updates := [];
    var i := 0;
    while i < |chunks|
      invariant 0 <= i <= |chunks|
      invariant fullText == Concat(Texts(chunks[..i]))
      invariant updates == Running(Texts(chunks[..i]))
    {
      var c := chunks[i];
      TextsStep(chunks, i);
      if c.text.Some? && c.text.value != "" {
        RunningSnoc(Texts(chunks[..i]), c.text.value);
        fullText := fullText + c.text.value;
        updates := updates + [fullText];
      }
      i := i + 1;
    }
    assert chunks[..i] == chunks;
    RunningEnds(Texts(chunks));
  }

  /** One more chunk adds its text, if it carries one, to the texts so far. */
  lemma TextsStep(chunks: seq<Chunk>, i: nat)
    requires i < |chunks|
    ensures Carries(chunks[i]) ==> Texts(chunks[..i + 1]) == Texts(chunks[..i]) + [chunks[i].text.value]
    ensures !Carries(chunks[i]) ==> Texts(chunks[..i + 1]) == Texts(chunks[..i])
  {
    var pre := chunks[..i + 1];
    assert pre[..i] == chunks[..i];
    assert pre[i] == chunks[i];
    var ts := Texts(chunks[..i]);
    assert ts + [] == ts;
  }

  /** One more text adds the longer buffer to the running concatenations. */
  lemma RunningSnoc(before: seq<string>, t: string)
    ensures Concat(before + [t]) == Concat(before) + t
    ensures Running(before + [t]) == Running(before) + [Concat(before) + t]
  {
    var after := before + [t];
    assert after[..|after| - 1] == before;
    assert after[|after| - 1] == t;
  }

  /** What the stream callback sees, read off the running concatenations. */
  lemma RunningEnds(texts: seq<string>)
    requires forall k | 0 <= k < |texts| :: texts[k] != ""
    ensures var rs := Running(texts);
            && (forall k | 0 <= k < |rs| :: rs[k] == Concat(texts[..k + 1]))
            && (forall k | 0 <= k < |rs| - 1 :: StrictPrefix(rs[k], rs[k + 1]))
            && (|rs| > 0 ==> rs[|rs| - 1] == Concat(texts))
  {
    RunningIsPrefixChain(texts);
    if |texts| > 0 {
      assert texts[..|texts|] == texts;
    }
  }

  /** `sendFollowUpMessage`: the reply is the whole buffer once the stream ends. */
  method SendFollowUp(chunks: seq<Chunk>) returns (reply: string, updates: seq<string>)
    ensures reply == Concat(Texts(chunks))
    ensures |updates| == |Texts(chunks)|
    ensures forall k | 0 <= k < |updates| :: updates[k] == Concat(Texts(chunks)[..k + 1])
    ensures |updates| > 0 ==> updates[|updates| - 1] == reply
  {
    reply, updates := FoldStream(chunks);
  }

  // ---------------------------------------------------------------------------------------
  // Analysis records

  /** One part of a multi-part message. */
  datatype Part = TextPart(text: string) | InlineData(mimeType: string, data: string)

  /** A message: plain text, or a list of parts when an image goes along. */
  datatype Message = Plain(text: string) | Parts(parts: seq<Part>)

  /** `AnalysisResult` of types.ts, without the never-filled grounding sources. An absent
      `isBatch` is `false`. */
  datatype Analysis = Analysis(
    isBatch: bool,
    batchData: Option<seq<Json>>,
    rawText: string,
    symbol: string,
    timestamp: string,
    structuredData: Option<Json>)

  /** `(parsed && parsed.signal) ? parsed : undefined` */
  function PickStructured(parsed: Option<Json>): (r: Option<Json>)
    ensures r.Some? <==> TruthyOpt(parsed) && TruthyOpt(Get(parsed.value, "signal"))
    ensures r.Some? ==> r == parsed
    ensures r.Some? ==> r.value.JObj? && "signal" in r.value.fields && Truthy(r.value.fields["signal"])
  {
    if TruthyOpt(parsed) && TruthyOpt(Get(parsed.value, "signal")) then parsed else None
  }

  // ---------------------------------------------------------------------------------------
  // Data URLs

  const DefaultMime := "image/jpeg"
  const DataScheme := "data:"

  /** `split(',')[1] || whole`: the piece between the first and the second comma, unless it is
      missing or empty. */
  function InlinePayload(url: string): (r: string)
    ensures r == url || (r != "" && !Contains(r, ","))
  {
    var parts := Split(url, ",");
    SplitPiecesAvoidSeparator(url, ",");
    if |parts| > 1 && parts[1] != "" then parts[1] else url
  }

  /** The regex `data:([^;]+);` tried at `i` and then at every later position: the capture is
      everything from after `data:` up to the first semicolon, provided that is not empty. */
  function MatchMime(s: string, i: nat): (r: Option<string>)
    requires i <= |s|
    ensures r.Some? ==> r.value != "" && NoChar(r.value, ';')
    decreases |s| - i
  {
    if OccursAt(s, i, DataScheme) && Find(s, ";", i + 5) > i + 5 then
      var semi := Find(s, ";", i + 5);
      assert forall j | i + 5 <= j < semi :: !OccursAt(s, j, ";");
      assert forall j | i + 5 <= j < semi :: s[j] != ';' by {
        forall j | i + 5 <= j < semi ensures s[j] != ';' {
          assert !OccursAt(s, j, ";");
          assert s[j..j + 1] == [s[j]];
        }
      }
      Some(s[i + 5..semi])
    else if i == |s| then None
    else MatchMime(s, i + 1)
  }

  /** `match(/data:([^;]+);/)?.[1] || 'image/jpeg'` */
  function MimeType(url: string): (r: string)
    ensures r == DefaultMime || (r != "" && NoChar(r, ';'))
  {
    MatchMime(url, 0).GetOr(DefaultMime)
  }

  /** The header `data:<mime>;` at the very start is what the regex finds. */
  lemma {:induction false} MimeAtStart(mime: string, rest: string)
    requires mime != "" && NoChar(mime, ';')
    ensures MimeType(DataScheme + mime + ";" + rest) == mime
  {
    var url := DataScheme + mime + ";" + rest;
    var semi := 5 + |mime|;
    assert url[..5] == DataScheme;
    assert url[semi..semi + 1] == ";";
    forall j | 5 <= j < semi ensures !OccursAt(url, j, ";") {
      assert url[j] == mime[j - 5];
    }
    FindAt(url, ";", 5, semi);
    assert url[5..semi] == mime;
  }

  /** Text without the separator character splits into itself alone. */
  lemma SplitWithoutSeparator(s: string, c: char)
    requires NoChar(s, c)
    ensures Split(s, [c]) == [s]
  {
    forall j | 0 <= j < |s| ensures !OccursAt(s, j, [c]) {
      assert s[j..j + 1] == [s[j]];
    }
  }

  /** Splitting cuts at the first separator character. */
  lemma SplitAtFirst(head: string, c: char, tail: string)
    requires NoChar(head, c)
    ensures Split(head + [c] + tail, [c]) == [head] + Split(tail, [c])
  {
    var s := head + [c] + tail;
    forall j | 0 <= j < |head| ensures !OccursAt(s, j, [c]) {
      assert s[j..j + 1] == [head[j]];
    }
    assert s[|head|..|head| + 1] == [c];
    FindAt(s, [c], 0, |head|);
    assert s[..|head|] == head;
    assert s[|head| + 1..] == tail;
  }

  /** The part of a data URL before its payload has no comma when the MIME type has none. */
  lemma HeaderHasNoComma(mime: string)
    requires NoChar(mime, ',')
    ensures NoChar(DataScheme + mime + ";base64", ',')
  {
    var head := DataScheme + mime + ";base64";
    forall j | 0 <= j < |head| ensures head[j] != ',' {
      if 5 <= j < 5 + |mime| {
        assert head[j] == mime[j - 5];
      }
    }
  }

  /** The payload of a data URL is what follows its only comma. */
  lemma DataUrlPayload(mime: string, payload: string)
    requires NoChar(mime, ',')
    requires payload != "" && NoChar(payload, ',')
    ensures InlinePayload(DataScheme + mime + ";base64," + payload) == payload
  {
    var head := DataScheme + mime + ";base64";
    var url := DataScheme + mime + ";base64," + payload;
    assert url == head + [','] + payload;
    HeaderHasNoComma(mime);
    SplitAtFirst(head, ',', payload);
    SplitWithoutSeparator(payload, ',');
    assert Split(url, ",") == [head, payload];
  }

  /** A URL without a comma is sent whole. */
  lemma InlinePayloadNoComma(url: string)
    requires NoChar(url, ',')
    ensures InlinePayload(url) == url
  {
    SplitWithoutSeparator(url, ',');
  }

  /** After the first comma, the text up to the next comma (or the end) is the payload; when
      that piece is empty the whole URL is sent instead. */
  lemma InlinePayloadAfterFirstComma(head: string, rest: string)
    requires NoChar(head, ',')
    ensures var piece := Split(rest, ",")[0];
            InlinePayload(head + "," + rest) == if piece != "" then piece else head + "," + rest
  {
    SplitAtFirst(head, ',', rest);
  }

  /** With two commas, exactly the text between them is the payload. */
  lemma InlinePayloadSecondPiece(a: string, b: string, c: string)
    requires NoChar(a, ',') && NoChar(b, ',') && b != ""
    ensures InlinePayload(a + "," + b + "," + c) == b
  {
    assert a + "," + b + "," + c == a + "," + (b + [','] + c);
    InlinePayloadAfterFirstComma(a, b + [','] + c);
    SplitAtFirst(b, ',', c);
  }

  /** `MatchMime` finds nothing when `data:` occurs nowhere from `i` on. */
  lemma {:induction false} MatchMimeNone(s: string, i: nat)
    requires i <= |s|
    requires forall j | i <= j :: !OccursAt(s, j, DataScheme)
    ensures MatchMime(s, i) == None
    decreases |s| - i
  {
    if i < |s| {
      MatchMimeNone(s, i + 1);
    }
  }

  /** A URL without `data:` gets the default MIME type. */
  lemma MimeTypeDefault(url: string)
    requires !Contains(url, DataScheme)
    ensures MimeType(url) == DefaultMime
  {
    MatchMimeNone(url, 0);
  }

  /** A well-formed data URL comes apart into the MIME type and the payload it was built
      from. */
  lemma DataUrlRoundTrip(mime: string, payload: string)
    requires mime != "" && NoChar(mime, ';') && NoChar(mime, ',')
    requires payload != "" && NoChar(payload, ',')
    ensures MimeType(DataScheme + mime + ";base64," + payload) == mime
    ensures InlinePayload(DataScheme + mime + ";base64," + payload) == payload
  {
    var url := DataScheme + mime + ";base64," + payload;
    assert url == DataScheme + mime + ";" + ("base64," + payload);
    MimeAtStart(mime, "base64," + payload);
    DataUrlPayload(mime, payload);
  }

  /** The message of `startStockChat`: plain text, or the text with the image attached when a
      non-empty image is given. */
  function StockMessage(stockCode: string, image: Option<string>): (m: Message)
    ensures image.None? || image.value == "" ==> m == Plain("Analyze " + stockCode + ".")
    ensures image.Some? && image.value != "" ==>
              m == Parts([TextPart("Analyze " + stockCode + "."),
                          InlineData(MimeType(image.value), InlinePayload(image.value))])
  {
    var text := "Analyze " + stockCode + ".";
    if image.Some? && image.value != "" then
      Parts([TextPart(text), InlineData(MimeType(image.value), InlinePayload(image.value))])
    else Plain(text)
  }

  // ---------------------------------------------------------------------------------------
  // Single analysis

  /** `startStockChat` after the chat is created: the message sent, the callback values, and the
      analysis record. `now` is the time stamp the clock gives. */
  method StartStockChat(stockCode: string, image: Option<string>, chunks: seq<Chunk>,
                        parse: string -> Option<Json>, now: string)
    returns (message: Message, updates: seq<string>, analysis: Analysis)
    ensures message == StockMessage(stockCode, image)
    ensures |updates| == |Texts(chunks)|
    ensures forall k | 0 <= k < |updates| - 1 :: StrictPrefix(updates[k], updates[k + 1])
    ensures analysis.rawText == Concat(Texts(chunks))
    ensures |updates| > 0 ==> updates[|updates| - 1] == analysis.rawText
    ensures analysis.symbol == (if stockCode == "" then "IMAGE" else stockCode)
    ensures analysis.structuredData == PickStructured(SafeJsonParse(analysis.rawText, parse))
    ensures !analysis.isBatch && analysis.batchData.None? && analysis.timestamp == now
  {
    message := StockMessage(stockCode, image);
    var fullText;
    fullText, updates := FoldStream(chunks);
    var parsed := SafeJsonParse(fullText, parse);
    var symbol := if stockCode == "" then "IMAGE" else stockCode;
    analysis := Analysis(false, None, fullText, symbol, now, PickStructured(parsed));
  }

  // ---------------------------------------------------------------------------------------
  // Batch analysis, screenshots, discovery

  /** `Array.isArray(parsed) ? parsed : []` */
  function ArrayOrEmpty(parsed: Option<Json>): (items: seq<Json>)
    ensures IsArray(parsed) ==> items == parsed.value.items
    ensures !IsArray(parsed) ==> items == []
  {
    if IsArray(parsed) then parsed.value.items else []
  }

  /** `response.text || fallback` */
  function OrDefault(text: string, fallback: string): (r: string)
    ensures text != "" ==> r == text
    ensures text == "" ==> r == fallback
  {
    if text == "" then fallback else text
  }

  /** `parsePortfolioScreenshot` after the reply: the elements of the array the model sent, and
      no rows when the reply does not parse to an array. An empty reply is read as `[]`. */
  function ScreenshotRows(replyText: string, parse: string -> Option<Json>): (rows: seq<Json>)
    ensures replyText != "" && IsArray(parse(Candidate(replyText))) ==>
              rows == parse(Candidate(replyText)).value.items
    ensures replyText != "" && !IsArray(parse(Candidate(replyText))) ==> rows == []
    ensures replyText == "" ==> rows == ArrayOrEmpty(parse("[]"))
  {
    EmptyArrayReachesParser(parse);
    ArrayOrEmpty(SafeJsonParse(OrDefault(replyText, "[]"), parse))
  }

  /** `startBatchAnalysis` after the reply. The raw text is the reply, or `[]` when it was
      empty; the batch rows are the elements of the array it parses to, or none. */
  function BatchAnalysis(replyText: string, parse: string -> Option<Json>, now: string)
    : (a: Analysis)
    ensures a.isBatch && a.symbol == "BATCH" && a.structuredData.None? && a.timestamp == now
    ensures replyText != "" ==> a.rawText == replyText
    ensures replyText == "" ==> a.rawText == "[]"
    ensures a.batchData.Some?
    ensures replyText != "" && IsArray(parse(Candidate(replyText))) ==>
              a.batchData.value == parse(Candidate(replyText)).value.items
    ensures replyText != "" && !IsArray(parse(Candidate(replyText))) ==> a.batchData.value == []
    ensures replyText == "" ==> a.batchData.value == ArrayOrEmpty(parse("[]"))
  {
    var text := OrDefault(replyText, "[]");
    EmptyArrayReachesParser(parse);
    Analysis(true, Some(ArrayOrEmpty(SafeJsonParse(text, parse))), text, "BATCH", now, None)
  }

  /** `c.toString().replace(/[^a-zA-Z0-9]/g, '')` after the `toString`. */
  function NormaliseCode(c: string): (r: string)
    ensures |r| <= |c|
    ensures forall k | 0 <= k < |r| :: IsAsciiAlnum(r[k])
  {
    FilterAlnum(c);
    Filter(c, IsAsciiAlnum)
  }

  /** Everything `Filter` keeps satisfies the test. */
  lemma {:induction false} FilterAlnum(c: string)
    ensures forall k | 0 <= k < |Filter(c, IsAsciiAlnum)| :: IsAsciiAlnum(Filter(c, IsAsciiAlnum)[k])
    decreases |c|
  {
    if |c| > 0 {
      FilterAlnum(c[1..]);
    }
  }

  /** Each character is judged on its own: a letter or digit stays, anything else goes. */
  lemma NormaliseCodeOne(ch: char)
    ensures IsAsciiAlnum(ch) ==> NormaliseCode([ch]) == [ch]
    ensures !IsAsciiAlnum(ch) ==> NormaliseCode([ch]) == ""
  {
    assert [ch][1..] == "";
  }

  /** The global regex replacement works piece by piece: normalising a concatenation
      normalises each part. */
  lemma NormaliseCodeAppend(a: string, b: string)
    ensures NormaliseCode(a + b) == NormaliseCode(a) + NormaliseCode(b)
  {
    FilterAppend(a, b, IsAsciiAlnum);
  }

  /** A code made only of letters and digits passes unchanged, so normalising twice is
      normalising once. */
  lemma {:induction false} NormaliseCodeKeepsAlnum(c: string)
    requires forall k | 0 <= k < |c| :: IsAsciiAlnum(c[k])
    ensures NormaliseCode(c) == c
    decreases |c|
  {
    if |c| > 0 {
      NormaliseCodeKeepsAlnum(c[1..]);
    }
  }

  lemma NormaliseCodeIdempotent(c: string)
    ensures NormaliseCode(NormaliseCode(c)) == NormaliseCode(c)
  {
    NormaliseCodeKeepsAlnum(NormaliseCode(c));
  }

  /** Some element of the list is null. */
  predicate HasNull(items: seq<Json>) {
    exists k | 0 <= k < |items| :: items[k].JNull?
  }

  const MaxDiscovered := 6

  /** Some element's `toString()` throws. */
  predicate AnyThrows(items: seq<Json>) {
    exists k | 0 <= k < |items| :: ToStringThrows(items[k])
  }

  /** The TypeError message of a throwing `c.toString()`: reading a property of null, calling a
      `toString` property that is not a function, or failing to turn a nested object into a
      primitive inside `join`. */
  function ToStringError(j: Json): (m: string)
    requires ToStringThrows(j)
    ensures j.JNull? <==> m == "TypeError: Cannot read properties of null (reading 'toString')"
  {
    if j.JNull? then "TypeError: Cannot read properties of null (reading 'toString')"
    else if j.JObj? then "TypeError: c.toString is not a function"
    else "TypeError: Cannot convert object to primitive value"
  }

  /** The first element at or after `from` whose `toString()` throws, or `|items|`. */
  function FirstThrow(items: seq<Json>, from: nat): (k: nat)
    requires from <= |items|
    ensures from <= k <= |items|
    ensures forall i | from <= i < k :: !ToStringThrows(items[i])
    ensures k < |items| ==> ToStringThrows(items[k])
    decreases |items| - from
  {
    if from == |items| || ToStringThrows(items[from]) then from else FirstThrow(items, from + 1)
  }

  /** `parsed.map(c => c.toString().replace(/[^a-zA-Z0-9]/g, '')).slice(0, 6)`. `map` visits
      every element before `slice` cuts, so the first element whose `toString()` throws, among
      all of them, ends the call with its TypeError; otherwise the first six elements are kept,
      each stringified and stripped to letters and digits. */
  function FirstCodes(items: seq<Json>, showNum: real -> string): (r: Result<seq<string>>)
    ensures r.Err? <==> AnyThrows(items)
    ensures r.Err? ==> exists k | 0 <= k < |items| ::
                         && ToStringThrows(items[k])
                         && (forall i | 0 <= i < k :: !ToStringThrows(items[i]))
                         && r.message == ToStringError(items[k])
    ensures r.Ok? ==> |r.value| == (if |items| < MaxDiscovered then |items| else MaxDiscovered)
    ensures r.Ok? ==> forall k | 0 <= k < |r.value| ::
                        r.value[k] == NormaliseCode(ToJsString(items[k], showNum))
    ensures r.Ok? ==> forall k, i | 0 <= k < |r.value| && 0 <= i < |r.value[k]| ::
                        IsAsciiAlnum(r.value[k][i])
  {
    var bad := FirstThrow(items, 0);
    if bad < |items| then Err(ToStringError(items[bad]))
    else
      var n := if |items| < MaxDiscovered then |items| else MaxDiscovered;
      Ok(seq(n, k requires 0 <= k < n => NormaliseCode(ToJsString(items[k], showNum))))
  }

  /** An element that is an object with its own `toString` key makes the whole discovery throw,
      even after a good code. */
  lemma ToStringKeyThrows(showNum: real -> string)
    ensures FirstCodes([JStr("AAPL"), JObj(map["toString" := JStr("x")])], showNum)
         == Err("TypeError: c.toString is not a function")
  {
    var items := [JStr("AAPL"), JObj(map["toString" := JStr("x")])];
    assert !ToStringThrows(items[0]) && ToStringThrows(items[1]);
  }

  /** `discoverStocksByTheme` after the reply: a reply that is not an array gives no codes; an
      array gives its first six elements as codes, unless some element's `toString()` throws,
      in which case the first such TypeError is the result. */
  function DiscoverCodes(replyText: string, parse: string -> Option<Json>, showNum: real -> string)
    : (r: Result<seq<string>>)
    ensures var parsed := SafeJsonParse(OrDefault(replyText, "[]"), parse);
            && (!IsArray(parsed) ==> r == Ok([]))
            && (r.Err? <==> IsArray(parsed) && AnyThrows(parsed.value.items))
            && (r.Err? ==> exists k | 0 <= k < |parsed.value.items| ::
                             && ToStringThrows(parsed.value.items[k])
                             && (forall i | 0 <= i < k :: !ToStringThrows(parsed.value.items[i]))
                             && r.message == ToStringError(parsed.value.items[k]))
            && (r.Ok? && IsArray(parsed) ==>
                  var items := parsed.value.items;
                  && |r.value| == (if |items| < MaxDiscovered then |items| else MaxDiscovered)
                  && forall k | 0 <= k < |r.value| ::
                       r.value[k] == NormaliseCode(ToJsString(items[k], showNum)))
    ensures r.Ok? ==> |r.value| <= MaxDiscovered
    ensures r.Ok? ==> forall k, i | 0 <= k < |r.value| && 0 <= i < |r.value[k]| ::
                        IsAsciiAlnum(r.value[k][i])
  {
    var parsed := SafeJsonParse(OrDefault(replyText, "[]"), parse);
    if !IsArray(parsed) then Ok([]) else FirstCodes(parsed.value.items, showNum)
  }

  // ---------------------------------------------------------------------------------------
  // Validators

  /** Reply text as the two validators read it: `response.text || "{}"`, `None` when the call
      threw. */
  function ValidatorInput(reply: Option<string>, parse: string -> Option<Json>): Option<Json> {
    if reply.None? then None else SafeJsonParse(OrDefault(reply.value, "{}"), parse)
  }

  const OverviewFallback: Json :=
    JObj(map[
      "sentimentScore" := JNum(50.0),
      "sentimentText" := JStr("Data Unavailable"),
      "indices" := JArr([]),
      "hotSectors" := JArr([]),
      "rotationAnalysis" := JObj(map[
        "inflow" := JStr("-"), "outflow" := JStr("-"), "logic" := JStr("Analysis failed")]),
      "monthlyStrategy" := JStr("-"),
      "keyRisk" := JStr("-")])

  /** The fallback record has a numeric score and an array of indices. */
  lemma OverviewFallbackShape()
    ensures OverviewFallback.JObj?
    ensures Get(OverviewFallback, "sentimentScore") == Some(JNum(50.0))
    ensures Get(OverviewFallback, "indices") == Some(JArr([]))
  {
    var m := OverviewFallback.fields;
    assert "sentimentScore" in m && "indices" in m;
    assert m["sentimentScore"] == JNum(50.0);
    assert m["indices"] == JArr([]);
  }

  /** The check of `fetchMarketOverview`: a truthy value with a numeric `sentimentScore`. */
  predicate ValidOverview(data: Option<Json>) {
    TruthyOpt(data) && IsNumber(Get(data.value, "sentimentScore"))
  }

  /** `if (!Array.isArray(data.indices)) data.indices = []` on an object. */
  function WithIndices(d: Json): (r: Json)
    requires d.JObj?
    ensures r.JObj? && IsArray(Get(r, "indices"))
    ensures r.fields.Keys == d.fields.Keys + {"indices"}
    ensures forall k | k in d.fields && k != "indices" :: r.fields[k] == d.fields[k]
    ensures IsArray(Get(d, "indices")) ==> r == d
    ensures !IsArray(Get(d, "indices")) ==> r.fields["indices"] == JArr([])
  {
    if IsArray(Get(d, "indices")) then d else Set(d, "indices", JArr([]))
  }

  /** `fetchMarketOverview` after the call: a valid reply is kept, with `indices` forced to an
      array; anything else, a thrown call included, gives the fallback record. */
  function MarketOverview(reply: Option<string>, parse: string -> Option<Json>): (r: Json)
    ensures r.JObj?
    ensures IsNumber(Get(r, "sentimentScore")) && IsArray(Get(r, "indices"))
    ensures !ValidOverview(ValidatorInput(reply, parse)) ==> r == OverviewFallback
    ensures var data := ValidatorInput(reply, parse);
            ValidOverview(data) ==>
              && r.fields.Keys == data.value.fields.Keys + {"indices"}
              && (forall k | k in data.value.fields && k != "indices" ::
                    r.fields[k] == data.value.fields[k])
              && (IsArray(Get(data.value, "indices")) ==> r == data.value)
              && (!IsArray(Get(data.value, "indices")) ==> r.fields["indices"] == JArr([]))
  {
    var data := ValidatorInput(reply, parse);
    if !ValidOverview(data) then OverviewFallbackShape(); OverviewFallback
    else WithIndices(data.value)
  }

  const Unavailable: Json :=
    JObj(map[
      "opportunity" := JStr("Analysis Unavailable"),
      "recommendedSectors" := JArr([]),
      "logic" := JStr("Could not retrieve data.")])

  const DeepMacroFallback: Json :=
    JObj(map[
      "mainBoard" := Unavailable,
      "techGrowth" := Unavailable,
      "strategy" := JStr("BALANCE"),
      "summary" := JStr("Deep analysis service is temporarily unavailable. Please try again later."),
      "profiles" := JObj(map[
        "aggressive" := JObj(map["description" := JStr("N/A"), "allocations" := JArr([])]),
        "balanced" := JObj(map["description" := JStr("N/A"), "allocations" := JArr([])])])])

  /** The fallback record's strategy is `BALANCE`. */
  lemma DeepMacroFallbackShape()
    ensures DeepMacroFallback.JObj?
    ensures Get(DeepMacroFallback, "strategy") == Some(JStr("BALANCE"))
  {
    var m := DeepMacroFallback.fields;
    assert "strategy" in m;
    assert m["strategy"] == JStr("BALANCE");
  }

  /** The check of `fetchDeepMacroAnalysis`: a truthy value with a truthy `strategy`. */
  predicate ValidDeepMacro(data: Option<Json>) {
    TruthyOpt(data) && TruthyOpt(Get(data.value, "strategy"))
  }

  /** `fetchDeepMacroAnalysis` after the call: a valid reply is returned as it is, anything else
      gives the fallback record, whose strategy is `BALANCE`. */
  function DeepMacro(reply: Option<string>, parse: string -> Option<Json>): (r: Json)
    ensures r.JObj? && TruthyOpt(Get(r, "strategy"))
    ensures reply.None? ==> Get(r, "strategy") == Some(JStr("BALANCE"))
    ensures ValidDeepMacro(ValidatorInput(reply, parse)) ==> r == ValidatorInput(reply, parse).value
    ensures !ValidDeepMacro(ValidatorInput(reply, parse)) ==> r == DeepMacroFallback
  {
    var data := ValidatorInput(reply, parse);
    if ValidDeepMacro(data) then data.value else DeepMacroFallbackShape(); DeepMacroFallback
  }

  /** `fetchTradeSetupByHorizon` after the call: the parsed reply is returned when it is truthy
      and carries a truthy `updatedData`; otherwise the call fails. A thrown model call is not a
      case here, since the source lets it propagate. */
  function TradeSetup(replyText: string, parse: string -> Option<Json>): (r: Result<Json>)
    ensures var data := SafeJsonParse(OrDefault(replyText, "{}"), parse);
            r.Ok? <==> TruthyOpt(data) && TruthyOpt(Get(data.value, "updatedData"))
    ensures r.Ok? ==> r == Ok(SafeJsonParse(OrDefault(replyText, "{}"), parse).value)
    ensures r.Ok? ==> r.value.JObj? && "updatedData" in r.value.fields
    ensures r.Err? ==> r.message == "Trade Setup Data Invalid"
  {
    var data := SafeJsonParse(OrDefault(replyText, "{}"), parse);
    if TruthyOpt(data) && TruthyOpt(Get(data.value, "updatedData")) then Ok(data.value)
    else Err("Trade Setup Data Invalid")
  }

  // ---------------------------------------------------------------------------------------
  // Re-analysis

  /** `data.code = code; data.name = name; data.price = userPrice; data.lastUpdated = "Manual"`
      on an object. */
  function Overwrite(data: Json, code: string, name: string, userPrice: string): (r: Json)
    requires data.JObj?
    ensures r.JObj? && r.fields.Keys == data.fields.Keys + {"code", "name", "price", "lastUpdated"}
    ensures r.fields["code"] == JStr(code) && r.fields["name"] == JStr(name)
    ensures r.fields["price"] == JStr(userPrice) && r.fields["lastUpdated"] == JStr("Manual")
    ensures forall k | k in data.fields && k !in {"code", "name", "price", "lastUpdated"} ::
              r.fields[k] == data.fields[k]
  {
    JObj(data.fields["code" := JStr(code)]["name" := JStr(name)]["price" := JStr(userPrice)]
                    ["lastUpdated" := JStr("Manual")])
  }

  /** `reanalyzeStockWithUserPrice` on the parsed reply, `None` standing for the `null` of a
      failed parse. `null` and the other falsy values come back unchanged; an object gets the
      four fields; an array is returned as it is (see the README); assigning a property to a
      truthy number, string or `true` throws in strict-mode code. */
  function Reanalysed(data: Option<Json>, code: string, name: string, userPrice: string)
    : (r: Result<Json>)
    ensures data.None? ==> r == Ok(JNull)
    ensures data.Some? && !Truthy(data.value) ==> r == Ok(data.value)
    ensures data.Some? && data.value.JObj? ==> r == Ok(Overwrite(data.value, code, name, userPrice))
    ensures data.Some? && data.value.JArr? ==> r == Ok(data.value)
    ensures r.Err? <==> (data.Some? && Truthy(data.value) && !data.value.JObj? && !data.value.JArr?)
  {
    if data.None? then Ok(JNull)
    else if !Truthy(data.value) then Ok(data.value)
    else if data.value.JObj? then Ok(Overwrite(data.value, code, name, userPrice))
    else if data.value.JArr? then Ok(data.value)
    else Err("TypeError: Cannot create property 'code' on a primitive value")
  }

  /** The whole re-analysis after the reply: `response.text || "{}"`, parsed and overwritten. A
      reply reaches the parser cleaned; an empty one is read as the empty object, which gets the
      four fields. */
  function Reanalyze(replyText: string, code: string, name: string, userPrice: string,
                     parse: string -> Option<Json>): (r: Result<Json>)
    ensures replyText != "" ==> r == Reanalysed(parse(Candidate(replyText)), code, name, userPrice)
    ensures replyText == "" ==> r == Reanalysed(parse("{}"), code, name, userPrice)
  {
    EmptyObjectReachesParser(parse);
    Reanalysed(SafeJsonParse(OrDefault(replyText, "{}"), parse), code, name, userPrice)
  }
}
