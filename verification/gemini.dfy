/** The image service client (`services/geminiService.ts`): how `editImage`
    prepares its source image, how both calls pick the image out of a
    response, and their fail-closed contract.

    The remote model is a parameter: a total function from the request to the
    call's outcome, which is either a response or a thrown error (a network
    failure, a missing credential, anything raised inside the `try`). */
module Gemini {
  import opened Wrappers
  import opened Text

  const ImageModel: string := "gemini-2.5-flash-image"

  // ---------------------------------------------------------------------------
  // Source image preparation
  // ---------------------------------------------------------------------------

  /** The marker ending the header of a base64 data URL (section 3 of RFC 2397). */
  const Marker: string := "base64,"

  /** The payload handed to the model: the text after the first `base64,`
      (up to a second one, as `split` cuts there), or the whole input when
      there is no marker. */
  function ExtractPayload(s: string): (r: string)
    ensures !Contains(s, Marker) ==> r == s
    ensures Contains(s, Marker) ==> AfterFirst(s, Marker, r)
    ensures !Contains(r, Marker)
  {
    if Contains(s, Marker) then After(s, Marker) else s
  }

  /** With the marker present, the payload is the second piece of `split`. */
  lemma ExtractIsSplitSecond(s: string)
    requires Contains(s, Marker)
    ensures ExtractPayload(s) == Split(s, Marker)[1]
  {
    SplitSecond(s, Marker);
  }

  /** Stripping is idempotent: a stripped payload passes through unchanged. */
  lemma ExtractIdempotent(s: string)
    ensures ExtractPayload(ExtractPayload(s)) == ExtractPayload(s)
  {
  }

  /** A data-URL header without a comma (section 3 of RFC 2397 keeps `,` out
      of the media type and its parameters) is stripped exactly, whatever media
      type it declares. */
  lemma {:induction false} ExtractAfterHeader(h: string, p: string)
    requires ',' !in h && !Contains(p, Marker)
    ensures ExtractPayload(h + Marker + p) == p
  {
    var s := h + Marker + p;
    MarkerAfterHeader(h, p);
    var b := |h| + |Marker|;
    assert s[b..] == p;
    var r := ExtractPayload(s);
    OccursInSuffix(s, Marker, b, |r|);
    ContainsIff(p, Marker);
    assert !OccursAt(s, Marker, b + |r|);
    assert s[b..b + |r|] == p[..|r|];
  }

  /** Behind a header without a comma, the first marker is the one right after
      the header: the marker's only comma is its last character. */
  lemma MarkerAfterHeader(h: string, p: string)
    requires ',' !in h
    ensures IndexOf(h + Marker + p, Marker) == Some(|h|)
  {
    var s := h + Marker + p;
    assert s[|h|..|h| + |Marker|] == Marker;
    assert ',' !in Marker[..6] && Marker[6] == ',';
    forall j | 0 <= j < |h| ensures !OccursAt(s, Marker, j) {
      var c := j + 6;
      if c < |s| {
        if c < |h| {
          assert s[c] == h[c] && h[c] in h;
        } else {
          assert s[c] == Marker[..6][c - |h|];
        }
      }
      if j + |Marker| <= |s| {
        assert s[j..j + |Marker|][6] == s[c];
      }
    }
    assert OccursAt(s, Marker, |h|);
    var k := IndexOf(s, Marker);
    assert k.Some? && !(k.value < |h|) && !(|h| < k.value);
  }

  const PngHeader: string := "data:image/png;"

  /** The payload of a PNG data URL and the bare payload give the same data
      to the model. */
  lemma ExtractPngDataUrl(p: string)
    requires !Contains(p, Marker)
    ensures ExtractPayload(PngHeader + Marker + p) == ExtractPayload(p) == p
  {
    assert PngHeader == "data:" + "image/png;";
    assert ',' !in PngHeader;
    ExtractAfterHeader(PngHeader, p);
  }

  const DataTag: string := "data:"
  const DefaultMime: string := "image/png"

  /** The declarative reading of one match of `/data:([^;]+);/` starting at
      `i` with group `t`: `data:`, then a non-empty run without `;`, then `;`. */
  predicate MimeMatch(s: string, i: int, t: string) {
    && OccursAt(s, DataTag, i)
    && |t| > 0 && ';' !in t
    && OccursAt(s, t + ";", i + |DataTag|)
  }

  /** One attempt of the regular expression at position `i`: the greedy
      `[^;]+` runs to the first `;` after `data:`, and fails when that run is
      empty or no `;` follows. */
  function MatchAt(s: string, i: nat): (r: Option<string>)
    ensures r.Some? <==> exists t :: MimeMatch(s, i, t)
    ensures r.Some? ==> MimeMatch(s, i, r.value)
  {
    if !OccursAt(s, DataTag, i) then None
    else
      var b := i + |DataTag|;
      match IndexOf(s[b..], ";")
      case None =>
        NoSemicolonNoRun(s, b);
        None
      case Some(k) =>
        if k == 0 then
          EmptyRunNoMatch(s, b);
          None
        else
          RunBeforeSemicolon(s, b, k);
          assert MimeMatch(s, i, s[b..b + k]);
          Some(s[b..b + k])
  }

  /** With no `;` after `b`, no run followed by `;` starts at `b`. */
  lemma NoSemicolonNoRun(s: string, b: nat)
    requires b <= |s| && !Contains(s[b..], ";")
    ensures forall t :: !OccursAt(s, t + ";", b)
  {
    forall t | b + |t| + 1 <= |s| ensures !OccursAt(s, t + ";", b) {
      assert s[b..][|t|..|t| + 1] == s[b..b + |t| + 1][|t|..];
      assert !OccursAt(s[b..], ";", |t|);
      assert (t + ";")[|t|..] == ";";
    }
  }

  /** A `;` right at `b` leaves no room for a non-empty run without `;`. */
  lemma EmptyRunNoMatch(s: string, b: nat)
    requires b <= |s| && IndexOf(s[b..], ";") == Some(0)
    ensures forall u :: |u| > 0 && ';' !in u ==> !OccursAt(s, u + ";", b)
  {
    assert s[b..][0..1] == ";";
    forall u | |u| > 0 && ';' !in u && b + |u| + 1 <= |s| ensures !OccursAt(s, u + ";", b) {
      assert s[b..b + |u| + 1][0] == s[b] == ';';
      assert (u + ";")[0] == u[0];
    }
  }

  /** The first `;` at offset `k > 0` after `b` closes a run free of `;`. */
  lemma RunBeforeSemicolon(s: string, b: nat, k: nat)
    requires b <= |s| && k > 0 && IndexOf(s[b..], ";") == Some(k)
    ensures b + k < |s| && ';' !in s[b..b + k] && OccursAt(s, s[b..b + k] + ";", b)
  {
    var t := s[b..b + k];
    assert ';' !in t by {
      forall j | 0 <= j < k ensures t[j] != ';' {
        assert !OccursAt(s[b..], ";", j);
        assert s[b..][j..j + 1] == [t[j]];
      }
    }
    assert s[b..][k..k + 1] == ";";
    assert s[b..b + k + 1] == t + ";";
  }

  /** The leftmost successful attempt at or after `i`, with its position. */
  function FirstMatch(s: string, i: nat): (r: Option<(nat, string)>)
    ensures r.Some? ==> i <= r.value.0 && MatchAt(s, r.value.0) == Some(r.value.1)
    ensures r.Some? ==> forall j :: i <= j < r.value.0 ==> MatchAt(s, j).None?
    ensures r.None? ==> forall j :: i <= j ==> MatchAt(s, j).None?
    decreases |s| - i
  {
    if i + |DataTag| > |s| then
      assert forall j :: i <= j ==> !OccursAt(s, DataTag, j);
      None
    else
      match MatchAt(s, i)
      case Some(t) => Some((i, t))
      case None => FirstMatch(s, i + 1)
  }

  /** The media type declared by the image: the group of the leftmost match of
      `/data:([^;]+);/` anywhere in the input, or `image/png` when nothing matches. */
  function DetectMime(s: string): (r: string)
    ensures (forall i, t :: !MimeMatch(s, i, t)) ==> r == DefaultMime
    ensures (exists i, t :: MimeMatch(s, i, t)) ==>
      exists i ::
        && MimeMatch(s, i, r)
        && forall j, t :: 0 <= j < i ==> !MimeMatch(s, j, t)
  {
    match FirstMatch(s, 0)
    case Some((i, t)) =>
      forall j: nat, u | j < i ensures !MimeMatch(s, j, u) {
        assert MatchAt(s, j).None?;
      }
      t
    case None =>
      forall j: nat, u ensures !MimeMatch(s, j, u) {
        assert MatchAt(s, j).None?;
      }
      DefaultMime
  }

  /** Input without any `;` (every bare base64 payload) falls back to
      `image/png`: a match needs the `;` that closes its group. */
  lemma DetectMimeDefault(p: string)
    requires ';' !in p
    ensures DetectMime(p) == DefaultMime
  {
    forall i: int, t: string ensures !MimeMatch(p, i, t) {
      var b := i + |DataTag|;
      if 0 <= b && b + |t| + 1 <= |p| {
        assert p[b + |t|] in p;
        assert p[b..b + |t| + 1][|t|] != (t + ";")[|t|];
      }
    }
  }

  /** At a given position the group is determined: it runs to the first `;`. */
  lemma MimeMatchUnique(s: string, i: int, t: string, u: string)
    requires MimeMatch(s, i, t) && MimeMatch(s, i, u)
    ensures t == u
  {
    MimeGroupEndsAtFirstSemicolon(s, i, t);
    MimeGroupEndsAtFirstSemicolon(s, i, u);
  }

  lemma MimeGroupEndsAtFirstSemicolon(s: string, i: int, t: string)
    requires MimeMatch(s, i, t)
    ensures IndexOf(s[i + |DataTag|..], ";") == Some(|t|)
    ensures t == s[i + |DataTag|..i + |DataTag| + |t|]
  {
    var b := i + |DataTag|;
    var rest := s[b..];
    assert rest[..|t| + 1] == t + ";";
    assert OccursAt(rest, ";", |t|);
    forall j | 0 <= j < |t| ensures !OccursAt(rest, ";", j) {
      assert rest[j..j + 1] == [t[j]];
    }
    assert t == rest[..|t|];
  }

  /** The media type declared by a data URL is the one sent: for a PNG data
      URL that is `image/png`, for a JPEG one `image/jpeg`. */
  lemma DetectDeclaredMime(mime: string, p: string)
    requires |mime| > 0 && ';' !in mime
    ensures DetectMime(DataTag + mime + ";" + Marker + p) == mime
  {
    var s := DataTag + mime + ";" + Marker + p;
    assert s[..|DataTag|] == DataTag;
    assert s[|DataTag|..|DataTag| + |mime| + 1] == mime + ";";
    assert MimeMatch(s, 0, mime);
    var r := DetectMime(s);
    var i :| MimeMatch(s, i, r) && forall j, t :: 0 <= j < i ==> !MimeMatch(s, j, t);
    assert i == 0;
    MimeMatchUnique(s, 0, mime, r);
  }

  // ---------------------------------------------------------------------------
  // Responses
  // ---------------------------------------------------------------------------

  /** A content part; only image parts carry inline data. */
  datatype Part = Part(inlineData: Option<string>)

  /** A candidate; `parts` is absent when the candidate has no content or the
      content has no parts. */
  datatype Candidate = Candidate(parts: Option<seq<Part>>)

  datatype Response = Response(candidates: Option<seq<Candidate>>)

  /** What awaiting the SDK call yields inside the `try`. */
  datatype Outcome = Returned(response: Response) | Threw

  /** The inline data of the first part that has any. */
  function FirstInlineData(parts: seq<Part>): (r: Option<string>)
    ensures r.None? <==> forall i :: 0 <= i < |parts| ==> parts[i].inlineData.None?
    ensures r.Some? ==> exists i ::
      && 0 <= i < |parts| && parts[i].inlineData == Some(r.value)
      && forall j :: 0 <= j < i ==> parts[j].inlineData.None?
    decreases |parts|
  {
    if |parts| == 0 then None
    else if parts[0].inlineData.Some? then
      parts[0].inlineData
    else
      var r := FirstInlineData(parts[1..]);
      assert forall i :: 1 <= i < |parts| ==> parts[i] == parts[1..][i - 1];
      if r.Some? then
        var i :| 0 <= i < |parts[1..]| && parts[1..][i].inlineData == Some(r.value)
                 && forall j :: 0 <= j < i ==> parts[1..][j].inlineData.None?;
        assert parts[i + 1].inlineData == Some(r.value);
        r
      else r
  }

  const ImagePrefix: string := "data:image/png;base64,"

  /** The image of a response: the first inline data among the parts of the
      first candidate, wrapped as a PNG data URL. */
  function ImageOf(resp: Response): (r: Option<string>)
    ensures r.Some? ==>
      && resp.candidates.Some? && |resp.candidates.value| > 0
      && resp.candidates.value[0].parts.Some?
      && exists d :: FirstInlineData(resp.candidates.value[0].parts.value) == Some(d) && r.value == ImagePrefix + d
    ensures r.None? <==>
      || resp.candidates.None? || |resp.candidates.value| == 0
      || resp.candidates.value[0].parts.None?
      || FirstInlineData(resp.candidates.value[0].parts.value).None?
  {
    if resp.candidates.Some? && |resp.candidates.value| > 0 && resp.candidates.value[0].parts.Some? then
      match FirstInlineData(resp.candidates.value[0].parts.value)
      case Some(d) => Some(ImagePrefix + d)
      case None => None
    else None
  }

  // ---------------------------------------------------------------------------
  // The two calls
  // ---------------------------------------------------------------------------

  datatype EditRequest = EditRequest(model: string, data: string, mimeType: string, prompt: string)

  /** What `editImage` sends: the stripped payload, the detected media type and
      the prompt, to the image model. */
  function EditRequestFor(base64Image: string, prompt: string): (q: EditRequest)
    ensures q.model == ImageModel && q.prompt == prompt
    ensures !Contains(q.data, Marker)
    ensures !Contains(base64Image, Marker) ==> q.data == base64Image
    ensures q.data == ExtractPayload(base64Image) && q.mimeType == DetectMime(base64Image)
  {
    EditRequest(ImageModel, ExtractPayload(base64Image), DetectMime(base64Image), prompt)
  }

  /** `editImage`: never throws; `None` stands for `undefined`. */
  function EditImage(base64Image: string, prompt: string, service: EditRequest -> Outcome): (r: Option<string>)
    ensures service(EditRequestFor(base64Image, prompt)).Threw? ==> r.None?
    ensures service(EditRequestFor(base64Image, prompt)).Returned? ==>
      r == ImageOf(service(EditRequestFor(base64Image, prompt)).response)
  {
    match service(EditRequestFor(base64Image, prompt))
    case Threw => None
    case Returned(resp) => ImageOf(resp)
  }

  const IconTemplateHead: string := "Generate a high-quality, professional mobile app icon. Subject: "
  const IconTemplateTail: string := ". Style: minimalist, modern 3D or flat design, vibrant but professional colors."

  /** The text of the icon request, with the user's prompt embedded verbatim. */
  function IconText(prompt: string): (r: string)
    ensures |r| == |IconTemplateHead| + |prompt| + |IconTemplateTail|
    ensures r[..|IconTemplateHead|] == IconTemplateHead
    ensures r[|IconTemplateHead|..|IconTemplateHead| + |prompt|] == prompt
    ensures r[|r| - |IconTemplateTail|..] == IconTemplateTail
  {
    var r := IconTemplateHead + prompt + IconTemplateTail;
    assert r[|IconTemplateHead|..] == prompt + IconTemplateTail;
    r
  }

  /** Reads the prompt back out of an icon request text. */
  function PromptOf(text: string): Option<string> {
    var h, t := |IconTemplateHead|, |IconTemplateTail|;
    if |text| >= h + t && text[..h] == IconTemplateHead && text[|text| - t..] == IconTemplateTail
    then Some(text[h..|text| - t])
    else None
  }

  /** The template loses nothing: the prompt can always be recovered, so two
      different prompts never produce the same request. */
  lemma IconTextRoundTrip(prompt: string)
    ensures PromptOf(IconText(prompt)) == Some(prompt)
  {
  }

  datatype IconRequest = IconRequest(model: string, text: string, aspectRatio: string)

  function IconRequestFor(prompt: string): (q: IconRequest)
    ensures q.model == ImageModel && q.aspectRatio == "1:1"
    ensures PromptOf(q.text) == Some(prompt)
  {
    IconTextRoundTrip(prompt);
    IconRequest(ImageModel, IconText(prompt), "1:1")
  }

  /** `generateIcon`: never throws; `None` stands for `undefined`. */
  function GenerateIcon(prompt: string, service: IconRequest -> Outcome): (r: Option<string>)
    ensures service(IconRequestFor(prompt)).Threw? ==> r.None?
    ensures service(IconRequestFor(prompt)).Returned? ==>
      r == ImageOf(service(IconRequestFor(prompt)).response)
  {
    match service(IconRequestFor(prompt))
    case Threw => None
    case Returned(resp) => ImageOf(resp)
  }

  /** Fail closed: whatever the service does, either call yields no value or a
      non-empty PNG data URL, never anything else. */
  lemma FailClosed(base64Image: string, prompt: string,
                   edit: EditRequest -> Outcome, icon: IconRequest -> Outcome)
    ensures EditImage(base64Image, prompt, edit).Some? ==>
      var v := EditImage(base64Image, prompt, edit).value;
      |v| >= |ImagePrefix| && v[..|ImagePrefix|] == ImagePrefix
    ensures GenerateIcon(prompt, icon).Some? ==>
      var v := GenerateIcon(prompt, icon).value;
      |v| >= |ImagePrefix| && v[..|ImagePrefix|] == ImagePrefix
  {
  }
}
