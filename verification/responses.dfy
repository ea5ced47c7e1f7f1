/**
  What the handler sends back once the parsing service has answered:
  a failure notice, an info line followed by the video or the gallery
  images, or an "unsupported content type" notice.
 */
module Responses {
  import opened Optional
  import opened PyValue

  const FailurePrefix: string := "抖音解析失败: "
  const UnknownError: string := "未知错误"
  const AuthorPrefix: string := "作者: "
  const UnsupportedPrefix: string := "抖音解析成功但暂不支持该内容类型: "
  const VideoType: string := "视频"
  const GalleryType: string := "图集"

  /** One message sent back to the chat: plain text, or a video or image fetched from a URL. */
  datatype Output = Plain(text: string) | Video(url: string) | Image(url: string)

  /**
    The decoded JSON reply of the parsing service. A field is `None` when
    its key is absent; `video` and `images` are also `None` for a present
    null, since absent and null behave alike for them (both are falsy).
   */
  datatype Response = Response(
    code: Option<Value>,
    msg: Option<Value>,
    contentType: Option<Value>,
    title: Option<Value>,
    name: Option<Value>,
    video: Option<string>,
    images: Option<seq<string>>)

  /** The three outcomes the handler distinguishes, before they are turned into messages. */
  datatype Verdict = Failed(reason: string) | Posted(info: string, media: seq<Output>) | Unsupported(kind: string)

  /** `str(data.get(key, default))` for a field whose default is the string `default`. */
  function FieldStr(f: Option<Value>, default: string): string {
    match f
    case None => default
    case Some(v) => ToStr(v)
  }

  /** `data.get(key, "")` is truthy. */
  predicate FieldTruthy(f: Option<Value>) {
    f.Some? && Truthy(f.value)
  }

  /** `data.get("code") != 1` is false. */
  predicate Succeeded(resp: Response) {
    EqualsInt(resp.code.GetOr(Null), 1)
  }

  /** `data.get("type", "") == lit`. */
  predicate TypeIs(resp: Response, lit: string) {
    EqualsStr(resp.contentType.GetOr(Str("")), lit)
  }

  /** `data.get("video", "")` is truthy. */
  predicate HasVideo(resp: Response) {
    resp.video.Some? && |resp.video.value| > 0
  }

  /** `data.get("images")` is truthy. */
  predicate HasImages(resp: Response) {
    resp.images.Some? && |resp.images.value| > 0
  }

  /** The author line, with the title on a second line when there is one. */
  function InfoLine(author: string, title: Option<string>): string {
    match title
    case None => AuthorPrefix + author
    case Some(t) => AuthorPrefix + author + "\n" + t
  }

  /** The info line for a response: the title line is present iff `title` is truthy. */
  function Info(resp: Response): string {
    InfoLine(FieldStr(resp.name, ""), if FieldTruthy(resp.title) then Some(FieldStr(resp.title, "")) else None)
  }

  /** One image message per URL, in list order. */
  function ImageOutputs(urls: seq<string>): (out: seq<Output>)
    ensures |out| == |urls|
    ensures forall k :: 0 <= k < |urls| ==> out[k] == Image(urls[k])
  {
    seq(|urls|, k requires 0 <= k < |urls| => Image(urls[k]))
  }

  /** Which branch of the handler a response takes. */
  function Decide(resp: Response): (v: Verdict)
    ensures v.Failed? <==> !Succeeded(resp)
    ensures v.Unsupported? <==>
      Succeeded(resp) && !(TypeIs(resp, VideoType) && HasVideo(resp)) && !(TypeIs(resp, GalleryType) && HasImages(resp))
    ensures v.Posted? ==> v.info == Info(resp) && |v.media| >= 1
  {
    if !Succeeded(resp) then Failed(FieldStr(resp.msg, UnknownError))
    else if TypeIs(resp, VideoType) && HasVideo(resp) then Posted(Info(resp), [Video(resp.video.value)])
    else if TypeIs(resp, GalleryType) && HasImages(resp) then Posted(Info(resp), ImageOutputs(resp.images.value))
    else Unsupported(FieldStr(resp.contentType, ""))
  }

  /** The messages a verdict is sent as, in order. */
  function Render(v: Verdict): (out: seq<Output>)
    ensures |out| >= 1 && out[0].Plain?
  {
    match v
    case Failed(reason) => [Plain(FailurePrefix + reason)]
    case Posted(info, media) => [Plain(info)] + media
    case Unsupported(kind) => [Plain(UnsupportedPrefix + kind)]
  }

  /** The outputs for a reply that was fetched and decoded. */
  function Dispatch(resp: Response): (out: seq<Output>)
    ensures !Succeeded(resp) ==> out == [Plain(FailurePrefix + FieldStr(resp.msg, UnknownError))]
    ensures Succeeded(resp) && TypeIs(resp, VideoType) && HasVideo(resp) ==>
      out == [Plain(Info(resp)), Video(resp.video.value)]
    ensures Succeeded(resp) && !(TypeIs(resp, VideoType) && HasVideo(resp)) && TypeIs(resp, GalleryType) && HasImages(resp) ==>
      && |out| == 1 + |resp.images.value|
      && out[0] == Plain(Info(resp))
      && forall k :: 0 <= k < |resp.images.value| ==> out[k + 1] == Image(resp.images.value[k])
    ensures Succeeded(resp) && !(TypeIs(resp, VideoType) && HasVideo(resp)) && !(TypeIs(resp, GalleryType) && HasImages(resp)) ==>
      out == [Plain(UnsupportedPrefix + FieldStr(resp.contentType, ""))]
  {
    Render(Decide(resp))
  }

  /** The index of the first newline in `s`, if any. */
  function FirstNewline(s: string): (r: Option<nat>)
    ensures r.Some? ==> r.value < |s| && s[r.value] == '\n' && forall k :: 0 <= k < r.value ==> s[k] != '\n'
    ensures r.None? ==> forall k :: 0 <= k < |s| ==> s[k] != '\n'
    decreases |s|
  {
    if |s| == 0 then None
    else if s[0] == '\n' then Some(0)
    else match FirstNewline(s[1..])
      case None => None
      case Some(k) => Some(k + 1)
  }

  /** Reads an info line back into the author and the optional title. */
  function SplitInfo(line: string): Option<(string, Option<string>)> {
    if !(AuthorPrefix <= line) then None
    else
      var rest := line[|AuthorPrefix|..];
      match FirstNewline(rest)
      case None => Some((rest, None))
      case Some(k) => Some((rest[..k], Some(rest[k + 1..])))
  }

  /** An info line determines the author and the title, as long as the author name has no newline. */
  lemma InfoLineRoundTrip(author: string, title: Option<string>)
    requires forall k :: 0 <= k < |author| ==> author[k] != '\n'
    ensures SplitInfo(InfoLine(author, title)) == Some((author, title))
  {
    var line := InfoLine(author, title);
    var rest := line[|AuthorPrefix|..];
    match title
    case None =>
      assert rest == author;
    case Some(t) =>
      assert rest == author + "\n" + t;
      assert rest[|author|] == '\n';
      assert FirstNewline(rest) == Some(|author|);
      assert rest[..|author|] == author;
      assert rest[|author| + 1..] == t;
  }

  /** The verdicts a response can produce: an info line starts with the author prefix, media are never text. */
  predicate WellFormed(v: Verdict) {
    v.Posted? ==> AuthorPrefix <= v.info && forall k :: 0 <= k < |v.media| ==> !v.media[k].Plain?
  }

  /** Recovers the verdict from the messages sent. */
  function ReadBack(out: seq<Output>): Option<Verdict> {
    if |out| == 0 || !out[0].Plain? then None
    else
      var t := out[0].text;
      if FailurePrefix <= t then
        if |out| == 1 then Some(Failed(t[|FailurePrefix|..])) else None
      else if UnsupportedPrefix <= t then
        if |out| == 1 then Some(Unsupported(t[|UnsupportedPrefix|..])) else None
      else Some(Posted(t, out[1..]))
  }

  lemma DecideWellFormed(resp: Response)
    ensures WellFormed(Decide(resp))
  {
  }

  /** The three kinds of message are told apart by their first characters, so rendering loses nothing. */
  lemma ReadBackRender(v: Verdict)
    requires WellFormed(v)
    ensures ReadBack(Render(v)) == Some(v)
  {
    var out := Render(v);
    match v
    case Failed(reason) =>
      assert out[0].text[..|FailurePrefix|] == FailurePrefix;
      assert out[0].text[|FailurePrefix|..] == reason;
    case Unsupported(kind) =>
      var t := out[0].text;
      assert t[4] == '成' != FailurePrefix[4];
      assert t[|UnsupportedPrefix|..] == kind;
    case Posted(info, media) =>
      assert info[0] == '作';
      assert out[1..] == media;
  }

  /** `ReadBack` only accepts rendered verdicts, and renders back to its input: it is injective where defined. */
  lemma RenderReadBack(out: seq<Output>)
    requires ReadBack(out).Some?
    ensures Render(ReadBack(out).value) == out
  {
    var t := out[0].text;
    match ReadBack(out).value
    case Failed(reason) =>
      assert t == FailurePrefix + t[|FailurePrefix|..];
    case Unsupported(kind) =>
      assert t == UnsupportedPrefix + t[|UnsupportedPrefix|..];
    case Posted(info, media) =>
      assert out == [Plain(t)] + out[1..];
  }

  /** Two output lists that read back to the same verdict are equal. */
  lemma ReadBackInjective(out: seq<Output>, out': seq<Output>)
    requires ReadBack(out).Some? && ReadBack(out) == ReadBack(out')
    ensures out == out'
  {
    RenderReadBack(out);
    RenderReadBack(out');
  }

  /**
    The messages sent for a response determine which branch was taken and
    with what text: a failure notice, an unsupported-type notice, or an
    info line with its media.
   */
  lemma DispatchReadsBack(resp: Response)
    ensures ReadBack(Dispatch(resp)) == Some(Decide(resp))
  {
    DecideWellFormed(resp);
    ReadBackRender(Decide(resp));
  }

  /** Every response is answered, and only the first message is text. */
  lemma DispatchShape(resp: Response)
    ensures var out := Dispatch(resp);
      |out| >= 1 && out[0].Plain? && forall k :: 1 <= k < |out| ==> !out[k].Plain?
  {
    DecideWellFormed(resp);
  }
}
