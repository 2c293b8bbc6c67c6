/** The event-to-content assembler: turns one Slack event into the ordered,
    never-empty list of parts sent to the agent, downloading the attachments
    it supports. The download is an oracle from URL to HTTP outcome. */
module Assembler {
  import opened Wrappers
  import opened Strings
  import opened Events
  import Mention

  type Byte = b: int | 0 <= b < 256

  /** A part of the agent's input: text, or raw bytes tagged with a MIME type. */
  datatype Part = TextPart(text: string) | BytesPart(data: seq<Byte>, mimeType: string)

  /** The message handed to the agent. */
  datatype Content = Content(role: string, parts: seq<Part>)

  /** What one authenticated GET of a download URL gives back: a response with
      its status, raw body and decoded body text, or a transport failure
      (timeout, refused connection). */
  datatype Response = Response(status: int, content: seq<Byte>, text: string)
                    | TransportError(message: string)

  /** Why the assembly was abandoned. */
  datatype FetchError = StatusError(url: string, status: int)
                      | TransportFailure(url: string, message: string)

  /** A file the assembler will download: its URL and its MIME type. */
  datatype Download = Download(url: string, mimeType: string)

  /** The outcome of assembling one event, with the URLs requested, in order. */
  datatype Assembly = Assembly(result: Result<Content, FetchError>, fetched: seq<string>)

  /** The recursive walk over the files, before the placeholder is added. */
  datatype Gathered = Gathered(parts: Result<seq<Part>, FetchError>, fetched: seq<string>)

  const UserRole := "user"
  const NoContent := "(no content)"

  /** The MIME type prefixes whose files are passed on to the agent. */
  const SupportedPrefixes: seq<string> := ["image/", "video/", "audio/", "text/"]

  /** The MIME types whose files are passed on to the agent: one of the
      prefixes, or exactly PDF. An absent (empty) type is never supported. */
  predicate Supported(mime: string)
    ensures Supported(mime) <==>
      (exists p | p in SupportedPrefixes :: HasPrefix(mime, p)) || mime == "application/pdf"
    ensures mime == [] ==> !Supported(mime)
  {
    || HasPrefix(mime, "image/")
    || HasPrefix(mime, "video/")
    || HasPrefix(mime, "audio/")
    || HasPrefix(mime, "text/")
    || mime == "application/pdf"
  }

  /** The file's MIME type, a missing one read as the empty string. */
  function MimeOf(f: FileRecord): string {
    match f.mimetype
    case Some(m) => m
    case None => ""
  }

  /** A file is downloaded when it has a non-empty download URL and a
      supported MIME type. */
  predicate Eligible(f: FileRecord)
    ensures Eligible(f) <==>
      && f.urlPrivateDownload.Some? && f.urlPrivateDownload.value != []
      && f.mimetype.Some? && Supported(f.mimetype.value)
  {
    Truthy(f.urlPrivateDownload) && Supported(MimeOf(f))
  }

  function DownloadOf(f: FileRecord): Download
    requires Eligible(f)
  {
    Download(f.urlPrivateDownload.value, MimeOf(f))
  }

  /** The downloads the files call for, in file order. */
  function Downloads(files: seq<FileRecord>): (ds: seq<Download>)
    ensures |ds| <= |files|
    ensures forall i :: 0 <= i < |ds| ==> ds[i].url != [] && Supported(ds[i].mimeType)
  {
    if files == [] then []
    else
      var rest := Downloads(files[1..]);
      var f := files[0];
      if Eligible(f) then [DownloadOf(f)] + rest else rest
  }

  /** `raise_for_status` of the HTTP client: only a 2xx status passes. */
  predicate Succeeded(resp: Response)
    ensures Succeeded(resp) <==> resp.Response? && resp.status / 100 == 2
    ensures resp.Response? && 300 <= resp.status < 400 ==> !Succeeded(resp)
  {
    resp.Response? && 200 <= resp.status < 300
  }

  function ErrorOf(url: string, resp: Response): FetchError
    requires !Succeeded(resp)
  {
    match resp
    case Response(status, _, _) => StatusError(url, status)
    case TransportError(msg) => TransportFailure(url, msg)
  }

  /** The part a downloaded file becomes: text files as their decoded text,
      every other supported file as its bytes under its own MIME type. */
  function PartOf(d: Download, resp: Response): (p: Part)
    requires Succeeded(resp)
    ensures p.TextPart? <==> HasPrefix(d.mimeType, "text/")
    ensures p.TextPart? ==> p.text == resp.text
    ensures p.BytesPart? ==> p.data == resp.content && p.mimeType == d.mimeType
  {
    if HasPrefix(d.mimeType, "text/") then TextPart(resp.text) else BytesPart(resp.content, d.mimeType)
  }

  /** Index of the first download whose request fails, or `|ds|`. */
  function FirstFailure(ds: seq<Download>, fetch: string -> Response): (k: nat)
    ensures k <= |ds|
    ensures forall i :: 0 <= i < k ==> Succeeded(fetch(ds[i].url))
    ensures k < |ds| ==> !Succeeded(fetch(ds[k].url))
  {
    if ds == [] || !Succeeded(fetch(ds[0].url)) then 0 else 1 + FirstFailure(ds[1..], fetch)
  }

  /** The parts all downloads give when every request succeeds. */
  function PartsOf(ds: seq<Download>, fetch: string -> Response): (ps: seq<Part>)
    requires forall i :: 0 <= i < |ds| ==> Succeeded(fetch(ds[i].url))
    ensures |ps| == |ds|
    ensures forall i :: 0 <= i < |ds| ==> ps[i] == PartOf(ds[i], fetch(ds[i].url))
  {
    seq(|ds|, i requires 0 <= i < |ds| => PartOf(ds[i], fetch(ds[i].url)))
  }

  /** How many requests the downloads `ds` cause: all of them, or up to and
      including the first that fails. */
  function Attempted(ds: seq<Download>, fetch: string -> Response): (n: nat)
    ensures n <= |ds|
  {
    var k := FirstFailure(ds, fetch);
    if k < |ds| then k + 1 else k
  }

  /** What the walk over the files must give for downloads `ds`: the parts of
      all downloads when every request succeeds, otherwise the error of the
      first failing one; and the URLs requested, in order. */
  predicate GatheredFor(g: Gathered, ds: seq<Download>, fetch: string -> Response) {
    var k := FirstFailure(ds, fetch);
    && (g.parts.Success? <==> k == |ds|)
    && (k < |ds| ==> g.parts.error == ErrorOf(ds[k].url, fetch(ds[k].url)))
    && (g.parts.Success? ==> |g.parts.value| == |ds|)
    && (g.parts.Success? ==> forall i :: 0 <= i < |ds| ==> g.parts.value[i] == PartOf(ds[i], fetch(ds[i].url)))
    && |g.fetched| == Attempted(ds, fetch)
    && (forall i :: 0 <= i < |g.fetched| ==> g.fetched[i] == ds[i].url)
  }

  /** The loop over the event's files: skip what is not eligible, request
      what is, stop at the first request that fails. */
  function Gather(files: seq<FileRecord>, fetch: string -> Response): (g: Gathered)
    ensures GatheredFor(g, Downloads(files), fetch)
  {
    if files == [] then Gathered(Success([]), [])
    else
      var f := files[0];
      if !Truthy(f.urlPrivateDownload) || !Supported(MimeOf(f)) then Gather(files[1..], fetch)
      else
        var d := DownloadOf(f);
        var resp := fetch(d.url);
        if !Succeeded(resp) then
          FailedStep(d, Downloads(files[1..]), fetch);
          Gathered(Failure(ErrorOf(d.url, resp)), [d.url])
        else
          var rest := Gather(files[1..], fetch);
          var g := match rest.parts
            case Success(ps) => Gathered(Success([PartOf(d, resp)] + ps), [d.url] + rest.fetched)
            case Failure(e) => Gathered(Failure(e), [d.url] + rest.fetched);
          SucceededStep(d, Downloads(files[1..]), fetch, rest, g);
          g
  }

  lemma FailedStep(d: Download, rest: seq<Download>, fetch: string -> Response)
    requires !Succeeded(fetch(d.url))
    ensures GatheredFor(Gathered(Failure(ErrorOf(d.url, fetch(d.url))), [d.url]), [d] + rest, fetch)
  {
    assert FirstFailure([d] + rest, fetch) == 0;
  }

  lemma SucceededStep(d: Download, rest: seq<Download>, fetch: string -> Response, g0: Gathered, g: Gathered)
    requires Succeeded(fetch(d.url))
    requires GatheredFor(g0, rest, fetch)
    requires g.fetched == [d.url] + g0.fetched
    requires g0.parts.Success? ==> g.parts == Success([PartOf(d, fetch(d.url))] + g0.parts.value)
    requires g0.parts.Failure? ==> g.parts == g0.parts
    ensures GatheredFor(g, [d] + rest, fetch)
  {
    var ds := [d] + rest;
    assert ds[1..] == rest;
    assert FirstFailure(ds, fetch) == 1 + FirstFailure(rest, fetch);
  }

  /** `event.get("text") or ""`. */
  function EventText(ev: SlackEvent): string {
    match ev.text
    case Some(t) => t
    case None => ""
  }

  /** The text part the event's own text contributes: none when nothing is
      left after removing mentions and stripping. */
  function TextParts(ev: SlackEvent): (ps: seq<Part>)
    ensures |ps| <= 1
    ensures ps == [] <==> Mention.CleanText(EventText(ev)) == []
  {
    var t := Mention.CleanText(EventText(ev));
    if t == [] then [] else [TextPart(t)]
  }

  /** What the event produced before the placeholder rule: its text part,
      then one part per download. */
  function Produced(ev: SlackEvent, fetch: string -> Response): seq<Part>
    requires forall i :: 0 <= i < |Downloads(ev.files)| ==> Succeeded(fetch(Downloads(ev.files)[i].url))
  {
    TextParts(ev) + PartsOf(Downloads(ev.files), fetch)
  }

  /** `_build_content_from_event`. */
  function Assemble(ev: SlackEvent, fetch: string -> Response): (a: Assembly)
    ensures var ds := Downloads(ev.files); var k := FirstFailure(ds, fetch);
      && (a.result.Success? <==> k == |ds|)
      && (k < |ds| ==> a.result.error == ErrorOf(ds[k].url, fetch(ds[k].url)))
      && |a.fetched| == Attempted(ds, fetch)
      && (forall i :: 0 <= i < |a.fetched| ==> a.fetched[i] == ds[i].url)
    ensures a.result.Success? ==>
      var c := a.result.value;
      && c.role == UserRole
      && 1 <= |c.parts| <= 1 + |ev.files|
      && (Produced(ev, fetch) != [] ==> c.parts == Produced(ev, fetch))
      && (Produced(ev, fetch) == [] ==> c.parts == [TextPart(NoContent)])
    ensures a.result.Success? && Mention.CleanText(EventText(ev)) != [] ==>
      a.result.value.parts[0] == TextPart(Mention.CleanText(EventText(ev)))
  {
    var text := Mention.CleanText(EventText(ev));
    var first := if text != [] then [TextPart(text)] else [];
    var g := Gather(ev.files, fetch);
    match g.parts
    case Failure(e) => Assembly(Failure(e), g.fetched)
    case Success(ps) =>
      assert ps == PartsOf(Downloads(ev.files), fetch);
      var parts := first + ps;
      Assembly(Success(Content(UserRole, if parts == [] then [TextPart(NoContent)] else parts)), g.fetched)
  }

  /** Files contribute their downloads independently and in order. */
  lemma {:induction false} DownloadsAppend(a: seq<FileRecord>, b: seq<FileRecord>)
    ensures Downloads(a + b) == Downloads(a) + Downloads(b)
    decreases |a|
  {
    if a != [] {
      assert (a + b)[1..] == a[1..] + b;
      DownloadsAppend(a[1..], b);
    } else {
      assert a + b == b;
    }
  }

  /** Every download is that of an eligible file of the event: nothing else is
      ever requested. */
  lemma {:induction false} DownloadsComeFromEligibleFiles(files: seq<FileRecord>)
    ensures forall d :: d in Downloads(files) ==> exists f :: f in files && Eligible(f) && DownloadOf(f) == d
  {
    if files != [] {
      DownloadsComeFromEligibleFiles(files[1..]);
      forall d | d in Downloads(files)
        ensures exists f :: f in files && Eligible(f) && DownloadOf(f) == d
      {
        if Eligible(files[0]) && d == DownloadOf(files[0]) {
          assert files[0] in files;
        } else {
          assert d in Downloads(files[1..]);
          var f :| f in files[1..] && Eligible(f) && DownloadOf(f) == d;
          assert f in files;
        }
      }
    }
  }

  /** The assembly sees the files only through their downloads. */
  lemma AssembleDependsOnlyOnDownloads(ev1: SlackEvent, ev2: SlackEvent, fetch: string -> Response)
    requires EventText(ev1) == EventText(ev2)
    requires Downloads(ev1.files) == Downloads(ev2.files)
    ensures Assemble(ev1, fetch) == Assemble(ev2, fetch)
  {
  }

  /** Every eligible file is requested, in its place among the others: no
      supported type is dropped. */
  lemma EligibleFileRequested(before: seq<FileRecord>, f: FileRecord, after: seq<FileRecord>)
    requires Eligible(f)
    ensures Downloads(before + [f] + after) == Downloads(before) + [DownloadOf(f)] + Downloads(after)
  {
    DownloadsAppend(before, [f]);
    DownloadsAppend(before + [f], after);
    assert [f][1..] == [];
  }

  /** A file without a download URL or with an unsupported MIME type changes
      nothing: the assembly is the one the event would give without it. */
  lemma IneligibleFileIgnored(ev: SlackEvent, before: seq<FileRecord>, f: FileRecord,
                              after: seq<FileRecord>, fetch: string -> Response)
    requires !Eligible(f)
    ensures Assemble(ev.(files := before + [f] + after), fetch)
         == Assemble(ev.(files := before + after), fetch)
  {
    DownloadsAppend(before, [f]);
    DownloadsAppend(before + [f], after);
    DownloadsAppend(before, after);
    assert Downloads([f]) == [];
    AssembleDependsOnlyOnDownloads(ev.(files := before + after), ev.(files := before + [f] + after), fetch);
  }

  lemma {:induction false} FirstFailureAppend(ds: seq<Download>, more: seq<Download>, fetch: string -> Response)
    requires FirstFailure(ds, fetch) < |ds|
    ensures FirstFailure(ds + more, fetch) == FirstFailure(ds, fetch)
    decreases |ds|
  {
    assert (ds + more)[0] == ds[0];
    if Succeeded(fetch(ds[0].url)) {
      assert (ds + more)[1..] == ds[1..] + more;
      FirstFailureAppend(ds[1..], more, fetch);
    }
  }

  /** Once a download has failed, files listed after the event's own make no
      difference: they are never requested and the outcome is the same error. */
  lemma FilesAfterFailureIgnored(ev: SlackEvent, extra: seq<FileRecord>, fetch: string -> Response)
    requires Assemble(ev, fetch).result.Failure?
    ensures Assemble(ev.(files := ev.files + extra), fetch) == Assemble(ev, fetch)
  {
    var ds := Downloads(ev.files);
    DownloadsAppend(ev.files, extra);
    FirstFailureAppend(ds, Downloads(extra), fetch);
    var k := FirstFailure(ds, fetch);
    assert (ds + Downloads(extra))[..k + 1] == ds[..k + 1];
  }

  lemma {:induction false} FirstFailureAgrees(ds: seq<Download>, f1: string -> Response, f2: string -> Response)
    requires forall i :: 0 <= i < |ds| && i <= FirstFailure(ds, f1) ==> f1(ds[i].url) == f2(ds[i].url)
    ensures FirstFailure(ds, f2) == FirstFailure(ds, f1)
    decreases |ds|
  {
    if ds != [] && Succeeded(f1(ds[0].url)) {
      FirstFailureAgrees(ds[1..], f1, f2);
    }
  }

  /** The assembly depends on the download oracle only at the URLs it
      requested: two oracles that agree there give the same outcome. */
  lemma OnlyFetchedUrlsMatter(ev: SlackEvent, f1: string -> Response, f2: string -> Response)
    requires forall u :: u in Assemble(ev, f1).fetched ==> f1(u) == f2(u)
    ensures Assemble(ev, f2) == Assemble(ev, f1)
  {
    var ds := Downloads(ev.files);
    var k := FirstFailure(ds, f1);
    var fetched := Assemble(ev, f1).fetched;
    forall i | 0 <= i < |ds| && i <= k ensures f1(ds[i].url) == f2(ds[i].url) {
      assert fetched[i] == ds[i].url;
    }
    FirstFailureAgrees(ds, f1, f2);
    if k == |ds| {
      assert PartsOf(ds, f1) == PartsOf(ds, f2);
    }
  }

  /** An event with no text left and nothing to download becomes the single
      placeholder part, without any request. */
  lemma NothingGivesPlaceholder(ev: SlackEvent, fetch: string -> Response)
    requires Mention.CleanText(EventText(ev)) == []
    requires Downloads(ev.files) == []
    ensures Assemble(ev, fetch) == Assembly(Success(Content(UserRole, [TextPart(NoContent)])), [])
  {
  }

  /** One supported binary attachment that downloads with a 2xx status
      becomes a bytes part with the file's own MIME type, after any text. */
  lemma ImageAttachment(ev: SlackEvent, mime: string, url: string, data: seq<Byte>, body: string,
                        status: int, fetch: string -> Response)
    requires mime == "image/png"
    requires ev.files == [FileRecord(Some(mime), Some(url))] && url != []
    requires fetch(url) == Response(status, data, body) && 200 <= status < 300
    ensures Assemble(ev, fetch).fetched == [url]
    ensures Assemble(ev, fetch).result == Success(Content(UserRole, TextParts(ev) + [BytesPart(data, mime)]))
  {
    assert mime[..6] == "image/";
    assert mime[..5][0] == 'i';
    var f := ev.files[0];
    assert Eligible(f);
    assert ev.files[1..] == [];
    var ds := Downloads(ev.files);
    assert ds == [Download(url, mime)];
    assert FirstFailure(ds[1..], fetch) == 0;
    assert FirstFailure(ds, fetch) == 1;
    assert PartsOf(ds, fetch) == [BytesPart(data, mime)];
    assert Produced(ev, fetch) == TextParts(ev) + [BytesPart(data, mime)];
  }

  /** Text without a mention opener or surrounding whitespace is kept as is. */
  lemma PlainTextKept(t: string)
    requires forall k :: 0 <= k < |t| ==> t[k] != '<'
    requires t == [] || (!IsSpace(t[0]) && !IsSpace(t[|t| - 1]))
    ensures Mention.CleanText(t) == t
  {
    Mention.CleanTextWithoutOpener(t);
    StripKeepsTrimmed(t);
  }

  /** A message without files whose text cleans to something non-empty
      assembles to that cleaned text alone, with no request. */
  lemma TextOnlyMessage(ev: SlackEvent, t: string, fetch: string -> Response)
    requires ev.files == []
    requires Mention.CleanText(EventText(ev)) == t && t != []
    ensures Assemble(ev, fetch) == Assembly(Success(Content(UserRole, [TextPart(t)])), [])
  {
    assert TextParts(ev) == [TextPart(t)];
    assert Downloads(ev.files) == [];
    assert FirstFailure(Downloads(ev.files), fetch) == 0;
    assert PartsOf(Downloads(ev.files), fetch) == [];
    assert Produced(ev, fetch) == [TextPart(t)];
  }

  /** The placeholder is not a marker: a message whose text cleans to
      "(no content)" assembles to the same content as an empty one. */
  lemma PlaceholderIndistinguishable(ev: SlackEvent, t: string, fetch: string -> Response)
    requires ev.files == [] && Mention.CleanText(t) == NoContent
    ensures Assemble(ev.(text := Some(t)), fetch) == Assemble(ev.(text := None), fetch)
  {
    var full := ev.(text := Some(t));
    var empty := ev.(text := None);
    assert EventText(full) == t;
    assert TextParts(full) == [TextPart(NoContent)];
    assert Downloads(ev.files) == [];
    assert FirstFailure(Downloads(ev.files), fetch) == 0;
    assert PartsOf(Downloads(ev.files), fetch) == [];
    assert Produced(full, fetch) == [TextPart(NoContent)];
    assert Mention.CleanText(EventText(empty)) == [];
    NothingGivesPlaceholder(empty, fetch);
  }

  /** ... and the text "(no content)" itself is such a text. */
  lemma PlaceholderTextSurvivesCleaning(t: string)
    requires t == NoContent
    ensures Mention.CleanText(t) == NoContent
  {
    assert t[0] == '(' && t[|t| - 1] == ')';
    assert forall k :: 0 <= k < |t| ==> t[k] != '<';
    PlainTextKept(t);
  }
}
