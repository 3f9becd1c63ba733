/** The discovery loop of `main` (main.py:125-220): up to a hundred attempts, each
    drawing a random text id, fetching its record and page, filtering, asking for a
    commentary and mailing the result; the first complete send ends the loop. The
    random draws and everything the network and the mail server answer are inputs. */
module Discovery {
  import opened Common
  import opened Strings
  import opened Normalizer
  import opened Metadata
  import opened Commentary
  import opened Mailing

  /** The largest text id drawn. */
  const MaxIdGuess := 59083
  /** The word budget handed to the cleaner. */
  const MaxWords := 450
  /** `range(1, 101)`. */
  const MaxAttempts := 100
  /** A clean text shorter than this is skipped. */
  const MinTextLength := 20
  const Poetry := "poetry"

  /** The answer to `GET /texts/{id}`. */
  datatype TextReply =
      /** The request or the JSON decoding raised, or the body was not a record. */
    | FetchRaised
      /** `metadata` (all fields absent when it is missing), `download_url` and `url`. */
    | TextHttp(status: int, meta: Meta, downloadUrl: Option<string>, pageUrl: Option<string>)

  /** How the SMTP exchange ends. `FailedAfterSending` is an exception from `quit()`
      once `send_message` has handed the mail over. */
  datatype SmtpOutcome = Sent | FailedBeforeSending | FailedAfterSending

  /** What the outside world answers during one attempt, as far as the attempt gets. */
  datatype AttemptInput = AttemptInput(
    textReply: TextReply,
    /** The text runs of the downloaded page, headings removed; `None` when the GET raised. */
    download: Option<seq<string>>,
    /** What each backend in `WorkingModels` answers. */
    aiReplies: seq<Reply>,
    smtp: SmtpOutcome)

  /** `meta.get('bibliographic_info') or meta.get('source', '')`. */
  function SourceInfo(m: Meta): (r: string)
    ensures r == [] <==> !Truthy(m.bibliographicInfo) && !Truthy(m.source)
    ensures Truthy(m.bibliographicInfo) ==> r == m.bibliographicInfo.value
    ensures !Truthy(m.bibliographicInfo) && m.source.Some? ==> r == m.source.value
  {
    if Truthy(m.bibliographicInfo) then m.bibliographicInfo.value
    else if m.source.Some? then m.source.value
    else ""
  }

  /** One pass of the loop body, as a value. */
  function Attempt(a: AttemptInput): AttemptResult
  {
    match a.textReply
    case FetchRaised => Rejected(FetchFailed)
    case TextHttp(status, meta, downloadUrl, pageUrl) =>
      if status != 200 then Rejected(BadStatus)
      else if meta.genre != Some(Poetry) then Rejected(NotPoetry)
      else if !Truthy(downloadUrl) then Rejected(NoDownloadUrl)
      else if a.download.None? then Rejected(DownloadFailed)
      else
        var c := Clean(a.download.value, MaxWords);
        if |c.text| < MinTextLength then Rejected(TooShort)
        else
          var email := Email(meta.title, meta.author, FormatDate(meta), SourceInfo(meta),
                             c.html, Analysis(a.aiReplies), pageUrl);
          match a.smtp
          case Sent => Mailed(email)
          case FailedBeforeSending => MailFailed(email, false)
          case FailedAfterSending => MailFailed(email, true)
  }

  /** An attempt reaches the mail server only when the record fetch answered 200, the
      genre is "poetry", a download URL is set, the page was fetched, and the clean text
      has at least 20 characters; it ends the loop only when the SMTP exchange completes.
      The mail carries the page's rendering, the commentary and the formatted date. */
  lemma AttemptFilters(a: AttemptInput)
    ensures !Attempt(a).Rejected? <==>
      && a.textReply.TextHttp?
      && a.textReply.status == 200
      && a.textReply.meta.genre == Some(Poetry)
      && Truthy(a.textReply.downloadUrl)
      && a.download.Some?
      && |Clean(a.download.value, MaxWords).text| >= MinTextLength
    ensures Attempt(a).Mailed? <==> !Attempt(a).Rejected? && a.smtp == Sent
    ensures Attempt(a).MailFailed? ==> Attempt(a).reachedServer == (a.smtp == FailedAfterSending)
    ensures !Attempt(a).Rejected? ==>
      && Attempt(a).email.poemHtml == Clean(a.download.value, MaxWords).html
      && Attempt(a).email.analysis == Analysis(a.aiReplies)
      && Attempt(a).email.date == FormatDate(a.textReply.meta)
      && Attempt(a).email.sourceInfo == SourceInfo(a.textReply.meta)
  {
    match a.textReply
    case FetchRaised =>
    case TextHttp(status, meta, downloadUrl, pageUrl) =>
      if status == 200 && meta.genre == Some(Poetry) && Truthy(downloadUrl) && a.download.Some? {
        var c := Clean(a.download.value, MaxWords);
        if |c.text| >= MinTextLength {
          var email := Email(meta.title, meta.author, FormatDate(meta), SourceInfo(meta),
                             c.html, Analysis(a.aiReplies), pageUrl);
          assert Attempt(a) == match a.smtp
            case Sent => Mailed(email)
            case FailedBeforeSending => MailFailed(email, false)
            case FailedAfterSending => MailFailed(email, true);
        }
      }
  }

  lemma SkippedWhenNotPoetry(inputs: seq<AttemptInput>, outcomes: seq<AttemptResult>, i: nat)
    requires Explains(inputs, outcomes) && i < |outcomes|
    requires inputs[i].textReply.TextHttp? ==> inputs[i].textReply.meta.genre != Some(Poetry)
    ensures outcomes[i].Rejected?
  {
    AttemptFilters(inputs[i]);
  }

  /** When no record that answers is a poem, every attempt is skipped and nothing is
      mailed; with `Run`'s contract this means all hundred ids are fetched. */
  lemma NeverPoetry(inputs: seq<AttemptInput>, outcomes: seq<AttemptResult>)
    requires Explains(inputs, outcomes)
    requires forall i :: 0 <= i < |inputs| ==>
      inputs[i].textReply.TextHttp? ==> inputs[i].textReply.meta.genre != Some(Poetry)
    ensures forall i :: 0 <= i < |outcomes| ==> outcomes[i].Rejected?
  {
    forall i | 0 <= i < |outcomes| ensures outcomes[i].Rejected? {
      SkippedWhenNotPoetry(inputs, outcomes, i);
    }
  }

  /** The body of the loop, from the record fetch to the SMTP exchange; an early
      return is the source's `continue` or a caught exception (main.py:128-220). */
  method TryOnce(input: AttemptInput) returns (result: AttemptResult)
    requires |input.aiReplies| == |WorkingModels|
    ensures result == Attempt(input)
  {
    match input.textReply
    case FetchRaised =>
      return Rejected(FetchFailed);
    case TextHttp(status, meta, downloadUrl, pageUrl) =>
      if status != 200 { return Rejected(BadStatus); }
      if meta.genre != Some(Poetry) { return Rejected(NotPoetry); }
      var title, author, sourceInfo := meta.title, meta.author, SourceInfo(meta);
      if !Truthy(downloadUrl) { return Rejected(NoDownloadUrl); }
      if input.download.None? { return Rejected(DownloadFailed); }
      var cleaned := Clean(input.download.value, MaxWords);
      if |cleaned.text| < MinTextLength { return Rejected(TooShort); }
      var date := FormatDate(meta);
      var analysis, _ := GetAiAnalysis(WorkingModels, cleaned.text, date == "", input.aiReplies);
      var email := Email(title, author, date, sourceInfo, cleaned.html, analysis, pageUrl);
      match input.smtp
      case Sent => result := Mailed(email);
      case FailedBeforeSending => result := MailFailed(email, false);
      case FailedAfterSending => result := MailFailed(email, true);
  }

  /** Each outcome is what `Attempt` gives for the input at the same position. The
      trigger keeps the attempt's definition out of reasoning that only moves outcomes
      around. */
  predicate Explains(inputs: seq<AttemptInput>, outcomes: seq<AttemptResult>)
  {
    |outcomes| <= |inputs| &&
    forall j {:trigger Attempt(inputs[j])} :: 0 <= j < |outcomes| ==> outcomes[j] == Attempt(inputs[j])
  }

  /** The outcomes of attempting every input, as a ghost reference for the loop. */
  lemma AttemptsOf(inputs: seq<AttemptInput>) returns (r: seq<AttemptResult>)
    ensures |r| == |inputs| && Explains(inputs, r)
  {
    r := seq(|inputs|, j requires 0 <= j < |inputs| => Attempt(inputs[j]));
  }

  lemma ExplainsPrefix(inputs: seq<AttemptInput>, r: seq<AttemptResult>, n: nat)
    requires Explains(inputs, r) && n <= |r|
    ensures Explains(inputs, r[..n])
  {
  }

  /** Attempt `i` of a run, stated against the reference outcomes `expected`. */
  method TryAt(inputs: seq<AttemptInput>, ghost expected: seq<AttemptResult>, i: nat) returns (result: AttemptResult)
    requires i < |inputs| == |expected| && Explains(inputs, expected)
    requires |inputs[i].aiReplies| == |WorkingModels|
    ensures result == expected[i]
  {
    result := TryOnce(inputs[i]);
  }

  /** `main()`'s `for i in range(1, 101)` loop. `draws[i]` is the id `randint` gives in
      attempt i and `inputs[i]` what the world answers in it; `outcomes` is how each
      attempt that was made ended. The loop stops right after the first complete send;
      every other outcome, a caught exception included, moves on to the next attempt. */
  method Run(draws: seq<int>, inputs: seq<AttemptInput>)
    returns (fetched: seq<int>, delivered: seq<Email>, done: bool, outcomes: seq<AttemptResult>)
    requires |draws| == MaxAttempts && |inputs| == MaxAttempts
    requires forall i :: 0 <= i < |draws| ==> 1 <= draws[i] <= MaxIdGuess
    requires forall i :: 0 <= i < |inputs| ==> |inputs[i].aiReplies| == |WorkingModels|
    ensures 1 <= |fetched| <= MaxAttempts && fetched == draws[..|fetched|]
    ensures forall i :: 0 <= i < |fetched| ==> 1 <= fetched[i] <= MaxIdGuess
    ensures |outcomes| == |fetched| && Explains(inputs, outcomes)
    ensures forall i :: 0 <= i < |fetched| - 1 ==> !outcomes[i].Mailed?
    ensures done <==> outcomes[|fetched| - 1].Mailed?
    ensures !done ==> |fetched| == MaxAttempts
    ensures delivered == Delivered(outcomes)
  {
    fetched, delivered, done, outcomes := [], [], false, [];
    ghost var expected := AttemptsOf(inputs);
    for i := 0 to MaxAttempts
      invariant fetched == draws[..i]
      invariant outcomes == expected[..i]
      invariant forall j :: 0 <= j < i ==> !outcomes[j].Mailed?
      invariant delivered == Delivered(outcomes)
      invariant !done
    {
      fetched := fetched + [draws[i]];
      assert fetched == draws[..i + 1];
      assert expected[..i + 1] == expected[..i] + [expected[i]];
      var result := TryAt(inputs, expected, i);
      outcomes := outcomes + [result];
      DeliveredAppend(outcomes[..i], [result]);
      DeliveredOne(result);
      delivered := delivered + Handed(result);
      if result.Mailed? {
        done := true;
        break;
      }
    }
    ExplainsPrefix(inputs, expected, |outcomes|);
  }
}
