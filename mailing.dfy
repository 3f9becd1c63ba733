/** What the attempts of a run hand to the mail server. An attempt ends skipped,
    mailed (the loop breaks), or failed while mailing (the loop goes on); in the last
    case the mail is already with the server when only the closing `quit()` failed. */
module Mailing {
  import opened Common

  /** The parts of the mail that come from the bot's own processing. */
  datatype Email = Email(
    title: Option<string>,
    author: Option<string>,
    date: string,
    sourceInfo: string,
    poemHtml: string,
    analysis: string,
    pageUrl: Option<string>)

  datatype Rejection = FetchFailed | BadStatus | NotPoetry | NoDownloadUrl | DownloadFailed | TooShort

  /** How one attempt ends: skipped, mailed (the loop breaks), or failed while mailing
      (the loop goes on; the mail may already be with the server). */
  datatype AttemptResult =
    | Rejected(why: Rejection)
    | Mailed(email: Email)
    | MailFailed(email: Email, reachedServer: bool)

  /** Whether an attempt's mail reached the server: it was sent, or only `quit()` failed. */
  predicate HandsOver(r: AttemptResult)
  {
    r.Mailed? || (r.MailFailed? && r.reachedServer)
  }

  /** The mail an attempt hands to the server, if any. */
  function Handed(r: AttemptResult): seq<Email>
  {
    if HandsOver(r) then [r.email] else []
  }

  /** The mails handed to the server over a run of outcomes, in order. */
  function Delivered(results: seq<AttemptResult>): seq<Email>
  {
    if results == [] then [] else Handed(results[0]) + Delivered(results[1..])
  }

  lemma {:induction false} DeliveredAppend(a: seq<AttemptResult>, b: seq<AttemptResult>)
    ensures Delivered(a + b) == Delivered(a) + Delivered(b)
  {
    if a != [] {
      DeliveredAppend(a[1..], b);
      assert (a + b)[1..] == a[1..] + b;
    } else {
      assert a + b == b;
    }
  }

  lemma DeliveredOne(r: AttemptResult)
    ensures Delivered([r]) == Handed(r)
  {
    assert [r][1..] == [];
  }

  /** Nothing reaches the server exactly when no attempt hands a mail over. */
  lemma {:induction false} NothingDelivered(outcomes: seq<AttemptResult>)
    ensures Delivered(outcomes) == [] <==> forall i :: 0 <= i < |outcomes| ==> !HandsOver(outcomes[i])
  {
    if outcomes != [] {
      var rest := outcomes[1..];
      NothingDelivered(rest);
      assert forall i :: 1 <= i < |outcomes| ==> outcomes[i] == rest[i - 1];
    }
  }

  /** A run in which every attempt was skipped hands nothing to the server. */
  lemma RejectedDeliverNothing(outcomes: seq<AttemptResult>)
    requires forall i :: 0 <= i < |outcomes| ==> outcomes[i].Rejected?
    ensures Delivered(outcomes) == []
  {
    NothingDelivered(outcomes);
  }

  /** When no earlier attempt sent its mail and no SMTP exchange failed after handing a
      mail over, the server receives one mail, from the last attempt, or none. */
  lemma {:induction false} AtMostOneDelivery(outcomes: seq<AttemptResult>)
    requires forall i :: 0 <= i < |outcomes| - 1 ==> !outcomes[i].Mailed?
    requires forall i :: 0 <= i < |outcomes| ==> !(outcomes[i].MailFailed? && outcomes[i].reachedServer)
    ensures Delivered(outcomes) ==
      if outcomes != [] && outcomes[|outcomes| - 1].Mailed? then [outcomes[|outcomes| - 1].email] else []
  {
    if |outcomes| == 1 {
      DeliveredOne(outcomes[0]);
    } else if |outcomes| > 1 {
      var rest := outcomes[1..];
      assert forall i :: 0 <= i < |rest| ==> rest[i] == outcomes[i + 1];
      AtMostOneDelivery(rest);
      assert !HandsOver(outcomes[0]);
    }
  }

  /** A mail handed over by an SMTP exchange whose `quit()` failed does not end the loop,
      so a later attempt can mail a second poem: the server then holds both. */
  lemma DuplicateDelivery(outcomes: seq<AttemptResult>, i: nat, j: nat)
    requires i < j < |outcomes|
    requires outcomes[i].MailFailed? && outcomes[i].reachedServer && outcomes[j].Mailed?
    ensures |Delivered(outcomes)| >= 2
    ensures outcomes[i].email in Delivered(outcomes) && outcomes[j].email in Delivered(outcomes)
  {
    var front, middle, back := outcomes[..i], outcomes[i + 1..j], outcomes[j + 1..];
    assert outcomes == front + ([outcomes[i]] + (middle + ([outcomes[j]] + back)));
    DeliveredAppend(front, [outcomes[i]] + (middle + ([outcomes[j]] + back)));
    DeliveredAppend([outcomes[i]], middle + ([outcomes[j]] + back));
    DeliveredAppend(middle, [outcomes[j]] + back);
    DeliveredAppend([outcomes[j]], back);
    DeliveredOne(outcomes[i]);
    DeliveredOne(outcomes[j]);
  }
}
