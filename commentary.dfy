/** The ordered backend fallback of `get_ai_analysis` (main.py:58-107). Each backend's
    reply is an input; the prompt wording is not modelled, only the capped excerpt of
    the poem and the date hint that it carries. */
module Commentary {
  import opened Common
  import opened Strings

  /** The fixed string returned when every backend failed. */
  const Apology := "<p>לא ניתן היה לייצר ניתוח עומק הפעם.</p>"

  /** The backends, in the order they are tried. */
  const WorkingModels := [
    "models/gemini-3-flash-preview",
    "models/gemini-flash-latest",
    "models/gemini-2.5-flash-preview-09-2025",
    "models/gemini-2.5-flash-lite",
    "models/gemma-3-27b-it"
  ]

  const ModelsPrefix := "models/"
  const HtmlFence := "```html"

  /** The longest excerpt of the poem placed in the prompt. */
  const ExcerptLimit := 1500

  /** What a POST to one backend gives back. */
  datatype Reply =
      /** The request, the JSON decoding or the reading of the first candidate raised. */
    | Raised
      /** An HTTP response; `candidates` is empty when the field is absent or empty, and
          each entry is the text at `content.parts[0].text`, `None` when that path is missing. */
    | Http(status: int, candidates: seq<Option<string>>)

  /** A reply that ends the fallback: status 200 with a readable first candidate. */
  predicate Succeeds(r: Reply) {
    r.Http? && r.status == 200 && |r.candidates| > 0 && r.candidates[0].Some?
  }

  function ReplyText(r: Reply): string
    requires Succeeds(r)
  {
    r.candidates[0].value
  }

  /** One POST as the backend sees it: which model, which excerpt, and whether the
      prompt asks for the publication date. */
  datatype Request = Request(model: string, excerpt: string, askForDate: bool)

  /** `model_raw.replace("models/", "").strip()`. */
  function CleanModelName(raw: string): string
  {
    Strip(RemoveAll(raw, ModelsPrefix))
  }

  /** A configured name is the bare model name behind the "models/" prefix. */
  lemma CleanModelNameDropsPrefix(name: string)
    requires !Contains(name, ModelsPrefix) && Strip(name) == name
    ensures CleanModelName(ModelsPrefix + name) == name
  {
    assert StartsWith(ModelsPrefix + name, ModelsPrefix);
    assert (ModelsPrefix + name)[|ModelsPrefix|..] == name;
    RemoveAllAbsent(name, ModelsPrefix);
  }

  /** `text_sample[:1500]`. */
  function Excerpt(text: string): (e: string)
    ensures |e| <= ExcerptLimit && e <= text
    ensures |text| <= ExcerptLimit ==> e == text
    ensures |e| == Min(ExcerptLimit, |text|)
  {
    text[..Min(ExcerptLimit, |text|)]
  }

  /** The markup fences a backend may wrap its HTML in, removed as the source does:
      every "```html", then every "```". */
  function StripFences(t: string): (r: string)
    ensures !Contains(r, Fence)
  {
    RemoveFenceLeavesNone(RemoveAll(t, HtmlFence));
    RemoveAll(RemoveAll(t, HtmlFence), Fence)
  }

  /** A reply without fences is returned as it is. */
  lemma StripFencesKeepsPlain(t: string)
    requires !Contains(t, Fence)
    ensures StripFences(t) == t
  {
    if Contains(t, HtmlFence) {
      assert HtmlFence == Fence + "html";
      ContainsPrefixOf(t, Fence, "html");
    }
    RemoveAllAbsent(t, HtmlFence);
    RemoveAllAbsent(t, Fence);
  }

  /** HTML a backend wraps in a "```html" ... "```" block comes out unwrapped. */
  lemma StripFencesUnwraps(t: string)
    requires '`' !in t
    ensures StripFences(HtmlFence + t + Fence) == t
  {
    var s := HtmlFence + t + Fence;
    assert StartsWith(s, HtmlFence);
    assert s[|HtmlFence|..] == t + Fence;
    RemoveAllKeepsPrefix(t, Fence, HtmlFence);
    ShorterNotContained(Fence, HtmlFence);
    RemoveAllAbsent(Fence, HtmlFence);
    RemoveAllKeepsPrefix(t, Fence, Fence);
    assert StartsWith(Fence, Fence);
    assert Fence[|Fence|..] == [];
  }

  /** The analysis the fallback yields: the first successful reply, fence-stripped, or
      the apology when no backend succeeds. */
  function Analysis(replies: seq<Reply>): string
  {
    match FirstIndex(replies, Succeeds)
    case Some(i) => StripFences(ReplyText(replies[i]))
    case None => Apology
  }

  /** How many backends are contacted: up to and including the first success, or all. */
  function Contacted(replies: seq<Reply>): nat
  {
    match FirstIndex(replies, Succeeds)
    case Some(i) => i + 1
    case None => |replies|
  }

  /** The `for model_raw in working_models` loop with its early return (main.py:94-107).
      `replies[j]` is what the j-th backend answers if it is contacted. */
  method GetAiAnalysis(models: seq<string>, text: string, askForDate: bool, replies: seq<Reply>)
    returns (analysis: string, sent: seq<Request>)
    requires |replies| == |models|
    ensures analysis == Analysis(replies)
    ensures |sent| == Contacted(replies)
    ensures forall j :: 0 <= j < |sent| ==> sent[j] == Request(CleanModelName(models[j]), Excerpt(text), askForDate)
  {
    var excerpt := Excerpt(text);
    sent := [];
    for k := 0 to |models|
      invariant |sent| == k
      invariant forall j :: 0 <= j < k ==> sent[j] == Request(CleanModelName(models[j]), excerpt, askForDate)
      invariant forall j :: 0 <= j < k ==> !Succeeds(replies[j])
    {
      sent := sent + [Request(CleanModelName(models[k]), excerpt, askForDate)];
      match replies[k]
      case Raised =>
      case Http(status, candidates) =>
        if status == 200 {
          if |candidates| > 0 && candidates[0].Some? {
            FirstIndexIsUnique(replies, Succeeds, k);
            analysis := StripFences(candidates[0].value);
            return;
          }
        } else if status == 429 {
          // the source pauses half a second here; the pause has no other effect
        }
    }
    analysis := Apology;
  }

  /** When the first k backends fail and the next succeeds, its reply is the analysis
      and no later backend is contacted. */
  lemma AnalysisFirstSuccess(replies: seq<Reply>, k: nat)
    requires k < |replies| && Succeeds(replies[k])
    requires forall j :: 0 <= j < k ==> !Succeeds(replies[j])
    ensures Analysis(replies) == StripFences(ReplyText(replies[k]))
    ensures Contacted(replies) == k + 1
  {
    FirstIndexIsUnique(replies, Succeeds, k);
  }

  /** When every backend fails, the analysis is exactly the apology and all were contacted. */
  lemma AnalysisAllFail(replies: seq<Reply>)
    requires forall j :: 0 <= j < |replies| ==> !Succeeds(replies[j])
    ensures Analysis(replies) == Apology
    ensures Contacted(replies) == |replies|
  {
  }

  /** The analysis never holds a fence: a successful reply is stripped, and the apology has none. */
  lemma AnalysisHasNoFence(replies: seq<Reply>)
    ensures !Contains(Analysis(replies), Fence)
  {
    if FirstIndex(replies, Succeeds).None? {
      if Contains(Apology, Fence) {
        ContainsFirstChar(Apology, Fence);
        assert false;
      }
    }
  }

  /** A 429 reply is a failure like any other: it never ends the fallback. */
  lemma RateLimitIsFailure(replies: seq<Reply>, k: nat)
    requires k < |replies| && replies[k].Http? && replies[k].status == 429
    ensures !Succeeds(replies[k])
    ensures FirstIndex(replies, Succeeds) != Some(k)
  {
  }
}
