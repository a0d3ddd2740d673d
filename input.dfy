/** The paste-a-conversation form (components/conversation/conversation-input.tsx): the checks
    `handleSubmit` makes before handing the transcript to the analysis. */
module Input {
  import opened Text
  import Route
  import Extraction

  const EmptyError: String := "Please paste your conversation before analyzing"
  const ShortError: String :=
    "Conversation seems too short. Please paste a longer conversation for better topic extraction."
  const MinTrimmedLength: nat := 100

  /** What a submit leads to: an error message shown, or one call of `onAnalyze`. */
  datatype Outcome = Rejected(error: String) | Analyze(conversation: String, title: String)

  /** The title `handleSubmit` passes on: the trimmed title, or "Conversation <date>" when that
      is empty. The date's text is the parameter `today`. */
  function SubmitTitle(title: String, today: String): (t: String)
    ensures Trim(title) != [] ==> t == Trim(title)
    ensures Trim(title) == [] ==> t == "Conversation " + today
  {
    if Trim(title) != [] then Trim(title) else "Conversation " + today
  }

  /** The decision `handleSubmit` makes (lines 29-40). */
  function Decide(conversation: String, title: String, today: String): (o: Outcome)
    ensures o == Rejected(EmptyError) <==> IsBlank(conversation)
    ensures o == Rejected(ShortError) <==> !IsBlank(conversation) && |Trim(conversation)| < MinTrimmedLength
    ensures o.Analyze? <==> |Trim(conversation)| >= MinTrimmedLength
    ensures o.Analyze? ==> o.conversation == Trim(conversation) && o.title == SubmitTitle(title, today)
  {
    if IsBlank(conversation) then Rejected(EmptyError)
    else if |Trim(conversation)| < MinTrimmedLength then Rejected(ShortError)
    else Analyze(Trim(conversation), SubmitTitle(title, today))
  }

  /** The form's state: the two text fields, the error shown, and the calls made so far to
      the `onAnalyze` callback. */
  class ConversationInput {
    var conversation: String
    var title: String
    var error: String
    var analyzeCalls: seq<(String, String)>

    constructor ()
      ensures conversation == [] && title == [] && error == [] && analyzeCalls == []
    {
      conversation := [];
      title := [];
      error := [];
      analyzeCalls := [];
    }

    /** `handleSubmit` (lines 25-41): the error is cleared first; a blank or short transcript
        sets an error and calls nothing; otherwise `onAnalyze` is called exactly once, with the
        trimmed transcript and the defaulted title. */
    method HandleSubmit(today: String)
      modifies this
      ensures conversation == old(conversation) && title == old(title)
      ensures match Decide(old(conversation), old(title), today)
        case Rejected(message) => error == message && analyzeCalls == old(analyzeCalls)
        case Analyze(c, t) => error == [] && analyzeCalls == old(analyzeCalls) + [(c, t)]
    {
      error := [];
      if IsBlank(conversation) {
        error := EmptyError;
        return;
      }
      if |Trim(conversation)| < MinTrimmedLength {
        error := ShortError;
        return;
      }
      var conversationTitle := if Trim(title) != [] then Trim(title) else "Conversation " + today;
      analyzeCalls := analyzeCalls + [(Trim(conversation), conversationTitle)];
    }
  }

  /** A transcript the form accepts also passes the endpoint's checks: its trimmed length is
      at least 100, so at least 50, and the title it sends is non-empty and goes through. */
  lemma AcceptedPassesServer(conversation: String, title: String, today: String, reply: Extraction.Reply)
    requires Decide(conversation, title, today).Analyze?
    ensures var o := Decide(conversation, title, today);
      var resp := Route.HandlePost(Some(Route.RequestBody(Route.Str(o.conversation), Route.Str(o.title))), reply);
      && resp.status == 200
      && resp.body.data.conversationContent == o.conversation
      && resp.body.data.title == Route.Str(o.title)
  {
    var o := Decide(conversation, title, today);
    assert o.title != [] by {
      if Trim(title) == [] {
        assert |"Conversation " + today| >= 1;
      }
    }
  }
}
