/** The three-stage page of `src/app/love/page.tsx`. Each handler is a step on the page state;
    no step ever enters the contacts stage, so the masked contact list is never shown. */
module Love {
  import opened Text

  datatype Stage = Quotes | Question | Contacts

  datatype PageState = PageState(stage: Stage, answer: string, error: string)

  const SubmitMessage := "验证功能待开发..."

  /** What the user can do on the page. */
  datatype Event = Light | Submit | Back | EditAnswer(value: string)

  function Initial(): PageState {
    PageState(Quotes, [], [])
  }

  /** One handler: `handleLight`, `handleSubmit`, `handleBack`, or the answer box's `onChange`. */
  function Step(s: PageState, e: Event): (t: PageState)
    ensures e == Light ==> t == s.(stage := Question)
    ensures e == Submit ==> t.stage == s.stage && t.answer == s.answer && t.error == SubmitMessage
    ensures e == Back ==> t == Initial()
    ensures e.EditAnswer? ==> t.stage == s.stage && t.answer == e.value && t.error == []
  {
    match e
    case Light => s.(stage := Question)
    case Submit => s.(error := SubmitMessage)
    case Back => PageState(Quotes, [], [])
    case EditAnswer(value) => s.(answer := value, error := [])
  }

  /** The state after a sequence of events. */
  function Run(s: PageState, events: seq<Event>): PageState
    decreases |events|
  {
    if events == [] then s else Run(Step(s, events[0]), events[1..])
  }

  /** From the initial state, no sequence of events reaches the contacts stage. */
  lemma {:induction false} ContactsUnreachable(s: PageState, events: seq<Event>)
    requires s.stage != Contacts
    ensures Run(s, events).stage != Contacts
    decreases |events|
  {
    if events != [] {
      ContactsUnreachable(Step(s, events[0]), events[1..]);
    }
  }

  /** `disabled={!answer.trim()}`: the submit button is enabled exactly when the answer has
      non-whitespace content. */
  predicate SubmitEnabled(s: PageState): (enabled: bool)
    ensures enabled <==> !AllWhitespace(s.answer)
  {
    Trim(s.answer) != []
  }

  /** The page's state fields, updated by its handlers. */
  class LovePage {
    var stage: Stage
    var answer: string
    var error: string

    function State(): PageState
      reads this
    {
      PageState(stage, answer, error)
    }

    constructor()
      ensures State() == Initial()
    {
      stage := Quotes;
      answer := [];
      error := [];
    }

    method HandleLight()
      modifies this
      ensures State() == Step(old(State()), Light)
    {
      stage := Question;
    }

    method HandleSubmit()
      modifies this
      ensures State() == Step(old(State()), Submit)
    {
      error := SubmitMessage;
    }

    method HandleBack()
      modifies this
      ensures State() == Step(old(State()), Back)
    {
      stage := Quotes;
      answer := [];
      error := [];
    }

    method OnAnswerChange(value: string)
      modifies this
      ensures State() == Step(old(State()), EditAnswer(value))
    {
      answer := value;
      error := [];
    }
  }
}
