/**
 * The page: a state machine over the current view and the match list. Each
 * view mounts one component, and only that component's callbacks can fire.
 */
module Index {
  import opened Wrappers
  import opened Sequences
  import opened SecretSanta
  import SantaForm
  import Email

  /** The views "input", "results", "email" and "sent". */
  datatype AppState = Input | Results | Emails | Sent

  /** A user action reaching the page through a mounted component's callback. */
  datatype Event =
    | GenerateClicked(names: string)                  // the participant form's button, with the textarea's text
    | ExportClicked                                   // "Download PDF" in the results view
    | EmailFormClicked                                // "Send Emails" in the results view
    | ResetClicked                                    // "Start over", in the results and the sent views
    | BackClicked                                     // "Back" in the email form
    | SubmitClicked(emails: map<string, string>)      // the email form's button, with the addresses typed

  /** Which callbacks the view for `state` mounts. */
  predicate Offered(state: AppState, ev: Event)
  {
    match ev
    case GenerateClicked(_) => state == Input
    case ExportClicked => state == Results
    case EmailFormClicked => state == Results
    case ResetClicked => state == Results || state == Sent
    case BackClicked => state == Emails
    case SubmitClicked(_) => state == Emails
  }

  class IndexPage {
    var appState: AppState
    var matches: seq<Match>

    /**
     * The input view holds no matches; every other view holds a valid
     * Secret Santa draw, without addresses until they are sent, and with a
     * valid address for every giver once they are.
     */
    ghost predicate Valid()
      reads this
    {
      && (appState == Input ==> matches == [])
      && (appState != Input ==> IsSecretSanta(matches))
      && (appState == Results || appState == Emails ==> forall i :: 0 <= i < |matches| ==> matches[i].email == None)
      && (appState == Sent ==> forall i :: 0 <= i < |matches| ==>
            matches[i].email.Some? && Email.ValidateEmail(matches[i].email.value))
    }

    constructor ()
      ensures appState == Input && matches == []
      ensures Valid()
    {
      appState, matches := Input, [];
    }

    /**
     * `handleGenerate`: on success store the matcher's result and show it;
     * when the matcher throws, nothing changes (only a notification is shown).
     */
    method HandleGenerate(participants: seq<string>) returns (outcome: Result<seq<Match>>)
      modifies this
      ensures outcome.Err? <==> |participants| < 2
      ensures outcome.Ok? ==> appState == Results && matches == outcome.value && PairsEveryone(participants, matches)
      ensures outcome.Ok? ==> forall i :: 0 <= i < |matches| ==> matches[i].email == None
      ensures outcome.Ok? && Distinct(participants) ==> NoSelfMatch(matches)
      ensures outcome.Err? ==> appState == old(appState) && matches == old(matches)
    {
      ghost var tries, fallback;
      outcome, tries, fallback := GenerateMatches(participants);
      if outcome.Ok? {
        matches := outcome.value;
        appState := Results;
      }
    }

    /** `handleExportPDF`: the matches are handed to the PDF export; the page state is untouched. */
    method HandleExportPDF() returns (exported: seq<Match>)
      ensures exported == matches
    {
      exported := matches;
    }

    /** `onShowEmailForm`: switch to the email view. */
    method ShowEmailForm()
      modifies this`appState
      ensures appState == Emails && matches == old(matches)
    {
      appState := Emails;
    }

    /** The email form's `onBack`: return to the results view. */
    method Back()
      modifies this`appState
      ensures appState == Results && matches == old(matches)
    {
      appState := Results;
    }

    /** `handleSendEmails`: store the annotated matches, then (after the delay) show the sent view. */
    method HandleSendEmails(matchesWithEmails: seq<Match>)
      modifies this
      ensures matches == matchesWithEmails && appState == Sent
    {
      matches := matchesWithEmails;
      appState := Sent;
    }

    /** `handleReset`: drop the matches and return to the input view. */
    method HandleReset()
      modifies this
      ensures matches == [] && appState == Input
    {
      matches := [];
      appState := Input;
    }

    /**
     * One user action: the view for the current state runs the callback it
     * mounts, after the mounted form's own validation; an action the current
     * view does not offer changes nothing.
     */
    method Dispatch(ev: Event)
      requires Valid()
      modifies this
      ensures Valid()
      ensures !Offered(old(appState), ev) ==> appState == old(appState) && matches == old(matches)
      ensures Offered(old(appState), ev) && ev.GenerateClicked? ==>
                match SantaForm.Validate(ev.names)
                case Ok(participants) => appState == Results && Givers(matches) == participants
                case Err(_) => appState == old(appState) && matches == old(matches)
      ensures Offered(old(appState), ev) && ev.SubmitClicked? ==>
                if Email.SubmitErrors(old(matches), ev.emails) == map[]
                then appState == Sent && matches == Email.WithEmails(old(matches), ev.emails)
                else appState == old(appState) && matches == old(matches)
      ensures Offered(old(appState), ev) && ev.ExportClicked? ==> appState == Results && matches == old(matches)
      ensures Offered(old(appState), ev) && ev.EmailFormClicked? ==> appState == Emails && matches == old(matches)
      ensures Offered(old(appState), ev) && ev.BackClicked? ==> appState == Results && matches == old(matches)
      ensures Offered(old(appState), ev) && ev.ResetClicked? ==> appState == Input && matches == []
    {
      if !Offered(appState, ev) {
        return;
      }
      match ev
      case GenerateClicked(names) =>
        SantaForm.ValidateSpec(names);
        var validated := SantaForm.Validate(names);
        if validated.Ok? {
          var _ := HandleGenerate(validated.value);
        }
      case ExportClicked =>
        var _ := HandleExportPDF();
      case EmailFormClicked =>
        ShowEmailForm();
      case ResetClicked =>
        HandleReset();
      case BackClicked =>
        Back();
      case SubmitClicked(emails) =>
        if Email.SubmitErrors(matches, emails) == map[] {
          Email.NoErrorsMeansValidEmails(matches, emails);
          HandleSendEmails(Email.WithEmails(matches, emails));
        }
    }
  }
}
