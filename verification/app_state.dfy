/** The page's state and the transitions of `App` (src/App.tsx:399-466):
    typing into the two inputs, choosing a filter tab, submitting, the
    check's success or failure, and resetting. The check itself and the
    vehicle lookup are outside; their outcomes arrive as actions. */
module AppState {
  import opened Wrappers
  import opened Text
  import opened Model
  import opened Views
  import opened ApiErrors

  /** The `useState` hooks of `App` that the logic reads or writes. */
  datatype UiState = UiState(
    idNum: string,
    carNum: string,
    loading: bool,
    pct: int,
    response: Option<CheckResponse>,
    vehicleInfo: Option<VehicleInfo>,
    apiError: string,
    filter: FilterKey)

  /** The initial values of the hooks (src/App.tsx:400-408). */
  const Initial := UiState("", "", false, 0, None, None, "", AllResults)

  /** What a failed `checkFines` call rejects with: an `Error` carrying a
      message, or some other thrown value. */
  datatype Thrown = ErrorValue(message: string) | OtherValue

  /** "unknown error" in the page's language. */
  const UnknownErrorText := "שגיאה לא ידועה"

  /** The submit guard (src/App.tsx:436): both trimmed inputs non-empty. */
  predicate CanSubmit(s: UiState)
    ensures CanSubmit(s) ==> s.idNum != "" && s.carNum != ""
    ensures s.idNum != "" && s.carNum != "" && NoWhitespace(s.idNum) && NoWhitespace(s.carNum) ==> CanSubmit(s)
  {
    Trim(s.idNum) != "" && Trim(s.carNum) != ""
  }

  /** The submit button's `disabled` (src/App.tsx:546). */
  predicate SubmitDisabled(s: UiState)
    ensures SubmitDisabled(s) <==> s.loading || !CanSubmit(s)
  {
    s.loading || Trim(s.idNum) == "" || Trim(s.carNum) == ""
  }

  /** `handleSubmit` up to the request (src/App.tsx:434-442, including the
      `setPct(0)` of `startProgress`): nothing happens unless both inputs
      are filled in; otherwise the page starts loading with the previous
      error, response, vehicle details and filter cleared. The inputs are
      never changed. */
  function Submit(s: UiState): (s': UiState)
    ensures !CanSubmit(s) ==> s' == s
    ensures CanSubmit(s) ==> (s'.loading && s'.apiError == "" && s'.response.None?
                              && s'.vehicleInfo.None? && s'.filter == AllResults && s'.pct == 0)
    ensures s'.idNum == s.idNum && s'.carNum == s.carNum
  {
    if !CanSubmit(s) then s
    else s.(loading := true, apiError := "", response := None, vehicleInfo := None, filter := AllResults, pct := 0)
  }

  /** The check succeeded (src/App.tsx:450-452): the progress bar is full,
      the response is shown and loading ends. The 400 ms delay before the
      response appears is collapsed into this one step. */
  function Succeed(s: UiState, data: CheckResponse): (s': UiState)
    ensures s'.response == Some(data) && !s'.loading && s'.pct == 100
    ensures s'.apiError == s.apiError && s'.filter == s.filter
    ensures s'.idNum == s.idNum && s'.carNum == s.carNum && s'.vehicleInfo == s.vehicleInfo
  {
    s.(pct := 100, response := Some(data), loading := false)
  }

  /** The message shown for a failure: an `Error`'s message, else the
      unknown-error text. */
  function FailureMessage(e: Thrown): string {
    match e
    case ErrorValue(m) => m
    case OtherValue => UnknownErrorText
  }

  /** The check failed (src/App.tsx:453-457). */
  function Fail(s: UiState, e: Thrown): (s': UiState)
    ensures e.ErrorValue? ==> s'.apiError == e.message
    ensures e.OtherValue? ==> s'.apiError == UnknownErrorText
    ensures !s'.loading && s'.pct == 0
    ensures s'.response == s.response && s'.filter == s.filter
    ensures s'.idNum == s.idNum && s'.carNum == s.carNum && s'.vehicleInfo == s.vehicleInfo
  {
    s.(apiError := FailureMessage(e), loading := false, pct := 0)
  }

  /** `handleReset` (src/App.tsx:461-464): everything but `loading` goes
      back to its initial value. */
  function Reset(s: UiState): (s': UiState)
    ensures s' == Initial.(loading := s.loading)
  {
    s.(response := None, vehicleInfo := None, idNum := "", carNum := "", pct := 0, filter := AllResults, apiError := "")
  }

  /** Everything that can happen to the page. */
  datatype Action =
    | TypeIdNumber(raw: string)
    | TypeCarNumber(raw: string)
    | ChooseFilter(f: FilterKey)
    | SubmitForm
    | VehicleArrived(v: VehicleInfo)
    | CheckSucceeded(data: CheckResponse)
    | CheckFailed(e: Thrown)
    | ResetForm

  /** One event of the page (src/App.tsx:380, 445, 528, 533, 601 and the
      handlers above). Typing changes only its own input, and only to
      digits; the filter tab changes only the filter; the vehicle lookup
      changes only the vehicle details. Only submit, success and failure
      move `loading`, and only submit, success and reset touch the
      response. */
  function Apply(s: UiState, a: Action): (s': UiState)
    ensures a.TypeIdNumber? ==> AllDigits(s'.idNum) && s'.(idNum := s.idNum) == s
    ensures a.TypeCarNumber? ==> AllDigits(s'.carNum) && s'.(carNum := s.carNum) == s
    ensures a.ChooseFilter? ==> s'.filter == a.f && s'.(filter := s.filter) == s
    ensures a.VehicleArrived? ==> s'.vehicleInfo == Some(a.v) && s'.(vehicleInfo := s.vehicleInfo) == s
    ensures s'.loading != s.loading ==> a.SubmitForm? || a.CheckSucceeded? || a.CheckFailed?
    ensures s'.response != s.response ==> a.SubmitForm? || a.CheckSucceeded? || a.ResetForm?
    ensures s'.idNum != s.idNum || s'.carNum != s.carNum ==> a.TypeIdNumber? || a.TypeCarNumber? || a.ResetForm?
  {
    match a
    case TypeIdNumber(raw) => s.(idNum := Sanitize(raw))
    case TypeCarNumber(raw) => s.(carNum := Sanitize(raw))
    case ChooseFilter(f) => s.(filter := f)
    case SubmitForm => Submit(s)
    case VehicleArrived(v) => s.(vehicleInfo := Some(v))
    case CheckSucceeded(data) => Succeed(s, data)
    case CheckFailed(e) => Fail(s, e)
    case ResetForm => Reset(s)
  }

  /** The state after a run of actions from the initial state. */
  function Replay(actions: seq<Action>): UiState
    decreases |actions|
  {
    if |actions| == 0 then Initial
    else Apply(Replay(actions[..|actions| - 1]), actions[|actions| - 1])
  }

  /** What holds of every state the page can reach: the inputs hold digits
      only, the progress is a percentage, and while loading there is neither
      an error nor a response on screen. */
  predicate Valid(s: UiState) {
    && AllDigits(s.idNum)
    && AllDigits(s.carNum)
    && 0 <= s.pct <= 100
    && (s.loading ==> s.apiError == "" && s.response.None?)
  }

  lemma ApplyPreservesValid(s: UiState, a: Action)
    requires Valid(s)
    ensures Valid(Apply(s, a))
  {
  }

  lemma {:induction false} ReachableStatesValid(actions: seq<Action>)
    ensures Valid(Replay(actions))
    decreases |actions|
  {
    if |actions| > 0 {
      ReachableStatesValid(actions[..|actions| - 1]);
      ApplyPreservesValid(Replay(actions[..|actions| - 1]), actions[|actions| - 1]);
    }
  }

  lemma DigitsHaveNoWhitespace(s: string)
    requires AllDigits(s)
    ensures NoWhitespace(s)
  {
  }

  /** On the inputs the page can hold, trimming changes nothing: the guard
      only asks that both be non-empty. */
  lemma GuardOnDigitInputs(s: UiState)
    requires Valid(s)
    ensures CanSubmit(s) <==> s.idNum != "" && s.carNum != ""
  {
    DigitsHaveNoWhitespace(s.idNum);
    DigitsHaveNoWhitespace(s.carNum);
  }

  /** The button is disabled exactly when pressing it would change nothing,
      whenever the page is not already loading. */
  lemma DisabledIffSubmitIgnored(s: UiState)
    requires !s.loading
    ensures SubmitDisabled(s) <==> Submit(s) == s
  {
  }

  /** A fresh, successful check lists every result it returned: the filter
      was reset to 'all' on submit. */
  lemma FreshResultsShowAll(s: UiState, data: CheckResponse)
    requires CanSubmit(s)
    ensures Filtered(Succeed(Submit(s), data).response, Succeed(Submit(s), data).filter) == data.results
  {
    KeepAll(data.results);
  }

  /** While a check is in flight the list under the tabs is empty. */
  lemma NothingListedWhileLoading(s: UiState)
    requires Valid(s) && s.loading
    ensures Filtered(s.response, s.filter) == []
  {
  }

  /** Resetting twice is resetting once, and a reset page shows the form
      with empty inputs that cannot be submitted. */
  lemma ResetSettles(s: UiState)
    ensures Reset(Reset(s)) == Reset(s)
    ensures Reset(s).response.None? && !CanSubmit(Reset(s))
  {
  }

  /** Whether the error box is rendered: `{apiError && ...}`. */
  predicate ErrorShown(s: UiState) {
    s.apiError != ""
  }

  /** A rejected request surfaces the server's `detail` verbatim, or the
      server-error text with the status; an empty `detail` is kept as it is,
      so no error box appears at all. */
  lemma RejectedRequestMessage(s: UiState, body: ErrorBody, status: nat)
    ensures Detail(body).Some? ==> Fail(s, ErrorValue(ErrorMessage(body, status))).apiError == Detail(body).value
    ensures Detail(body).None? ==> FallbackStatus(Fail(s, ErrorValue(ErrorMessage(body, status))).apiError) == Some(status)
    ensures ErrorShown(Fail(s, ErrorValue(ErrorMessage(body, status)))) <==> Detail(body) != Some("")
  {
    if Detail(body).None? {
      assert |ErrorMessage(body, status)| > 0;
    }
  }
}
