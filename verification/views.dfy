/** The pure decisions behind the page's components (src/App.tsx): the
    status filter, the vehicle carousel's page clamp, the digits-only input
    sanitiser, the status badge's label and the expandable result card. */
module Views {
  import opened Wrappers
  import opened Text
  import opened Model

  // ---------------------------------------------------------------------
  // Status filter (src/App.tsx:311, 466)

  datatype FilterKey = AllResults | FineResults | CleanResults | FailedResults

  /** The string value of a filter key. */
  function KeyName(f: FilterKey): string {
    match f
    case AllResults => "all"
    case FineResults => StatusFine
    case CleanResults => StatusClean
    case FailedResults => StatusFailed
  }

  /** `filter === 'all' || r.status === filter` */
  predicate Admits(f: FilterKey, r: MunicipalityResult) {
    KeyName(f) == "all" || r.status == KeyName(f)
  }

  /** `results.filter(...)`: the admitted results, in their original order. */
  function Keep(results: seq<MunicipalityResult>, f: FilterKey): (kept: seq<MunicipalityResult>)
    ensures forall r :: r in kept <==> r in results && Admits(f, r)
    ensures |kept| <= |results|
    decreases |results|
  {
    if |results| == 0 then []
    else (if Admits(f, results[0]) then [results[0]] else []) + Keep(results[1..], f)
  }

  /** The list shown under the tabs: nothing without a response. */
  function Filtered(response: Option<CheckResponse>, f: FilterKey): (shown: seq<MunicipalityResult>)
    ensures response.None? ==> shown == []
    ensures response.Some? ==> forall r :: r in shown <==> r in response.value.results && Admits(f, r)
  {
    match response
    case None => []
    case Some(resp) => Keep(resp.results, f)
  }

  /** Filtering keeps relative order: it distributes over concatenation. */
  lemma {:induction false} KeepAppend(a: seq<MunicipalityResult>, b: seq<MunicipalityResult>, f: FilterKey)
    ensures Keep(a + b, f) == Keep(a, f) + Keep(b, f)
    decreases |a|
  {
    if |a| == 0 {
      assert a + b == b;
    } else {
      assert (a + b)[1..] == a[1..] + b;
      KeepAppend(a[1..], b, f);
    }
  }

  /** The 'all' tab shows every result, unchanged and in order. */
  lemma {:induction false} KeepAll(results: seq<MunicipalityResult>)
    ensures Keep(results, AllResults) == results
    decreases |results|
  {
    if |results| > 0 {
      KeepAll(results[1..]);
    }
  }

  /** Any other tab shows exactly the results whose status is its key: when
      every result has that status the list is unchanged, when none has it
      the list is empty. */
  lemma {:induction false} KeepStatus(results: seq<MunicipalityResult>, f: FilterKey)
    requires f != AllResults
    ensures (forall i :: 0 <= i < |results| ==> results[i].status == KeyName(f)) ==> Keep(results, f) == results
    ensures (forall i :: 0 <= i < |results| ==> results[i].status != KeyName(f)) ==> Keep(results, f) == []
  {
    if forall i :: 0 <= i < |results| ==> results[i].status == KeyName(f) {
      KeepAllMatching(results, f);
    }
    if forall i :: 0 <= i < |results| ==> results[i].status != KeyName(f) {
      KeepNoneMatching(results, f);
    }
  }

  lemma {:induction false} KeepAllMatching(results: seq<MunicipalityResult>, f: FilterKey)
    requires f != AllResults
    requires forall i :: 0 <= i < |results| ==> results[i].status == KeyName(f)
    ensures Keep(results, f) == results
    decreases |results|
  {
    if |results| > 0 {
      KeepAllMatching(results[1..], f);
    }
  }

  lemma {:induction false} KeepNoneMatching(results: seq<MunicipalityResult>, f: FilterKey)
    requires f != AllResults
    requires forall i :: 0 <= i < |results| ==> results[i].status != KeyName(f)
    ensures Keep(results, f) == []
    decreases |results|
  {
    if |results| > 0 {
      KeepNoneMatching(results[1..], f);
    }
  }

  /** Filtering twice by the same key changes nothing. */
  lemma {:induction false} KeepIdempotent(results: seq<MunicipalityResult>, f: FilterKey)
    ensures Keep(Keep(results, f), f) == Keep(results, f)
    decreases |results|
  {
    if |results| > 0 {
      KeepIdempotent(results[1..], f);
      var head := if Admits(f, results[0]) then [results[0]] else [];
      KeepAppend(head, Keep(results[1..], f), f);
    }
  }

  /** When every status is one of the three documented ones, the three
      status tabs together list every result exactly once. */
  lemma {:induction false} StatusTabsPartition(results: seq<MunicipalityResult>)
    requires forall i :: 0 <= i < |results| ==> results[i].status in {StatusClean, StatusFine, StatusFailed}
    ensures |Keep(results, FineResults)| + |Keep(results, CleanResults)| + |Keep(results, FailedResults)| == |results|
    decreases |results|
  {
    if |results| > 0 {
      StatusTabsPartition(results[1..]);
    }
  }

  // ---------------------------------------------------------------------
  // Vehicle carousel page (src/App.tsx:183-187)

  const TotalPages := 3

  /** `goTo(p)`: `Math.max(0, Math.min(p, totalPages - 1))`. The page lands
      in range; an in-range request is kept, one below goes to the first
      page and one above to the last. */
  function GoTo(p: int): (next: int)
    ensures 0 <= next < TotalPages
    ensures 0 <= p < TotalPages ==> next == p
    ensures p < 0 ==> next == 0
    ensures p >= TotalPages ==> next == TotalPages - 1
  {
    var upper := if p < TotalPages - 1 then p else TotalPages - 1;
    if 0 < upper then upper else 0
  }

  /** The arrow buttons (`goTo(page + 1)`, `goTo(page - 1)`) stop at the
      ends instead of wrapping around. */
  lemma ArrowsStopAtEnds(page: int)
    requires 0 <= page < TotalPages
    ensures GoTo(page + 1) == if page == TotalPages - 1 then page else page + 1
    ensures GoTo(page - 1) == if page == 0 then 0 else page - 1
  {
  }

  // ---------------------------------------------------------------------
  // Digits-only input (src/App.tsx:380)

  /** `value.replace(/\D/g, '')`: every non-digit character removed. Each
      digit keeps its number of occurrences, and nothing else remains. */
  function Sanitize(s: string): (r: string)
    ensures AllDigits(r)
    ensures |r| <= |s|
    ensures forall c :: multiset(r)[c] == if IsDigit(c) then multiset(s)[c] else 0
    decreases |s|
  {
    if |s| == 0 then ""
    else
      var rest := Sanitize(s[1..]);
      assert s == [s[0]] + s[1..];
      assert multiset(s) == multiset{s[0]} + multiset(s[1..]);
      if IsDigit(s[0]) then [s[0]] + rest else rest
  }

  /** The digits stay in their original order: sanitising distributes over
      concatenation. */
  lemma {:induction false} SanitizeAppend(a: string, b: string)
    ensures Sanitize(a + b) == Sanitize(a) + Sanitize(b)
    decreases |a|
  {
    if |a| == 0 {
      assert a + b == b;
    } else {
      assert (a + b)[0] == a[0];
      assert (a + b)[1..] == a[1..] + b;
      SanitizeAppend(a[1..], b);
    }
  }

  /** A string of digits is left as it is. */
  lemma {:induction false} SanitizeKeepsDigits(s: string)
    requires AllDigits(s)
    ensures Sanitize(s) == s
    decreases |s|
  {
    if |s| > 0 {
      SanitizeKeepsDigits(s[1..]);
    }
  }

  /** Sanitising is idempotent. */
  lemma SanitizeIdempotent(s: string)
    ensures Sanitize(Sanitize(s)) == Sanitize(s)
  {
    SanitizeKeepsDigits(Sanitize(s));
  }

  // ---------------------------------------------------------------------
  // Status badge (src/App.tsx:32-52)

  datatype Icon = CheckIcon | AlertIcon | CrossIcon

  datatype Badge = Badge(text: string, icon: Option<Icon>)

  const NoFinesLabel := "ללא דוחות"
  const OneFineWording := "דוח פתוח"
  const ManyFinesWording := "דוחות פתוחים"
  const UnavailableLabel := "לא זמין"

  /** `${count}`: a missing count prints as "undefined". */
  function CountText(count: Option<int>): string {
    match count
    case Some(n) => IntToString(n)
    case None => "undefined"
  }

  /** The badge of a status, with the config lookup's fallback of an empty
      label and no icon for an unrecognised status. For a fine the label is
      the count followed by the plural wording exactly when the count
      (missing counting as 0) exceeds 1. */
  function StatusBadge(status: string, count: Option<int>): (b: Badge)
    ensures status == StatusClean ==> b == Badge(NoFinesLabel, Some(CheckIcon))
    ensures status == StatusFailed ==> b == Badge(UnavailableLabel, Some(CrossIcon))
    ensures status !in {StatusClean, StatusFine, StatusFailed} ==> b == Badge("", None)
    ensures status == StatusFine ==> b.icon == Some(AlertIcon)
    ensures status == StatusFine ==> StartsWith(b.text, CountText(count) + " ")
    ensures status == StatusFine ==> (EndsWith(b.text, ManyFinesWording) <==> count.GetOr(0) > 1)
    ensures status == StatusFine ==> (EndsWith(b.text, OneFineWording) <==> count.GetOr(0) <= 1)
    ensures status == StatusFine ==>
      |b.text| == |CountText(count)| + 1 + (if count.GetOr(0) > 1 then |ManyFinesWording| else |OneFineWording|)
  {
    if status == StatusClean then Badge(NoFinesLabel, Some(CheckIcon))
    else if status == StatusFine then
      var prefix := CountText(count) + " ";
      var wording := if count.GetOr(0) > 1 then ManyFinesWording else OneFineWording;
      var shown := prefix + wording;
      assert shown[..|prefix|] == prefix;
      assert shown[|shown| - |wording|..] == wording;
      assert wording == OneFineWording ==> !EndsWith(shown, ManyFinesWording) by {
        if wording == OneFineWording && |ManyFinesWording| <= |shown| {
          assert shown[|shown| - |ManyFinesWording|..][|ManyFinesWording| - 1] == shown[|shown| - 1] == 'ח';
          assert ManyFinesWording[|ManyFinesWording| - 1] == 'ם';
        }
      }
      assert wording == ManyFinesWording ==> !EndsWith(shown, OneFineWording) by {
        if wording == ManyFinesWording && |OneFineWording| <= |shown| {
          assert shown[|shown| - |OneFineWording|..][|OneFineWording| - 1] == shown[|shown| - 1] == 'ם';
          assert OneFineWording[|OneFineWording| - 1] == 'ח';
        }
      }
      Badge(shown, Some(AlertIcon))
    else if status == StatusFailed then Badge(UnavailableLabel, Some(CrossIcon))
    else Badge("", None)
  }

  // ---------------------------------------------------------------------
  // Result card (src/App.tsx:92-126)

  /** `r.status === 'fine' && r.fines && r.fines.length > 0` */
  predicate HasFines(r: MunicipalityResult)
    ensures HasFines(r) ==> r.status == StatusFine && r.fines.Some?
    ensures r.fines.None? || r.fines == Some([]) ==> !HasFines(r)
  {
    r.status == StatusFine && r.fines.Some? && |r.fines.value| > 0
  }

  /** A click on the card's header: `hasFines && setOpen(v => !v)`. */
  function Click(open: bool, r: MunicipalityResult): (open': bool)
    ensures !HasFines(r) ==> open' == open
    ensures HasFines(r) ==> open' != open
  {
    if HasFines(r) then !open else open
  }

  /** Whether the list of fines is rendered: `open && hasFines`. */
  predicate ShowsDetails(open: bool, r: MunicipalityResult) {
    open && HasFines(r)
  }

  /** A card that is not expandable never shows details, however often it is
      clicked; an expandable one shows them after an odd number of clicks
      from closed. */
  lemma {:induction false} ClicksToggleDetails(r: MunicipalityResult, clicks: nat)
    ensures ShowsDetails(Clicks(false, r, clicks), r) <==> HasFines(r) && clicks % 2 == 1
    decreases clicks
  {
    if clicks > 0 {
      ClicksToggleDetails(r, clicks - 1);
    }
  }

  function Clicks(open: bool, r: MunicipalityResult, n: nat): bool
    decreases n
  {
    if n == 0 then open else Click(Clicks(open, r, n - 1), r)
  }

  /** An expandable card shows the alert badge with the fine count. */
  lemma ExpandableCardHasAlertBadge(r: MunicipalityResult)
    requires HasFines(r)
    ensures StatusBadge(r.status, r.count).icon == Some(AlertIcon)
    ensures StartsWith(StatusBadge(r.status, r.count).text, CountText(r.count) + " ")
  {
  }
}
