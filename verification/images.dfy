/** The name resolution of `fetchMunicipalityImages` (src/api.ts:159-222).
    Names with a hand-picked logo take it from a fixed table; the others are
    queued, stripped of one administrative prefix and looked up in a single
    batch request; each returned page with a thumbnail is matched back to a
    queued name through its title. The request itself is a parameter: either
    it is unavailable (a non-success status, a network or JSON failure) or it
    yields the returned pages in order. */
module MunicipalityImages {
  import opened Wrappers
  import opened Text

  /** The hard-coded logo overrides (src/api.ts:161-170). */
  const Overrides: map<string, string> := map[
    "עיריית הרצליה" := "https://www.herzliya.muni.il/content/images/logo_he_if.png",
    "עיריית רמת גן" := "https://forms.ramat-gan.muni.il/content/images/wide-logo.png",
    "עיריית ערד" := "https://encrypted-tbn0.gstatic.com/images?q=tbn:ANd9GcTab2VSREY1MOVhSE1Bm9Pi0YC-EJ5vROFL9A&s",
    "מועצה אזורית גוש עציון" := "https://upload.wikimedia.org/wikipedia/he/9/91/%D7%9E%D7%95%D7%A2%D7%A6%D7%94_%D7%90%D7%96%D7%95%D7%A8%D7%99%D7%AA_%D7%92%D7%95%D7%A9_%D7%A2%D7%A6%D7%99%D7%95%D7%9F.jpg",
    "עיריית גני תקווה" := "https://www.ganeytikva.org.il/content/images/logo2020.png?v=1a",
    "מ.מ. מזכרת בתיה" := "https://mazkeret-batya.muni.il/wp-content/uploads/2024/01/Capture.png",
    "מ.א עמק יזרעאל" := "https://www.emekyizrael.org.il/content/images/logo.png",
    "עיריית שדרות" := "https://sderot.muni.gov.il/media/wablgxsq/logo.png"
  ]

  /** `if (overrides[name])`: the name has an override and its URL is not
      empty (a JavaScript truthiness test). */
  predicate IsOverridden(name: string) {
    name in Overrides && Overrides[name] != ""
  }

  /** Every override URL is non-empty, so the truthiness test is the same as
      table membership. */
  lemma OverriddenIffListed(name: string)
    ensures IsOverridden(name) <==> name in Overrides
  {
  }

  /** The first loop (src/api.ts:173-181): override entries go straight into
      the result, every other name is queued for lookup in input order. */
  function Partition(names: seq<string>): (p: (map<string, string>, seq<string>))
    ensures forall n :: n in p.0 <==> n in names && IsOverridden(n)
    ensures forall n :: n in p.0 ==> n in Overrides && p.0[n] == Overrides[n]
    ensures forall n :: n in p.1 <==> n in names && !IsOverridden(n)
    ensures |p.1| <= |names|
    decreases |names|
  {
    if |names| == 0 then (map[], [])
    else
      var (found, queue) := Partition(names[..|names| - 1]);
      var name := names[|names| - 1];
      assert names == names[..|names| - 1] + [name];
      if IsOverridden(name) then (found[name := Overrides[name]], queue)
      else (found, queue + [name])
  }

  /** The queue keeps input order: partitioning a concatenation queues the
      first part's names before the second's. */
  lemma {:induction false} PartitionQueueAppend(a: seq<string>, b: seq<string>)
    ensures Partition(a + b).1 == Partition(a).1 + Partition(b).1
    decreases |b|
  {
    if |b| == 0 {
      assert a + b == a;
    } else {
      var b' := b[..|b| - 1];
      assert (a + b)[..|a + b| - 1] == a + b';
      assert (a + b)[|a + b| - 1] == b[|b| - 1];
      PartitionQueueAppend(a, b');
    }
  }

  /** The administrative prefixes of the stripping pattern (src/api.ts:187),
      in the order the regular expression tries them; the optional dot of
      "מ.א" and "מ.מ" gives two spellings each. */
  const Prefixes: seq<string> := [
    "עיריית ", "מועצה מקומית ", "מועצה אזורית ",
    "מ.א. ", "מ.א ", "מ.מ. ", "מ.מ ", "רשות "
  ]

  /** The first prefix in `ps` that `s` starts with. */
  function FirstPrefix(s: string, ps: seq<string>): (r: Option<nat>)
    ensures r.Some? ==> r.value < |ps| && StartsWith(s, ps[r.value])
    ensures r.Some? ==> forall j :: 0 <= j < r.value ==> !StartsWith(s, ps[j])
    ensures r.None? ==> forall j :: 0 <= j < |ps| ==> !StartsWith(s, ps[j])
    decreases |ps|
  {
    if |ps| == 0 then None
    else if StartsWith(s, ps[0]) then Some(0)
    else
      match FirstPrefix(s, ps[1..])
      case None => None
      case Some(k) => Some(k + 1)
  }

  /** `stripPrefix`: a one-shot `replace` of the anchored pattern, removing
      at most one leading prefix. */
  function StripPrefix(name: string): (r: string)
    ensures |r| <= |name| && r == name[|name| - |r|..]
    ensures (forall j :: 0 <= j < |Prefixes| ==> !StartsWith(name, Prefixes[j])) ==> r == name
    ensures r != name ==> exists j :: 0 <= j < |Prefixes| && name == Prefixes[j] + r
  {
    match FirstPrefix(name, Prefixes)
    case None => name
    case Some(k) =>
      assert name == Prefixes[k] + name[|Prefixes[k]|..];
      name[|Prefixes[k]|..]
  }

  /** Any two prefixes of the table differ at some position both have. */
  lemma PrefixesDiverge(i: nat, j: nat) returns (k: nat)
    requires i < |Prefixes| && j < |Prefixes| && i != j
    ensures k < |Prefixes[i]| && k < |Prefixes[j]| && Prefixes[i][k] != Prefixes[j][k]
  {
    var p, q := Prefixes[i], Prefixes[j];
    assert |p| >= 4 && |q| >= 4;
    if p[0] != q[0] {
      k := 0;
    } else if p[1] != q[1] {
      k := 1;
    } else if p[2] != q[2] {
      k := 2;
    } else if p[3] != q[3] {
      k := 3;
    } else {
      assert {i, j} == {1, 2};
      k := 6;
    }
  }

  /** No prefix of the table starts with another one, so a name starts with
      at most one of them. */
  lemma PrefixesExclusive(s: string, i: nat, j: nat)
    requires i < |Prefixes| && j < |Prefixes| && i != j
    requires StartsWith(s, Prefixes[i])
    ensures !StartsWith(s, Prefixes[j])
  {
    var p, q := Prefixes[i], Prefixes[j];
    var k := PrefixesDiverge(i, j);
    assert s[k] == s[..|p|][k] == p[k];
    if |q| <= |s| {
      assert s[..|q|][k] == s[k] != q[k];
    }
  }

  /** Exactly one prefix is removed, even when what follows it starts with
      another prefix. */
  lemma StripOnePrefix(i: nat, rest: string)
    requires i < |Prefixes|
    ensures StripPrefix(Prefixes[i] + rest) == rest
  {
    var s := Prefixes[i] + rest;
    assert s[..|Prefixes[i]|] == Prefixes[i];
    var k := FirstPrefix(s, Prefixes);
    assert k.Some?;
    if k.value != i {
      PrefixesExclusive(s, i, k.value);
    }
    assert s[|Prefixes[i]|..] == rest;
  }

  /** The distinct names of a queue in order of first appearance: the key
      order of the `nameToSearch` object built from it (src/api.ts:189-192).
      Each queued name appears exactly once. */
  function Distinct(queue: seq<string>): (r: seq<string>)
    ensures forall n :: n in r <==> n in queue
    ensures forall i, j :: 0 <= i < j < |r| ==> r[i] != r[j]
    decreases |queue|
  {
    if |queue| == 0 then []
    else
      var d := Distinct(queue[..|queue| - 1]);
      var n := queue[|queue| - 1];
      assert queue == queue[..|queue| - 1] + [n];
      if n in d then d else d + [n]
  }

  /** The position of the first occurrence of a name in a queue. */
  function FirstIndex(queue: seq<string>, n: string): (k: nat)
    requires n in queue
    ensures k < |queue| && queue[k] == n
    ensures forall j :: 0 <= j < k ==> queue[j] != n
    decreases |queue|
  {
    if queue[0] == n then 0 else 1 + FirstIndex(queue[1..], n)
  }

  /** Appending a name leaves the first occurrence of every earlier name
      where it was. */
  lemma FirstIndexAppend(queue: seq<string>, x: string, n: string)
    requires n in queue
    ensures FirstIndex(queue + [x], n) == FirstIndex(queue, n)
  {
    var k := FirstIndex(queue, n);
    var q := queue + [x];
    assert q[k] == n;
    var k' := FirstIndex(q, n);
    assert k' <= k;
    assert queue[k'] == q[k'];
  }

  /** A name is added at the end the first time it is queued and never
      again afterwards. */
  lemma DistinctAppend(queue: seq<string>, n: string)
    ensures Distinct(queue + [n]) == if n in queue then Distinct(queue) else Distinct(queue) + [n]
  {
    assert (queue + [n])[..|queue|] == queue;
  }

  /** The distinct names are in order of first appearance in the queue. */
  lemma {:induction false} DistinctInFirstAppearanceOrder(queue: seq<string>, i: nat, j: nat)
    requires i < j < |Distinct(queue)|
    ensures FirstIndex(queue, Distinct(queue)[i]) < FirstIndex(queue, Distinct(queue)[j])
    decreases |queue|
  {
    var front := queue[..|queue| - 1];
    var n := queue[|queue| - 1];
    assert queue == front + [n];
    DistinctAppend(front, n);
    var d := Distinct(front);
    var a, b := Distinct(queue)[i], Distinct(queue)[j];
    FirstIndexAppend(front, n, a);
    if j < |d| {
      FirstIndexAppend(front, n, b);
      DistinctInFirstAppearanceOrder(front, i, j);
    } else {
      assert b == n && n !in front;
      assert FirstIndex(queue, a) < |front|;
      assert queue[|front|] == n;
      assert FirstIndex(queue, b) == |front|;
    }
  }

  /** `searchToName` (src/api.ts:205-208), for the search terms `search`
      gives: each name is stored under its term, a later name overwriting an
      earlier one with the same term. Every value is one of the names and is
      found under its own term. */
  function ReverseIndex(entries: seq<string>, search: string -> string): (index: map<string, string>)
    ensures forall t :: t in index ==> index[t] in entries && search(index[t]) == t
    ensures forall n :: n in entries ==> search(n) in index
    decreases |entries|
  {
    if |entries| == 0 then map[]
    else
      var front := entries[..|entries| - 1];
      var n := entries[|entries| - 1];
      assert entries == front + [n];
      ReverseIndex(front, search)[search(n) := n]
  }

  /** The later of two names sharing a search term is the one the index
      keeps. */
  lemma {:induction false} LaterNameWins(entries: seq<string>, search: string -> string, i: nat)
    requires i < |entries|
    requires forall j :: i < j < |entries| ==> search(entries[j]) != search(entries[i])
    ensures ReverseIndex(entries, search)[search(entries[i])] == entries[i]
    decreases |entries|
  {
    if i < |entries| - 1 {
      var front := entries[..|entries| - 1];
      assert front[i] == entries[i];
      LaterNameWins(front, search, i);
    }
  }

  /** Of two distinct entries sharing a search term, the earlier is not a
      value of the index: it is overwritten by the later. */
  lemma {:induction false} EarlierNameShadowed(entries: seq<string>, search: string -> string, i: nat, j: nat)
    requires i < j < |entries|
    requires entries[i] != entries[j] && search(entries[i]) == search(entries[j])
    requires forall k :: j < k < |entries| ==> entries[k] != entries[i]
    ensures entries[i] !in ReverseIndex(entries, search).Values
    decreases |entries|
  {
    var front := entries[..|entries| - 1];
    var x := entries[|entries| - 1];
    var m := entries[i];
    assert entries == front + [x];
    var before := ReverseIndex(front, search);
    assert ReverseIndex(entries, search) == before[search(x) := x];
    if j < |entries| - 1 {
      assert front[i] == m && front[j] == entries[j];
      EarlierNameShadowed(front, search, i, j);
      assert x != m;
    } else {
      forall t | t in before && t != search(x) ensures before[t] != m {
        assert search(before[t]) == t;
      }
    }
  }

  /** A page of the lookup response: its title and its thumbnail's source,
      each possibly missing. */
  datatype Page = Page(title: Option<string>, thumbnail: Option<string>)

  /** The outcome of the batch request: unavailable (a non-success status,
      a network failure or an unreadable body) or the returned pages. */
  datatype Lookup = Unavailable | Pages(pages: seq<Page>)

  /** What one page contributes (src/api.ts:211-216): when its thumbnail
      source is non-empty and its title (or "" when missing) names a non-empty
      entry of the reverse index, that name and the source. */
  function Assignment(index: map<string, string>, page: Page): (a: Option<(string, string)>)
    ensures a.Some? ==> page.thumbnail == Some(a.value.1) && a.value.1 != ""
    ensures a.Some? ==> page.title.GetOr("") in index && index[page.title.GetOr("")] == a.value.0
    ensures a.Some? ==> a.value.0 != ""
  {
    match page.thumbnail
    case Some(src) =>
      var title := page.title.GetOr("");
      if src != "" && title in index && index[title] != "" then Some((index[title], src)) else None
    case None => None
  }

  ghost predicate FromSomePage(index: map<string, string>, pages: seq<Page>, name: string, url: string) {
    exists i :: 0 <= i < |pages| && Assignment(index, pages[i]) == Some((name, url))
  }

  /** The page loop: every page's assignment in order, later ones winning.
      Names outside the index's values keep their entries, and every changed
      entry comes from a page. */
  function MatchPages(result: map<string, string>, index: map<string, string>, pages: seq<Page>): (r: map<string, string>)
    ensures forall n :: n in r ==> n in result || n in index.Values
    ensures forall n :: n in result && n !in index.Values ==> n in r && r[n] == result[n]
    ensures forall n :: n in r ==> (n in result && r[n] == result[n]) || FromSomePage(index, pages, n, r[n])
    decreases |pages|
  {
    if |pages| == 0 then result
    else
      var before := MatchPages(result, index, pages[..|pages| - 1]);
      var last := pages[|pages| - 1];
      assert forall n, url :: FromSomePage(index, pages[..|pages| - 1], n, url) ==> FromSomePage(index, pages, n, url) by {
        forall n, url | FromSomePage(index, pages[..|pages| - 1], n, url)
          ensures FromSomePage(index, pages, n, url)
        {
          var i :| 0 <= i < |pages| - 1 && Assignment(index, pages[..|pages| - 1][i]) == Some((n, url));
          assert pages[..|pages| - 1][i] == pages[i];
        }
      }
      match Assignment(index, last)
      case None => before
      case Some((name, url)) =>
        assert index[last.title.GetOr("")] == name;
        assert FromSomePage(index, pages, name, url);
        before[name := url]
  }

  /** `fetchMunicipalityImages`: overrides first; with nothing queued the
      lookup is not made; otherwise the returned pages are matched back to
      the queued names. */
  function FetchImages(names: seq<string>, lookup: Lookup): (r: map<string, string>)
    ensures forall n :: n in names && IsOverridden(n) ==> n in r && r[n] == Overrides[n]
    ensures forall n :: n in r ==> n in names
    ensures forall n :: n in r && !IsOverridden(n) ==>
      lookup.Pages? && FromSomePage(ReverseIndex(Distinct(Partition(names).1), StripPrefix), lookup.pages, n, r[n])
  {
    var (found, queue) := Partition(names);
    if |queue| == 0 then found
    else
      match lookup
      case Unavailable => found
      case Pages(pages) =>
        var index := ReverseIndex(Distinct(queue), StripPrefix);
        assert forall n :: n in index.Values ==> n in queue && !IsOverridden(n) by {
          forall n | n in index.Values ensures n in queue && !IsOverridden(n) {
            var t :| t in index && index[t] == n;
          }
        }
        MatchPages(found, index, pages)
  }

  /** The overrides alone: what the result is when nothing needs looking up
      or the lookup is unavailable. */
  function OverridesFor(names: seq<string>): map<string, string> {
    map n | n in names && IsOverridden(n) :: Overrides[n]
  }

  lemma OnlyOverridesWithoutLookup(names: seq<string>, lookup: Lookup)
    requires |Partition(names).1| == 0 || lookup.Unavailable?
    ensures FetchImages(names, lookup) == OverridesFor(names)
  {
    var r := FetchImages(names, lookup);
    assert r == Partition(names).0;
    assert r.Keys == OverridesFor(names).Keys;
  }

  /** A name no other entry shares a search term with is found under its
      own term. */
  lemma UniqueTermFindsName(entries: seq<string>, search: string -> string, name: string)
    requires name in entries
    requires forall m :: m in entries && search(m) == search(name) ==> m == name
    ensures search(name) in ReverseIndex(entries, search)
    ensures ReverseIndex(entries, search)[search(name)] == name
  {
  }

  /** A page whose title is an indexed term and whose thumbnail is non-empty
      assigns that thumbnail to the indexed name. */
  lemma TitleAssigned(index: map<string, string>, title: string, name: string, url: string)
    requires title in index && index[title] == name && name != "" && url != ""
    ensures Assignment(index, Page(Some(title), Some(url))) == Some((name, url))
  {
  }

  /** A page's assignment stands when no later page assigns the same name:
      the name ends with that page's thumbnail. */
  lemma {:induction false} LastPageStands(result: map<string, string>, index: map<string, string>, pages: seq<Page>,
                                          i: nat, name: string, url: string)
    requires i < |pages| && Assignment(index, pages[i]) == Some((name, url))
    requires forall j :: i < j < |pages| ==> Assignment(index, pages[j]).None? || Assignment(index, pages[j]).value.0 != name
    ensures name in MatchPages(result, index, pages) && MatchPages(result, index, pages)[name] == url
    decreases |pages|
  {
    if i < |pages| - 1 {
      var front := pages[..|pages| - 1];
      assert front[i] == pages[i];
      assert forall j :: i < j < |front| ==> front[j] == pages[j];
      LastPageStands(result, index, front, i, name, url);
    }
  }

  lemma FetchImagesUnfold(names: seq<string>, pages: seq<Page>)
    requires |Partition(names).1| > 0
    ensures FetchImages(names, Pages(pages))
         == MatchPages(Partition(names).0, ReverseIndex(Distinct(Partition(names).1), StripPrefix), pages)
  {
  }

  /** A queued name gets the thumbnail of a returned page titled with its
      search term, provided no later page with that title has a thumbnail and
      no other queued name strips to the same search term. */
  lemma LastMatchingPageWins(names: seq<string>, pages: seq<Page>, i: nat, name: string, url: string)
    requires name in names && !IsOverridden(name) && name != ""
    requires url != ""
    requires forall m :: m in names && !IsOverridden(m) && StripPrefix(m) == StripPrefix(name) ==> m == name
    requires i < |pages| && pages[i] == Page(Some(StripPrefix(name)), Some(url))
    requires forall j :: i < j < |pages| ==> pages[j].title.GetOr("") != StripPrefix(name) || pages[j].thumbnail.GetOr("") == ""
    ensures name in FetchImages(names, Pages(pages)) && FetchImages(names, Pages(pages))[name] == url
  {
    var (found, queue) := Partition(names);
    var entries := Distinct(queue);
    assert name in queue;
    assert name in entries;
    assert forall m :: m in entries && StripPrefix(m) == StripPrefix(name) ==> m == name;
    UniqueTermFindsName(entries, StripPrefix, name);
    var index := ReverseIndex(entries, StripPrefix);
    TitleAssigned(index, StripPrefix(name), name, url);
    LaterPagesMissName(index, pages, i, name, StripPrefix(name));
    LastPageStands(found, index, pages, i, name, url);
    FetchImagesUnfold(names, pages);
  }

  /** A page assigns a name only under that name's own term, so pages whose
      title is not the term, or that carry no thumbnail, leave the name
      alone. */
  lemma LaterPagesMissName(index: map<string, string>, pages: seq<Page>, i: nat, name: string, term: string)
    requires term in index && index[term] == name
    requires forall t :: t in index && index[t] == name ==> t == term
    requires forall j :: i < j < |pages| ==> pages[j].title.GetOr("") != term || pages[j].thumbnail.GetOr("") == ""
    ensures forall j :: i < j < |pages| ==> Assignment(index, pages[j]).None? || Assignment(index, pages[j]).value.0 != name
  {
    forall j | i < j < |pages| && Assignment(index, pages[j]).Some?
      ensures Assignment(index, pages[j]).value.0 != name
    {
      assert index[pages[j].title.GetOr("")] == Assignment(index, pages[j]).value.0;
    }
  }

  /** Of two queued names that strip to the same search term, the one queued
      first gets no looked-up image: its entry in the reverse map is
      overwritten by the later name's. */
  lemma EarlierQueuedNameGetsNoImage(names: seq<string>, lookup: Lookup, m: string, n: string)
    requires m in Partition(names).1 && n in Partition(names).1 && m != n
    requires StripPrefix(m) == StripPrefix(n)
    requires FirstIndex(Partition(names).1, m) < FirstIndex(Partition(names).1, n)
    ensures m !in FetchImages(names, lookup)
  {
    var queue := Partition(names).1;
    var entries := Distinct(queue);
    var i :| 0 <= i < |entries| && entries[i] == m;
    var j :| 0 <= j < |entries| && entries[j] == n;
    if j < i {
      DistinctInFirstAppearanceOrder(queue, j, i);
    }
    assert i < j;
    EarlierNameShadowed(entries, StripPrefix, i, j);
    UnindexedGetsNoImage(names, lookup, m);
  }

  /** A queued name that the reverse map does not lead to gets no entry. */
  lemma UnindexedGetsNoImage(names: seq<string>, lookup: Lookup, m: string)
    requires m in Partition(names).1
    requires m !in ReverseIndex(Distinct(Partition(names).1), StripPrefix).Values
    ensures m !in FetchImages(names, lookup)
  {
    if lookup.Pages? {
      FetchImagesUnfold(names, lookup.pages);
    }
  }
}
