/**
 * The aggregate-and-report pipeline of services/fetch.go: the fetcher's
 * option setters and checks, the loop that collects the pages of starred
 * repositories, the grouping by programming language, and the rows of the
 * report, one per language in ascending order.
 *
 * The HTTP requests are not modelled: the pages a fetch would return are
 * given as input, in the order they arrive.
 */
module Services {
  import opened Wrappers
  import opened Text
  import opened Strconv
  import opened LinkHeader
  import opened Grouping

  /** The key of repositories that name no language. */
  const Others := "Others"

  const ErrorGithubToken := "Missing Github token"
  const ErrorUserName := "Missing user name"

  /** A starred repository as the GitHub API describes it. */
  datatype Repository = Repository(FullName: string, HTMLURL: string, Language: string)

  /** An entry of the report: a repository under its language. */
  datatype MarkDownRepo = MarkDownRepo(FullName: string, HtmlUrl: string, Language: string)

  /** A row of the report: a language, its number of repositories, and their links. */
  datatype MarkDownRow = MarkDownRow(Language: string, Stars: string, Items: string)

  // ---------------------------------------------------------------------------
  // The fetcher and its options
  // ---------------------------------------------------------------------------

  /** The option setters `WithToken` and `WithUserName`. */
  datatype FetcherOption = WithToken(token: string) | WithUserName(name: string)

  class GitHubFetcher {
    var Token: string
    var UserName: string

    /** A fetcher with neither token nor user name. */
    constructor ()
      ensures Token == "" && UserName == ""
    {
      Token := "";
      UserName := "";
    }

    /** Runs one option setter: it sets its own field and leaves the other alone. */
    method Apply(setter: FetcherOption)
      modifies this
      ensures setter.WithToken? ==> Token == setter.token && UserName == old(UserName)
      ensures setter.WithUserName? ==> UserName == setter.name && Token == old(Token)
    {
      match setter
      case WithToken(token) => Token := token;
      case WithUserName(name) => UserName := name;
    }
  }

  /** The token after running the setters in order: the last `WithToken` wins, "" if none. */
  function FinalToken(setters: seq<FetcherOption>): (token: string)
    ensures (forall i :: 0 <= i < |setters| ==> !setters[i].WithToken?) ==> token == ""
    ensures token != "" ==> exists i :: 0 <= i < |setters| && setters[i] == WithToken(token)
  {
    if setters == [] then ""
    else
      var last := setters[|setters| - 1];
      if last.WithToken? then last.token else FinalToken(setters[..|setters| - 1])
  }

  /** The user name after running the setters in order: the last `WithUserName` wins, "" if none. */
  function FinalUserName(setters: seq<FetcherOption>): (name: string)
    ensures (forall i :: 0 <= i < |setters| ==> !setters[i].WithUserName?) ==> name == ""
    ensures name != "" ==> exists i :: 0 <= i < |setters| && setters[i] == WithUserName(name)
  {
    if setters == [] then ""
    else
      var last := setters[|setters| - 1];
      if last.WithUserName? then last.name else FinalUserName(setters[..|setters| - 1])
  }

  /**
   * `NewGitHubFetcher(setters...)`: runs the setters in order on an empty
   * fetcher, then rejects a missing token before a missing user name.
   */
  method NewGitHubFetcher(setters: seq<FetcherOption>) returns (r: Result<GitHubFetcher, string>)
    ensures FinalToken(setters) == "" ==> r == Failure(ErrorGithubToken)
    ensures FinalToken(setters) != "" && FinalUserName(setters) == "" ==> r == Failure(ErrorUserName)
    ensures r.Success? <==> FinalToken(setters) != "" && FinalUserName(setters) != ""
    ensures r.Success? ==> r.value.Token == FinalToken(setters) && r.value.UserName == FinalUserName(setters)
  {
    var g := new GitHubFetcher();
    for i := 0 to |setters|
      invariant g.Token == FinalToken(setters[..i])
      invariant g.UserName == FinalUserName(setters[..i])
    {
      assert setters[..i + 1][..i] == setters[..i];
      g.Apply(setters[i]);
    }
    assert setters[..|setters|] == setters;
    if g.Token == "" {
      return Failure(ErrorGithubToken);
    }
    if g.UserName == "" {
      return Failure(ErrorUserName);
    }
    return Success(g);
  }

  /** The last token setter decides the token, whatever user-name setters follow it. */
  lemma {:induction false} LastTokenSetterWins(setters: seq<FetcherOption>, i: nat)
    requires i < |setters| && setters[i].WithToken?
    requires forall j :: i < j < |setters| ==> setters[j].WithUserName?
    ensures FinalToken(setters) == setters[i].token
    decreases |setters|
  {
    if i < |setters| - 1 {
      var init := setters[..|setters| - 1];
      assert init[i] == setters[i];
      LastTokenSetterWins(init, i);
    }
  }

  /** The last user-name setter decides the user name, whatever token setters follow it. */
  lemma {:induction false} LastUserNameSetterWins(setters: seq<FetcherOption>, i: nat)
    requires i < |setters| && setters[i].WithUserName?
    requires forall j :: i < j < |setters| ==> setters[j].WithToken?
    ensures FinalUserName(setters) == setters[i].name
    decreases |setters|
  {
    if i < |setters| - 1 {
      var init := setters[..|setters| - 1];
      assert init[i] == setters[i];
      LastUserNameSetterWins(init, i);
    }
  }

  /** Without a token setter the token stays empty, so the fetcher is refused. */
  lemma {:induction false} NoTokenSetterMeansNoToken(setters: seq<FetcherOption>)
    requires forall j :: 0 <= j < |setters| ==> setters[j].WithUserName?
    ensures FinalToken(setters) == ""
  {
    if setters != [] {
      NoTokenSetterMeansNoToken(setters[..|setters| - 1]);
    }
  }

  /** Without a user-name setter the user name stays empty. */
  lemma {:induction false} NoUserNameSetterMeansNoUserName(setters: seq<FetcherOption>)
    requires forall j :: 0 <= j < |setters| ==> setters[j].WithToken?
    ensures FinalUserName(setters) == ""
  {
    if setters != [] {
      NoUserNameSetterMeansNoUserName(setters[..|setters| - 1]);
    }
  }

  // ---------------------------------------------------------------------------
  // Collecting the pages
  // ---------------------------------------------------------------------------

  function Min(a: nat, b: nat): nat {
    if a <= b then a else b
  }

  /**
   * How many of the `available` pages the collector merges: it stops right
   * after the count reaches `totalPage`, and otherwise takes every page that
   * arrives before the deadline. One sender per page means at most
   * `totalPage` pages ever arrive, so the count is reached exactly when every
   * page has arrived, and no page that arrives in time is dropped.
   */
  function MergedPages(totalPage: nat, available: nat): (merged: nat)
    requires available <= totalPage
    ensures merged <= totalPage
    ensures merged == available
    ensures merged == totalPage <==> available == totalPage
  {
    if 1 <= totalPage <= available then totalPage else available
  }

  /**
   * The aggregate of the collector, where `arrivals` lists the pages in the
   * order they come out of the channel and `cutoff` is how many of them
   * arrive before the deadline.
   */
  function Collected(totalPage: nat, arrivals: seq<seq<Repository>>, cutoff: nat): seq<Repository>
    requires |arrivals| <= totalPage
  {
    Flatten(arrivals[..MergedPages(totalPage, Min(cutoff, |arrivals|))])
  }

  /**
   * The receive loop of `GetUserAllStarredRepositories`: each page that
   * arrives is appended and counted, until the count reaches `totalPage` or
   * the deadline passes. A negative `totalPage` makes the channel allocation
   * panic before the loop.
   */
  method GetUserAllStarredRepositories(totalPage: int, arrivals: seq<seq<Repository>>, cutoff: nat)
    returns (userStarredRepositories: seq<Repository>)
    requires totalPage >= 0
    requires |arrivals| <= totalPage
    ensures userStarredRepositories == Collected(totalPage, arrivals, cutoff)
    ensures totalPage == 0 ==> userStarredRepositories == []
  {
    userStarredRepositories := [];
    var taskProgress := 0;
    while true
      invariant taskProgress <= Min(cutoff, |arrivals|)
      invariant totalPage >= 1 ==> taskProgress < totalPage
      invariant userStarredRepositories == Flatten(arrivals[..taskProgress])
      decreases |arrivals| - taskProgress
    {
      if taskProgress < |arrivals| && taskProgress < cutoff {
        // a page arrives before the deadline
        FlattenAppend(arrivals[..taskProgress], arrivals[taskProgress]);
        assert arrivals[..taskProgress + 1] == arrivals[..taskProgress] + [arrivals[taskProgress]];
        userStarredRepositories := userStarredRepositories + arrivals[taskProgress];
        taskProgress := taskProgress + 1;
        if taskProgress == totalPage {
          break;
        }
      } else {
        // the deadline passes
        break;
      }
    }
  }

  /** The aggregate is as long as the merged pages together, and never merges more than `totalPage` pages. */
  lemma CollectedLength(totalPage: nat, arrivals: seq<seq<Repository>>, cutoff: nat)
    requires |arrivals| <= totalPage
    ensures var merged := MergedPages(totalPage, Min(cutoff, |arrivals|));
      |Collected(totalPage, arrivals, cutoff)| == TotalLength(arrivals[..merged]) && merged <= totalPage
  {
    FlattenLength(arrivals[..MergedPages(totalPage, Min(cutoff, |arrivals|))]);
  }

  /**
   * The aggregate holds the pages that arrive before the deadline, all of
   * them and in arrival order; with a page count of 0 no page is requested,
   * so only the deadline ends the loop and the aggregate is empty.
   */
  lemma TimelyPagesCollected(totalPage: nat, arrivals: seq<seq<Repository>>, cutoff: nat)
    requires |arrivals| <= totalPage
    ensures Collected(totalPage, arrivals, cutoff) == Flatten(arrivals[..Min(cutoff, |arrivals|)])
    ensures totalPage == 0 ==> Collected(totalPage, arrivals, cutoff) == []
  {
  }

  /**
   * When every one of the `totalPage` pages arrives in time, the aggregate
   * holds exactly the repositories of all pages, whatever order they arrive in.
   */
  lemma AllPagesInTime(totalPage: nat, arrivals: seq<seq<Repository>>, pages: seq<seq<Repository>>, cutoff: nat)
    requires |arrivals| == totalPage <= cutoff
    requires multiset(arrivals) == multiset(pages)
    ensures Collected(totalPage, arrivals, cutoff) == Flatten(arrivals)
    ensures multiset(Collected(totalPage, arrivals, cutoff)) == multiset(Flatten(pages))
  {
    assert arrivals[..|arrivals|] == arrivals;
    FlattenPermutation(arrivals, pages);
  }

  // ---------------------------------------------------------------------------
  // Grouping by programming language
  // ---------------------------------------------------------------------------

  /** The language a repository is filed under. */
  function LanguageKey(r: Repository): (key: string)
    ensures key != ""
    ensures key == Others <==> r.Language == "" || r.Language == Others
    ensures r.Language != "" ==> key == r.Language
  {
    if r.Language == "" then Others else r.Language
  }

  /** The language an entry is filed under. */
  function EntryKey(e: MarkDownRepo): string {
    if e.Language == "" then Others else e.Language
  }

  /** A repository's entry copies its name, link and language. */
  function Entry(r: Repository): (e: MarkDownRepo)
    ensures EntryKey(e) == LanguageKey(r)
    ensures e.Language == r.Language
    ensures e.FullName == r.FullName && e.HtmlUrl == r.HTMLURL
  {
    MarkDownRepo(r.FullName, r.HTMLURL, r.Language)
  }

  /** The repositories grouped by language, each bucket in input order. */
  function Grouped(repos: seq<Repository>): map<string, seq<MarkDownRepo>> {
    GroupOf(repos, LanguageKey, Entry)
  }

  /**
   * `GroupByProgrammingLanguage`: files each repository's entry under its
   * language, or under `Others` when it names none, appending to the bucket.
   */
  method GroupByProgrammingLanguage(userStarredRepositories: seq<Repository>)
    returns (repositories: map<string, seq<MarkDownRepo>>)
    ensures repositories == Grouped(userStarredRepositories)
  {
    repositories := map[];
    for i := 0 to |userStarredRepositories|
      invariant repositories == Grouped(userStarredRepositories[..i])
    {
      var v := userStarredRepositories[i];
      var languageKey := v.Language;
      if v.Language == "" {
        languageKey := Others;
      }
      var bucket := if languageKey in repositories then repositories[languageKey] else [];
      GroupOfAppend(userStarredRepositories[..i], v, LanguageKey, Entry);
      assert userStarredRepositories[..i + 1] == userStarredRepositories[..i] + [v];
      repositories := repositories[languageKey := bucket + [MarkDownRepo(v.FullName, v.HTMLURL, v.Language)]];
    }
    assert userStarredRepositories[..|userStarredRepositories|] == userStarredRepositories;
  }

  /**
   * Grouping is a partition: each repository's entry is in the bucket of its
   * language, every entry of a bucket belongs there, no bucket is empty, and
   * the bucket sizes add up to the number of repositories.
   */
  lemma GroupingIsPartition(repos: seq<Repository>)
    ensures forall i :: 0 <= i < |repos| ==>
      LanguageKey(repos[i]) in Grouped(repos) && Entry(repos[i]) in Grouped(repos)[LanguageKey(repos[i])]
    ensures forall k, e :: k in Grouped(repos) && e in Grouped(repos)[k] ==> EntryKey(e) == k
    ensures forall k :: k in Grouped(repos) ==> |Grouped(repos)[k]| > 0
    ensures SumOfSizes(repos, LanguageKey, Entry, SortedOf(Grouped(repos).Keys)) == |repos|
  {
    var m := Grouped(repos);
    forall i | 0 <= i < |repos|
      ensures LanguageKey(repos[i]) in m && Entry(repos[i]) in m[LanguageKey(repos[i])]
    {
      BucketMembership(repos, LanguageKey, Entry, LanguageKey(repos[i]), Entry(repos[i]));
    }
    forall k, e | k in m && e in m[k]
      ensures EntryKey(e) == k
    {
      BucketMembership(repos, LanguageKey, Entry, k, e);
    }
    forall k | k in m
      ensures |m[k]| > 0
    {
      BucketNonEmpty(repos, LanguageKey, Entry, k);
    }
    var ks := SortedOf(m.Keys);
    forall i, j | 0 <= i < j < |ks| ensures ks[i] != ks[j] {
      LessIrreflexive(ks[i]);
    }
    PartitionSizes(repos, LanguageKey, Entry, ks);
  }

  /** Entries under `Others` keep the language their repository had: none, or literally "Others". */
  lemma OthersKeepsLanguage(repos: seq<Repository>, e: MarkDownRepo)
    requires Others in Grouped(repos) && e in Grouped(repos)[Others]
    ensures e.Language == "" || e.Language == Others
    ensures exists i :: 0 <= i < |repos| && repos[i].Language == e.Language && repos[i].FullName == e.FullName
  {
    BucketMembership(repos, LanguageKey, Entry, Others, e);
  }

  /** Repositories gathered later come later in their bucket. */
  lemma GroupingKeepsOrder(a: seq<Repository>, b: seq<Repository>, k: string)
    requires k in Grouped(a) && k in Grouped(b)
    ensures Grouped(a + b)[k] == Grouped(a)[k] + Grouped(b)[k]
  {
    KeysOfAppendAll(a, b);
    BucketConcat(a, b, LanguageKey, Entry, k);
  }

  lemma KeysOfAppendAll(a: seq<Repository>, b: seq<Repository>)
    ensures KeysOf(a + b, LanguageKey) == KeysOf(a, LanguageKey) + KeysOf(b, LanguageKey)
  {
    assert forall r :: r in a + b <==> r in a || r in b;
  }

  /**
   * The order in which pages arrive changes neither the languages nor the
   * contents of any bucket, only the order of entries inside a bucket.
   */
  lemma GroupingIndependentOfArrivalOrder(p: seq<seq<Repository>>, q: seq<seq<Repository>>)
    requires multiset(p) == multiset(q)
    ensures Grouped(Flatten(p)).Keys == Grouped(Flatten(q)).Keys
    ensures forall k :: k in Grouped(Flatten(p)) ==>
      multiset(Grouped(Flatten(p))[k]) == multiset(Grouped(Flatten(q))[k])
  {
    FlattenPermutation(p, q);
    KeysOfPermutation(Flatten(p), Flatten(q), LanguageKey);
    forall k | k in Grouped(Flatten(p))
      ensures multiset(Grouped(Flatten(p))[k]) == multiset(Grouped(Flatten(q))[k])
    {
      BucketPermutation(Flatten(p), Flatten(q), LanguageKey, Entry, k);
    }
  }

  // ---------------------------------------------------------------------------
  // Rows of the report
  // ---------------------------------------------------------------------------

  /** `MarkdownStar`: a bracketed Markdown link to the repository. */
  function Star(fullName: string, htmlUrl: string): (link: string)
    ensures |link| == |fullName| + |htmlUrl| + 8
    ensures link[..3] == "[ [" && link[3..3 + |fullName|] == fullName
    ensures link[3 + |fullName|..5 + |fullName|] == "]("
    ensures link[5 + |fullName|..5 + |fullName| + |htmlUrl|] == htmlUrl
    ensures link[|link| - 3..] == ") ]"
  {
    "[ [" + fullName + "](" + htmlUrl + ") ]"
  }

  /** The links of the entries, in bucket order. */
  function Rendered(bucket: seq<MarkDownRepo>): (links: seq<string>)
    ensures |links| == |bucket|
  {
    seq(|bucket|, i requires 0 <= i < |bucket| => Star(bucket[i].FullName, bucket[i].HtmlUrl))
  }

  /** The `Items` cell: the links joined with ", ". */
  function ItemsOf(bucket: seq<MarkDownRepo>): string {
    Join(Rendered(bucket), ", ")
  }

  /** `GetInnerReposStr`: renders each entry as a link and joins them. */
  method GetInnerReposStr(markDownRepo: seq<MarkDownRepo>) returns (s: string)
    ensures s == ItemsOf(markDownRepo)
  {
    var repositories: seq<string> := [];
    for i := 0 to |markDownRepo|
      invariant repositories == Rendered(markDownRepo[..i])
    {
      var v := markDownRepo[i];
      repositories := repositories + [Star(v.FullName, v.HtmlUrl)];
    }
    assert markDownRepo[..|markDownRepo|] == markDownRepo;
    s := Join(repositories, ", ");
  }

  /** An empty bucket has no items; each further entry adds ", " and its link. */
  lemma ItemsOfAppend(bucket: seq<MarkDownRepo>, e: MarkDownRepo)
    ensures ItemsOf([]) == ""
    ensures ItemsOf(bucket + [e]) ==
      if bucket == [] then Star(e.FullName, e.HtmlUrl) else ItemsOf(bucket) + ", " + Star(e.FullName, e.HtmlUrl)
  {
    assert Rendered(bucket + [e]) == Rendered(bucket) + [Star(e.FullName, e.HtmlUrl)];
    JoinAppend(Rendered(bucket), Star(e.FullName, e.HtmlUrl), ", ");
  }

  /** `GetMapKeyASC`: every key of the map once, in ascending byte order. */
  method GetMapKeyASC(m: map<string, seq<MarkDownRepo>>) returns (s: seq<string>)
    ensures StrictlySorted(s)
    ensures forall k :: k in s <==> k in m
    ensures |s| == |m|
  {
    var keys := m.Keys;
    s := [];
    while keys != {}
      invariant keys <= m.Keys
      invariant Distinct(s)
      invariant forall k :: k in s <==> k in m && k !in keys
      decreases |keys|
    {
      var k :| k in keys;
      s := s + [k];
      keys := keys - {k};
    }
    var a := new string[|s|](i requires 0 <= i < |s| => s[i]);
    assert a[..] == s;
    SortStrings(a);
    SortedListingIsSortedOf(a[..], s, m.Keys);
    s := a[..];
  }

  /** The row of one language. */
  function RowOf(language: string, bucket: seq<MarkDownRepo>): MarkDownRow {
    MarkDownRow(language, Itoa(|bucket|), ItemsOf(bucket))
  }

  /** The languages of the rows, in row order. */
  function Languages(rows: seq<MarkDownRow>): (languages: seq<string>)
    ensures |languages| == |rows|
  {
    seq(|rows|, i requires 0 <= i < |rows| => rows[i].Language)
  }

  /** The rows of the report for a grouping: one per language, in ascending order. */
  ghost function Rows(m: map<string, seq<MarkDownRepo>>): seq<MarkDownRow> {
    var keys := SortedOf(m.Keys);
    seq(|keys|, i requires 0 <= i < |keys| => RowOf(keys[i], m[keys[i]]))
  }

  /** `Covert2Slice`: one row per language, in ascending order. */
  method Covert2Slice(repositories: map<string, seq<MarkDownRepo>>) returns (rows: seq<MarkDownRow>)
    ensures StrictlySorted(Languages(rows))
    ensures forall k :: k in Languages(rows) <==> k in repositories
    ensures forall i :: 0 <= i < |rows| ==>
      rows[i].Language in repositories && rows[i] == RowOf(rows[i].Language, repositories[rows[i].Language])
    ensures rows == Rows(repositories)
  {
    var keys := GetMapKeyASC(repositories);
    rows := [];
    for i := 0 to |keys|
      invariant |rows| == i
      invariant forall j :: 0 <= j < i ==> keys[j] in repositories && rows[j] == RowOf(keys[j], repositories[keys[j]])
    {
      var v := keys[i];
      var items := GetInnerReposStr(repositories[v]);
      rows := rows + [MarkDownRow(v, Itoa(|repositories[v]|), items)];
    }
    RowsOfListing(repositories, keys, rows);
  }

  /** Rows built key by key from an ascending listing of the keys are the report's rows. */
  lemma RowsOfListing(m: map<string, seq<MarkDownRepo>>, keys: seq<string>, rows: seq<MarkDownRow>)
    requires StrictlySorted(keys) && forall k :: k in keys <==> k in m
    requires |rows| == |keys|
    requires forall j :: 0 <= j < |rows| ==> keys[j] in m && rows[j] == RowOf(keys[j], m[keys[j]])
    ensures Languages(rows) == keys
    ensures forall i :: 0 <= i < |rows| ==> rows[i].Language in m && rows[i] == RowOf(rows[i].Language, m[rows[i].Language])
    ensures rows == Rows(m)
  {
    assert Languages(rows) == keys;
    AscendingListingIsSortedOf(keys, m.Keys);
  }

  /** The `Stars` cell reads back as the number of entries in the bucket. */
  lemma StarsReadBack(language: string, bucket: seq<MarkDownRepo>)
    requires |bucket| <= MaxInt64
    ensures Atoi(RowOf(language, bucket).Stars) == Parsed(|bucket|, NoError)
  {
    AtoiItoa(|bucket|);
  }

  /** Keys "a", "#", "1", "z" are listed as "#", "1", "a", "z". */
  lemma ExampleKeysAscending()
    ensures SortedOf({"a", "#", "1", "z"}) == ["#", "1", "a", "z"]
  {
    var s := ["#", "1", "a", "z"];
    assert Less("#", "1") && Less("1", "a") && Less("a", "z");
    forall i, j | 0 <= i < j < |s| ensures Less(s[i], s[j]) {
      if i + 1 < j {
        LessTransitive(s[i], s[i + 1], s[j]);
        if i + 2 < j {
          LessTransitive(s[i + 1], s[i + 2], s[j]);
          LessTransitive(s[i], s[i + 1], s[j]);
        }
      }
    }
    AscendingListingIsSortedOf(s, {"a", "#", "1", "z"});
  }

  /**
   * A grouping with one Go entry and two JavaScript entries gives a Go row
   * with one star, then a JavaScript row with two stars and both links.
   */
  lemma ExampleRows(go: MarkDownRepo, js1: MarkDownRepo, js2: MarkDownRepo)
    ensures Rows(map["Go" := [go], "JavaScript" := [js1, js2]]) == [
      MarkDownRow("Go", "1", Star(go.FullName, go.HtmlUrl)),
      MarkDownRow("JavaScript", "2", Star(js1.FullName, js1.HtmlUrl) + ", " + Star(js2.FullName, js2.HtmlUrl))
    ]
  {
    var m := map["Go" := [go], "JavaScript" := [js1, js2]];
    var keys := ["Go", "JavaScript"];
    var rows := [
      MarkDownRow("Go", "1", Star(go.FullName, go.HtmlUrl)),
      MarkDownRow("JavaScript", "2", Star(js1.FullName, js1.HtmlUrl) + ", " + Star(js2.FullName, js2.HtmlUrl))
    ];
    assert Less("Go", "JavaScript");
    ItemsOfAppend([], go);
    assert [go] == [] + [go];
    ItemsOfAppend([], js1);
    assert [js1] == [] + [js1];
    ItemsOfAppend([js1], js2);
    assert [js1, js2] == [js1] + [js2];
    assert rows[0] == RowOf(keys[0], m[keys[0]]);
    assert rows[1] == RowOf(keys[1], m[keys[1]]);
    RowsOfListing(m, keys, rows);
  }

  // ---------------------------------------------------------------------------
  // The pipeline
  // ---------------------------------------------------------------------------

  /**
   * `GetUsersStars`: reads the page count from the link header of the first
   * page, collects the pages, groups them and builds the rows. `pageOf` reads
   * the `page` parameter of a URL; the page count is read with the corrected
   * parser, which gives 0 on every error.
   */
  method GetUsersStars(rawHeader: string, pageOf: PageQuery, arrivals: seq<seq<Repository>>, cutoff: nat)
    returns (rows: seq<MarkDownRow>)
    requires HasLastLink(rawHeader)
    requires ParseRawLinkHeaderOrZero(rawHeader, pageOf) >= 0
    requires |arrivals| <= ParseRawLinkHeaderOrZero(rawHeader, pageOf)
    ensures rows == Rows(Grouped(Collected(ParseRawLinkHeaderOrZero(rawHeader, pageOf), arrivals, cutoff)))
    ensures StrictlySorted(Languages(rows))
  {
    var totalPageCount := ParseRawLinkHeaderOrZero(rawHeader, pageOf);
    var starredRepositories := GetUserAllStarredRepositories(totalPageCount, arrivals, cutoff);
    var repositories := GroupByProgrammingLanguage(starredRepositories);
    rows := Covert2Slice(repositories);
  }
}
