/**
 * The older report generator of main.go: it fetches pages of starred
 * repositories until a page comes back empty, groups them by language into a
 * map it fills in place, and writes a Markdown table with a header line, a
 * separator line and one line per language in ascending order.
 *
 * The pages are given as input (page `i` is `pages[i]`, and every page past
 * the end is empty), and the table is produced as a string instead of being
 * printed.
 */
module Legacy {
  import opened Wrappers
  import opened Text
  import opened Strconv
  import opened Grouping
  import Services

  const Others := "Others"

  /** An entry of the report. */
  datatype Repos = Repos(URI: string, Name: string)

  /** A repository as decoded from a page; `Language` is `None` where the JSON has null. */
  datatype RawRepo = RawRepo(FullName: string, HtmlUrl: string, Language: Option<string>)

  /** The key of a repository: its language verbatim, or `Others` when there is none. */
  function LegacyKey(v: RawRepo): (key: string)
    ensures key == Others <==> v.Language.None? || v.Language == Some(Others)
    ensures v.Language.Some? ==> key == v.Language.value
  {
    match v.Language
    case None => Others
    case Some(language) => language
  }

  function ToRepos(v: RawRepo): (r: Repos)
    ensures r.Name == v.FullName && r.URI == v.HtmlUrl
  {
    Repos(v.HtmlUrl, v.FullName)
  }

  // ---------------------------------------------------------------------------
  // Fetching and grouping
  // ---------------------------------------------------------------------------

  /** The index of the first empty page: every page before it has repositories. */
  function FirstEmpty(pages: seq<seq<RawRepo>>): (n: nat)
    ensures n <= |pages|
    ensures forall j :: 0 <= j < n ==> pages[j] != []
    ensures n < |pages| ==> pages[n] == []
  {
    if pages == [] || pages[0] == [] then 0 else 1 + FirstEmpty(pages[1..])
  }

  /** The page at index `i`; past the last page the server returns an empty one. */
  function PageAt(pages: seq<seq<RawRepo>>, i: nat): seq<RawRepo> {
    if i < |pages| then pages[i] else []
  }

  /** The map the loop returns: the repositories of the pages before the first empty one, grouped. */
  function Starred(pages: seq<seq<RawRepo>>): map<string, seq<Repos>> {
    GroupOf(Flatten(pages[..FirstEmpty(pages)]), LegacyKey, ToRepos)
  }

  /**
   * `GetCustomerGithubStars`: reads pages from index 0 on, files each
   * repository under its key, creating the bucket or appending to it, and
   * returns the map at the first empty page.
   */
  method GetCustomerGithubStars(pages: seq<seq<RawRepo>>) returns (m: map<string, seq<Repos>>)
    ensures m == Starred(pages)
  {
    m := map[];
    var i := 0;
    while true
      invariant i <= FirstEmpty(pages)
      invariant m == GroupOf(Flatten(pages[..i]), LegacyKey, ToRepos)
      decreases |pages| - i
    {
      var t := PageAt(pages, i);
      NextPage(pages, i);
      if |t| == 0 {
        return m;
      }
      m := FilePage(m, t, Flatten(pages[..i]));
      i := i + 1;
    }
  }

  /**
   * The inner loop of `GetCustomerGithubStars`: files every repository of
   * one page in order, so the map grows from the grouping of what was read
   * before to the grouping of that and the page.
   */
  method FilePage(m0: map<string, seq<Repos>>, t: seq<RawRepo>, ghost before: seq<RawRepo>)
    returns (m: map<string, seq<Repos>>)
    requires m0 == GroupOf(before, LegacyKey, ToRepos)
    ensures m == GroupOf(before + t, LegacyKey, ToRepos)
  {
    m := m0;
    assert before + t[..0] == before;
    for j := 0 to |t|
      invariant m == GroupOf(before + t[..j], LegacyKey, ToRepos)
    {
      var v := t[j];
      var lang := Others;
      if v.Language.Some? {
        lang := v.Language.value;
      }
      var r := Repos(v.HtmlUrl, v.FullName);
      FileRepository(m, before + t[..j], v);
      assert before + t[..j + 1] == (before + t[..j]) + [v];
      if lang !in m {
        m := m[lang := [r]];
      } else {
        m := m[lang := m[lang] + [r]];
      }
    }
    assert t[..|t|] == t;
  }

  /** The loop stops exactly at the first empty page, and each page it reads extends what it has read. */
  lemma NextPage(pages: seq<seq<RawRepo>>, i: nat)
    requires i <= FirstEmpty(pages)
    ensures PageAt(pages, i) == [] ==> i == FirstEmpty(pages)
    ensures PageAt(pages, i) != [] ==>
      i < FirstEmpty(pages) && Flatten(pages[..i + 1]) == Flatten(pages[..i]) + PageAt(pages, i)
  {
    if PageAt(pages, i) != [] {
      FlattenAppend(pages[..i], pages[i]);
      assert pages[..i + 1] == pages[..i] + [pages[i]];
    }
  }

  /** Filing one repository, by creating its bucket or appending to it, extends the grouping by it. */
  lemma FileRepository(m: map<string, seq<Repos>>, xs: seq<RawRepo>, v: RawRepo)
    requires m == GroupOf(xs, LegacyKey, ToRepos)
    ensures GroupOf(xs + [v], LegacyKey, ToRepos) ==
      if LegacyKey(v) !in m then m[LegacyKey(v) := [ToRepos(v)]]
      else m[LegacyKey(v) := m[LegacyKey(v)] + [ToRepos(v)]]
  {
    GroupOfAppend(xs, v, LegacyKey, ToRepos);
    assert [ToRepos(v)] == [] + [ToRepos(v)];
  }

  /** Every repository before the first empty page is counted once: the buckets add up to them all. */
  lemma EveryRepositoryCounted(pages: seq<seq<RawRepo>>)
    ensures SumOfSizes(Flatten(pages[..FirstEmpty(pages)]), LegacyKey, ToRepos, SortedOf(Starred(pages).Keys))
         == TotalLength(pages[..FirstEmpty(pages)])
  {
    var xs := Flatten(pages[..FirstEmpty(pages)]);
    var ks := SortedOf(Starred(pages).Keys);
    forall i, j | 0 <= i < j < |ks| ensures ks[i] != ks[j] {
      LessIrreflexive(ks[i]);
    }
    PartitionSizes(xs, LegacyKey, ToRepos, ks);
    FlattenLength(pages[..FirstEmpty(pages)]);
  }

  /** Pages after the first empty one are never read. */
  lemma {:induction false} LaterPagesIgnored(pages: seq<seq<RawRepo>>, later: seq<seq<RawRepo>>)
    requires FirstEmpty(pages) < |pages|
    ensures FirstEmpty(pages + later) == FirstEmpty(pages)
    ensures Starred(pages + later) == Starred(pages)
  {
    if pages[0] != [] {
      assert (pages + later)[1..] == pages[1..] + later;
      LaterPagesIgnored(pages[1..], later);
    }
    assert (pages + later)[..FirstEmpty(pages)] == pages[..FirstEmpty(pages)];
  }

  /** Every repository on a page before the first empty one is in the map, under its key. */
  lemma EarlierPagesGrouped(pages: seq<seq<RawRepo>>, i: nat, j: nat)
    requires i < FirstEmpty(pages) && j < |pages[i]|
    ensures var v := pages[i][j];
      LegacyKey(v) in Starred(pages) && ToRepos(v) in Starred(pages)[LegacyKey(v)]
  {
    var n := FirstEmpty(pages);
    var v := pages[i][j];
    assert pages[..n][i] == pages[i];
    FlattenMember(pages[..n], i, j);
    var xs := Flatten(pages[..n]);
    var k :| 0 <= k < |xs| && xs[k] == v;
    BucketMembership(xs, LegacyKey, ToRepos, LegacyKey(v), ToRepos(v));
  }

  /**
   * Only a missing language goes to `Others`: an empty language string is a
   * key of its own, where services/fetch.go files it under `Others`.
   */
  lemma EmptyLanguageIsItsOwnKey(name: string, url: string)
    ensures LegacyKey(RawRepo(name, url, Some(""))) == ""
    ensures LegacyKey(RawRepo(name, url, None)) == Others
    ensures Services.LanguageKey(Services.Repository(name, url, "")) == Services.Others
  {
  }

  // ---------------------------------------------------------------------------
  // The Markdown table
  // ---------------------------------------------------------------------------

  /** The links of the entries, in bucket order. */
  function Rendered(r: seq<Repos>): (links: seq<string>)
    ensures |links| == |r|
  {
    seq(|r|, i requires 0 <= i < |r| => Services.Star(r[i].Name, r[i].URI))
  }

  /** `GetInnerReposStr`: renders each entry as a link and joins them with ", ". */
  method GetInnerReposStr(r: seq<Repos>) returns (s: string)
    ensures s == Join(Rendered(r), ", ")
  {
    var ss: seq<string> := [];
    for i := 0 to |r|
      invariant ss == Rendered(r[..i])
    {
      ss := ss + [Services.Star(r[i].Name, r[i].URI)];
    }
    assert r[..|r|] == r;
    s := Join(ss, ", ");
  }

  /** The entry of services/fetch.go with the same name and link. */
  function AsMarkDownRepo(r: Repos, language: string): Services.MarkDownRepo {
    Services.MarkDownRepo(r.Name, r.URI, language)
  }

  /** The items of a legacy bucket are those services/fetch.go writes for the same repositories. */
  lemma SameItemsAsServices(r: seq<Repos>, language: string)
    ensures Join(Rendered(r), ", ") ==
      Services.ItemsOf(seq(|r|, i requires 0 <= i < |r| => AsMarkDownRepo(r[i], language)))
  {
    var b := seq(|r|, i requires 0 <= i < |r| => AsMarkDownRepo(r[i], language));
    assert Rendered(r) == Services.Rendered(b);
  }

  /** `SortMapByKeyAlphabatAsc`: every key of the map once, in no particular order. */
  method SortMapByKeyAlphabatAsc(m: map<string, seq<Repos>>) returns (s: seq<string>)
    ensures Distinct(s)
    ensures forall k :: k in s <==> k in m
  {
    var keys := m.Keys;
    s := [];
    while keys != {}
      invariant keys <= m.Keys
      invariant Distinct(s)
      invariant forall k :: k in s <==> k in m && k !in keys
      decreases |keys|
    {
      var k :| k in keys;
      s := s + [k];
      keys := keys - {k};
    }
  }

  /** `MarkdownColumn`: three cells separated by '|', ending the line. */
  function Line(first: string, second: string, third: string): (line: string)
    ensures |line| == |first| + |second| + |third| + 3
    ensures line[..|first|] == first && line[|first|] == '|'
    ensures line[|line| - 1] == '\n'
  {
    first + "|" + second + "|" + third + "\n"
  }

  /** The star emoji of the header: U+2B50 followed by the emoji variation selector U+FE0F. */
  const StarEmoji := "\U{2B50}\U{FE0F}"

  /** `PrintMarkdownHeader`: the header line. */
  method PrintMarkdownHeader() returns (out: string)
    ensures out == Line("Language", StarEmoji, "Repos")
  {
    out := "Language" + "|" + StarEmoji + "|" + "Repos" + "\n";
  }

  /** `PrintMarkdownColumn`: the line separating the header from the body. */
  method PrintMarkdownColumn() returns (out: string)
    ensures out == Line("---", "---", "---")
  {
    out := "---" + "|" + "---" + "|" + "---" + "\n";
  }

  /** `m[k]`: the bucket of `k`, or nil (no entries) when `k` is not a key. */
  function Lookup(m: map<string, seq<Repos>>, k: string): seq<Repos> {
    if k in m then m[k] else []
  }

  /** The line of one language: its key, its number of entries and its links. */
  function LanguageLine(m: map<string, seq<Repos>>, k: string): string {
    Line(k, Itoa(|Lookup(m, k)|), Join(Rendered(Lookup(m, k)), ", "))
  }

  /** The lines of the listed keys, in the order listed. */
  function Table(m: map<string, seq<Repos>>, keys: seq<string>): string {
    if keys == [] then "" else Table(m, keys[..|keys| - 1]) + LanguageLine(m, keys[|keys| - 1])
  }

  /** The keys of the map as `PrintAsMarkdown` lists them and sorts them in place. */
  method SortedKeys(m: map<string, seq<Repos>>) returns (sk: seq<string>)
    ensures StrictlySorted(sk)
    ensures forall x :: x in sk <==> x in m
  {
    sk := SortMapByKeyAlphabatAsc(m);
    var a := new string[|sk|](i requires 0 <= i < |sk| => sk[i]);
    assert a[..] == sk;
    SortStrings(a);
    SortedListingIsSortedOf(a[..], sk, m.Keys);
    sk := a[..];
  }

  /**
   * `PrintAsMarkdown`: lists the keys, sorts them, and writes one line per
   * key in ascending order.
   */
  method PrintAsMarkdown(m: map<string, seq<Repos>>) returns (out: string)
    ensures out == Table(m, SortedOf(m.Keys))
  {
    var sk := SortedKeys(m);
    out := "";
    for i := 0 to |sk|
      invariant out == Table(m, sk[..i])
    {
      var v := sk[i];
      var bucket := m[v];
      var items := GetInnerReposStr(bucket);
      TableNext(m, sk, i);
      out := out + Line(v, Itoa(|bucket|), items);
    }
    ListedKeysTable(m, sk);
  }

  /** One more listed key adds its line, read straight from the map, to the table. */
  lemma TableNext(m: map<string, seq<Repos>>, keys: seq<string>, i: nat)
    requires i < |keys| && keys[i] in m
    ensures Table(m, keys[..i + 1]) == Table(m, keys[..i]) + Line(keys[i], Itoa(|m[keys[i]]|), Join(Rendered(m[keys[i]]), ", "))
  {
    assert keys[..i + 1] == keys[..i] + [keys[i]];
    TableAppend(m, keys[..i], keys[i]);
  }

  /** The table of the whole ascending listing of the keys is the table of the sorted keys. */
  lemma ListedKeysTable(m: map<string, seq<Repos>>, keys: seq<string>)
    requires StrictlySorted(keys)
    requires forall x :: x in keys <==> x in m
    ensures Table(m, keys[..|keys|]) == Table(m, SortedOf(m.Keys))
  {
    assert keys[..|keys|] == keys;
    AscendingListingIsSortedOf(keys, m.Keys);
  }

  /** The whole report `main` writes for the map `m`: header, separator, then the table. */
  ghost function Report(m: map<string, seq<Repos>>): string {
    Line("Language", StarEmoji, "Repos") + Line("---", "---", "---") + Table(m, SortedOf(m.Keys))
  }

  /**
   * `main`: groups the pages before the first empty one, then writes the
   * header, the separator and the table of that grouping.
   */
  method WriteReport(pages: seq<seq<RawRepo>>) returns (out: string)
    ensures out == Report(Starred(pages))
  {
    var m := GetCustomerGithubStars(pages);
    var header := PrintMarkdownHeader();
    var column := PrintMarkdownColumn();
    var table := PrintAsMarkdown(m);
    out := header + column + table;
  }

  /** The first two lines of the report are the header and the separator. */
  lemma ReportOpensWithHeader(m: map<string, seq<Repos>>)
    ensures var lines := Split(Report(m), '\n');
      |lines| >= 2 && lines[0] == "Language" + "|" + StarEmoji + "|" + "Repos" && lines[1] == "---" + "|" + "---" + "|" + "---"
  {
    var header, separator := Line("Language", StarEmoji, "Repos"), Line("---", "---", "---");
    var table := Table(m, SortedOf(m.Keys));
    ConcatAssociative(header, separator, table);
    LineThenRest("Language", StarEmoji, "Repos", separator + table);
    LineThenRest("---", "---", "---", table);
  }

  /** A line whose cells hold no newline is the first line of what it starts. */
  lemma LineThenRest(first: string, second: string, third: string, rest: string)
    requires '\n' !in first && '\n' !in second && '\n' !in third
    ensures Split(Line(first, second, third) + rest, '\n') ==
      [first + "|" + second + "|" + third] + Split(rest, '\n')
  {
    var cells := first + "|" + second + "|" + third;
    assert Line(first, second, third) + rest == cells + ['\n'] + rest;
    SplitPrefix(cells, '\n', rest);
  }

  /**
   * The report holds the line of the `n`-th language in ascending order
   * right after the lines of the languages before it, and before those of
   * the languages after it.
   */
  lemma ReportLineAt(m: map<string, seq<Repos>>, n: nat)
    requires n < |m|
    ensures var keys := SortedOf(m.Keys);
      Report(m) == Line("Language", StarEmoji, "Repos") + Line("---", "---", "---") +
        Table(m, keys[..n]) + LanguageLine(m, keys[n]) + Table(m, keys[n + 1..])
  {
    var keys := SortedOf(m.Keys);
    TableLineAt(m, keys, n);
    ConcatAssociative(Line("Language", StarEmoji, "Repos") + Line("---", "---", "---"),
      Table(m, keys[..n]) + LanguageLine(m, keys[n]), Table(m, keys[n + 1..]));
    ConcatAssociative(Line("Language", StarEmoji, "Repos") + Line("---", "---", "---"),
      Table(m, keys[..n]), LanguageLine(m, keys[n]));
  }

  // ---------------------------------------------------------------------------
  // Properties of the table
  // ---------------------------------------------------------------------------

  /** A line splits back into its three cells when the first two hold no '|'. */
  lemma LineCells(first: string, second: string, third: string)
    requires '|' !in first && '|' !in second && '|' !in third
    ensures Split(Line(first, second, third), '|') == [first, second, third + "\n"]
  {
    assert Line(first, second, third) == first + ['|'] + (second + ['|'] + (third + "\n"));
    SplitPrefix(first, '|', second + ['|'] + (third + "\n"));
    SplitPrefix(second, '|', third + "\n");
    assert '|' !in third + "\n";
    SplitNoSeparator(third + "\n", '|');
  }

  /** Decimal counts hold no '|'. */
  lemma CountHasNoBar(n: nat)
    ensures '|' !in Itoa(n)
  {
    forall i | 0 <= i < |Digits(n)| ensures Digits(n)[i] != '|' {
      assert IsDigit(Digits(n)[i]);
    }
  }

  /** The header has the cells "Language", the star and "Repos". */
  lemma HeaderCells()
    ensures Split(Line("Language", StarEmoji, "Repos"), '|') == ["Language", StarEmoji, "Repos" + "\n"]
  {
    LineCells("Language", StarEmoji, "Repos");
  }

  /** The separator has three "---" cells. */
  lemma SeparatorCells()
    ensures Split(Line("---", "---", "---"), '|') == ["---", "---", "---" + "\n"]
  {
    LineCells("---", "---", "---");
  }

  /**
   * The line of a language whose name and links hold no '|' has three
   * cells: the language, the count that reads back as its number of
   * entries, and the links.
   */
  lemma LanguageLineCells(m: map<string, seq<Repos>>, k: string)
    requires k in m && |m[k]| <= MaxInt64
    requires '|' !in k && '|' !in Join(Rendered(m[k]), ", ")
    ensures var cells := Split(LanguageLine(m, k), '|');
      |cells| == 3 && cells[0] == k && Atoi(cells[1]) == Parsed(|m[k]|, NoError) &&
      cells[2] == Join(Rendered(m[k]), ", ") + "\n"
  {
    CountHasNoBar(|m[k]|);
    LineCells(k, Itoa(|m[k]|), Join(Rendered(m[k]), ", "));
    AtoiItoa(|m[k]|);
  }

  /** The table has one line per listed key: adding a key adds its line at the end. */
  lemma TableAppend(m: map<string, seq<Repos>>, keys: seq<string>, k: string)
    ensures Table(m, keys + [k]) == Table(m, keys) + LanguageLine(m, k)
  {
    assert (keys + [k])[..|keys|] == keys;
  }

  /** The table holds the line of the `n`-th key between the lines of the keys before and after it. */
  lemma TableLineAt(m: map<string, seq<Repos>>, keys: seq<string>, n: nat)
    requires n < |keys|
    ensures Table(m, keys) == (Table(m, keys[..n]) + LanguageLine(m, keys[n])) + Table(m, keys[n + 1..])
  {
    assert keys == keys[..n] + [keys[n]] + keys[n + 1..];
    TableConcat(m, keys[..n] + [keys[n]], keys[n + 1..]);
    TableAppend(m, keys[..n], keys[n]);
  }

  /** The table of two runs of keys is the first run's table followed by the second's. */
  lemma {:induction false} TableConcat(m: map<string, seq<Repos>>, a: seq<string>, b: seq<string>)
    ensures Table(m, a + b) == Table(m, a) + Table(m, b)
    decreases |b|
  {
    if b == [] {
      assert a + b == a;
      assert Table(m, a) + Table(m, b) == Table(m, a);
    } else {
      var init, last := b[..|b| - 1], b[|b| - 1];
      assert init + [last] == b;
      TableConcat(m, a, init);
      TableConcatStep(m, a, init, last);
    }
  }

  lemma {:induction false} TableConcatStep(m: map<string, seq<Repos>>, a: seq<string>, init: seq<string>, last: string)
    requires Table(m, a + init) == Table(m, a) + Table(m, init)
    ensures Table(m, a + (init + [last])) == Table(m, a) + Table(m, init + [last])
  {
    KeysAssociative(a, init, [last]);
    TableAppend(m, a + init, last);
    TableAppend(m, init, last);
    ConcatAssociative(Table(m, a), Table(m, init), LanguageLine(m, last));
  }

  lemma KeysAssociative(x: seq<string>, y: seq<string>, z: seq<string>)
    ensures x + (y + z) == (x + y) + z
  {
  }

  lemma ConcatAssociative(x: string, y: string, z: string)
    ensures (x + y) + z == x + (y + z)
  {
  }
}
