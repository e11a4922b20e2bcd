/**
 * The content loader (`Staticman`, and its copy `Content`): list the markdown
 * files of a directory, split each into a YAML header and a markdown body, sort
 * the parsed entries by date (newest first), assemble them into content items,
 * and answer "all items", "the item with this slug" and "a random item".
 *
 * The directory is given as its listing, each entry with the text of the file;
 * the YAML parser and the markdown renderer are passed in as functions.
 */
module Content {
  import opened Wrappers
  import opened Text
  import opened Seqs
  import opened Sections
  import TimeAgo

  /** The values a YAML document loads to. Dates are milliseconds since the epoch. */
  datatype Yaml =
    | Str(s: string)
    | Timestamp(millis: int)
    | Bool(b: bool)
    | Number(n: int)
    | List(elements: seq<Yaml>)
    | Mapping(entries: map<string, Yaml>)
    | Null

  /** One entry of the directory listing, with the text of the file it names. */
  datatype File = File(name: string, text: string)

  /**
   * The foreign collaborators: `Yams.load` (nil for an empty document) and
   * `markdownToHTML`. Either may throw; the message is kept.
   */
  datatype Tools = Tools(
    loadYaml: string -> Result<Option<Yaml>, string>,
    markdownToHtml: string -> Result<string, string>)

  /** A parsed file: `["yaml": yamlData, "entry": contentData]`. */
  datatype RawItem = RawItem(yaml: map<string, Yaml>, entry: string)

  /** The public record; `date` holds the relative time, not the date. */
  datatype ContentItem = ContentItem(title: string, status: string, slug: string, date: string, entry: string)

  datatype Error =
    | YamlError(message: string)      // Yams.load threw
    | MarkdownError(message: string)  // markdownToHTML threw
    | NotFound(slug: string)          // getItem found no item: the nil result traps
    | NoCandidates                    // randomElement() on an empty list: the nil result traps

  // ---------------------------------------------------------------------------
  // getContentFiles

  predicate IsMarkdown(f: File) {
    HasSuffix(f.name, ".md")
  }

  /**
   * The entries of the listing whose names end in ".md": exactly those, in
   * listing order.
   */
  method GetContentFiles(files: seq<File>) returns (markdownFiles: seq<File>)
    ensures markdownFiles == Filter(files, IsMarkdown)
    ensures forall f :: f in markdownFiles <==> f in files && IsMarkdown(f)
  {
    markdownFiles := [];
    var i := 0;
    while i < |files|
      invariant 0 <= i <= |files|
      invariant markdownFiles == Filter(files[..i], IsMarkdown)
    {
      FilterStep(files, IsMarkdown, i);
      if IsMarkdown(files[i]) {
        markdownFiles := markdownFiles + [files[i]];
      }
      i := i + 1;
    }
    assert files[..i] == files;
    FilterMembership(files, IsMarkdown);
  }

  // ---------------------------------------------------------------------------
  // parseContentFiles

  /** `Yams.load(...) as? [String: Any] ?? [:]`: a mapping, or else the empty map. */
  function YamlMap(v: Option<Yaml>): (m: map<string, Yaml>)
    ensures v.Some? && v.value.Mapping? ==> m == v.value.entries
    ensures !(v.Some? && v.value.Mapping?) ==> m == map[]
  {
    match v
    case Some(Mapping(entries)) => entries
    case _ => map[]
  }

  predicate HasHeader(f: File) {
    HeaderSpan(f.text).Some?
  }

  /**
   * One file: no item when it has no header span; otherwise the loaded header
   * and the rendered body, unless the YAML parser or the renderer throws.
   */
  function ParseFile(f: File, tools: Tools): (r: Result<Option<RawItem>, Error>)
    ensures !HasHeader(f) ==> r == Success(None)
    ensures HasHeader(f) ==> r != Success(None)
    ensures r.Success? && r.value.Some? ==>
      && tools.loadYaml(Header(f.text)).Success?
      && r.value.value.yaml == YamlMap(tools.loadYaml(Header(f.text)).value)
      && BodyStart(f.text).Some?
      && tools.markdownToHtml(Body(f.text)) == Success(r.value.value.entry)
    ensures HasHeader(f) && r.Failure? ==>
      || (tools.loadYaml(Header(f.text)).Failure? && r.error == YamlError(tools.loadYaml(Header(f.text)).error))
      || (tools.loadYaml(Header(f.text)).Success?
          && BodyStart(f.text).Some? && tools.markdownToHtml(Body(f.text)).Failure?
          && r.error == MarkdownError(tools.markdownToHtml(Body(f.text)).error))
  {
    match HeaderSpan(f.text)
    case None => Success(None)
    case Some((p, q)) =>
      match tools.loadYaml(f.text[p..q])
      case Failure(e) => Failure(YamlError(e))
      case Success(v) =>
        var yaml := YamlMap(v);
        HeaderImpliesBody(f.text);
        match BodyStart(f.text)
        case None => Success(None)
        case Some(b) =>
          match tools.markdownToHtml(f.text[b..])
          case Failure(e) => Failure(MarkdownError(e))
          case Success(html) => Success(Some(RawItem(yaml, html)))
  }

  /** The loop of `parseContentFiles`: the first file whose parser or renderer throws aborts it. */
  function ParseAll(files: seq<File>, tools: Tools): Result<seq<RawItem>, Error> {
    if files == [] then Success([])
    else
      match ParseAll(files[..|files| - 1], tools)
      case Failure(e) => Failure(e)
      case Success(items) =>
        match ParseFile(files[|files| - 1], tools)
        case Failure(e) => Failure(e)
        case Success(None) => Success(items)
        case Success(Some(item)) => Success(items + [item])
  }

  /** Once a prefix of the files fails, the whole parse fails with that error. */
  lemma {:induction false} FailureIsFinal(files: seq<File>, k: nat, tools: Tools)
    requires k <= |files| && ParseAll(files[..k], tools).Failure?
    ensures ParseAll(files, tools) == ParseAll(files[..k], tools)
    decreases |files| - k
  {
    if k < |files| {
      assert files[..k + 1][..k] == files[..k];
      FailureIsFinal(files, k + 1, tools);
    } else {
      assert files[..k] == files;
    }
  }

  method ParseContentFiles(files: seq<File>, tools: Tools) returns (r: Result<seq<RawItem>, Error>)
    ensures r == ParseAll(files, tools)
  {
    var items: seq<RawItem> := [];
    var i := 0;
    while i < |files|
      invariant 0 <= i <= |files|
      invariant ParseAll(files[..i], tools) == Success(items)
    {
      assert files[..i + 1][..i] == files[..i];
      match ParseFile(files[i], tools) {
        case Failure(e) =>
          FailureIsFinal(files, i + 1, tools);
          return Failure(e);
        case Success(None) =>
        case Success(Some(item)) =>
          items := items + [item];
      }
      i := i + 1;
    }
    assert files[..i] == files;
    r := Success(items);
  }

  /** Parsing succeeds exactly when no file's parser or renderer throws. */
  lemma ParseAllSucceeds(files: seq<File>, tools: Tools)
    ensures ParseAll(files, tools).Success? <==> forall i :: 0 <= i < |files| ==> ParseFile(files[i], tools).Success?
  {
    if ParseAll(files, tools).Success? {
      SuccessMeansEveryFileParses(files, tools);
    } else {
      FailureMeansSomeFileThrows(files, tools);
    }
  }

  lemma {:induction false} SuccessMeansEveryFileParses(files: seq<File>, tools: Tools)
    requires ParseAll(files, tools).Success?
    ensures forall i :: 0 <= i < |files| ==> ParseFile(files[i], tools).Success?
  {
    if files != [] {
      var init := files[..|files| - 1];
      assert files == init + [files[|files| - 1]];
      assert ParseAll(init, tools).Success?;
      SuccessMeansEveryFileParses(init, tools);
      forall i | 0 <= i < |init| ensures files[i] == init[i] { }
    }
  }

  lemma {:induction false} FailureMeansSomeFileThrows(files: seq<File>, tools: Tools)
    requires ParseAll(files, tools).Failure?
    ensures exists i :: 0 <= i < |files| && ParseFile(files[i], tools).Failure?
  {
    var init := files[..|files| - 1];
    var last := files[|files| - 1];
    if ParseAll(init, tools).Failure? {
      FailureMeansSomeFileThrows(init, tools);
      var i :| 0 <= i < |init| && ParseFile(init[i], tools).Failure?;
      assert files[i] == init[i];
    } else {
      assert ParseFile(last, tools).Failure?;
    }
  }

  /**
   * A successful parse yields one item per file that has a header span, in file
   * order, each the parse of that file.
   */
  lemma {:induction false} ParseAllOnePerHeader(files: seq<File>, tools: Tools)
    requires ParseAll(files, tools).Success?
    ensures var items := ParseAll(files, tools).value;
      var withHeader := Filter(files, HasHeader);
      && |items| == |withHeader|
      && forall k :: 0 <= k < |items| ==> ParseFile(withHeader[k], tools) == Success(Some(items[k]))
  {
    if files != [] {
      var init := files[..|files| - 1];
      var last := files[|files| - 1];
      ParseAllOnePerHeader(init, tools);
      var items := ParseAll(init, tools).value;
      var withHeader := Filter(init, HasHeader);
      match ParseFile(last, tools)
      case Success(None) =>
        assert !HasHeader(last);
      case Success(Some(item)) =>
        assert HasHeader(last);
        assert ParseAll(files, tools).value == items + [item];
        assert Filter(files, HasHeader) == withHeader + [last];
    }
  }

  // ---------------------------------------------------------------------------
  // sortContentByDateDesc

  /** `yaml["date"] as! Date` succeeds. */
  predicate Dated(item: RawItem) {
    "date" in item.yaml && item.yaml["date"].Timestamp?
  }

  function DateOf(item: RawItem): int
    requires Dated(item)
  {
    item.yaml["date"].millis
  }

  predicate AllDated(s: seq<RawItem>) {
    forall i :: 0 <= i < |s| ==> Dated(s[i])
  }

  /** Every item is dated and no item is older than one after it. */
  predicate NewestFirst(s: seq<RawItem>) {
    && AllDated(s)
    && forall i, j :: 0 <= i < j < |s| ==> DateOf(s[i]) >= DateOf(s[j])
  }

  /** Putting an entry no older than the head in front keeps a sequence newest-first. */
  lemma ConsNewestFirst(y: RawItem, s: seq<RawItem>)
    requires Dated(y) && NewestFirst(s)
    requires s != [] ==> DateOf(y) >= DateOf(s[0])
    ensures NewestFirst([y] + s)
  {
    var r := [y] + s;
    forall i, j | 0 <= i < j < |r| ensures DateOf(r[i]) >= DateOf(r[j]) {
      if i == 0 {
        assert r[j] == s[j - 1];
        assert DateOf(s[0]) >= DateOf(s[j - 1]);
      } else {
        assert r[i] == s[i - 1] && r[j] == s[j - 1];
      }
    }
  }

  /** No two entries share a date. */
  predicate DistinctDates(s: seq<RawItem>)
    requires AllDated(s)
  {
    forall i, j :: 0 <= i < j < |s| ==> DateOf(s[i]) != DateOf(s[j])
  }

  /** Dropping the newest entry keeps a sequence newest-first (and its dates distinct). */
  lemma NewestFirstTail(s: seq<RawItem>)
    requires s != [] && NewestFirst(s)
    ensures NewestFirst(s[1..])
    ensures DistinctDates(s) ==> DistinctDates(s[1..])
  {
    forall i, j | 0 <= i < j < |s| - 1
      ensures DateOf(s[1..][i]) >= DateOf(s[1..][j])
      ensures DistinctDates(s) ==> DateOf(s[1..][i]) != DateOf(s[1..][j])
    {
      assert s[1..][i] == s[i + 1] && s[1..][j] == s[j + 1];
    }
  }

  /** Inserts `x` into a newest-first sequence, before the first entry not newer than it. */
  function Insert(x: RawItem, s: seq<RawItem>): (r: seq<RawItem>)
    requires Dated(x) && NewestFirst(s)
    ensures multiset(r) == multiset(s) + multiset{x}
    ensures NewestFirst(r)
    ensures r[0] == x || (s != [] && r[0] == s[0])
  {
    if s == [] then [x]
    else if DateOf(x) >= DateOf(s[0]) then
      ConsNewestFirst(x, s);
      [x] + s
    else
      NewestFirstTail(s);
      var rest := Insert(x, s[1..]);
      InsertBehindHead(x, s, rest);
      [s[0]] + rest
  }

  /** Keeping the head in front of the insertion into the tail, when `x` is older than the head. */
  lemma InsertBehindHead(x: RawItem, s: seq<RawItem>, rest: seq<RawItem>)
    requires Dated(x) && NewestFirst(s) && s != [] && DateOf(x) < DateOf(s[0])
    requires NewestFirst(rest) && multiset(rest) == multiset(s[1..]) + multiset{x}
    requires rest[0] == x || (|s| > 1 && rest[0] == s[1])
    ensures NewestFirst([s[0]] + rest)
    ensures multiset([s[0]] + rest) == multiset(s) + multiset{x}
  {
    ConsNewestFirst(s[0], rest);
    assert s == [s[0]] + s[1..];
  }

  /**
   * `content.sorted(by: { dateA > dateB })`: a permutation of its input whose
   * dates never increase. The comparator casts both dates, so every entry must
   * be dated once there are two or more.
   */
  function SortContentByDateDesc(content: seq<RawItem>): (r: seq<RawItem>)
    requires |content| <= 1 || AllDated(content)
    ensures multiset(r) == multiset(content)
    ensures |content| >= 2 ==> NewestFirst(r)
  {
    if |content| <= 1 then content
    else
      var rest := SortContentByDateDesc(content[1..]);
      assert NewestFirst(rest) by {
        if |content| == 2 {
          assert rest == content[1..];
        }
      }
      assert content == [content[0]] + content[1..];
      Insert(content[0], rest)
  }

  /** A permutation of entries that all satisfy `WellTyped` (or `Dated`) consists of such entries. */
  lemma PermutationKeepsTypes(a: seq<RawItem>, b: seq<RawItem>)
    requires multiset(a) == multiset(b)
    ensures (forall i :: 0 <= i < |a| ==> WellTyped(a[i])) ==> forall i :: 0 <= i < |b| ==> WellTyped(b[i])
    ensures AllDated(a) ==> AllDated(b)
  {
    forall i | 0 <= i < |b| ensures exists j :: 0 <= j < |a| && a[j] == b[i] {
      assert b[i] in multiset(a);
    }
  }


  /** Two newest-first permutations of entries with distinct dates start with the same entry. */
  lemma SameNewest(a: seq<RawItem>, b: seq<RawItem>)
    requires a != [] && multiset(a) == multiset(b)
    requires NewestFirst(a) && NewestFirst(b) && DistinctDates(a)
    ensures b != [] && a[0] == b[0]
  {
    assert |a| == |multiset(a)| == |multiset(b)| == |b|;
    assert a[0] in multiset(b);
    var j :| 0 <= j < |b| && b[j] == a[0];
    assert b[0] in multiset(a);
    var i :| 0 <= i < |a| && a[i] == b[0];
    assert DateOf(a[i]) == DateOf(b[0]) >= DateOf(b[j]) == DateOf(a[0]);
    assert i == 0;
  }

  /** Removing the same first entry from two permutations leaves permutations. */
  lemma TailsArePermutations(a: seq<RawItem>, b: seq<RawItem>)
    requires a != [] && b != [] && a[0] == b[0] && multiset(a) == multiset(b)
    ensures multiset(a[1..]) == multiset(b[1..])
  {
    assert a == [a[0]] + a[1..];
    assert b == [b[0]] + b[1..];
    assert multiset(a[1..]) == multiset(a) - multiset{a[0]};
    assert multiset(b[1..]) == multiset(b) - multiset{b[0]};
  }

  /**
   * Sorting is determined by the dates when they are distinct: two newest-first
   * permutations of the same entries are equal. (Entries with equal dates may
   * come out in either order; Swift's sort is not stable.)
   */
  lemma {:induction false} NewestFirstIsUnique(a: seq<RawItem>, b: seq<RawItem>)
    requires multiset(a) == multiset(b) && NewestFirst(a) && NewestFirst(b) && DistinctDates(a)
    ensures a == b
    decreases |a|
  {
    if a == [] {
      assert |b| == |multiset(b)| == 0;
    } else {
      SameNewest(a, b);
      TailsArePermutations(a, b);
      NewestFirstTail(a);
      NewestFirstTail(b);
      NewestFirstIsUnique(a[1..], b[1..]);
      assert a == [a[0]] + a[1..] && b == [b[0]] + b[1..];
    }
  }

  /** Three entries A (oldest), B and C (newest), in any order, sort to [C, B, A]. */
  lemma ThreeEntries(A: RawItem, B: RawItem, C: RawItem, content: seq<RawItem>)
    requires Dated(A) && Dated(B) && Dated(C)
    requires DateOf(A) < DateOf(B) < DateOf(C)
    requires multiset(content) == multiset([C, B, A])
    ensures SortContentByDateDesc(content) == [C, B, A]
  {
    var cba := [C, B, A];
    assert NewestFirst(cba) && DistinctDates(cba);
    PermutationKeepsTypes(cba, content);
    assert |content| == |multiset(content)| == 3;
    var r := SortContentByDateDesc(content);
    NewestFirstIsUnique(cba, r);
  }

  // ---------------------------------------------------------------------------
  // getItems

  /** The casts of `getItems` succeed: title, status and slug are strings and date a date. */
  predicate WellTyped(item: RawItem) {
    && "title" in item.yaml && item.yaml["title"].Str?
    && "status" in item.yaml && item.yaml["status"].Str?
    && "slug" in item.yaml && item.yaml["slug"].Str?
    && Dated(item)
  }

  function Title(item: RawItem): string
    requires WellTyped(item)
  {
    item.yaml["title"].s
  }

  function Status(item: RawItem): string
    requires WellTyped(item)
  {
    item.yaml["status"].s
  }

  function Slug(item: RawItem): string
    requires WellTyped(item)
  {
    item.yaml["slug"].s
  }

  /** `ContentItem(title: title, status: status, slug: slug, date: timeAgo, entry: entry)`. */
  function Assemble(item: RawItem, now: int): ContentItem
    requires WellTyped(item)
  {
    ContentItem(Title(item), Status(item), Slug(item), TimeAgo.RelativeTime(now, DateOf(item)), item.entry)
  }

  function AssembleAll(sortedContent: seq<RawItem>, now: int): seq<ContentItem>
    requires forall i :: 0 <= i < |sortedContent| ==> WellTyped(sortedContent[i])
  {
    seq(|sortedContent|, i requires 0 <= i < |sortedContent| => Assemble(sortedContent[i], now))
  }

  /**
   * The loop of `getItems`: one content item per sorted entry, in the same
   * order, copying title, status, slug and entry, with the date replaced by its
   * relative time at `now`.
   */
  method AssembleItems(sortedContent: seq<RawItem>, now: int) returns (items: seq<ContentItem>)
    requires forall i :: 0 <= i < |sortedContent| ==> WellTyped(sortedContent[i])
    ensures |items| == |sortedContent|
    ensures forall i :: 0 <= i < |sortedContent| ==>
      && items[i].title == Title(sortedContent[i])
      && items[i].status == Status(sortedContent[i])
      && items[i].slug == Slug(sortedContent[i])
      && items[i].date == TimeAgo.RelativeTime(now, DateOf(sortedContent[i]))
      && items[i].entry == sortedContent[i].entry
    ensures items == AssembleAll(sortedContent, now)
  {
    items := [];
    for i := 0 to |sortedContent|
      invariant |items| == i
      invariant forall k :: 0 <= k < i ==> items[k] == Assemble(sortedContent[k], now)
    {
      items := items + [Assemble(sortedContent[i], now)];
    }
  }

  /** What `getItems` demands of the directory: every entry it parses passes the casts. */
  predicate Loadable(dir: seq<File>, tools: Tools) {
    var parsed := ParseAll(Filter(dir, IsMarkdown), tools);
    parsed.Success? ==> forall i :: 0 <= i < |parsed.value| ==> WellTyped(parsed.value[i])
  }

  /** The listing `getItems` returns, as a function of the directory, the tools and the clock. */
  function Listing(dir: seq<File>, tools: Tools, now: int): Result<seq<ContentItem>, Error>
    requires Loadable(dir, tools)
  {
    match ParseAll(Filter(dir, IsMarkdown), tools)
    case Failure(e) => Failure(e)
    case Success(parsed) =>
      var sorted := SortContentByDateDesc(parsed);
      PermutationKeepsTypes(parsed, sorted);
      Success(AssembleAll(sorted, now))
  }

  /** `getItems`: list, parse, sort, assemble. */
  method GetItems(dir: seq<File>, tools: Tools, now: int) returns (r: Result<seq<ContentItem>, Error>)
    requires Loadable(dir, tools)
    ensures r == Listing(dir, tools, now)
  {
    var contentFiles := GetContentFiles(dir);
    var parsedContent := ParseContentFiles(contentFiles, tools);
    match parsedContent {
      case Failure(e) =>
        return Failure(e);
      case Success(parsed) =>
        var sortedContent := SortContentByDateDesc(parsed);
        PermutationKeepsTypes(parsed, sortedContent);
        var items := AssembleItems(sortedContent, now);
        return Success(items);
    }
  }

  /**
   * The listing has one item per markdown file with a header span, provided no
   * parser or renderer throws.
   */
  lemma ListingOnePerHeader(dir: seq<File>, tools: Tools, now: int)
    requires Loadable(dir, tools)
    ensures Listing(dir, tools, now).Success? <==>
      forall f :: f in Filter(dir, IsMarkdown) ==> ParseFile(f, tools).Success?
    ensures Listing(dir, tools, now).Success? ==>
      |Listing(dir, tools, now).value| == |Filter(Filter(dir, IsMarkdown), HasHeader)|
  {
    var md := Filter(dir, IsMarkdown);
    ParseAllSucceeds(md, tools);
    if ParseAll(md, tools).Success? {
      ParseAllOnePerHeader(md, tools);
    }
    if forall f :: f in md ==> ParseFile(f, tools).Success? {
      assert forall i :: 0 <= i < |md| ==> ParseFile(md[i], tools).Success?;
    }
    if ParseAll(md, tools).Success? {
      var sorted := SortContentByDateDesc(ParseAll(md, tools).value);
      assert |multiset(sorted)| == |sorted|;
    }
  }

  // ---------------------------------------------------------------------------
  // getItem

  /** Some item carries `slug`. */
  predicate HasSlug(items: seq<ContentItem>, slug: string) {
    exists i :: 0 <= i < |items| && items[i].slug == slug
  }

  /** `x` is the last item that carries `slug`. */
  predicate IsLastWithSlug(items: seq<ContentItem>, slug: string, x: ContentItem) {
    exists i :: 0 <= i < |items| && items[i] == x && x.slug == slug
      && forall j :: i < j < |items| ==> items[j].slug != slug
  }

  /**
   * The loop of `getItem`: the last item whose slug matches; with none, the nil
   * result traps, modelled as `NotFound`.
   */
  method FindLastWithSlug(items: seq<ContentItem>, slug: string) returns (r: Result<ContentItem, Error>)
    ensures r.Success? <==> HasSlug(items, slug)
    ensures r.Success? ==> IsLastWithSlug(items, slug, r.value)
    ensures r.Failure? ==> r.error == NotFound(slug)
  {
    var item: Option<ContentItem> := None;
    ghost var at := -1;
    for i := 0 to |items|
      invariant -1 <= at < i
      invariant item.Some? <==> at >= 0
      invariant at >= 0 ==> items[at] == item.value && item.value.slug == slug
      invariant forall j :: at < j < i ==> items[j].slug != slug
    {
      if items[i].slug == slug {
        item := Some(items[i]);
        at := i;
      }
    }
    if item.Some? {
      r := Success(item.value);
    } else {
      r := Failure(NotFound(slug));
    }
  }

  /** `getItem(slug:)`: the last listed item with that slug, or the loading error, or `NotFound`. */
  method GetItem(dir: seq<File>, tools: Tools, now: int, slug: string) returns (r: Result<ContentItem, Error>)
    requires Loadable(dir, tools)
    ensures Listing(dir, tools, now).Failure? ==> r == Failure(Listing(dir, tools, now).error)
    ensures Listing(dir, tools, now).Success? ==>
      var items := Listing(dir, tools, now).value;
      && (r.Success? <==> HasSlug(items, slug))
      && (r.Success? ==> IsLastWithSlug(items, slug, r.value))
      && (r.Failure? ==> r.error == NotFound(slug))
  {
    var listed := GetItems(dir, tools, now);
    match listed {
      case Failure(e) =>
        r := Failure(e);
      case Success(items) =>
        r := FindLastWithSlug(items, slug);
    }
  }

  /** With unique slugs, the item found is the one with that slug. */
  lemma LastWithUniqueSlug(items: seq<ContentItem>, slug: string, i: nat, x: ContentItem)
    requires i < |items| && items[i].slug == slug
    requires forall j :: 0 <= j < |items| && j != i ==> items[j].slug != slug
    requires IsLastWithSlug(items, slug, x)
    ensures x == items[i]
  {
  }

  // ---------------------------------------------------------------------------
  // randomItem

  /** A candidate of `randomItem(exceptWithSlug:)`: another slug, and not private. */
  predicate Eligible(item: ContentItem, exceptWithSlug: string) {
    item.slug != exceptWithSlug && item.status != "private"
  }

  /**
   * The selection of `randomItem`: with a slug to except, some item that is
   * neither that slug nor private; without one, any item. No candidate traps,
   * modelled as `NoCandidates`. Which candidate is picked is left open.
   */
  method PickRandom(items: seq<ContentItem>, exceptWithSlug: Option<string>) returns (r: Result<ContentItem, Error>)
    ensures r.Success? ==> r.value in items
    ensures exceptWithSlug.Some? ==>
      (r.Success? <==> exists i :: 0 <= i < |items| && Eligible(items[i], exceptWithSlug.value))
    ensures exceptWithSlug.Some? && r.Success? ==> Eligible(r.value, exceptWithSlug.value)
    ensures exceptWithSlug.None? ==> (r.Success? <==> items != [])
    ensures r.Failure? ==> r.error == NoCandidates
  {
    if exceptWithSlug.Some? {
      var except := exceptWithSlug.value;
      var eligible := (x: ContentItem) => Eligible(x, except);
      var itemsWithoutException: seq<ContentItem> := [];
      for i := 0 to |items|
        invariant itemsWithoutException == Filter(items[..i], eligible)
      {
        FilterStep(items, eligible, i);
        if items[i].slug != except && items[i].status != "private" {
          itemsWithoutException := itemsWithoutException + [items[i]];
        }
      }
      assert items[..|items|] == items;
      FilterMembership(items, eligible);
      if exists i :: 0 <= i < |items| && Eligible(items[i], except) {
        var i :| 0 <= i < |items| && Eligible(items[i], except);
        assert items[i] in itemsWithoutException;
      }
      if itemsWithoutException == [] {
        r := Failure(NoCandidates);
      } else {
        var k :| 0 <= k < |itemsWithoutException|;
        r := Success(itemsWithoutException[k]);
      }
    } else {
      if items == [] {
        r := Failure(NoCandidates);
      } else {
        var k :| 0 <= k < |items|;
        r := Success(items[k]);
      }
    }
  }

  /** `randomItem(exceptWithSlug:)`: load the listing, then pick from it. */
  method RandomItem(dir: seq<File>, tools: Tools, now: int, exceptWithSlug: Option<string>)
    returns (r: Result<ContentItem, Error>)
    requires Loadable(dir, tools)
    ensures Listing(dir, tools, now).Failure? ==> r == Failure(Listing(dir, tools, now).error)
    ensures Listing(dir, tools, now).Success? ==>
      var items := Listing(dir, tools, now).value;
      && (r.Success? ==> r.value in items)
      && (exceptWithSlug.Some? && r.Success? ==>
            r.value.slug != exceptWithSlug.value && r.value.status != "private")
      && (exceptWithSlug.Some? ==>
            (r.Failure? <==> forall x :: x in items ==> !Eligible(x, exceptWithSlug.value)))
      && (exceptWithSlug.None? ==> (r.Failure? <==> items == []))
      && (r.Failure? ==> r.error == NoCandidates)
  {
    var listed := GetItems(dir, tools, now);
    match listed {
      case Failure(e) =>
        r := Failure(e);
      case Success(items) =>
        r := PickRandom(items, exceptWithSlug);
    }
  }
}
