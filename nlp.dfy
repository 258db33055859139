/**
 * The chat "NLP" service (services/mcpService.js) after classification: the
 * visualisation table, the sector distribution, search-term extraction and
 * record filtering, and the reply each intent produces. The Bayes classifier is
 * not part of this model: the intent label it would return is a parameter.
 */
module Nlp {
  import opened Wrappers
  import opened Js
  import opened Records

  // ---------------------------------------------------------------- replies

  /** One entry of the example-command catalogue, in the order `Object.entries` yields it. */
  datatype Category = Category(name: string, commands: seq<string>)

  const ListCommands: seq<string> := ["show all records", "what records do you have", "list everything"]
  const SearchCommands: seq<string> :=
    ["find records in Technology", "search for Healthcare records", "show records in Finance"]
  const AnalyzeCommands: seq<string> :=
    ["show distribution of records by sector", "analyze records", "compare sectors"]

  /** `EXAMPLE_COMMANDS`. */
  const ExampleCommands: seq<Category> :=
    [Category("list", ListCommands), Category("search", SearchCommands), Category("analyze", AnalyzeCommands)]

  /** The commands of a catalogue, category after category. */
  function Flatten(cats: seq<Category>): (cmds: seq<string>)
    ensures forall k :: 0 <= k < |cats| ==> forall c :: c in cats[k].commands ==> c in cmds
  {
    if |cats| == 0 then [] else Flatten(cats[..|cats| - 1]) + cats[|cats| - 1].commands
  }

  datatype Visualization = ChartView | TableView | ListView | CommandsView

  /** What a reply carries in `data`: `null`, the command catalogue, a list of
      records, or the sector counts object. */
  datatype ReplyData =
    | NoData
    | Commands(catalog: seq<Category>)
    | RecordList(records: seq<Record>)
    | Distribution(counts: map<string, nat>)

  /** A chat reply `{success, message, data, visualization, chartType}`; an absent
      field is `None`. */
  datatype ChatReply = ChatReply(
    success: bool,
    message: string,
    data: ReplyData,
    visualization: Option<Visualization>,
    chartType: Option<string>)

  /** JavaScript truthiness of `data`: only `null` is falsy; arrays and objects are
      truthy even when empty. */
  predicate DataTruthy(d: ReplyData) {
    !d.NoData?
  }

  // ---------------------------------------------------------------- visualisation

  /** `determineVisualization`: nothing for an empty result, a chart for analysis,
      a table for searches of more than ten results and a list below that, and a
      table for every other intent. */
  function DetermineVisualization(intent: string, results: seq<Record>): (r: Option<Visualization>)
    ensures r.None? <==> |results| == 0
    ensures r == Some(ChartView) <==> |results| > 0 && intent == "analyze"
    ensures r == Some(ListView) <==> intent == "search" && 0 < |results| <= 10
    ensures r == Some(TableView) <==>
      |results| > 0 && intent != "analyze" && (intent == "search" ==> |results| > 10)
    ensures r != Some(CommandsView)
  {
    if |results| == 0 then None
    else if intent == "analyze" then Some(ChartView)
    else if intent == "search" then (if |results| > 10 then Some(TableView) else Some(ListView))
    else if intent == "list" then Some(TableView)
    else Some(TableView)
  }

  // ---------------------------------------------------------------- sectors

  const SectorSeparator: string := " - "

  /** `record.name.split(' - ')[1]` used as a property key: the text between the
      first separator and the next one (or the end); a name without a separator
      gives `undefined`, which becomes the key "undefined". */
  function SectorKey(name: string): string {
    var parts := Split(name, SectorSeparator);
    if |parts| > 1 then parts[1] else "undefined"
  }

  /** `key` is the text of `name` that starts right after the separator found at
      `p` and runs up to the next separator or to the end: no separator starts
      inside it, even one that would run past its end. */
  predicate SegmentAfter(name: string, p: nat, key: string) {
    && p + 3 + |key| <= |name|
    && name[p + 3..p + 3 + |key|] == key
    && !Contains(key, SectorSeparator)
    && (forall j :: p + 3 <= j < p + 3 + |key| ==> !OccursAt(name, SectorSeparator, j))
    && (p + 3 + |key| == |name| || OccursAt(name, SectorSeparator, p + 3 + |key|))
  }

  /** The segment after a separator is determined by the name and the position. */
  lemma SegmentUnique(name: string, p: nat, k1: string, k2: string)
    requires SegmentAfter(name, p, k1) && SegmentAfter(name, p, k2)
    ensures k1 == k2
  {
    var e1: nat, e2: nat := p + 3 + |k1|, p + 3 + |k2|;
    assert |k1| < |k2| ==> !OccursAt(name, SectorSeparator, e1);
    assert |k2| < |k1| ==> !OccursAt(name, SectorSeparator, e2);
  }

  /** The sector key is the segment after the first " - ", running to the next
      " - " or to the end of the name; with no separator it is "undefined". */
  lemma SectorKeySegment(name: string)
    ensures IndexOf(name, SectorSeparator).None? ==> SectorKey(name) == "undefined"
    ensures IndexOf(name, SectorSeparator).Some? ==>
      SegmentAfter(name, IndexOf(name, SectorSeparator).value, SectorKey(name))
  {
    assert |SectorSeparator| == 3;
    match IndexOf(name, SectorSeparator)
    case None =>
      assert Split(name, SectorSeparator) == [name];
    case Some(p) =>
      var rest := name[p + 3..];
      var parts := Split(name, SectorSeparator);
      assert parts == [name[..p]] + Split(rest, SectorSeparator);
      assert parts[1] == Split(rest, SectorSeparator)[0];
      FirstSegment(name, p, rest);
  }

  /** A separator in `name` past `p + 3` is one in `rest`, shifted. */
  lemma NoSeparatorBefore(name: string, p: nat, rest: string, q: nat)
    requires p + 3 <= |name| && rest == name[p + 3..] && q <= |rest|
    requires forall j :: 0 <= j < q ==> !OccursAt(rest, SectorSeparator, j)
    ensures forall j :: p + 3 <= j < p + 3 + q ==> !OccursAt(name, SectorSeparator, j)
  {
    forall j | p + 3 <= j < p + 3 + q
      ensures !OccursAt(name, SectorSeparator, j)
    {
      if OccursAt(name, SectorSeparator, j) {
        assert rest[j - p - 3..j - p] == name[j..j + 3];
        assert OccursAt(rest, SectorSeparator, j - p - 3);
      }
    }
  }

  lemma FirstSegment(name: string, p: nat, rest: string)
    requires p + 3 <= |name| && rest == name[p + 3..]
    ensures SegmentAfter(name, p, Split(rest, SectorSeparator)[0])
  {
    SplitLeftmost(rest, SectorSeparator);
    var key := Split(rest, SectorSeparator)[0];
    SegmentOfRest(name, p, rest, |key|);
  }

  /** The text after the separator at `p`, up to the first separator of what
      follows (or the end), is the segment after it. */
  lemma SegmentOfRest(name: string, p: nat, rest: string, q: nat)
    requires p + 3 <= |name| && rest == name[p + 3..] && q <= |rest|
    requires forall j :: 0 <= j < q ==> !OccursAt(rest, SectorSeparator, j)
    requires q == |rest| || OccursAt(rest, SectorSeparator, q)
    ensures SegmentAfter(name, p, rest[..q])
  {
    PrefixFree(rest, SectorSeparator, q);
    NoSeparatorBefore(name, p, rest, q);
    if q < |rest| {
      assert name[p + 3 + q..p + 3 + q + 3] == rest[q..q + 3];
    }
  }

  /** How many records have the given sector key. */
  function SectorCount(records: seq<Record>, key: string): nat {
    if |records| == 0 then 0
    else
      SectorCount(records[..|records| - 1], key)
      + (if SectorKey(records[|records| - 1].name) == key then 1 else 0)
  }

  /** The sector keys that occur among the records. */
  function SectorsOf(records: seq<Record>): set<string> {
    set i | 0 <= i < |records| :: SectorKey(records[i].name)
  }

  /** The object `analyzeSectorDistribution` returns, as a map from key to count. */
  function SectorDistribution(records: seq<Record>): map<string, nat> {
    map k | k in SectorsOf(records) :: SectorCount(records, k)
  }

  lemma SectorsSnoc(records: seq<Record>, r: Record)
    ensures SectorsOf(records + [r]) == SectorsOf(records) + {SectorKey(r.name)}
  {
    var rs := records + [r];
    forall x | x in SectorsOf(rs) ensures x in SectorsOf(records) + {SectorKey(r.name)} {
      var i :| 0 <= i < |rs| && SectorKey(rs[i].name) == x;
      if i < |records| { assert rs[i] == records[i]; }
    }
    forall x | x in SectorsOf(records) ensures x in SectorsOf(rs) {
      var i :| 0 <= i < |records| && SectorKey(records[i].name) == x;
      assert rs[i] == records[i];
    }
    assert rs[|records|] == r;
  }

  /** A key is counted at all exactly when some record carries it. */
  lemma {:induction false} SectorCountPositive(records: seq<Record>, key: string)
    ensures SectorCount(records, key) > 0 <==> key in SectorsOf(records)
  {
    if |records| > 0 {
      var init := records[..|records| - 1];
      var last := records[|records| - 1];
      SectorCountPositive(init, key);
      assert records == init + [last];
      SectorsSnoc(init, last);
    }
  }

  /** Counting one more record increments its key's count, creating the key at 1. */
  lemma DistributionStep(records: seq<Record>, r: Record)
    ensures var d := SectorDistribution(records);
      var k := SectorKey(r.name);
      SectorDistribution(records + [r]) == d[k := (if k in d then d[k] else 0) + 1]
  {
    var rs := records + [r];
    var d := SectorDistribution(records);
    var k := SectorKey(r.name);
    var e := d[k := (if k in d then d[k] else 0) + 1];
    var after := SectorDistribution(rs);
    assert after.Keys == e.Keys by {
      SectorsSnoc(records, r);
    }
    assert forall x :: x in after.Keys ==> after[x] == e[x] by {
      forall x | x in after.Keys
        ensures after[x] == e[x]
      {
        CountSnoc(records, r, x);
        if x == k && k !in d {
          SectorCountPositive(records, k);
        }
      }
    }
    MapsEqual(after, e);
  }

  lemma MapsEqual<K, V>(a: map<K, V>, b: map<K, V>)
    requires a.Keys == b.Keys && forall x :: x in a.Keys ==> a[x] == b[x]
    ensures a == b
  {
  }

  lemma CountSnoc(records: seq<Record>, r: Record, key: string)
    ensures SectorCount(records + [r], key) == SectorCount(records, key) + (if SectorKey(r.name) == key then 1 else 0)
  {
    assert (records + [r])[..|records|] == records;
  }

  /** `analyzeSectorDistribution`: one pass over the records, incrementing
      `sectors[key]` (starting from 0 when absent) for each record's key. */
  method AnalyzeSectorDistribution(records: seq<Record>) returns (sectors: map<string, nat>)
    ensures sectors == SectorDistribution(records)
    ensures forall k :: k in sectors <==> exists i :: 0 <= i < |records| && SectorKey(records[i].name) == k
    ensures forall k :: k in sectors ==> sectors[k] == SectorCount(records, k) > 0
  {
    sectors := map[];
    var i := 0;
    while i < |records|
      invariant 0 <= i <= |records|
      invariant sectors == SectorDistribution(records[..i])
    {
      var sector := SectorKey(records[i].name);
      assert sectors[sector := (if sector in sectors then sectors[sector] else 0) + 1]
        == SectorDistribution(records[..i + 1]) by {
        DistributionStep(records[..i], records[i]);
        assert records[..i + 1] == records[..i] + [records[i]];
      }
      sectors := sectors[sector := (if sector in sectors then sectors[sector] else 0) + 1];
      i := i + 1;
    }
    assert records[..i] == records;
    DistributionKeys(records);
  }

  /** The keys of the distribution are the keys some record carries, each with a
      positive count. */
  lemma DistributionKeys(records: seq<Record>)
    ensures forall k :: k in SectorDistribution(records) <==> exists i :: 0 <= i < |records| && SectorKey(records[i].name) == k
    ensures forall k :: k in SectorDistribution(records) ==> SectorDistribution(records)[k] == SectorCount(records, k) > 0
  {
    forall k | k in SectorDistribution(records)
      ensures SectorCount(records, k) > 0
    {
      SectorCountPositive(records, k);
    }
  }

  /** The sum of a map's counts. */
  ghost function SumCounts<K>(m: map<K, nat>): nat
    decreases |m|
  {
    if |m| == 0 then 0
    else
      var k :| k in m;
      m[k] + SumCounts(m - {k})
  }

  lemma PickCount<K>(m: map<K, nat>) returns (k0: K)
    requires |m| > 0
    ensures k0 in m && SumCounts(m) == m[k0] + SumCounts(m - {k0})
  {
    k0 :| k0 in m && SumCounts(m) == m[k0] + SumCounts(m - {k0});
  }

  /** The sum does not depend on which key is taken out first. */
  lemma {:induction false} SumCountsRemove<K>(m: map<K, nat>, k: K)
    requires k in m
    ensures SumCounts(m) == m[k] + SumCounts(m - {k})
    decreases |m|
  {
    assert k in m.Keys;
    var k0 := PickCount(m);
    if k0 != k {
      var m0 := m - {k0};
      var m1 := m - {k};
      assert m0.Keys == m.Keys - {k0};
      assert m1.Keys == m.Keys - {k};
      SumCountsRemove(m0, k);
      SumCountsRemove(m1, k0);
      assert m0 - {k} == m1 - {k0};
    }
  }

  /** The counts of the distribution add up to the number of records. */
  lemma {:induction false} DistributionTotal(records: seq<Record>)
    ensures SumCounts(SectorDistribution(records)) == |records|
  {
    if |records| > 0 {
      DistributionTotal(records[..|records| - 1]);
      TotalStep(records);
    }
  }

  lemma TotalStep(records: seq<Record>)
    requires |records| > 0
    requires SumCounts(SectorDistribution(records[..|records| - 1])) == |records| - 1
    ensures SumCounts(SectorDistribution(records)) == |records|
  {
    var init, r := records[..|records| - 1], records[|records| - 1];
    assert records == init + [r];
    DistributionStep(init, r);
    CountStep(SectorDistribution(records), SectorDistribution(init), SectorKey(r.name), |init|);
  }

  lemma CountStep<K>(m: map<K, nat>, d: map<K, nat>, k: K, n: nat)
    requires m == d[k := (if k in d then d[k] else 0) + 1] && SumCounts(d) == n
    ensures SumCounts(m) == n + 1
  {
    SumCountsIncrement(d, k);
  }

  /** Incrementing one key's count (from 0 when absent) adds one to the sum. */
  lemma SumCountsIncrement<K>(d: map<K, nat>, k: K)
    ensures SumCounts(d[k := (if k in d then d[k] else 0) + 1]) == SumCounts(d) + 1
  {
    var after := d[k := (if k in d then d[k] else 0) + 1];
    SumCountsRemove(after, k);
    assert after - {k} == d - {k};
    if k in d {
      SumCountsRemove(d, k);
    } else {
      assert d - {k} == d;
    }
  }

  // ---------------------------------------------------------------- search

  /** The words the search branch discards. */
  const Stopwords: seq<string> := ["show", "find", "get", "the", "and", "records", "in"]

  /** `word.length > 3`, which counts UTF-16 code units, and not a stopword. */
  predicate IsSearchTerm(word: string) {
    Utf16Length(word) > 3 && word !in Stopwords
  }

  /** The stopwords other than "show", "find" and "records" fail the length test. */
  lemma ShortStopwords()
    ensures Utf16Length("get") == 3 && Utf16Length("the") == 3
    ensures Utf16Length("and") == 3 && Utf16Length("in") == 2
  {
  }

  /** Two characters outside the Basic Multilingual Plane make a four-unit word,
      which passes the length test. */
  lemma AstralTerm(w: string)
    requires |w| == 2 && w[0] as int > 0xFFFF && w[1] as int > 0xFFFF
    ensures Utf16Length(w) == 4
    ensures IsSearchTerm(w)
  {
    assert w[1..][1..] == [];
    StopwordCases(w);
    assert w != "in" by {
      assert "in"[0] == 'i';
    }
  }

  /** The search terms: the space-separated words of the lower-cased message that
      are longer than three UTF-16 code units and are not stopwords. */
  function SearchTerms(message: string): (terms: seq<string>)
    ensures forall i :: 0 <= i < |terms| ==> IsSearchTerm(terms[i])
  {
    Filter(Split(Lower(message), " "), IsSearchTerm)
  }

  /** A word is a search term exactly when it is a word of the lower-cased message,
      longer than three UTF-16 code units, and none of "show", "find", "records";
      the shorter stopwords are already excluded by the length test. Terms contain
      no space. */
  lemma SearchTermsExactly(message: string, w: string)
    ensures w in SearchTerms(message) <==>
      w in Split(Lower(message), " ") && Utf16Length(w) > 3 && w != "show" && w != "find" && w != "records"
    ensures w in SearchTerms(message) ==> forall i :: 0 <= i < |w| ==> w[i] != ' '
  {
    SearchTermTest(w);
    if w in Split(Lower(message), " ") && IsSearchTerm(w) {
      TermOfWord(message, w);
    }
    if w in SearchTerms(message) {
      WordOfTerm(message, w);
    }
  }

  lemma TermOfWord(message: string, w: string)
    requires w in Split(Lower(message), " ") && IsSearchTerm(w)
    ensures w in SearchTerms(message)
  {
    var words := Split(Lower(message), " ");
    var i :| 0 <= i < |words| && words[i] == w;
    assert IsSearchTerm(words[i]);
  }

  lemma WordOfTerm(message: string, w: string)
    requires w in SearchTerms(message)
    ensures w in Split(Lower(message), " ") && IsSearchTerm(w)
    ensures forall i :: 0 <= i < |w| ==> w[i] != ' '
  {
    var words := Split(Lower(message), " ");
    var i :| 0 <= i < |SearchTerms(message)| && SearchTerms(message)[i] == w;
    assert w in words;
    WordSpaceFree(words, Lower(message), w);
  }

  /** Which words pass the filter's test. */
  lemma SearchTermTest(w: string)
    ensures IsSearchTerm(w) <==> Utf16Length(w) > 3 && w != "show" && w != "find" && w != "records"
  {
    StopwordCases(w);
    ShortStopwords();
  }

  lemma StopwordCases(w: string)
    ensures w in Stopwords <==>
      w == "show" || w == "find" || w == "get" || w == "the" || w == "and" || w == "records" || w == "in"
  {
  }

  /** The pieces of a split on a space hold no space. */
  lemma WordSpaceFree(words: seq<string>, text: string, w: string)
    requires words == Split(text, " ") && w in words
    ensures forall i :: 0 <= i < |w| ==> w[i] != ' '
  {
    SplitPartsFree(text, " ");
    assert !Contains(w, " ");
    forall i | 0 <= i < |w| ensures w[i] != ' ' {
      if w[i] == ' ' {
        assert w[i..i + 1] == " ";
        ContainsAt(w, " ", i);
      }
    }
  }

  /** The text a record is searched in: lower-cased name, a space, lower-cased value. */
  function RecordText(r: Record): string {
    Lower(r.name) + " " + Lower(r.value)
  }

  predicate MatchesSomeTerm(terms: seq<string>, r: Record) {
    exists t :: t in terms && Contains(RecordText(r), t)
  }

  /** The search branch's filter: the records whose text contains some term, in their order. */
  function SearchRecords(terms: seq<string>, records: seq<Record>): (results: seq<Record>)
    ensures |results| <= |records|
    ensures terms == [] ==> results == []
  {
    var results := Filter(records, (r: Record) => MatchesSomeTerm(terms, r));
    assert terms == [] && |results| > 0 ==> MatchesSomeTerm(terms, results[0]);
    results
  }

  /** A record is found exactly when one of the space-free terms occurs in its
      lower-cased name or in its lower-cased value. */
  lemma SearchRecordsIff(terms: seq<string>, records: seq<Record>, r: Record)
    requires forall t, i :: t in terms && 0 <= i < |t| ==> t[i] != ' '
    ensures r in SearchRecords(terms, records) <==>
      r in records && exists t :: t in terms && (Contains(Lower(r.name), t) || Contains(Lower(r.value), t))
  {
    forall t | t in terms
      ensures Contains(RecordText(r), t) <==> Contains(Lower(r.name), t) || Contains(Lower(r.value), t)
    {
      ContainsAcross(Lower(r.name), ' ', Lower(r.value), t);
    }
    var results := SearchRecords(terms, records);
    if r in records && MatchesSomeTerm(terms, r) {
      var i :| 0 <= i < |records| && records[i] == r;
      assert records[i] in results;
    }
    if r in results {
      var i :| 0 <= i < |results| && results[i] == r;
      assert MatchesSomeTerm(terms, results[i]);
    }
  }

  // ---------------------------------------------------------------- help text

  /** `"${cmd}"`. */
  function Quoted(cmd: string): string {
    "\"" + cmd + "\""
  }

  const Bullet: string := "\U{2022} "
  const HelpIntro: string := "Here are some example commands " + "you can try:\n\n"
  const ListHeading: string := "\U{1F4CB} Listing Records:\n"
  const SearchHeading: string := "\U{1F50D} Searching Records:\n"
  const AnalyzeHeading: string := "\U{1F4CA} Analyzing Records:\n"

  /** A bulleted list, one line per command, each rendered by `item`. */
  function Bullets(cmds: seq<string>, item: string -> string): string {
    Join(seq(|cmds|, i requires 0 <= i < |cmds| => Bullet + item(cmds[i])), "\n")
  }

  /** The help text, with each command rendered by `item`; the reply uses `Quoted`. */
  function HelpText(item: string -> string): string {
    HelpIntro
    + ListHeading + Bullets(ListCommands, item) + "\n\n"
    + SearchHeading + Bullets(SearchCommands, item) + "\n\n"
    + AnalyzeHeading + Bullets(AnalyzeCommands, item)
  }

  function HelpMessage(): string {
    HelpText(Quoted)
  }

  /** A command of a text built around commands, with the text that follows it. */
  datatype Slot = Slot(command: string, after: string)

  /** The commands, each rendered by `item` and followed by its slot's text. */
  function Layout(slots: seq<Slot>, item: string -> string): string {
    if |slots| == 0 then "" else item(slots[0].command) + slots[0].after + Layout(slots[1..], item)
  }

  function SlotCommands(slots: seq<Slot>): seq<string> {
    if |slots| == 0 then [] else [slots[0].command] + SlotCommands(slots[1..])
  }

  /** The slots of one bulleted list ending in `tail`. */
  function Group(cmds: seq<string>, tail: string): (slots: seq<Slot>)
    ensures |slots| == |cmds|
  {
    if |cmds| == 0 then []
    else if |cmds| == 1 then [Slot(cmds[0], tail)]
    else [Slot(cmds[0], "\n" + Bullet)] + Group(cmds[1..], tail)
  }

  /** The text before the first command of the help text. */
  const HelpHead: string := HelpIntro + ListHeading + Bullet

  const HelpSlots: seq<Slot> :=
    Group(ListCommands, "\n\n" + SearchHeading + Bullet)
    + Group(SearchCommands, "\n\n" + AnalyzeHeading + Bullet)
    + Group(AnalyzeCommands, "")

  predicate EndsWithBullet(s: string) {
    |s| >= |Bullet| && s[|s| - |Bullet|..] == Bullet
  }

  /** The help text is its head followed by the example commands, in catalogue
      order, whatever the rendering of a command; each command is preceded by a
      bullet. */
  lemma HelpLayout(item: string -> string)
    ensures HelpText(item) == HelpHead + Layout(HelpSlots, item)
    ensures SlotCommands(HelpSlots) == Flatten(ExampleCommands)
    ensures EndsWithBullet(HelpHead)
    ensures forall k :: 0 <= k < |HelpSlots| - 1 ==> EndsWithBullet(HelpSlots[k].after)
  {
    HelpTextLayout(item);
    HelpSlotCommands();
    assert HelpHead[|HelpHead| - |Bullet|..] == Bullet;
    HelpSlotsBulleted();
  }

  lemma HelpTextLayout(item: string -> string)
    ensures HelpText(item) == HelpHead + Layout(HelpSlots, item)
  {
    var t1, t2 := "\n\n" + SearchHeading + Bullet, "\n\n" + AnalyzeHeading + Bullet;
    var g1, g2, g3 := Group(ListCommands, t1), Group(SearchCommands, t2), Group(AnalyzeCommands, "");
    assert HelpSlots == g1 + (g2 + g3);
    LayoutConcat(g1, g2 + g3, item);
    LayoutConcat(g2, g3, item);
    BulletsLayout(ListCommands, t1, item);
    BulletsLayout(SearchCommands, t2, item);
    BulletsLayout(AnalyzeCommands, "", item);
    AssembleHelp(HelpIntro, ListHeading, SearchHeading, AnalyzeHeading, Bullet,
      Bullets(ListCommands, item), Bullets(SearchCommands, item), Bullets(AnalyzeCommands, item),
      Layout(g1, item), Layout(g2, item), Layout(g3, item));
  }

  /** The concatenation step of `HelpTextLayout`, over arbitrary pieces. */
  lemma AssembleHelp(intro: string, h1: string, h2: string, h3: string, bullet: string,
                     b1: string, b2: string, b3: string, l1: string, l2: string, l3: string)
    requires bullet + l1 == b1 + ("\n\n" + h2 + bullet)
    requires bullet + l2 == b2 + ("\n\n" + h3 + bullet)
    requires bullet + l3 == b3 + ""
    ensures intro + h1 + bullet + (l1 + (l2 + l3))
         == intro + h1 + b1 + "\n\n" + h2 + b2 + "\n\n" + h3 + b3
  {
    calc {
      intro + h1 + bullet + (l1 + (l2 + l3));
      intro + h1 + (bullet + l1) + l2 + l3;
      intro + h1 + b1 + "\n\n" + h2 + (bullet + l2) + l3;
      intro + h1 + b1 + "\n\n" + h2 + b2 + "\n\n" + h3 + (bullet + l3);
    }
  }

  lemma HelpSlotCommands()
    ensures SlotCommands(HelpSlots) == Flatten(ExampleCommands)
  {
    HelpSlotsInOrder();
    ExampleCommandsInOrder();
  }

  /** The help slots carry the list, search and analyze commands, in that order. */
  lemma HelpSlotsInOrder()
    ensures SlotCommands(HelpSlots) == ListCommands + SearchCommands + AnalyzeCommands
  {
    var t1, t2 := "\n\n" + SearchHeading + Bullet, "\n\n" + AnalyzeHeading + Bullet;
    var g1, g2, g3 := Group(ListCommands, t1), Group(SearchCommands, t2), Group(AnalyzeCommands, "");
    assert HelpSlots == g1 + (g2 + g3);
    SlotCommandsConcat(g1, g2 + g3);
    SlotCommandsConcat(g2, g3);
    GroupCommands(ListCommands, t1);
    GroupCommands(SearchCommands, t2);
    GroupCommands(AnalyzeCommands, "");
  }

  /** The example commands, flattened, are the list, search and analyze commands. */
  lemma ExampleCommandsInOrder()
    ensures Flatten(ExampleCommands) == ListCommands + SearchCommands + AnalyzeCommands
  {
    var cats := ExampleCommands;
    assert Flatten(cats[..1]) == ListCommands by {
      assert cats[..1][..0] == [];
    }
    assert Flatten(cats[..2]) == ListCommands + SearchCommands by {
      assert cats[..2][..1] == cats[..1];
    }
    assert cats[..3] == cats;
  }

  lemma Group3(cmds: seq<string>, tail: string)
    requires |cmds| == 3
    ensures Group(cmds, tail) == [Slot(cmds[0], "\n" + Bullet), Slot(cmds[1], "\n" + Bullet), Slot(cmds[2], tail)]
  {
    assert Group(cmds[1..][1..], tail) == [Slot(cmds[2], tail)];
    assert Group(cmds[1..], tail) == [Slot(cmds[1], "\n" + Bullet)] + [Slot(cmds[2], tail)];
  }

  lemma HelpSlotsBulleted()
    ensures forall k :: 0 <= k < |HelpSlots| - 1 ==> EndsWithBullet(HelpSlots[k].after)
  {
    var t1, t2 := "\n\n" + SearchHeading + Bullet, "\n\n" + AnalyzeHeading + Bullet;
    var nl := "\n" + Bullet;
    Group3(ListCommands, t1);
    Group3(SearchCommands, t2);
    Group3(AnalyzeCommands, "");
    assert HelpSlots == [Slot(ListCommands[0], nl), Slot(ListCommands[1], nl), Slot(ListCommands[2], t1),
      Slot(SearchCommands[0], nl), Slot(SearchCommands[1], nl), Slot(SearchCommands[2], t2),
      Slot(AnalyzeCommands[0], nl), Slot(AnalyzeCommands[1], nl), Slot(AnalyzeCommands[2], "")];
    assert nl[|nl| - |Bullet|..] == Bullet;
    assert t1[|t1| - |Bullet|..] == Bullet;
    assert t2[|t2| - |Bullet|..] == Bullet;
  }

  lemma {:induction false} LayoutConcat(xs: seq<Slot>, ys: seq<Slot>, item: string -> string)
    ensures Layout(xs + ys, item) == Layout(xs, item) + Layout(ys, item)
  {
    if |xs| > 0 {
      assert (xs + ys)[1..] == xs[1..] + ys;
      LayoutConcat(xs[1..], ys, item);
    } else {
      assert xs + ys == ys;
    }
  }

  lemma {:induction false} SlotCommandsConcat(xs: seq<Slot>, ys: seq<Slot>)
    ensures SlotCommands(xs + ys) == SlotCommands(xs) + SlotCommands(ys)
  {
    if |xs| > 0 {
      assert (xs + ys)[1..] == xs[1..] + ys;
      SlotCommandsConcat(xs[1..], ys);
    } else {
      assert xs + ys == ys;
    }
  }

  lemma {:induction false} GroupCommands(cmds: seq<string>, tail: string)
    ensures SlotCommands(Group(cmds, tail)) == cmds
  {
    if |cmds| > 1 {
      GroupCommands(cmds[1..], tail);
    }
  }

  /** A bullet followed by the group of a list is the bulleted list followed by its tail. */
  lemma {:induction false} BulletsLayout(cmds: seq<string>, tail: string, item: string -> string)
    requires |cmds| > 0
    ensures Bullet + Layout(Group(cmds, tail), item) == Bullets(cmds, item) + tail
  {
    var lines := seq(|cmds|, i requires 0 <= i < |cmds| => Bullet + item(cmds[i]));
    if |cmds| > 1 {
      BulletsLayout(cmds[1..], tail, item);
      var rest := seq(|cmds| - 1, i requires 0 <= i < |cmds| - 1 => Bullet + item(cmds[1..][i]));
      assert lines[1..] == rest;
      assert Bullets(cmds, item) == lines[0] + "\n" + Bullets(cmds[1..], item);
      var g := Group(cmds, tail);
      var tailText := Layout(Group(cmds[1..], tail), item);
      assert g[1..] == Group(cmds[1..], tail);
      calc {
        Bullet + Layout(g, item);
        Bullet + (item(cmds[0]) + ("\n" + Bullet) + tailText);
        (Bullet + item(cmds[0])) + "\n" + (Bullet + tailText);
        lines[0] + "\n" + (Bullets(cmds[1..], item) + tail);
        Bullets(cmds, item) + tail;
      }
    } else {
      assert Bullets(cmds, item) == lines[0];
    }
  }

  /** Every example command appears in the help message, quoted and after a bullet. */
  lemma HelpQuotesEveryCommand(cmd: string)
    requires cmd in Flatten(ExampleCommands)
    ensures Contains(HelpMessage(), Bullet + Quoted(cmd))
  {
    HelpListsEveryCommand(cmd, Quoted);
  }

  /** However its commands are rendered, the help text has every example command
      on a bulleted line. */
  lemma HelpListsEveryCommand(cmd: string, item: string -> string)
    requires cmd in Flatten(ExampleCommands)
    ensures Contains(HelpText(item), Bullet + item(cmd))
  {
    HelpLayout(item);
    var k := SlotIndex(HelpSlots, cmd);
    BulletedSlot(HelpHead[..|HelpHead| - |Bullet|], HelpSlots, item, k);
    assert HelpHead[..|HelpHead| - |Bullet|] + Bullet == HelpHead;
  }

  lemma {:induction false} SlotIndex(slots: seq<Slot>, cmd: string) returns (k: nat)
    requires cmd in SlotCommands(slots)
    ensures k < |slots| && slots[k].command == cmd
  {
    if slots[0].command == cmd {
      k := 0;
    } else {
      var j := SlotIndex(slots[1..], cmd);
      k := j + 1;
    }
  }

  /** In a layout whose text before each command ends with a bullet, every command
      appears after a bullet. */
  lemma {:induction false} BulletedSlot(p: string, slots: seq<Slot>, item: string -> string, k: nat)
    requires k < |slots|
    requires forall j :: 0 <= j < |slots| - 1 ==> EndsWithBullet(slots[j].after)
    ensures Contains(p + Bullet + Layout(slots, item), Bullet + item(slots[k].command))
    decreases |slots|
  {
    var c0, a0, rest := item(slots[0].command), slots[0].after, Layout(slots[1..], item);
    if k == 0 {
      assert p + Bullet + Layout(slots, item) == p + (Bullet + c0) + (a0 + rest);
      ContainsConcat(p, Bullet + c0, a0 + rest);
    } else {
      var a := a0[..|a0| - |Bullet|];
      assert a0 == a + Bullet;
      var before := p + Bullet + c0 + a;
      assert p + Bullet + Layout(slots, item) == before + Bullet + rest;
      BulletedSlot(before, slots[1..], item, k - 1);
    }
  }

  // ---------------------------------------------------------------- dispatch

  const UnknownMessage: string :=
    "I'm not sure how to help with that. Try asking 'help' to see available commands."

  /** The message of a search reply: "Found <n> matching records:". */
  function FoundMessage(n: nat): string {
    "Found " + NatToString(n) + " matching records:"
  }

  predicate IsKnownIntent(intent: string) {
    intent == "help" || intent == "list" || intent == "search" || intent == "analyze"
  }

  /** `processQuery` for a message the classifier labelled `intent`. */
  function ProcessQuery(intent: string, message: string, records: seq<Record>): (r: ChatReply)
    ensures r.success
    ensures DataTruthy(r.data) <==> IsKnownIntent(intent)
    ensures r.visualization.Some? ==> IsKnownIntent(intent)
    ensures r.chartType.Some? <==> intent == "analyze"
    ensures r.visualization == Some(CommandsView) <==> intent == "help"
    ensures intent == "list" ==> r.data == RecordList(records)
    ensures intent == "search" ==> r.data.RecordList? && |r.data.records| <= |records|
  {
    match intent
    case "help" =>
      ChatReply(true, HelpMessage(), Commands(ExampleCommands), Some(CommandsView), None)
    case "list" =>
      ChatReply(true, "Here are all the records:", RecordList(records),
        DetermineVisualization(intent, records), None)
    case "search" =>
      var results := SearchRecords(SearchTerms(message), records);
      ChatReply(true, FoundMessage(|results|), RecordList(results),
        DetermineVisualization(intent, results), None)
    case "analyze" =>
      ChatReply(true, "Here is the distribution of records by sector:",
        Distribution(SectorDistribution(records)), Some(ChartView), Some("pie"))
    case _ =>
      ChatReply(true, UnknownMessage, NoData, None, None)
  }

  // ---------------------------------------------------------------- replies per intent

  /** The 'help' reply carries the command catalogue, asks for the command view,
      and its message quotes every example command after a bullet. */
  lemma HelpReply(message: string, records: seq<Record>)
    ensures var r := ProcessQuery("help", message, records);
      && r.data == Commands(ExampleCommands)
      && r.visualization == Some(CommandsView)
      && forall c :: c in Flatten(ExampleCommands) ==> Contains(r.message, Bullet + Quoted(c))
  {
    forall c | c in Flatten(ExampleCommands)
      ensures Contains(HelpMessage(), Bullet + Quoted(c))
    {
      HelpQuotesEveryCommand(c);
    }
  }

  /** The 'list' reply returns the records unchanged, shown as a table unless there
      are none. */
  lemma ListReply(message: string, records: seq<Record>)
    ensures var r := ProcessQuery("list", message, records);
      && r.data == RecordList(records)
      && (r.visualization.None? <==> |records| == 0)
      && (|records| > 0 ==> r.visualization == Some(TableView))
  {
  }

  /** The 'search' reply: the records some search term occurs in, in their
      original order, with the count stated in the message. */
  lemma SearchReply(message: string, records: seq<Record>)
    ensures var r := ProcessQuery("search", message, records);
      && r.data.RecordList?
      && IsSubsequence(r.data.records, records)
      && (forall x :: x in r.data.records <==>
            x in records &&
            exists t :: t in SearchTerms(message) && (Contains(Lower(x.name), t) || Contains(Lower(x.value), t)))
      && r.message == "Found " + NatToString(|r.data.records|) + " matching records:"
      && DigitsValue(NatToString(|r.data.records|)) == |r.data.records|
      && (r.visualization.None? <==> |r.data.records| == 0)
      && (r.visualization == Some(ListView) <==> 0 < |r.data.records| <= 10)
      && (r.visualization == Some(TableView) <==> |r.data.records| > 10)
  {
    var terms := SearchTerms(message);
    var results := SearchRecords(terms, records);
    SearchReplyIs(message, records);
    FilterSubsequence(records, (x: Record) => MatchesSomeTerm(terms, x));
    forall t, i | t in terms && 0 <= i < |t|
      ensures t[i] != ' '
    {
      SearchTermsExactly(message, t);
    }
    forall x
      ensures x in results <==>
        x in records && exists t :: t in terms && (Contains(Lower(x.name), t) || Contains(Lower(x.value), t))
    {
      SearchRecordsIff(terms, records, x);
    }
    DigitsValueOfNatToString(|results|);
  }

  lemma SearchReplyIs(message: string, records: seq<Record>)
    ensures var results := SearchRecords(SearchTerms(message), records);
      ProcessQuery("search", message, records)
        == ChatReply(true, FoundMessage(|results|), RecordList(results),
                     DetermineVisualization("search", results), None)
  {
  }

  /** The search reply keeps each matching record as often as the records hold it,
      and no other record. */
  lemma SearchReplyMultiplicity(message: string, records: seq<Record>, x: Record)
    ensures var r := ProcessQuery("search", message, records);
      && r.data.RecordList?
      && multiset(r.data.records)[x]
         == if MatchesSomeTerm(SearchTerms(message), x) then multiset(records)[x] else 0
  {
    var terms := SearchTerms(message);
    FilterMultiplicity(records, (y: Record) => MatchesSomeTerm(terms, y), x);
  }

  /** The 'analyze' reply: a pie chart of the sector distribution of all the
      records (whose properties `DistributionFacts` states). */
  lemma AnalyzeReply(message: string, records: seq<Record>)
    ensures var r := ProcessQuery("analyze", message, records);
      && r.visualization == Some(ChartView)
      && r.chartType == Some("pie")
      && r.data == Distribution(SectorDistribution(records))
  {
  }

  /** The sector counts add up to the number of records; a sector is present
      exactly when some record has it, with the number of records that have it. */
  lemma DistributionFacts(records: seq<Record>)
    ensures SumCounts(SectorDistribution(records)) == |records|
    ensures forall k :: k in SectorDistribution(records) <==> SectorCount(records, k) > 0
    ensures forall k :: k in SectorDistribution(records) ==> SectorDistribution(records)[k] == SectorCount(records, k)
  {
    DistributionTotal(records);
    forall k
      ensures k in SectorDistribution(records) <==> SectorCount(records, k) > 0
    {
      SectorCountPositive(records, k);
    }
  }

  /** Any other label: the fixed "not sure" message, no data and no visualisation. */
  lemma UnknownReply(intent: string, message: string, records: seq<Record>)
    requires !IsKnownIntent(intent)
    ensures ProcessQuery(intent, message, records) == ChatReply(true, UnknownMessage, NoData, None, None)
  {
  }
}
