/**
 * The Express server (index.js): request validation, the record store behind
 * `/update` and `initializeData`, and the read-only handlers `/search`,
 * `/records` and `/chat` as functions of the store's documents. MongoDB is not
 * part of this model: the collection is a sequence of documents in insertion
 * (natural) order, which is the order `find` returns without a sort.
 */
module Server {
  import opened Wrappers
  import opened Js
  import opened Records
  import opened Nlp
  import opened Llm

  // ---------------------------------------------------------------- validation

  /** The `/update` body as express-validator reads it: each field as text, a
      missing field as the empty string. */
  datatype UpdateRequest = UpdateRequest(id: string, name: string, value: string)

  /** `isInt()` with default options: an optional sign and at least one digit. */
  predicate IsIntText(t: string) {
    |t| > 0 && (if t[0] == '+' || t[0] == '-' then |t| > 1 && AllDigits(t[1..]) else AllDigits(t))
  }

  /** The integer an `isInt` text denotes. */
  function IntTextValue(t: string): int
    requires IsIntText(t)
  {
    if t[0] == '-' then 0 - DigitsValue(t[1..])
    else if t[0] == '+' then DigitsValue(t[1..])
    else DigitsValue(t)
  }

  /** What `String(i)` prints passes `isInt` and denotes `i`. */
  lemma IntTextOfIntToString(i: int)
    ensures IsIntText(IntToString(i))
    ensures IntTextValue(IntToString(i)) == i
  {
    var s := IntToString(i);
    if i < 0 {
      assert s[1..] == NatToString(-i);
      DigitsValueOfNatToString(-i);
    } else {
      DigitsValueOfNatToString(i);
    }
  }

  predicate IsPresentationSelector(c: char) {
    c == '\U{FE0E}' || c == '\U{FE0F}'
  }

  /** The length `isLength` measures: variation selectors U+FE0E and U+FE0F do not count. */
  function MeasuredLength(s: string): (n: nat)
    ensures n <= |s|
    ensures n > 0 <==> exists i :: 0 <= i < |s| && !IsPresentationSelector(s[i])
  {
    if |s| == 0 then 0
    else
      var n := MeasuredLength(s[..|s| - 1]) + (if IsPresentationSelector(s[|s| - 1]) then 0 else 1);
      assert forall i :: 0 <= i < |s| - 1 ==> s[..|s| - 1][i] == s[i];
      n
  }

  const IdMessage: string := "ID must be an integer"
  const NameMessage: string := "Name is required"
  const ValueMessage: string := "Value is required"

  /** `validateRecord`: the messages of the failed checks, in field order; name and
      value are measured after trimming. */
  function ValidationErrors(req: UpdateRequest): (errors: seq<string>)
    ensures errors == [] <==>
      IsIntText(req.id) && MeasuredLength(Trim(req.name)) >= 1 && MeasuredLength(Trim(req.value)) >= 1
    ensures IdMessage in errors <==> !IsIntText(req.id)
    ensures NameMessage in errors <==> MeasuredLength(Trim(req.name)) < 1
    ensures ValueMessage in errors <==> MeasuredLength(Trim(req.value)) < 1
  {
    var idOk, nameOk, valueOk := IsIntText(req.id), MeasuredLength(Trim(req.name)) >= 1, MeasuredLength(Trim(req.value)) >= 1;
    Failures(idOk, nameOk, valueOk);
    FailedChecks(idOk, nameOk, valueOk)
  }

  /** The messages of the checks that did not pass, in field order. */
  function FailedChecks(idOk: bool, nameOk: bool, valueOk: bool): seq<string> {
    (if idOk then [] else [IdMessage]) + (if nameOk then [] else [NameMessage]) + (if valueOk then [] else [ValueMessage])
  }

  lemma Failures(idOk: bool, nameOk: bool, valueOk: bool)
    ensures var errors := FailedChecks(idOk, nameOk, valueOk);
      && (errors == [] <==> idOk && nameOk && valueOk)
      && (IdMessage in errors <==> !idOk)
      && (NameMessage in errors <==> !nameOk)
      && (ValueMessage in errors <==> !valueOk)
  {
    assert IdMessage[0] == 'I' && NameMessage[0] == 'N' && ValueMessage[0] == 'V';
  }

  /** A name or value made of whitespace passes a non-empty check but not validation. */
  lemma BlankFieldRejected(req: UpdateRequest)
    requires forall i :: 0 <= i < |req.name| ==> IsWhitespace(req.name[i])
    ensures NameMessage in ValidationErrors(req)
  {
    assert Trim(req.name) == [];
  }

  // ---------------------------------------------------------------- the store

  /** The name and value stored under an id. */
  datatype Fields = Fields(name: string, value: string)

  /** The collection seen as a map from id to fields. */
  function Entries(docs: seq<Record>): map<int, Fields> {
    if |docs| == 0 then map[]
    else Entries(docs[..|docs| - 1])[docs[|docs| - 1].id := Fields(docs[|docs| - 1].name, docs[|docs| - 1].value)]
  }

  /** `findOne({ id })`: the position of the document with the id. */
  function FindById(docs: seq<Record>, id: int): (r: Option<nat>)
    ensures r.Some? ==> r.value < |docs| && docs[r.value].id == id
    ensures r.None? ==> forall i :: 0 <= i < |docs| ==> docs[i].id != id
  {
    if |docs| == 0 then None
    else if docs[0].id == id then Some(0)
    else
      match FindById(docs[1..], id)
      case None => None
      case Some(i) => Some(i + 1)
  }

  /** With distinct ids the map view has exactly the ids of the documents, each
      with its document's fields. */
  lemma {:induction false} EntriesOf(docs: seq<Record>)
    requires DistinctIds(docs)
    ensures forall id :: id in Entries(docs) <==> FindById(docs, id).Some?
    ensures forall i :: 0 <= i < |docs| ==> docs[i].id in Entries(docs) && Entries(docs)[docs[i].id] == Fields(docs[i].name, docs[i].value)
  {
    if |docs| > 0 {
      var init, last := docs[..|docs| - 1], docs[|docs| - 1];
      EntriesOf(init);
      forall id
        ensures id in Entries(docs) <==> FindById(docs, id).Some?
      {
        if FindById(init, id).Some? {
          assert init[FindById(init, id).value] == docs[FindById(init, id).value];
        }
        if FindById(docs, id).Some? && id != last.id {
          var i := FindById(docs, id).value;
          assert i < |init| && init[i] == docs[i];
        }
      }
      forall i | 0 <= i < |docs|
        ensures docs[i].id in Entries(docs) && Entries(docs)[docs[i].id] == Fields(docs[i].name, docs[i].value)
      {
        if i < |init| {
          assert init[i] == docs[i];
        }
      }
    }
  }

  /** Overwriting one document keeps its id and changes the map view at that id only. */
  lemma {:induction false} EntriesUpdate(docs: seq<Record>, i: nat, r: Record)
    requires DistinctIds(docs) && i < |docs| && r.id == docs[i].id
    ensures Entries(docs[i := r]) == Entries(docs)[r.id := Fields(r.name, r.value)]
    decreases |docs|
  {
    var n := |docs|;
    var last := docs[n - 1];
    if i == n - 1 {
      assert docs[i := r][..n - 1] == docs[..n - 1];
    } else {
      var init := docs[..n - 1];
      assert docs[i := r][..n - 1] == init[i := r];
      assert DistinctIds(init);
      EntriesUpdate(init, i, r);
      assert r.id != last.id;
    }
  }

  const SeedRecords: seq<Record> := [Record(1, "Record 1", "Value 1"), Record(2, "Record 2", "Value 2")]

  /** The outcome of `/update`: 400 with the validation messages, 404, or the saved record. */
  datatype UpdateResponse = Rejected(errors: seq<string>) | NotFound | Updated(record: Record)
  {
    function Status(): nat {
      match this
      case Rejected(_) => 400
      case NotFound => 404
      case Updated(_) => 200
    }

    function Message(): string {
      match this
      case Rejected(_) => ""
      case NotFound => "Record not found"
      case Updated(_) => "Record updated successfully"
    }
  }

  /** The records collection. */
  class RecordStore {
    var docs: seq<Record>

    /** The `unique` index on `id`. */
    predicate Valid()
      reads this
    {
      DistinctIds(docs)
    }

    constructor ()
      ensures docs == [] && Valid()
    {
      docs := [];
    }

    /** `initializeData`: the two sample records go into an empty collection only. */
    method InitializeData()
      requires Valid()
      modifies this
      ensures Valid()
      ensures |old(docs)| == 0 ==> docs == SeedRecords
      ensures |old(docs)| != 0 ==> docs == old(docs)
    {
      var count := |docs|;
      if count == 0 {
        docs := SeedRecords;
      }
    }

    /** `/update`: validation, then the document with the id gets the trimmed name
        and value; its id and every other document stay as they were. */
    method Update(req: UpdateRequest) returns (response: UpdateResponse)
      requires Valid()
      modifies this
      ensures Valid()
      ensures ValidationErrors(req) != [] ==> response == Rejected(ValidationErrors(req)) && docs == old(docs)
      ensures ValidationErrors(req) == [] && FindById(old(docs), IntTextValue(req.id)).None? ==>
        response == NotFound && docs == old(docs)
      ensures ValidationErrors(req) == [] && FindById(old(docs), IntTextValue(req.id)).Some? ==>
        var i := FindById(old(docs), IntTextValue(req.id)).value;
        var saved := Record(IntTextValue(req.id), Trim(req.name), Trim(req.value));
        && response == Updated(saved)
        && docs == old(docs)[i := saved]
        && Entries(docs) == Entries(old(docs))[saved.id := Fields(saved.name, saved.value)]
      ensures response.Status() == 404 <==> response == NotFound
      ensures response.Status() == 404 <==> response.Message() == "Record not found"
      ensures response.Status() == 200 <==> response.Message() == "Record updated successfully"
    {
      var errors := ValidationErrors(req);
      if errors != [] {
        return Rejected(errors);
      }
      var id := IntTextValue(req.id);
      var found := FindById(docs, id);
      if found.None? {
        return NotFound;
      }
      var i := found.value;
      var saved := Record(docs[i].id, Trim(req.name), Trim(req.value));
      EntriesUpdate(docs, i, saved);
      docs := docs[i := saved];
      response := Updated(saved);
    }
  }

  /** After an update of an existing id, looking it up gives the new fields and
      every other id keeps its fields. */
  lemma UpdatedLookup(before: seq<Record>, i: nat, saved: Record, other: int)
    requires DistinctIds(before) && i < |before| && saved.id == before[i].id
    ensures saved.id in Entries(before[i := saved]) && Entries(before[i := saved])[saved.id] == Fields(saved.name, saved.value)
    ensures other != saved.id && other in Entries(before) ==>
      other in Entries(before[i := saved]) && Entries(before[i := saved])[other] == Entries(before)[other]
  {
    EntriesUpdate(before, i, saved);
  }

  // ---------------------------------------------------------------- /search

  /** The characters the `escape()` sanitizer rewrites. */
  predicate IsEscaped(c: char) {
    c == '&' || c == '"' || c == '\'' || c == '<' || c == '>' || c == '/' || c == '\\' || c == '`'
  }

  /** The characters `escape()` leaves nowhere in its output. */
  predicate IsMarkup(c: char) {
    IsEscaped(c) && c != '&'
  }

  /** The entity `escape()` puts for one character. */
  function EscapeChar(c: char): (r: string)
    ensures |r| > 0
    ensures IsEscaped(c) <==> r[0] == '&'
    ensures !IsEscaped(c) ==> r == [c]
    ensures forall i :: 0 <= i < |r| ==> !IsMarkup(r[i])
  {
    match c
    case '&' => "&amp;"
    case '"' => "&quot;"
    case '\'' => "&#x27;"
    case '<' => "&lt;"
    case '>' => "&gt;"
    case '/' => "&#x2F;"
    case '\\' => "&#x5C;"
    case '`' => "&#96;"
    case _ => [c]
  }

  /** The `escape()` sanitizer: its chain of replacements starts with `&`, so it
      rewrites each character on its own. */
  function Escape(s: string): (r: string)
    ensures |r| >= |s|
    ensures forall i :: 0 <= i < |r| ==> !IsMarkup(r[i])
  {
    if |s| == 0 then "" else EscapeChar(s[0]) + Escape(s[1..])
  }

  /** Text with nothing to escape passes through unchanged. */
  lemma {:induction false} EscapeIdentity(s: string)
    requires forall i :: 0 <= i < |s| ==> !IsEscaped(s[i])
    ensures Escape(s) == s
  {
    if |s| > 0 {
      EscapeIdentity(s[1..]);
    }
  }

  /** Text with something to escape comes out holding an `&`. */
  lemma {:induction false} EscapeIntroducesAmpersand(s: string, k: nat)
    requires k < |s| && IsEscaped(s[k])
    ensures '&' in Escape(s)
  {
    if k == 0 {
      assert Escape(s)[0] == EscapeChar(s[0])[0];
    } else {
      EscapeIntroducesAmpersand(s[1..], k - 1);
      var e := Escape(s[1..]);
      var i :| 0 <= i < |e| && e[i] == '&';
      assert Escape(s)[|EscapeChar(s[0])| + i] == '&';
    }
  }

  /** The search text `/search` matches with: the trimmed, escaped, lower-cased `q`,
      or the empty text when `q` is absent. */
  function SearchQuery(q: Option<string>): (query: string)
    ensures q.None? ==> query == ""
    ensures forall i :: 0 <= i < |query| ==> !IsMarkup(query[i])
  {
    match q
    case None => ""
    case Some(t) => Lower(Escape(Trim(t)))
  }

  /** The `$or` filter: the query occurs, ignoring case, in the name or in the value. */
  predicate MatchesQuery(query: string, r: Record) {
    Contains(Lower(r.name), query) || Contains(Lower(r.value), query)
  }

  const SearchLimit: nat := 50

  /** The body of a `/search` or `/records` answer. */
  datatype ListResponse = ListResponse(count: nat, data: seq<Record>)

  function Take<T>(s: seq<T>, n: nat): (r: seq<T>)
    ensures |r| <= n && |r| <= |s|
    ensures |r| < n ==> r == s
    ensures r == s[..|r|]
  {
    if |s| <= n then s else s[..n]
  }

  /** `/search`: at most fifty records of the collection, in collection order,
      each matching the query, and every match when fewer than fifty came back. */
  function Search(docs: seq<Record>, q: Option<string>): (r: ListResponse)
    ensures r.count == |r.data| <= SearchLimit
    ensures IsSubsequence(r.data, docs)
    ensures forall x :: x in r.data ==> MatchesQuery(SearchQuery(q), x)
    ensures |r.data| < SearchLimit ==> forall x :: x in docs && MatchesQuery(SearchQuery(q), x) ==> x in r.data
  {
    var query := SearchQuery(q);
    var matches := Filter(docs, x => MatchesQuery(query, x));
    var data := Take(matches, SearchLimit);
    FilterSubsequence(docs, x => MatchesQuery(query, x));
    SubsequencePrefix(matches, docs, |data|);
    assert forall x :: x in data ==> x in matches;
    ListResponse(|data|, data)
  }

  lemma {:induction false} SubsequencePrefix<T>(xs: seq<T>, ys: seq<T>, n: nat)
    requires IsSubsequence(xs, ys) && n <= |xs|
    ensures IsSubsequence(xs[..n], ys)
    decreases |ys|
  {
    if n > 0 {
      if xs[0] == ys[0] {
        SubsequencePrefix(xs[1..], ys[1..], n - 1);
        assert xs[..n][1..] == xs[1..][..n - 1];
      } else {
        SubsequencePrefix(xs, ys[1..], n);
      }
    }
  }

  /** Every text contains the empty query. */
  lemma ContainsEmpty(s: string)
    ensures Contains(s, "")
  {
    assert OccursAt(s, "", 0);
    ContainsAt(s, "", 0);
  }

  /** A filter every element passes keeps the whole sequence. */
  lemma {:induction false} FilterEverything(docs: seq<Record>)
    ensures Filter(docs, x => MatchesQuery("", x)) == docs
  {
    if |docs| > 0 {
      ContainsEmpty(Lower(docs[0].name));
      FilterEverything(docs[1..]);
    }
  }

  /** Without `q` the search returns the first fifty records. */
  lemma SearchWithoutQuery(docs: seq<Record>)
    ensures Search(docs, None).data == docs[..if |docs| < SearchLimit then |docs| else SearchLimit]
  {
    FilterEverything(docs);
  }

  /** The query is escaped before it is matched: a query holding a character that
      `escape()` rewrites never matches a record whose name and value hold no `&`,
      even one that holds the query text literally. */
  lemma EscapedQueryMisses(docs: seq<Record>, t: string, k: nat, x: Record)
    requires k < |Trim(t)| && IsEscaped(Trim(t)[k])
    requires '&' !in x.name && '&' !in x.value
    ensures !MatchesQuery(SearchQuery(Some(t)), x)
    ensures x !in Search(docs, Some(t)).data
  {
    var query := SearchQuery(Some(t));
    EscapeIntroducesAmpersand(Trim(t), k);
    var e := Escape(Trim(t));
    var j :| 0 <= j < |e| && e[j] == '&';
    assert query[j] == '&';
    AmpersandNotContained(x.name, query, j);
    AmpersandNotContained(x.value, query, j);
  }

  lemma AmpersandNotContained(s: string, query: string, j: nat)
    requires j < |query| && query[j] == '&' && '&' !in s
    ensures !Contains(Lower(s), query)
  {
    forall p: nat
      ensures !OccursAt(Lower(s), query, p)
    {
      if p + |query| <= |s| {
        assert s[p + j] in s;
        assert Lower(s)[p..p + |query|][j] != query[j];
      }
    }
  }

  // ---------------------------------------------------------------- /records

  /** Ids never decrease along the sequence. */
  predicate SortedById(s: seq<Record>) {
    forall i, j :: 0 <= i < j < |s| ==> s[i].id <= s[j].id
  }

  function InsertById(r: Record, s: seq<Record>): (t: seq<Record>)
    requires SortedById(s)
    ensures SortedById(t)
    ensures multiset(t) == multiset(s) + multiset{r}
    ensures |t| > 0 && (t[0] == r || (|s| > 0 && t[0] == s[0]))
  {
    if |s| == 0 || r.id <= s[0].id then
      SortedCons(r, s);
      [r] + s
    else
      var rest := InsertById(r, s[1..]);
      assert s == [s[0]] + s[1..];
      SortedCons(s[0], rest);
      [s[0]] + rest
  }

  lemma SortedCons(x: Record, t: seq<Record>)
    requires SortedById(t) && (|t| > 0 ==> x.id <= t[0].id)
    ensures SortedById([x] + t)
  {
    var u := [x] + t;
    forall i, j | 0 <= i < j < |u|
      ensures u[i].id <= u[j].id
    {
      if i == 0 {
        assert u[j] == t[j - 1];
      } else {
        assert u[i] == t[i - 1] && u[j] == t[j - 1];
      }
    }
  }

  /** `sort({ id: 1 })`: the records in ascending id order. */
  function SortById(s: seq<Record>): (t: seq<Record>)
    ensures SortedById(t)
    ensures multiset(t) == multiset(s)
  {
    if |s| == 0 then []
    else
      assert s == [s[0]] + s[1..];
      InsertById(s[0], SortById(s[1..]))
  }

  /** `/records`: every record of the collection, each once, by ascending id. */
  function AllRecords(docs: seq<Record>): (r: ListResponse)
    ensures r.count == |r.data| == |docs|
    ensures multiset(r.data) == multiset(docs)
    ensures SortedById(r.data)
  {
    var data := SortById(docs);
    assert |data| == |multiset(data)| == |multiset(docs)| == |docs|;
    ListResponse(|data|, data)
  }

  // ---------------------------------------------------------------- /chat

  const MessageRequired: string := "Message is required"

  /** The answer to `/chat`: status, body, and the generation request the LLM
      service sends, if any. */
  datatype ChatResponse = ChatResponse(status: nat, reply: ChatReply, request: Option<GenerateRequest>)

  /** `/chat`: a missing or empty message is refused; otherwise the NLP service
      answers, and its answer is replaced by the LLM's exactly when it has neither
      data nor a visualization, which is when the intent is unknown. */
  function Chat(docs: seq<Record>, message: Option<string>, intent: string, outcome: GenerationOutcome): (r: ChatResponse)
    ensures r.status == 400 <==> message.None? || message.value == ""
    ensures r.status == 400 ==> r.reply == ChatReply(false, MessageRequired, NoData, None, None) && r.request.None?
    ensures r.status != 400 ==> r.status == 200
    ensures r.status == 200 && IsKnownIntent(intent) ==> r.reply == ProcessQuery(intent, message.value, docs) && r.request.None?
    ensures r.status == 200 && !IsKnownIntent(intent) ==>
      var answer := GetChatResponse(message.value, outcome);
      r.reply == answer.reply && r.request == answer.request
  {
    if message.None? || message.value == "" then
      ChatResponse(400, ChatReply(false, MessageRequired, NoData, None, None), None)
    else
      var nlp := ProcessQuery(intent, message.value, docs);
      if !DataTruthy(nlp.data) && nlp.visualization.None? then
        var answer := GetChatResponse(message.value, outcome);
        ChatResponse(200, answer.reply, answer.request)
      else
        ChatResponse(200, nlp, None)
  }

  /** A relevant question with an unknown intent reaches the model with the prompt
      built from it; a failed generation still answers 200, with the apology. */
  lemma ChatAsksModel(docs: seq<Record>, message: string, intent: string, outcome: GenerationOutcome)
    requires message != "" && !IsKnownIntent(intent) && IsRelevantQuery(message)
    ensures var r := Chat(docs, Some(message), intent, outcome);
      && r.status == 200
      && r.request == Some(GenerateRequest(ModelName, Prompt(message), false))
      && (r.reply.success <==> outcome.Generated?)
  {
  }
}

