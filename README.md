# Database records manager — a Dafny model

The database records manager is a small web application. Express and MongoDB
keep a collection of records `{id, name, value}`. The server offers these endpoints:

- `/search`: a case-insensitive text search.
- `/update`: validated edits of one record.
- `/records`: every record, sorted by id.
- `/chat`: a chat assistant. An "NLP" service answers messages whose intent it
  recognises (help, list, search, analyze). The other messages go to an
  LLM service. That service either explains what the assistant can do or asks
  an Ollama model.

A browser page turns the quoted example commands of the help reply into
clickable links, and it checks the two forms before it submits them. A
separate script fills the collection with one hundred demo records.

The model has these modules:

- `Js` (js.dfy): the JavaScript string and number built-ins the code relies on.
  - `toLowerCase` on ASCII.
  - `trim`, with the exact JavaScript white-space set.
  - `indexOf` and `includes`, `split` and `join`, and `replace` of a first
    occurrence, with the `$` patterns a string replacement expands.
  - `length` in UTF-16 code units.
  - `filter`, `String(n)` and `parseInt`.
- `Records` (records.dfy): the record value and the distinct-id invariant of
  the collection's `unique` index.
- `Nlp` (nlp.dfy): `services/mcpService.js`.
  - The visualisation table.
  - The sector distribution: a method with the loop of `forEach`, proved
    against a specification function.
  - Search-term extraction and record filtering.
  - The help text, and the reply for each intent.
- `Llm` (llmService.js, in llm.dfy): the relevance test, the capabilities
  message, the generation prompt and `getChatResponse`.
- `Server` (server.dfy): `index.js`.
  - The `validateRecord` chain.
  - The record collection as a class, `RecordStore`. Its `docs` field is the
    documents in natural order. Its methods are `initializeData` and
    `/update`.
  - The read-only handlers `/search`, `/records` and `/chat`, as functions of
    the documents.
- `Frontend` (frontend.dfy): `public/app.js`.
  - `createClickableCommand`.
  - `formatCommandsMessage`, a method with the two nested loops.
  - The rendering decision of `appendMessage`.
  - The guards of `sendMessage` and `updateRecord`.
- `DemoData` (demodata.dfy): the records `scripts/initDb.js` inserts, and
  what the analyze reply makes of them.

The collection is a sequence of documents. Where the code runs an unsorted
`find` (`/search` and `/chat`), the model returns the documents in that
sequence's order; MongoDB itself promises no order there. `Server.Entries`
gives the id-keyed view of the same documents, and `/update` is specified
against both.

Some inputs are not visible to the code. The classifier's intent label and
the outcome of the HTTP call to the model are parameters.

## Model

| member | source | states |
|---|---|---|
| Js.Lower | index.js:87 | the lower-cased text has the same length, no upper-case ASCII letter, and every other character in place |
| Js.Utf16Length | services/mcpService.js:108 | a single character is two units when it lies beyond U+FFFF and one otherwise; between one and two units per character, one each when none lies beyond U+FFFF |
| Js.Utf16LengthConcat | services/mcpService.js:108 | the length of a concatenation is the sum of the lengths, so with the one-character case it fixes `length` for every string |
| Js.Trim | index.js:60-61 | the trimmed text is empty exactly when every character is JavaScript white space; otherwise it starts and ends with a non-space |
| Js.TrimIsWindow | index.js:60-61 | the trimmed text is the slice of the input that starts after the leading white space, and everything after it is white space |
| Js.IndexOf | public/app.js:168-171 | the position `replace` rewrites is an occurrence with none before it; absent when there is no occurrence at all |
| Js.JoinSplit | services/mcpService.js:73 | joining the pieces of `split(sep)` with `sep` gives back the string |
| Js.SplitLeftmost | services/mcpService.js:73 | `split` cuts at the leftmost separator: the first piece holds no occurrence starting inside it, and the other pieces are the split of the text after that separator |
| Js.SplitPartsFree | services/mcpService.js:107 | no piece of a split contains the separator |
| Js.SplitJoin | services/llmService.js:33 | splitting a join of separator-free pieces gives back the pieces |
| Js.Filter | services/mcpService.js:111-114 | `filter` keeps each element that passes the test and nothing else |
| Js.FilterMultiplicity | services/mcpService.js:111-114 | each element that passes occurs in the result as often as in the input; the others not at all |
| Js.FilterSubsequence | services/mcpService.js:111-114 | `filter` keeps the elements in their original order |
| Js.ReplaceFirst | public/app.js:168-171 | without an occurrence the text is unchanged; a replacement with no `$` takes the place of the first occurrence |
| Js.SubstitutePrefix | public/app.js:168-171 | text without `$` at the head of a replacement is copied unchanged, ahead of the expansion of the rest |
| Js.ParseInt | public/app.js:27 | `parseInt` gives NaN (None) exactly when no digit follows the optional white space, sign and `0x` prefix; without a minus sign the result is non-negative |
| Js.ParseIntStopsAtNonDigit | public/app.js:27 | digits followed by text that starts with neither a decimal digit nor `x` (as in "12abc") read as the number the digits spell |
| Js.ParseIntOfIntToString | public/app.js:27 | `parseInt` reads back the decimal text of every integer |
| Js.DigitsValueOfNatToString | services/mcpService.js:118 | the count printed in a message reads back as the number |
| Nlp.Flatten | public/app.js:165-166 | the commands in category order include every command of every category |
| Nlp.DetermineVisualization | services/mcpService.js:55-68 | no view for empty results; a chart exactly for analysis; a list exactly for 1 to 10 search results; a table otherwise; never the commands view |
| Nlp.SectorKeySegment | services/mcpService.js:73 | the sector of a name is the text after the first " - " up to the next one or the end, with no " - " starting inside it; "undefined" without a separator |
| Nlp.SegmentUnique | services/mcpService.js:73 | only one text is the segment after a given separator, so the sector is pinned down even where separators overlap |
| Nlp.AnalyzeSectorDistribution | services/mcpService.js:70-77 | the loop builds the distribution: a sector is a key exactly when some record has it, and it maps to the positive number of records that have it |
| Nlp.DistributionKeys | services/mcpService.js:70-77 | the keys are exactly the sectors of the records, each with a positive count |
| Nlp.DistributionTotal | services/mcpService.js:70-77 | the counts of the distribution add up to the number of records |
| Nlp.DistributionFacts | services/mcpService.js:124-132 | the total is the number of records; a sector is present exactly when its count is positive, and it maps to that count |
| Nlp.SearchTerms | services/mcpService.js:107-109 | every term is longer than three UTF-16 code units and is no stopword |
| Nlp.SearchTermsExactly | services/mcpService.js:107-109 | a word is a term exactly when it is a space-separated word of the lower-cased message, longer than three UTF-16 code units and none of "show", "find", "records"; terms contain no space |
| Nlp.AstralTerm | services/mcpService.js:108 | a word of two characters beyond U+FFFF has length 4 and is a search term |
| Nlp.SearchRecords | services/mcpService.js:111-114 | no more results than records; no results without terms |
| Nlp.SearchRecordsIff | services/mcpService.js:111-114 | a record is found exactly when some term occurs in its lower-cased name or in its lower-cased value; the joining space never creates a match |
| Nlp.ProcessQuery | services/mcpService.js:83-141 | every reply succeeds; `data` is non-null exactly for the four known intents; the commands view exactly for help; a chart type exactly for analyze; list returns the records |
| Nlp.HelpReply | services/mcpService.js:84-96 | the help reply carries the catalogue and the commands view, and its message quotes every example command after a bullet |
| Nlp.HelpQuotesEveryCommand | services/mcpService.js:87-93 | the help message contains `• "cmd"` for every example command |
| Nlp.HelpLayout | services/mcpService.js:37-53 | however a command is rendered, the help text is its head followed by the example commands in catalogue order, each after a bullet |
| Nlp.ListReply | services/mcpService.js:98-104 | the list reply returns the records unchanged; a table unless there are none |
| Nlp.SearchReply | services/mcpService.js:106-122 | the search reply holds exactly the matching records in original order, the message states their number, and the view follows the 10-result threshold |
| Nlp.SearchReplyMultiplicity | services/mcpService.js:111-114 | the search reply holds each matching record as many times as the records do, and no other record |
| Nlp.AnalyzeReply | services/mcpService.js:124-132 | the analyze reply is a pie chart of the sector distribution |
| Nlp.UnknownReply | services/mcpService.js:135-140 | any other intent gets the fixed "not sure" message with no data and no view |
| Llm.RelevantIff | services/llmService.js:17-26 | a query is relevant exactly when one of its lower-cased space-separated words is a keyword |
| Llm.KeywordWordRelevant | services/llmService.js:24-25 | a keyword standing as a word between spaces makes any query relevant |
| Llm.SingleWordIrrelevant | services/llmService.js:24-25 | a single lower-case word that is not a keyword is irrelevant |
| Llm.PartialWordsIrrelevant | services/llmService.js:24-25 | "records" and "data?" are irrelevant: only whole words count |
| Llm.CapabilitiesListed | services/llmService.js:32-34 | the message lists the five capabilities in order, one bulleted line each |
| Llm.PromptEmbeds | services/llmService.js:43-47 | the prompt holds the query right after its fixed introduction, and the capabilities joined by ", " |
| Llm.GetChatResponse | services/llmService.js:28-66 | no data and no view; no call to the model exactly for irrelevant queries, which get the capabilities message; a relevant query posts the prompt to "mistral" without streaming, and succeeds exactly when generation does |
| Llm.IrrelevantIgnoresOutcome | services/llmService.js:29-38 | the answer to an irrelevant query does not depend on the model |
| Server.IntTextOfIntToString | index.js:59 | the decimal text of every integer passes `isInt` and reads back as that integer |
| Server.MeasuredLength | index.js:60-61 | `isLength({min: 1})` holds exactly when some character is not a variation selector |
| Server.ValidationErrors | index.js:58-62 | no errors exactly when the id is an integer text and the trimmed name and value are non-empty; each message is present exactly when its check fails |
| Server.BlankFieldRejected | index.js:60 | a name made only of white space is refused with "Name is required" |
| Server.FindById | index.js:120 | the found document has the id; absent when no document has it |
| Server.EntriesOf | index.js:35-39 | under the unique index, the id view holds exactly the ids of the documents, each with its document's fields |
| Server.EntriesUpdate | index.js:129-131 | saving one document changes the id view at that id only |
| Server.RecordStore.constructor | index.js:41 | the model's starting point, not a promise of the code: a fresh store, standing for the collection of the `Record` model, holds no documents |
| Server.RecordStore.InitializeData | index.js:65-74 | the two sample records go in only when the collection is empty; the unique index holds |
| Server.RecordStore.Update | index.js:109-136 | 400 with the messages, and no change, on a validation failure; 404 "Record not found" and no change for an unknown id; 200 "Record updated successfully" otherwise, where that one document gets the trimmed name and value and keeps its id, every other document stays, and the unique index holds |
| Server.UpdatedLookup | index.js:119-131 | after an update, the id maps to the new fields and every other id keeps its fields |
| Server.EscapeChar | index.js:79 | exactly the eight escaped characters become an entity starting with '&'; the rest stay; no markup character is produced |
| Server.Escape | index.js:79 | the escaped query holds no markup character and is not shorter |
| Server.EscapeIdentity | index.js:79 | text without escaped characters is unchanged |
| Server.EscapeIntroducesAmpersand | index.js:79 | any escaped character puts a '&' into the query |
| Server.SearchQuery | index.js:78-87 | the query is empty when `q` is absent, and never holds a character `escape()` rewrites other than '&' |
| Server.Take | index.js:93 | `limit(n)` keeps a prefix of at most n, and everything when fewer |
| Server.Search | index.js:78-99 | at most 50 results in collection order, each containing the query in its name or value ignoring case, every match when fewer than 50, and the count equal to the number returned |
| Server.SearchWithoutQuery | index.js:87-93 | without `q`, search returns the first 50 documents |
| Server.EscapedQueryMisses | index.js:79-93 | a query with a character that `escape()` rewrites matches no record without '&' |
| Server.InsertById | index.js:149 | insertion keeps the order by id and adds exactly the record |
| Server.SortById | index.js:149 | the sorted records are ordered by id and are a permutation of the documents |
| Server.AllRecords | index.js:147-154 | `/records` returns every document, ordered by id, with the count |
| Server.Chat | index.js:165-189 | 400 "Message is required" exactly for a missing or empty message; otherwise 200, with the NLP reply for a known intent and the LLM answer, and its request, for any other |
| Server.ChatAsksModel | index.js:183-186 | a relevant message with an unknown intent sends the prompt to the model and still answers 200 when generation fails |
| Frontend.CreateClickableCommand | public/app.js:157-159 | the link holds a `$` exactly when the command does |
| Frontend.AnchorShape | public/app.js:157-159 | the link is an anchor whose click handler runs the command and which ends with `>`, the command and `</a>` |
| Frontend.LinkCommandFirst | public/app.js:167-171 | one replacement rewrites the first `"cmd"` only, and leaves a message without one unchanged; for a command without `$` the first `"cmd"` becomes exactly the link |
| Frontend.DollarCommandSpliced | public/app.js:167-171 | for a command holding `$'`, the linked message has the link up to that `$'`, then the text after the quoted command, then the expansion of the rest of the link |
| Frontend.DollarCommandExpanded | public/app.js:167-171 | a command holding `$'`, followed by text that does not start with `$`, is not linked as written |
| Frontend.FormatCommandsMessage | public/app.js:161-175 | without data the message is returned unchanged; otherwise every command, category by category, has been linked in turn |
| Frontend.HelpCommandsLinked | public/app.js:161-175 | formatting the help reply turns each quoted command into its link in place, and nothing else changes |
| Frontend.HelpLinksEveryCommand | public/app.js:161-175 | the formatted help shows every example command as its link after a bullet |
| Frontend.AppendMessage | public/app.js:177-186 | HTML exactly for an AI message whose reply asks for the commands view; the catalogue is linked, null data leaves the message, other data throws unless empty; everything else is plain text |
| Frontend.ChatSubmission | public/app.js:95-98 | nothing is sent exactly when the input is blank; otherwise the trimmed input |
| Frontend.SubmittedChatAccepted | public/app.js:95-98 | what the chat box sends, `/chat` accepts with 200 |
| Frontend.UpdateSubmission | public/app.js:27-35 | the form is refused exactly when the id does not parse or is 0, or a field is empty; otherwise it posts the parsed id and the fields as typed |
| Frontend.SubmittedIdValid | public/app.js:27-35 | an id the form lets through passes the server's `isInt` and reaches it as the number the form read |
| Frontend.BlankNamePassesForm | public/app.js:32 | a name of spaces gets past the form and is refused by the server |
| DemoData.RecordNumber | scripts/initDb.js:30 | the number in a demo name is between 1 and 20 |
| DemoData.DemoRecords | scripts/initDb.js:26-37 | the script builds one hundred records |
| DemoData.DemoIds | scripts/initDb.js:33 | the ids run from 1 to 100 in order, so they are distinct |
| DemoData.DemoValueShape | scripts/initDb.js:35 | a value starts with its status and ends with the record's id |
| DemoData.IndustriesDistinct | scripts/initDb.js:12 | the five industries are pairwise different |
| DemoData.DemoSector | scripts/initDb.js:34 | the sector the chat reads off a demo name is its industry |
| DemoData.IndustryCount | scripts/initDb.js:26-37 | each industry is the sector of exactly twenty demo records |
| DemoData.DemoDistribution | scripts/initDb.js:26-37 | the analyze reply over the demo data maps the five industries to 20 each |
| DemoData.SectorDeterminesType | scripts/initDb.js:27-28 | records of one sector all share one type |

## Left out

- The Bayes classifier and tokenizer (services/mcpService.js:1-35, 80-81) are
  not modelled. The intent label is a parameter of `ProcessQuery` and `Chat`.
- The HTTP call to Ollama (services/llmService.js:41-49) is a parameter
  `outcome`: generated text or an error. The error is logged to the console;
  the log is left out.
- MongoDB is not modelled: connection, retries, `countDocuments`, `save` and
  `insertMany`. The 500 paths of every handler, the error middleware and
  `/health` are left out.
- Server.Search, Server.SearchWithoutQuery: MongoDB promises no order for an
  unsorted `find`. The model fixes one, the order of the document sequence,
  so the order these results state is one order the database may return.
- Js.Lower: `toLowerCase` is modelled on ASCII letters only; the other Unicode
  case mappings are left out.
- Server.MeasuredLength: `isLength` counts a surrogate pair once and skips
  the variation selectors U+FE0E and U+FE0F, so it counts code points, which
  the model does too. JavaScript's own `length` counts UTF-16 units; where the
  code uses it (the term test of the search intent) the model counts units
  with `Js.Utf16Length`.
- Strings are sequences of Unicode scalar values. Lone surrogates, which a
  JavaScript string may hold, are not represented.
- Server.Search: the `i` option of `$regex` makes MongoDB match without regard
  to case for every letter, non-ASCII ones included. The model folds ASCII
  letters only, so a query "é" does not match a record holding "É".
- Server.Search: `$regex` treats the query as a regular expression. The model
  matches it as literal text. Queries with metacharacters, which `escape()`
  does not remove, behave differently or fail with a 500.
- Nlp.SectorKey, Nlp.SectorDistribution: the model counts every key,
  including `undefined`, in a map. The code counts in a plain object `{}`,
  which inherits from `Object.prototype`. There a sector named like an
  inherited member (`toString`, `constructor`) starts from that function
  instead of 0, so `sectors[sector] + 1` gives a string such as
  "function toString() { [native code] }1" and not a count. A sector
  `__proto__` never becomes a key at all. The model does not capture these
  names. The key order of the counts object is not modelled either.
- Server.SortedById: the order is by non-decreasing id, not strictly
  increasing. The two coincide under the unique index.
- Server.AllRecords: `sort({id: 1})` is stated as ordered and a permutation.
  The order among equal ids, which the unique index rules out, is not fixed.
- Ids are unbounded integers. Precision loss of large numbers and
  `String(number)` for ids beyond 2^53 are left out.
- Server.Chat: a truthy non-string `message` makes `toLowerCase` throw, which
  gives a 500. The model takes the message as text or absent.
- The validation-error branch of `/search` (index.js:82-85) is not modelled,
  because the optional, trim and escape chain never records an error.
- Browser rendering is not modelled:
  - the DOM and the scroll position;
  - Chart.js, the chart branch of `sendMessage` and its error messages;
  - the welcome message;
  - `runCommand`, `searchRecords` and `loadAllRecords`;
  - `updateRecord` after its input check.
