/**
 * The LLM fallback (services/llmService.js): a keyword gate that decides whether
 * a message is about the database, a fixed capabilities reply for messages that
 * are not, and the generation request for those that are. The HTTP call to the
 * Ollama server is not part of this model: its outcome is a parameter.
 */
module Llm {
  import opened Wrappers
  import opened Js
  import opened Nlp

  /** The keywords of `isRelevantQuery`. */
  const Keywords: seq<string> := [
    "record", "database", "data", "search", "find", "show", "list",
    "analyze", "sector", "category", "chart", "distribution",
    "technology", "healthcare", "finance", "education", "retail"]

  /** `this.capabilities`. */
  const Capabilities: seq<string> := [
    "Searching and querying database records",
    "Analyzing record distributions",
    "Finding records by sector or category",
    "Showing data visualizations",
    "Helping with database operations"]

  /** The words of a query: its lower-cased text split at each single space. */
  function Words(query: string): seq<string> {
    Split(Lower(query), " ")
  }

  /** `isRelevantQuery`: some keyword, lower-cased, is one of the words. */
  predicate IsRelevantQuery(query: string) {
    exists k :: k in Keywords && Lower(k) in Words(query)
  }

  /** A query is relevant exactly when one of its words is a keyword. */
  lemma RelevantIff(query: string)
    ensures IsRelevantQuery(query) <==> exists w :: w in Words(query) && w in Keywords
  {
    KeywordsLower();
  }

  lemma KeywordsLower()
    ensures forall k :: k in Keywords ==> Lower(k) == k
  {
    forall k | k in Keywords
      ensures Lower(k) == k
    {
      LowerOfLower(k);
    }
  }

  /** A string with no upper-case letter is its own lower-case form. */
  lemma LowerOfLower(s: string)
    requires forall i :: 0 <= i < |s| ==> !('A' <= s[i] <= 'Z')
    ensures Lower(s) == s
  {
  }

  /** A keyword only counts as a whole word: "records" and "data?" are not relevant. */
  lemma PartialWordsIrrelevant()
    ensures !IsRelevantQuery("records")
    ensures !IsRelevantQuery("data?")
  {
    SingleWordIrrelevant("records");
    SingleWordIrrelevant("data?");
  }

  /** A single lower-case word that is not a keyword is not relevant. */
  lemma SingleWordIrrelevant(w: string)
    requires forall i :: 0 <= i < |w| ==> w[i] != ' ' && !('A' <= w[i] <= 'Z')
    requires w !in Keywords
    ensures !IsRelevantQuery(w)
  {
    LowerOfLower(w);
    SplitNone(w, ' ');
    KeywordsLower();
  }

  /** A keyword standing as a word between any two texts makes a query relevant. */
  lemma KeywordWordRelevant(before: string, k: string, after: string)
    requires k in Keywords
    ensures IsRelevantQuery(before + " " + k + " " + after)
  {
    KeywordsLower();
    KeywordsSpaceFree();
    var q := before + " " + k + " " + after;
    LowerAround(before, k, after);
    WordsAround(Lower(before), k, Lower(after));
  }

  lemma KeywordsSpaceFree()
    ensures forall k, i :: k in Keywords && 0 <= i < |k| ==> k[i] != ' '
  {
  }

  lemma LowerAround(a: string, k: string, b: string)
    requires Lower(k) == k
    ensures Lower(a + " " + k + " " + b) == Lower(a) + [' '] + (k + [' '] + Lower(b))
  {
    LowerConcat(a + " " + k + " ", b);
    LowerConcat(a + " " + k, " ");
    LowerConcat(a + " ", k);
    LowerConcat(a, " ");
    LowerOfLower(" ");
  }

  lemma WordsAround(a: string, k: string, b: string)
    requires forall i :: 0 <= i < |k| ==> k[i] != ' '
    ensures k in Split(a + [' '] + (k + [' '] + b), " ")
  {
    SplitAround(a, ' ', k + [' '] + b);
    SplitAround(k, ' ', b);
    SplitNone(k, ' ');
  }

  const CapabilitiesIntro: string := "I'm a specialized assistant that can help you with:\n\n"
  const CapabilitiesOutro: string := "\n\nPlease ask me questions related to these topics."

  /** The capabilities, one bulleted line each. */
  function CapabilityLines(): seq<string> {
    seq(|Capabilities|, i requires 0 <= i < |Capabilities| => Bullet + Capabilities[i])
  }

  /** The reply to a query that is not about the database. */
  function CapabilitiesMessage(): string {
    CapabilitiesIntro + Join(CapabilityLines(), "\n") + CapabilitiesOutro
  }

  /** The capabilities message lists all five capabilities in order, one per line,
      each after a bullet. */
  lemma CapabilitiesListed()
    ensures |CapabilityLines()| == 5
    ensures forall i :: 0 <= i < 5 ==> CapabilityLines()[i] == Bullet + Capabilities[i]
    ensures Split(Join(CapabilityLines(), "\n"), "\n") == CapabilityLines()
  {
    var lines := CapabilityLines();
    forall k | 0 <= k < |lines|
      ensures forall i :: 0 <= i < |lines[k]| ==> lines[k][i] != '\n'
    {
      CapabilityLineFree(k);
    }
    assert forall p, i :: p in lines && 0 <= i < |p| ==> p[i] != '\n';
    SplitJoin(lines, '\n');
  }

  lemma CapabilityLineFree(k: nat)
    requires k < |Capabilities|
    ensures forall i :: 0 <= i < |Bullet + Capabilities[k]| ==> (Bullet + Capabilities[k])[i] != '\n'
  {
    assert '\n' !in Capabilities[k] by {
      var c := Capabilities[k];
      if k == 0 {
        assert c == "Searching and querying database records";
      } else if k == 1 {
        assert c == "Analyzing record distributions";
      } else if k == 2 {
        assert c == "Finding records by sector or category";
      } else if k == 3 {
        assert c == "Showing data visualizations";
      } else {
        assert c == "Helping with database operations";
      }
    }
    CharFreeConcat(Bullet, Capabilities[k], '\n');
  }

  lemma CharFreeConcat(a: string, b: string, ch: char)
    requires ch !in a && ch !in b
    ensures forall i :: 0 <= i < |a + b| ==> (a + b)[i] != ch
  {
    forall i | 0 <= i < |a + b|
      ensures (a + b)[i] != ch
    {
      if i < |a| { assert a[i] in a; } else { assert b[i - |a|] in b; }
    }
  }

  // ---------------------------------------------------------------- generation

  /** The indentation the prompt's template literal carries on its continuation lines. */
  const Indent: string := "                "

  const PromptIntro: string := "You are a database records management assistant. The user asks: "
  const PromptContext: string :=
    "\n" + Indent + "Context: You can help with searching records, analyzing data distributions, and visualizing data."
    + "\n" + Indent + "Keep responses focused on database operations and data analysis."
    + "\n" + Indent
  const PromptFormat: string := "\n" + Indent + "Response format: Keep it brief and professional."

  /** The prompt sent for a relevant query. */
  function Prompt(query: string): string {
    PromptIntro + query + PromptContext + ("Current capabilities: " + Join(Capabilities, ", ")) + PromptFormat
  }

  /** The prompt holds the query right after its fixed introduction, and the
      capabilities joined by ", ". */
  lemma PromptEmbeds(query: string)
    ensures OccursAt(Prompt(query), query, |PromptIntro|)
    ensures Contains(Prompt(query), "Current capabilities: " + Join(Capabilities, ", "))
  {
    TemplateEmbeds(PromptIntro, query, PromptContext, "Current capabilities: " + Join(Capabilities, ", "), PromptFormat);
  }

  /** A template `intro + x + context + y + format` holds `x` right after `intro`, and `y`. */
  lemma TemplateEmbeds(intro: string, x: string, context: string, y: string, format: string)
    ensures OccursAt(intro + x + context + y + format, x, |intro|)
    ensures Contains(intro + x + context + y + format, y)
  {
    var t := intro + x + context + y + format;
    assert t[|intro|..|intro| + |x|] == x;
    ContainsConcat(intro + x + context, y, format);
  }

  const ModelName: string := "mistral"

  /** The body posted to `/api/generate`. */
  datatype GenerateRequest = GenerateRequest(model: string, prompt: string, stream: bool)

  /** What the generation call came back with: the generated text, or an error. */
  datatype GenerationOutcome = Generated(response: string) | Failed

  const ApologyMessage: string :=
    "Sorry, I'm having trouble processing your request right now. Please try again."

  /** A reply, with the generation request made on the way, if any. */
  datatype LlmAnswer = LlmAnswer(request: Option<GenerateRequest>, reply: ChatReply)

  /** `getChatResponse`, with `outcome` standing for what the HTTP call returns
      when it is made. */
  function GetChatResponse(query: string, outcome: GenerationOutcome): (r: LlmAnswer)
    ensures r.reply.data == NoData && r.reply.visualization.None? && r.reply.chartType.None?
    ensures r.request.None? <==> !IsRelevantQuery(query)
    ensures !IsRelevantQuery(query) ==> r.reply.success && r.reply.message == CapabilitiesMessage()
    ensures IsRelevantQuery(query) ==> r.request == Some(GenerateRequest(ModelName, Prompt(query), false))
    ensures IsRelevantQuery(query) ==> (r.reply.success <==> outcome.Generated?)
    ensures IsRelevantQuery(query) ==>
      r.reply.message == (if outcome.Generated? then outcome.response else ApologyMessage)
  {
    if !IsRelevantQuery(query) then
      LlmAnswer(None, ChatReply(true, CapabilitiesMessage(), NoData, None, None))
    else
      var request := GenerateRequest(ModelName, Prompt(query), false);
      match outcome
      case Generated(text) => LlmAnswer(Some(request), ChatReply(true, text, NoData, None, None))
      case Failed => LlmAnswer(Some(request), ChatReply(false, ApologyMessage, NoData, None, None))
  }

  /** An irrelevant query never reaches the generation call: its answer does not
      depend on what the call would return. */
  lemma IrrelevantIgnoresOutcome(query: string, o1: GenerationOutcome, o2: GenerationOutcome)
    requires !IsRelevantQuery(query)
    ensures GetChatResponse(query, o1) == GetChatResponse(query, o2)
  {
  }
}
