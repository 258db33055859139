/**
 * The browser side of the chat (public/app.js): turning the quoted example
 * commands of the help reply into links, deciding how a message is inserted,
 * and the two submit guards. The DOM, `fetch` and Chart.js are not part of this
 * model.
 */
module Frontend {
  import opened Wrappers
  import opened Js
  import opened Records
  import opened Nlp
  import opened Llm
  import opened Server

  // ---------------------------------------------------------------- links

  /** A double quote, as a one-character string. */
  const Q: string := "\""

  /** `createClickableCommand`: the template literal, with its double quotes written as `Q`. */
  function CreateClickableCommand(command: string): (html: string)
    ensures '$' in html <==> '$' in command
  {
    LinkTextDollarFree();
    AnchorStart + OnClick(command) + " return false;" + Q + ">" + command + "</a>"
  }

  /** The link up to its click handler's code. */
  const AnchorStart: string := "<a href=" + Q + "#" + Q + " class=" + Q + "command-link" + Q + " onclick=" + Q

  /** The fixed text of a link holds no dollar sign. */
  lemma LinkTextDollarFree()
    ensures '$' !in AnchorStart && '$' !in "runCommand('" && '$' !in "');"
    ensures '$' !in " return false;" && '$' !in Q + ">" && '$' !in "</a>"
  {
    assert '$' !in "<a href=" + Q + "#" + Q;
    assert '$' !in " class=" + Q + "command-link" + Q;
    assert '$' !in " onclick=" + Q;
  }

  /** The call the link makes. */
  function OnClick(command: string): string {
    "runCommand('" + command + "');"
  }

  /** The link is an anchor element whose click handler runs the command and whose
      text, from the end of the opening tag to the closing tag, is the command. */
  lemma AnchorShape(command: string)
    ensures var html := CreateClickableCommand(command);
      && html[..2] == "<a"
      && Contains(html, "onclick=" + Q + OnClick(command))
      && html[|html| - |command| - 5..] == ">" + command + "</a>"
  {
    var html := CreateClickableCommand(command);
    var handler := "onclick=" + Q + OnClick(command);
    var post := " return false;" + Q + ">" + command + "</a>";
    var n := |AnchorStart|;
    AnchorStartEnds();
    assert AnchorStart == AnchorStart[..n - 9] + AnchorStart[n - 9..];
    assert html == AnchorStart[..n - 9] + handler + post;
    ContainsConcat(AnchorStart[..n - 9], handler, post);
    assert html[..2] == AnchorStart[..2];
  }

  /** The start of a link opens the element and ends with the handler's attribute name. */
  lemma AnchorStartEnds()
    ensures |AnchorStart| >= 9
    ensures AnchorStart[..2] == "<a"
    ensures AnchorStart[|AnchorStart| - 9..] == "onclick=" + Q
  {
  }

  /** One replacement step: the first occurrence of `"cmd"` becomes the command's link. */
  function LinkCommand(message: string, cmd: string): string {
    ReplaceFirst(message, Quoted(cmd), CreateClickableCommand(cmd))
  }

  /** The replacement steps for the commands, in order. */
  function LinkCommands(message: string, cmds: seq<string>): string
    decreases |cmds|
  {
    if |cmds| == 0 then message else LinkCommands(LinkCommand(message, cmds[0]), cmds[1..])
  }

  /** A step replaces exactly the first occurrence of the quoted command, and
      leaves a message without one unchanged. A command without a dollar sign has
      its link inserted as it is; in any other link `replace` expands the dollar
      patterns (`ReplaceFirstFound`, `DollarCommandExpanded`). */
  lemma LinkCommandFirst(message: string, cmd: string)
    ensures !Contains(message, Quoted(cmd)) ==> LinkCommand(message, cmd) == message
    ensures Contains(message, Quoted(cmd)) ==>
      var i := IndexOf(message, Quoted(cmd)).value;
      && (forall j :: 0 <= j < i ==> !OccursAt(message, Quoted(cmd), j))
      && message[i..i + |cmd| + 2] == Quoted(cmd)
    ensures Contains(message, Quoted(cmd)) && '$' !in cmd ==>
      var i := IndexOf(message, Quoted(cmd)).value;
      LinkCommand(message, cmd) == message[..i] + CreateClickableCommand(cmd) + message[i + |cmd| + 2..]
  {
    assert |Quoted(cmd)| == |cmd| + 2;
  }

  /** A `$'` in a command is expanded: where the link alone has `$'` (at `k`, in its
      click handler), the linked message has the text that follows the quoted
      command. */
  lemma DollarCommandSpliced(pre: string, u: string, v: string, post: string)
    requires IndexOf(pre + Quoted(u + "$'" + v) + post, Quoted(u + "$'" + v)) == Some(|pre|)
    requires '$' !in u
    ensures var cmd, link := u + "$'" + v, CreateClickableCommand(u + "$'" + v);
      var k := |AnchorStart| + |"runCommand('"| + |u|;
      && k + 2 <= |link| && link[k..k + 2] == "$'"
      && LinkCommand(pre + Quoted(cmd) + post, cmd)
         == pre + (link[..k] + (post + Substitute(link[k + 2..], Quoted(cmd), pre, post))) + post
  {
    var cmd := u + "$'" + v;
    var message := pre + Quoted(cmd) + post;
    assert message[..|pre|] == pre && message[|pre| + |Quoted(cmd)|..] == post;
    var call, close := "runCommand('", "');";
    var rest := " return false;" + Q + ">" + cmd + "</a>";
    var head := AnchorStart + call + u;
    var tail := v + close + rest;
    assert CreateClickableCommand(cmd) == head + ("$'" + tail) by {
      Regroup7(AnchorStart, OnClick(cmd), " return false;", Q, ">", cmd, "</a>");
      Regroup5(AnchorStart, call, u, "$'", v, close, rest);
    }
    assert '$' !in head by {
      LinkTextDollarFree();
    }
    assert |head| == |AnchorStart| + |call| + |u|;
    DollarPieces(head, tail);
    ExpandAfter(head, tail, Quoted(cmd), pre, post);
  }

  /** So a command holding `$'`, followed in the message by text that does not
      start with `$`, does not get its link as written. */
  lemma DollarCommandExpanded(pre: string, u: string, v: string, post: string)
    requires IndexOf(pre + Quoted(u + "$'" + v) + post, Quoted(u + "$'" + v)) == Some(|pre|)
    requires '$' !in u && |post| > 0 && post[0] != '$'
    ensures LinkCommand(pre + Quoted(u + "$'" + v) + post, u + "$'" + v)
      != pre + CreateClickableCommand(u + "$'" + v) + post
  {
    var cmd, link := u + "$'" + v, CreateClickableCommand(u + "$'" + v);
    var k := |AnchorStart| + |"runCommand('"| + |u|;
    DollarCommandSpliced(pre, u, v, post);
    assert link == link[..k] + ("$'" + link[k + 2..]) by {
      assert link == link[..k] + link[k..k + 2] + link[k + 2..];
    }
    Differs(pre, link[..k], post + Substitute(link[k + 2..], Quoted(cmd), pre, post), "$'" + link[k + 2..], post);
  }

  lemma Regroup7(a: string, b: string, c: string, d: string, e: string, f: string, g: string)
    ensures a + b + c + d + e + f + g == a + b + (c + d + e + f + g)
  {
  }

  lemma Regroup5(a: string, call: string, u: string, d: string, v: string, close: string, rest: string)
    ensures a + (call + (u + d + v) + close) + rest == (a + call + u) + (d + (v + close + rest))
  {
  }

  lemma DollarPieces(head: string, tail: string)
    ensures var link := head + ("$'" + tail);
      && link[..|head|] == head && link[|head|..|head| + 2] == "$'" && link[|head| + 2..] == tail
  {
  }

  /** A `$'` after dollar-free text is replaced by the text after the match. */
  lemma ExpandAfter(head: string, tail: string, matched: string, before: string, after: string)
    requires '$' !in head
    ensures Substitute(head + ("$'" + tail), matched, before, after)
      == head + (after + Substitute(tail, matched, before, after))
  {
    SubstitutePrefix(head, "$'" + tail, matched, before, after);
    assert ("$'" + tail)[2..] == tail;
  }

  /** Two texts that share a prefix and then differ in their next character differ. */
  lemma Differs(p: string, head: string, x: string, y: string, q: string)
    requires |x| > 0 && |y| > 0 && x[0] != y[0]
    ensures p + (head + x) + q != p + (head + y) + q
  {
    assert (p + (head + x) + q)[|p| + |head|] == x[0];
    assert (p + (head + y) + q)[|p| + |head|] == y[0];
  }

  lemma {:induction false} LinkCommandsSnoc(message: string, cmds: seq<string>, cmd: string)
    ensures LinkCommands(message, cmds + [cmd]) == LinkCommand(LinkCommands(message, cmds), cmd)
    decreases |cmds|
  {
    if |cmds| == 0 {
      assert cmds + [cmd] == [cmd];
    } else {
      assert (cmds + [cmd])[1..] == cmds[1..] + [cmd];
      LinkCommandsSnoc(LinkCommand(message, cmds[0]), cmds[1..], cmd);
    }
  }

  /** `formatCommandsMessage`: without a catalogue the message is returned as it
      is; otherwise each command, category by category, is linked in turn. */
  method FormatCommandsMessage(message: string, data: Option<seq<Category>>) returns (formatted: string)
    ensures data.None? ==> formatted == message
    ensures data.Some? ==> formatted == LinkCommands(message, Flatten(data.value))
  {
    if data.None? {
      return message;
    }
    var cats := data.value;
    formatted := message;
    for k := 0 to |cats|
      invariant formatted == LinkCommands(message, Flatten(cats[..k]))
    {
      var commands := cats[k].commands;
      var done := Flatten(cats[..k]);
      assert done + commands[..0] == done;
      for j := 0 to |commands|
        invariant formatted == LinkCommands(message, done + commands[..j])
      {
        LinkNext(message, done, commands, j);
        formatted := LinkCommand(formatted, commands[j]);
      }
      FlattenNext(cats, k);
    }
    assert cats[..|cats|] == cats;
  }

  lemma LinkNext(message: string, done: seq<string>, commands: seq<string>, j: nat)
    requires j < |commands|
    ensures LinkCommands(message, done + commands[..j + 1]) == LinkCommand(LinkCommands(message, done + commands[..j]), commands[j])
  {
    LinkCommandsSnoc(message, done + commands[..j], commands[j]);
    assert done + commands[..j] + [commands[j]] == done + commands[..j + 1];
  }

  lemma FlattenNext(cats: seq<Category>, k: nat)
    requires k < |cats|
    ensures Flatten(cats[..k + 1]) == Flatten(cats[..k]) + cats[k].commands[..|cats[k].commands|]
  {
    assert cats[..k + 1][..k] == cats[..k];
    assert cats[k].commands[..|cats[k].commands|] == cats[k].commands;
  }

  // ---------------------------------------------------------------- quote scanning

  /** Letters and the space: the characters of the example commands. */
  predicate IsClean(c: char) {
    ('a' <= c <= 'z') || ('A' <= c <= 'Z') || c == ' '
  }

  predicate AllClean(s: string) {
    forall i :: 0 <= i < |s| ==> IsClean(s[i])
  }

  predicate QuoteFree(s: string) {
    forall i :: 0 <= i < |s| ==> s[i] != '"'
  }

  /** Scanning for a quote, clean characters and a closing quote: `Open` after a
      quote followed only by clean characters, `Found` once such a quoted run is
      closed. */
  datatype Scan = Closed | Open | Found

  function Step(st: Scan, c: char): Scan {
    if st == Found then Found
    else if c == '"' then (if st == Open then Found else Open)
    else if IsClean(c) then st
    else Closed
  }

  function Run(s: string, st: Scan): Scan
    decreases |s|
  {
    if |s| == 0 then st else Run(s[1..], Step(st, s[0]))
  }

  lemma {:induction false} RunConcat(a: string, b: string, st: Scan)
    ensures Run(a + b, st) == Run(b, Run(a, st))
    decreases |a|
  {
    if |a| == 0 {
      assert a + b == b;
    } else {
      assert (a + b)[1..] == a[1..] + b;
      RunConcat(a[1..], b, Step(st, a[0]));
    }
  }

  /** Without quotes the scan stays put on clean text and closes on anything else. */
  lemma {:induction false} RunQuoteFree(s: string, st: Scan)
    requires QuoteFree(s) && st != Found
    ensures Run(s, st) == if AllClean(s) then st else Closed
    decreases |s|
  {
    if |s| > 0 {
      RunQuoteFree(s[1..], Step(st, s[0]));
      assert AllClean(s) <==> IsClean(s[0]) && AllClean(s[1..]) by {
        if IsClean(s[0]) && AllClean(s[1..]) {
          forall i | 0 <= i < |s| ensures IsClean(s[i]) {
            if i > 0 { assert s[i] == s[1..][i - 1]; }
          }
        }
      }
    }
  }

  lemma {:induction false} RunFound(s: string)
    ensures Run(s, Found) == Found
    decreases |s|
  {
    if |s| > 0 {
      RunFound(s[1..]);
    }
  }

  /** A quoted clean command always completes a quoted run. */
  lemma RunQuoted(c: string, st: Scan)
    requires AllClean(c)
    ensures Run(Quoted(c), st) == Found
  {
    RunConcat(Q + c, Q, st);
    RunConcat(Q, c, st);
    var mid := Run(Q, st);
    assert mid == Open || mid == Found;
    if mid == Open {
      RunQuoteFree(c, Open);
    } else {
      RunFound(c);
    }
    assert Run(Q, Open) == Found;
    RunFound(Q);
  }

  /** Text containing a quoted clean command has completed a quoted run. */
  lemma RunContainsQuoted(p: string, c: string, st: Scan)
    requires AllClean(c) && Contains(p, Quoted(c))
    ensures Run(p, st) == Found
  {
    var i := IndexOf(p, Quoted(c)).value;
    var q := Quoted(c);
    assert p == p[..i] + q + p[i + |q|..];
    RunConcat(p[..i] + q, p[i + |q|..], st);
    RunConcat(p[..i], q, st);
    RunQuoted(c, Run(p[..i], st));
    RunFound(p[i + |q|..]);
  }

  /** Text ending in a quote followed by a clean command has an open or completed run. */
  lemma RunOpenTail(a: string, c: string)
    requires AllClean(c)
    ensures Run(a + Q + c, Closed) != Closed
  {
    RunConcat(a + Q, c, Closed);
    RunConcat(a, Q, Closed);
    var mid := Run(a + Q, Closed);
    assert mid == Open || mid == Found;
    if mid == Open {
      RunQuoteFree(c, Open);
    } else {
      RunFound(c);
    }
  }

  /** After text whose scan is closed, the first occurrence of a quoted clean
      command is the one that follows it. */
  lemma FirstQuoted(p: string, c: string, r: string)
    requires AllClean(c) && Run(p, Closed) == Closed
    ensures IndexOf(p + Quoted(c) + r, Quoted(c)) == Some(|p|)
  {
    var s, q := p + Quoted(c) + r, Quoted(c);
    assert s[|p|..|p| + |q|] == q;
    forall j | 0 <= j < |p|
      ensures !OccursAt(s, q, j)
    {
      NoEarlierQuoted(p, c, r, j);
    }
    IndexOfIs(s, q, |p|);
  }

  lemma NoEarlierQuoted(p: string, c: string, r: string, j: nat)
    requires AllClean(c) && Run(p, Closed) == Closed && j < |p|
    ensures !OccursAt(p + Quoted(c) + r, Quoted(c), j)
  {
    if j + |Quoted(c)| <= |p| {
      NotInsidePrefix(p, c, r, j);
    } else if j + |Quoted(c)| == |p| + 1 {
      NotEndingAtQuote(p, c, r, j);
    } else {
      NotAcrossQuote(p, c, r, j);
    }
  }

  /** A closed prefix holds no quoted clean command. */
  lemma NotInsidePrefix(p: string, c: string, r: string, j: nat)
    requires AllClean(c) && Run(p, Closed) == Closed && j + |Quoted(c)| <= |p|
    ensures !OccursAt(p + Quoted(c) + r, Quoted(c), j)
  {
    var s, q := p + Quoted(c) + r, Quoted(c);
    if OccursAt(s, q, j) {
      assert p[j..j + |q|] == s[j..j + |q|];
      ContainsAt(p, q, j);
      RunContainsQuoted(p, c, Closed);
      assert false;
    }
  }

  /** An occurrence ending on the opening quote would leave the prefix open. */
  lemma NotEndingAtQuote(p: string, c: string, r: string, j: nat)
    requires AllClean(c) && Run(p, Closed) == Closed && j < |p| && j + |Quoted(c)| == |p| + 1
    ensures !OccursAt(p + Quoted(c) + r, Quoted(c), j)
  {
    var s, q := p + Quoted(c) + r, Quoted(c);
    assert OccursAt(s, q, j) ==> p == p[..j] + Q + c by {
      if OccursAt(s, q, j) {
        assert |p| == j + |q| - 1;
        SlicePrefix(s, j, j + |q|, |q| - 1);
        assert s[j..|p|] == p[j..];
        assert q[..|q| - 1] == Q + c;
        assert p == p[..j] + p[j..];
      }
    }
    RunOpenTail(p[..j], c);
  }

  lemma SlicePrefix(s: string, a: nat, b: nat, k: nat)
    requires a + k <= b <= |s|
    ensures s[a..b][..k] == s[a..a + k]
  {
  }

  /** An occurrence reaching past the opening quote would put that quote inside the command. */
  lemma NotAcrossQuote(p: string, c: string, r: string, j: nat)
    requires AllClean(c) && j < |p| && j + |Quoted(c)| > |p| + 1
    ensures !OccursAt(p + Quoted(c) + r, Quoted(c), j)
  {
    var s, q := p + Quoted(c) + r, Quoted(c);
    var o := |p| - j;
    QuotedInside(c, o);
    QuoteAfter(p, c, r);
    if j + |q| <= |s| {
      assert s[j..j + |q|][o] == s[|p|];
    }
  }

  lemma QuotedInside(c: string, o: nat)
    requires AllClean(c) && 1 <= o <= |c|
    ensures Quoted(c)[o] != '"'
  {
    assert Quoted(c)[o] == c[o - 1];
  }

  lemma QuoteAfter(p: string, c: string, r: string)
    ensures (p + Quoted(c) + r)[|p|] == '"'
  {
  }

  /** Every command is clean and every text after one is quote-free. */
  predicate CleanSlots(slots: seq<Slot>) {
    |slots| == 0 || (AllClean(slots[0].command) && QuoteFree(slots[0].after) && CleanSlots(slots[1..]))
  }

  /** Linking a layout of clean commands separated by quote-free text, after text
      whose scan is closed, replaces each quoted command in place. */
  lemma {:induction false} LinkLayout(p: string, slots: seq<Slot>)
    requires Run(p, Closed) == Closed
    requires CleanSlots(slots)
    ensures LinkCommands(p + Layout(slots, Quoted), SlotCommands(slots)) == p + Layout(slots, CreateClickableCommand)
    decreases |slots|
  {
    if |slots| > 0 {
      var c, a := slots[0].command, slots[0].after;
      var linked := LinkFirstSlot(p, c, a, Layout(slots[1..], Quoted));
      LinkLayout(linked, slots[1..]);
      LinkLayoutStep(p, slots, linked);
    } else {
      assert p + Layout(slots, Quoted) == p;
    }
  }

  /** The inductive step of `LinkLayout`. */
  lemma LinkLayoutStep(p: string, slots: seq<Slot>, linked: string)
    requires |slots| > 0 && Run(p, Closed) == Closed
    requires AllClean(slots[0].command) && QuoteFree(slots[0].after)
    requires linked == p + CreateClickableCommand(slots[0].command) + slots[0].after
    requires LinkCommands(linked + Layout(slots[1..], Quoted), SlotCommands(slots[1..]))
      == linked + Layout(slots[1..], CreateClickableCommand)
    ensures LinkCommands(p + Layout(slots, Quoted), SlotCommands(slots)) == p + Layout(slots, CreateClickableCommand)
  {
    var c, a := slots[0].command, slots[0].after;
    var rest := Layout(slots[1..], Quoted);
    var s := p + Layout(slots, Quoted);
    assert LinkCommand(s, c) == linked + rest by {
      LayoutCons(slots, Quoted);
      Regroup(p, Quoted(c), a, rest);
      var _ := LinkFirstSlot(p, c, a, rest);
    }
    assert linked + Layout(slots[1..], CreateClickableCommand) == p + Layout(slots, CreateClickableCommand) by {
      LayoutCons(slots, CreateClickableCommand);
      Regroup(p, CreateClickableCommand(c), a, Layout(slots[1..], CreateClickableCommand));
    }
    assert SlotCommands(slots) == [c] + SlotCommands(slots[1..]);
    LinkChain(s, c, SlotCommands(slots[1..]), linked + rest, p + Layout(slots, CreateClickableCommand));
  }

  lemma LinkChain(message: string, cmd: string, cmds: seq<string>, linked: string, result: string)
    requires LinkCommand(message, cmd) == linked
    requires LinkCommands(linked, cmds) == result
    ensures LinkCommands(message, [cmd] + cmds) == result
  {
    LinkCommandsCons(message, cmd, cmds);
  }

  lemma Regroup(p: string, x: string, a: string, r: string)
    ensures p + (x + a + r) == p + x + (a + r) == p + x + a + r
  {
  }

  lemma LayoutCons(slots: seq<Slot>, item: string -> string)
    requires |slots| > 0
    ensures Layout(slots, item) == item(slots[0].command) + slots[0].after + Layout(slots[1..], item)
  {
  }

  lemma LinkCommandsCons(message: string, cmd: string, cmds: seq<string>)
    ensures LinkCommands(message, [cmd] + cmds) == LinkCommands(LinkCommand(message, cmd), cmds)
  {
    assert ([cmd] + cmds)[1..] == cmds;
  }

  /** One step of `LinkLayout`: the slot's command is linked in place and the scan
      is closed again after the text that follows it. */
  lemma LinkFirstSlot(p: string, c: string, a: string, rest: string) returns (linked: string)
    requires Run(p, Closed) == Closed && AllClean(c) && QuoteFree(a)
    ensures linked == p + CreateClickableCommand(c) + a
    ensures LinkCommand(p + Quoted(c) + (a + rest), c) == linked + rest
    ensures Run(linked, Closed) == Closed
  {
    FirstQuoted(p, c, a + rest);
    CleanDollarFree(c);
    ReplaceAt(p, Quoted(c), a + rest, CreateClickableCommand(c));
    linked := p + CreateClickableCommand(c) + a;
    assert p + CreateClickableCommand(c) + (a + rest) == linked + rest;
    LinkedRun(p, c, a);
  }

  /** Replacing an occurrence found right after `p` puts the replacement there. */
  lemma ReplaceAt(p: string, pat: string, x: string, rep: string)
    requires IndexOf(p + pat + x, pat) == Some(|p|) && '$' !in rep
    ensures ReplaceFirst(p + pat + x, pat, rep) == p + rep + x
  {
    var s := p + pat + x;
    assert s[..|p|] == p;
    assert s[|p| + |pat|..] == x;
  }

  /** A closed prefix followed by a link and quote-free text is closed again. */
  lemma LinkedRun(p: string, c: string, a: string)
    requires Run(p, Closed) == Closed && AllClean(c) && QuoteFree(a)
    ensures Run(p + CreateClickableCommand(c) + a, Closed) == Closed
  {
    RunConcat(p + CreateClickableCommand(c), a, Closed);
    RunConcat(p, CreateClickableCommand(c), Closed);
    AnchorRun(c);
    RunQuoteFree(a, Closed);
  }

  /** The scan is inside a quote after the start of a link. */
  lemma AnchorStartRun()
    ensures Run(AnchorStart, Closed) == Open
  {
    var x := "<a href=";
    assert !IsClean(x[0]);
    Piece(x, Closed);
    x := Quote(x);
    x := Dirty(x, "#", 0, Open);
    x := Quote(x);
    x := Dirty(x, " class=", 6, Open);
    x := Quote(x);
    x := Dirty(x, "command-link", 7, Open);
    x := Quote(x);
    x := Dirty(x, " onclick=", 8, Open);
    x := Quote(x);
    assert x == AnchorStart;
  }

  /** The scan of a link closes again after it. */
  lemma AnchorRun(c: string)
    requires AllClean(c)
    ensures Run(CreateClickableCommand(c), Closed) == Closed
  {
    AnchorStartRun();
    var x := AnchorStart;
    x := Dirty(x, "runCommand('", 10, Open);
    x := CleanPiece(x, c);
    x := Dirty(x, "');", 0, Closed);
    assert x == AnchorStart + OnClick(c);
    x := Dirty(x, " return false;", 13, Closed);
    x := Quote(x);
    x := Dirty(x, ">", 0, Open);
    x := CleanPiece(x, c);
    x := Dirty(x, "</a>", 0, Closed);
    assert x == CreateClickableCommand(c);
  }

  lemma Piece(x: string, st: Scan)
    requires |x| > 0 && QuoteFree(x) && !IsClean(x[0]) && st != Found
    ensures Run(x, st) == Closed
  {
    RunQuoteFree(x, st);
  }

  lemma Quote(x: string) returns (y: string)
    requires Run(x, Closed) == Closed
    ensures y == x + Q && Run(y, Closed) == Open
  {
    y := x + Q;
    RunConcat(x, Q, Closed);
  }

  lemma Dirty(x: string, d: string, k: nat, st: Scan) returns (y: string)
    requires st != Found && Run(x, Closed) == st
    requires k < |d| && QuoteFree(d) && !IsClean(d[k])
    ensures y == x + d && Run(y, Closed) == Closed
  {
    y := x + d;
    RunConcat(x, d, Closed);
    RunQuoteFree(d, st);
  }

  lemma CleanPiece(x: string, c: string) returns (y: string)
    requires AllClean(c) && Run(x, Closed) == Closed
    ensures y == x + c && Run(y, Closed) == Closed
  {
    y := x + c;
    RunConcat(x, c, Closed);
    RunQuoteFree(c, Closed);
  }

  // ---------------------------------------------------------------- the help reply

  /** Linking the help reply's commands turns every quoted example command, in
      place, into its link: the result is the help text with links for quotes. */
  lemma HelpCommandsLinked()
    ensures LinkCommands(HelpMessage(), Flatten(ExampleCommands)) == HelpText(CreateClickableCommand)
  {
    HelpLayout(Quoted);
    HelpLayout(CreateClickableCommand);
    HelpHeadClosed();
    HelpSlotsClean();
    LinkHelp(HelpHead, HelpSlots, Flatten(ExampleCommands), HelpMessage(), HelpText(CreateClickableCommand));
  }

  lemma LinkHelp(head: string, slots: seq<Slot>, cmds: seq<string>, quoted: string, linked: string)
    requires quoted == head + Layout(slots, Quoted) && linked == head + Layout(slots, CreateClickableCommand)
    requires SlotCommands(slots) == cmds
    requires Run(head, Closed) == Closed && CleanSlots(slots)
    ensures LinkCommands(quoted, cmds) == linked
  {
    LinkLayout(head, slots);
  }

  lemma HelpHeadClosed()
    ensures Run(HelpHead, Closed) == Closed
  {
    assert '"' !in HelpIntro && '"' !in ListHeading && '"' !in Bullet;
    NoQuote(HelpHead);
    RunQuoteFree(HelpHead, Closed);
  }

  /** Each example command shows up in the rendered help as its link after a bullet. */
  lemma HelpLinksEveryCommand(cmd: string)
    requires cmd in Flatten(ExampleCommands)
    ensures Contains(LinkCommands(HelpMessage(), Flatten(ExampleCommands)), Bullet + CreateClickableCommand(cmd))
  {
    HelpCommandsLinked();
    HelpListsEveryCommand(cmd, CreateClickableCommand);
  }

  lemma HelpSlotsClean()
    ensures CleanSlots(HelpSlots)
  {
    var g1 := Group(ListCommands, "\n\n" + SearchHeading + Bullet);
    var g2 := Group(SearchCommands, "\n\n" + AnalyzeHeading + Bullet);
    var g3 := Group(AnalyzeCommands, "");
    ListSlotsClean();
    SearchSlotsClean();
    AnalyzeSlotsClean();
    CleanSlotsConcat(g1, g2);
    CleanSlotsConcat(g1 + g2, g3);
  }

  lemma ListSlotsClean()
    ensures CleanSlots(Group(ListCommands, "\n\n" + SearchHeading + Bullet))
  {
    assert AllClean(ListCommands[0]) by { CleanByMembership(ListCommands[0]); }
    assert AllClean(ListCommands[1]) by { CleanByMembership(ListCommands[1]); }
    assert AllClean(ListCommands[2]) by { CleanByMembership(ListCommands[2]); }
    LineQuoteFree();
    assert QuoteFree("\n\n" + SearchHeading + Bullet) by { HeadingsQuoteFree(); }
    CleanGroup(ListCommands, "\n\n" + SearchHeading + Bullet);
  }

  lemma SearchSlotsClean()
    ensures CleanSlots(Group(SearchCommands, "\n\n" + AnalyzeHeading + Bullet))
  {
    assert AllClean(SearchCommands[0]) by { CleanByMembership(SearchCommands[0]); }
    assert AllClean(SearchCommands[1]) by { CleanByMembership(SearchCommands[1]); }
    assert AllClean(SearchCommands[2]) by { CleanByMembership(SearchCommands[2]); }
    LineQuoteFree();
    assert QuoteFree("\n\n" + AnalyzeHeading + Bullet) by { HeadingsQuoteFree(); }
    CleanGroup(SearchCommands, "\n\n" + AnalyzeHeading + Bullet);
  }

  lemma AnalyzeSlotsClean()
    ensures CleanSlots(Group(AnalyzeCommands, ""))
  {
    assert AllClean(AnalyzeCommands[0]) by { CleanByMembership(AnalyzeCommands[0]); }
    assert AllClean(AnalyzeCommands[1]) by { CleanByMembership(AnalyzeCommands[1]); }
    assert AllClean(AnalyzeCommands[2]) by { CleanByMembership(AnalyzeCommands[2]); }
    LineQuoteFree();
    CleanGroup(AnalyzeCommands, "");
  }

  lemma LineQuoteFree()
    ensures QuoteFree("\n" + Bullet)
  {
    NoQuote("\n" + Bullet);
  }

  /** The texts between the categories of the help reply hold no quote. */
  lemma HeadingsQuoteFree()
    ensures QuoteFree("\n\n" + SearchHeading + Bullet) && QuoteFree("\n\n" + AnalyzeHeading + Bullet)
  {
    assert '"' !in Bullet && '"' !in SearchHeading && '"' !in AnalyzeHeading;
    NoQuote("\n\n" + SearchHeading + Bullet);
    NoQuote("\n\n" + AnalyzeHeading + Bullet);
  }

  lemma CleanGroup(cmds: seq<string>, tail: string)
    requires |cmds| == 3 && AllClean(cmds[0]) && AllClean(cmds[1]) && AllClean(cmds[2])
    requires QuoteFree(tail) && QuoteFree("\n" + Bullet)
    ensures CleanSlots(Group(cmds, tail))
  {
    Group3(cmds, tail);
    var g := Group(cmds, tail);
    assert CleanSlots(g[3..]);
    assert g[2..][1..] == g[3..];
    assert CleanSlots(g[2..]);
    assert g[1..][1..] == g[2..];
    assert CleanSlots(g[1..]);
  }

  lemma NoQuote(s: string)
    requires '"' !in s
    ensures QuoteFree(s)
  {
    forall i | 0 <= i < |s|
      ensures s[i] != '"'
    {
      assert s[i] in s;
    }
  }

  lemma CleanDollarFree(s: string)
    requires AllClean(s)
    ensures '$' !in s
  {
    forall i | 0 <= i < |s|
      ensures s[i] != '$'
    {
      assert IsClean(s[i]);
    }
  }

  lemma CleanByMembership(s: string)
    requires forall c :: c in s ==> IsClean(c)
    ensures AllClean(s)
  {
    forall i | 0 <= i < |s|
      ensures IsClean(s[i])
    {
      assert s[i] in s;
    }
  }

  lemma {:induction false} CleanSlotsConcat(xs: seq<Slot>, ys: seq<Slot>)
    requires CleanSlots(xs) && CleanSlots(ys)
    ensures CleanSlots(xs + ys)
    decreases |xs|
  {
    if |xs| > 0 {
      CleanSlotsConcat(xs[1..], ys);
      assert (xs + ys)[1..] == xs[1..] + ys;
    } else {
      assert xs + ys == ys;
    }
  }

  // ---------------------------------------------------------------- rendering

  datatype Sender = User | Ai

  /** How `appendMessage` puts a message on the page: as HTML, as plain text, or
      not at all because formatting threw. */
  datatype Shown = Html(html: string) | Text(text: string) | Thrown

  /** The condition under which `appendMessage` formats: an AI message whose reply
      asks for the commands view. */
  predicate AsksForCommands(sender: Sender, reply: Option<ChatReply>) {
    sender == Ai && reply.Some? && reply.value.visualization == Some(CommandsView)
  }

  /** `appendMessage`: only an AI message whose reply asks for the commands view is
      formatted; its `data` goes to `formatCommandsMessage`, where `null` and empty
      collections leave the message as it is and any other non-catalogue value
      throws. Everything else is inserted as plain text. */
  method AppendMessage(message: string, sender: Sender, reply: Option<ChatReply>) returns (shown: Shown)
    ensures !AsksForCommands(sender, reply) ==> shown == Text(message)
    ensures AsksForCommands(sender, reply) && reply.value.data.Commands? ==>
      shown == Html(LinkCommands(message, Flatten(reply.value.data.catalog)))
    ensures AsksForCommands(sender, reply) && reply.value.data.NoData? ==> shown == Html(message)
    ensures AsksForCommands(sender, reply) && reply.value.data.RecordList? ==>
      shown == (if reply.value.data.records == [] then Html(message) else Thrown)
    ensures AsksForCommands(sender, reply) && reply.value.data.Distribution? ==>
      shown == (if reply.value.data.counts == map[] then Html(message) else Thrown)
  {
    if AsksForCommands(sender, reply) {
      match reply.value.data
      case Commands(cats) =>
        var html := FormatCommandsMessage(message, Some(cats));
        shown := Html(html);
      case NoData =>
        var html := FormatCommandsMessage(message, None);
        shown := Html(html);
      case RecordList(rs) =>
        shown := if rs == [] then Html(message) else Thrown;
      case Distribution(counts) =>
        shown := if counts == map[] then Html(message) else Thrown;
    } else {
      shown := Text(message);
    }
  }

  // ---------------------------------------------------------------- submit guards

  /** The guard of `sendMessage`: the trimmed input, or nothing to send when it is blank. */
  function ChatSubmission(input: string): (sent: Option<string>)
    ensures sent.None? <==> forall i :: 0 <= i < |input| ==> IsWhitespace(input[i])
    ensures sent.Some? ==> sent.value == Trim(input)
    ensures sent.Some? ==> sent.value != "" && !IsWhitespace(sent.value[0]) && !IsWhitespace(sent.value[|sent.value| - 1])
  {
    var message := Trim(input);
    if message == "" then None else Some(message)
  }

  /** Whatever the chat box sends, `/chat` accepts. */
  lemma SubmittedChatAccepted(input: string, docs: seq<Record>, intent: string, outcome: GenerationOutcome)
    requires ChatSubmission(input).Some?
    ensures Chat(docs, ChatSubmission(input), intent, outcome).status == 200
  {
  }

  /** The JSON body `updateRecord` posts. */
  datatype UpdateBody = UpdateBody(id: int, name: string, value: string)

  /** The guard of `updateRecord`: the id field read by `parseInt`, refused when that
      is `NaN` or zero, or when the name or the value field is empty. */
  function UpdateSubmission(idText: string, name: string, value: string): (body: Option<UpdateBody>)
    ensures body.None? <==> ParseInt(idText) in {None, Some(0)} || name == "" || value == ""
    ensures body.Some? ==> Some(body.value.id) == ParseInt(idText) && body.value.id != 0
    ensures body.Some? ==> body.value.name == name && body.value.value == value
  {
    var id := ParseInt(idText);
    if id.None? || id.value == 0 || name == "" || value == "" then None
    else Some(UpdateBody(id.value, name, value))
  }

  /** How the server reads a posted body: the id goes out as a JSON number and
      is validated as its decimal text. */
  function AsRequest(body: UpdateBody): UpdateRequest {
    UpdateRequest(IntToString(body.id), body.name, body.value)
  }

  /** An id the form lets through always passes the server's `isInt` check and
      reaches the store as the number the form read. */
  lemma SubmittedIdValid(idText: string, name: string, value: string)
    requires UpdateSubmission(idText, name, value).Some?
    ensures var request := AsRequest(UpdateSubmission(idText, name, value).value);
      && IsIntText(request.id)
      && Some(IntTextValue(request.id)) == ParseInt(idText)
      && IdMessage !in ValidationErrors(request)
  {
    IntTextOfIntToString(UpdateSubmission(idText, name, value).value.id);
  }

  /** The form's check and the server's differ on blank fields: a name made of
      spaces gets past the form and is refused by the server. */
  lemma BlankNamePassesForm(idText: string, name: string, value: string)
    requires ParseInt(idText).Some? && ParseInt(idText).value != 0 && value != ""
    requires name != "" && forall i :: 0 <= i < |name| ==> IsWhitespace(name[i])
    ensures UpdateSubmission(idText, name, value).Some?
    ensures NameMessage in ValidationErrors(AsRequest(UpdateSubmission(idText, name, value).value))
  {
    BlankFieldRejected(AsRequest(UpdateSubmission(idText, name, value).value));
  }
}
