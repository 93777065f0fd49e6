/**
 * The `messageCreate` front end of main.js and of trivia.js: which messages
 * are looked at, how the mention is stripped and the rest tokenised, and
 * which handler a command reaches.
 */
module Dispatch {
  import opened Wrappers
  import opened Text
  import opened Numbers
  import opened Records

  /** What the front end sees of a Discord message. */
  datatype Incoming = Incoming(fromBot: bool, inGuild: bool, inAllowedChannel: bool, content: string)

  /** `<@id>` or `<@!id>`. */
  function Mention(id: string, bang: bool): string {
    "<@" + (if bang then "!" else "") + id + ">"
  }

  predicate AllDigits(s: string) {
    forall c <- s :: IsDigit(c)
  }

  /**
   * The length of the match of `/^<@!?(\d+)>/` at the start of `content`,
   * or `None` when the message does not start with a mention.
   */
  function MentionLength(content: string): (n: Option<nat>)
    ensures n.Some? ==> 4 <= n.value <= |content| && IsMentionPrefix(content, n.value)
  {
    if |content| < 2 || content[0] != '<' || content[1] != '@' then None
    else
      var i := if |content| > 2 && content[2] == '!' then 3 else 2;
      var d := DigitRunLength(content[i..]);
      if d == 0 || i + d >= |content| || content[i + d] != '>' then None
      else
        var id := content[i..i + d];
        assert forall k :: 0 <= k < d ==> id[k] == content[i..][k];
        assert content[..i + d + 1] == content[..i] + id + ">";
        Some(i + d + 1)
  }

  /** `content[..n]` is `<@id>` or `<@!id>` for a non-empty run of digits `id`. */
  predicate IsMentionPrefix(content: string, n: nat)
    requires 4 <= n <= |content|
  {
    var bang := content[2] == '!';
    var start := if bang then 3 else 2;
    start < n - 1 && AllDigits(content[start..n - 1]) && content[..n] == Mention(content[start..n - 1], bang)
  }

  /** A mention followed by anything not continuing it is recognised with its exact length. */
  lemma MentionRecognised(id: string, bang: bool, rest: string)
    requires id != [] && AllDigits(id)
    ensures MentionLength(Mention(id, bang) + rest) == Some(|Mention(id, bang)|)
  {
    var content := Mention(id, bang) + rest;
    var i := if bang then 3 else 2;
    assert content[i..] == id + ">" + rest;
    assert id[0] in id;
    DigitRunOfDigits(id, ">" + rest);
    assert id + ">" + rest == id + (">" + rest);
    assert content[i + |id|] == '>';
  }

  /** The command word (lower-cased) and the remaining tokens. */
  datatype Invocation = Invocation(command: string, args: seq<string>)

  /**
   * `commandString.split(/\s+/)` after `trim()`, with the first token shifted
   * off and lower-cased: the command is the first word of the string,
   * lower-cased, and the arguments are the words after it, in order. With
   * no word at all the command is empty and there are no arguments.
   */
  function Tokenize(commandString: string): (inv: Invocation)
    ensures inv.command == [] <==> Trim(commandString) == []
    ensures Lower(inv.command) == inv.command && NoWhitespace(inv.command)
    ensures forall a <- inv.args :: IsWord(a)
    ensures Words(commandString) == [] ==> inv == Invocation("", [])
    ensures Words(commandString) != [] ==>
      inv == Invocation(Lower(Words(commandString)[0]), Words(commandString)[1..])
  {
    var parts := SplitTrimmed(Trim(commandString));
    SplitTrimmedFacts(commandString);
    SplitTrimmedWords(commandString);
    LowerIdempotent(parts[0]);
    LowerNoWhitespace(parts[0]);
    Invocation(Lower(parts[0]), parts[1..])
  }

  lemma SplitTrimmedWords(s: string)
    ensures var parts := SplitTrimmed(Trim(s)); var ws := Words(s);
      && (ws == [] ==> Lower(parts[0]) == "" && parts[1..] == [])
      && (ws != [] ==> parts[0] == ws[0] && parts[1..] == ws[1..])
  {
    WordsOfTrim(s);
    assert Lower("") == "";
  }

  lemma SplitTrimmedFacts(s: string)
    ensures var t := Trim(s); var parts := SplitTrimmed(t);
      && (parts[0] == [] <==> t == [])
      && NoWhitespace(parts[0])
      && forall a <- parts[1..] :: IsWord(a)
  {
    var t := Trim(s);
    var parts := SplitTrimmed(t);
    TrimChars(s);
    if t != [] {
      assert Words(t) != [] && Words(t)[0] in Words(t);
    }
    assert parts[0] in parts;
    assert forall a <- parts[1..] :: a in parts;
  }

  /**
   * The handler a message reaches: `None` when it is ignored without a reply
   * (sent by a bot, posted in a server channel other than the allowed one,
   * or not starting with a mention); otherwise the tokens of the text after
   * the mention.
   */
  function Parse(m: Incoming): (inv: Option<Invocation>)
    ensures inv.Some? <==> !m.fromBot && (!m.inGuild || m.inAllowedChannel) && MentionLength(m.content).Some?
    ensures inv.Some? ==> inv.value == Tokenize(m.content[MentionLength(m.content).value..])
  {
    if m.fromBot || (m.inGuild && !m.inAllowedChannel) then None
    else match MentionLength(m.content)
      case None => None
      case Some(n) => Some(Tokenize(m.content[n..]))
  }

  /**
   * A mention followed by words separated by runs of `\s`, with any `\s`
   * around them, parses to the first word, lower-cased, as the command and
   * the remaining words as its arguments.
   */
  lemma ParseComposed(id: string, bang: bool, pre: string, words: seq<string>, seps: seq<string>, post: string,
                      inGuild: bool, inAllowedChannel: bool)
    requires id != [] && AllDigits(id)
    requires |words| == |seps| + 1 && forall w <- words :: IsWord(w)
    requires forall sep <- seps :: sep != [] && Blank(sep)
    requires Blank(pre) && Blank(post)
    requires !inGuild || inAllowedChannel
    ensures Parse(Incoming(false, inGuild, inAllowedChannel, Mention(id, bang) + pre + Interleave(words, seps) + post))
         == Some(Invocation(Lower(words[0]), words[1..]))
  {
    var prefix := Mention(id, bang);
    var rest := pre + Interleave(words, seps) + post;
    var content := Mention(id, bang) + pre + Interleave(words, seps) + post;
    assert content == prefix + rest;
    MentionRecognised(id, bang, rest);
    assert content[|prefix|..] == rest;
    WordsOfSpaced(pre, words, seps, post);
  }

  /** What a command leads to. */
  datatype Action =
    | NoCommand
    | Help
    | ShowBalance
    | Subscribe(args: seq<string>)
    | Finalize
    | Task
    | VerifyTask
    | UnknownVerify(subcommand: string)
    | Trivia
    | Unknown(name: string)
    /** trivia.js: any command but help and subscribe from a user with no record. */
    | NotSubscribed
    /** trivia.js: a case whose handler was never imported, raising a ReferenceError. */
    | HandlerMissing(name: string)

  /** `args[0]?.toLowerCase() === 'task'`. */
  predicate NamesTask(args: seq<string>) {
    |args| > 0 && Lower(args[0]) == "task"
  }

  /** `args[0] || ''`. */
  function FirstOrEmpty(args: seq<string>): string {
    if |args| > 0 then args[0] else ""
  }

  /** The `switch (command)` of main.js. */
  function Dispatch(inv: Invocation): Action {
    if inv.command == [] then NoCommand
    else if inv.command == "help" then Help
    else if inv.command == "balance" then ShowBalance
    else if inv.command == "subscribe" then Subscribe(inv.args)
    else if inv.command == "finalize" then Finalize
    else if inv.command == "task" then Task
    else if inv.command == "verify" then
      if NamesTask(inv.args) then VerifyTask else UnknownVerify(FirstOrEmpty(inv.args))
    else Unknown(inv.command)
  }

  /** The subscription gate and `switch (command)` of trivia.js. */
  function TriviaDispatch(inv: Invocation, subscribed: bool): Action {
    if inv.command == [] then NoCommand
    else if !subscribed && inv.command != "help" && inv.command != "subscribe" then NotSubscribed
    else if inv.command == "finalize" then HandlerMissing("handleFinalizeCommand")
    else if inv.command == "task" then HandlerMissing("handleTaskCommand")
    else if inv.command == "verify" && NamesTask(inv.args) then HandlerMissing("handleVerifyTaskCommand")
    else if inv.command == "trivia" then Trivia
    else Dispatch(inv)
  }

  /** `verify` reaches the task verification exactly when its next token is `task` in any case. */
  lemma VerifyDispatchIff(inv: Invocation)
    ensures Dispatch(inv) == VerifyTask <==> inv.command == "verify" && |inv.args| > 0 && EqualsIgnoreCase(inv.args[0], "task")
  {
    assert Lower("task") == "task";
  }

  lemma LowerLiterals()
    ensures Lower("verify") == "verify" && Lower("task") == "task"
  {
  }

  /** Whatever the letter case, `@bot verify task ...` reaches the task verification. */
  lemma VerifyTaskAnyCase(id: string, pre: string, words: seq<string>, seps: seq<string>, post: string,
                          content: string)
    requires id != [] && AllDigits(id)
    requires |words| >= 2 && forall w <- words :: IsWord(w)
    requires EqualsIgnoreCase(words[0], "verify") && EqualsIgnoreCase(words[1], "task")
    requires |words| == |seps| + 1 && forall sep <- seps :: sep != [] && Blank(sep)
    requires Blank(pre) && Blank(post)
    requires content == Mention(id, false) + pre + Interleave(words, seps) + post
    ensures var p := Parse(Incoming(false, false, false, content));
      p.Some? && Dispatch(p.value) == VerifyTask
  {
    ParseComposed(id, false, pre, words, seps, post, false, false);
    var inv := Invocation(Lower(words[0]), words[1..]);
    assert Parse(Incoming(false, false, false, content)) == Some(inv);
    LowerLiterals();
    assert inv.command == "verify";
    assert inv.args[0] == words[1];
    VerifyDispatchIff(inv);
  }

  /** In trivia.js, a user with no record gets only `help` and `subscribe` past the gate. */
  lemma UnsubscribedGate(inv: Invocation)
    ensures var a := TriviaDispatch(inv, false);
      a != NotSubscribed && a != NoCommand <==> inv.command == "help" || inv.command == "subscribe"
    ensures inv.command == "help" ==> TriviaDispatch(inv, false) == Help
    ensures inv.command == "subscribe" ==> TriviaDispatch(inv, false) == Subscribe(inv.args)
  {
  }

  /**
   * For a subscribed user trivia.js routes like main.js, except for the
   * handlers it never imported and its own `trivia` command.
   */
  lemma TriviaRoutesLikeMain(inv: Invocation)
    ensures var a := Dispatch(inv);
      (a == Finalize || a == Task || a == VerifyTask) <==> TriviaDispatch(inv, true).HandlerMissing?
    ensures var a := Dispatch(inv);
      a != Finalize && a != Task && a != VerifyTask && a != Unknown("trivia") ==> TriviaDispatch(inv, true) == a
  {
  }

  /** main.js `balance`: the amount shown, or `None` for the "no points yet" reply (a 0 is falsy). */
  function ShownBalance(codes: Codes, userId: string): (b: Option<int>)
    ensures b.Some? <==> userId in codes && Balance(codes[userId]) != 0
    ensures b.Some? ==> b.value == Balance(codes[userId])
  {
    if userId in codes && codes[userId].balance.Some? && codes[userId].balance.value != 0
    then Some(codes[userId].balance.value) else None
  }

  /** trivia.js `balance`: the same for the trivia balance, shown on a second line. */
  function ShownTriviaBalance(codes: Codes, userId: string): (b: Option<int>)
    ensures b.Some? <==> userId in codes && TriviaBalance(codes[userId]) != 0
    ensures b.Some? ==> b.value == TriviaBalance(codes[userId])
  {
    if userId in codes && codes[userId].triviaBalance.Some? && codes[userId].triviaBalance.value != 0
    then Some(codes[userId].triviaBalance.value) else None
  }
}
