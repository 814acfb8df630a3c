/**
 The shell's command parser and printer, over the tokens of its lexer. `Parse` is the language
 as a function of the tokens, `Print` the token sequence the printer writes; the classes are
 the parser and the command it fills in place.
 */
module Shell {
  import opened Words

  /** History expansion is not part of this model. A quoted token carries the text between its quotes. */
  datatype Token =
    | Argument(text: string)
    | Quoted(text: string)
    | Environment(name: string)
    | OutRedir | InRedir | Pipe | Terminator | Background | SuccessConcat

  datatype Command = Command(
    words: seq<string>, out: Option<string>, inp: Option<string>,
    pipe: Option<Command>, success: Option<Command>, background: bool)

  const EMPTY: Command := Command([], None, None, None, None, false)

  /** The process environment. */
  type Env = string -> Option<string>

  // ---------- The language ----------

  /** The text of a token that stands for a word: an unset variable is the empty word. */
  function TextOf(env: Env, t: Token): Option<string> {
    match t
    case Argument(text) => Some(text)
    case Quoted(text) => Some(text)
    case Environment(name) => Some(match env(name) case Some(v) => v case None => "")
    case _ => None
  }

  /** Empty words are dropped. */
  function WithWord(c: Command, w: string): Command {
    if w == "" then c else c.(words := c.words + [w])
  }

  datatype Parsed = Error | Done(command: Command, rest: seq<Token>)

  /** Goes on with command `d` at the tokens `ts`; the end of the input ends the command. */
  function Parse(env: Env, ts: seq<Token>, d: Command): Parsed
    decreases |ts|
  {
    if ts == [] then Done(d, [])
    else
      var sym, rest := ts[0], ts[1..];
      match sym
      case Terminator => Done(d, rest)
      case OutRedir =>
        if rest == [] || TextOf(env, rest[0]) == None then Error
        else Parse(env, rest[1..], d.(out := TextOf(env, rest[0])))
      case InRedir =>
        if rest == [] || TextOf(env, rest[0]) == None then Error
        else Parse(env, rest[1..], d.(inp := TextOf(env, rest[0])))
      case Pipe =>
        if rest == [] then Error
        else
          (match Parse(env, rest, EMPTY)
           case Error => Error
           case Done(c, r) => Done(d.(pipe := Some(c)), r))
      case SuccessConcat =>
        if rest == [] then Error
        else
          (match Parse(env, rest, EMPTY)
           case Error => Error
           case Done(c, r) => Done(d.(success := Some(c)), r))
      case Background =>
        if rest != [] && rest[0] == Terminator then Done(d.(background := true), rest[1..]) else Error
      case _ => Parse(env, rest, WithWord(d, TextOf(env, sym).value))
  }

  /** One call of the parser on fresh input: no input is no command. */
  function ParseLine(env: Env, ts: seq<Token>): Parsed {
    if ts == [] then Error else Parse(env, ts, EMPTY)
  }

  // ---------- The printer ----------

  function Arguments(ws: seq<string>): seq<Token> {
    if ws == [] then [] else [Argument(ws[0])] + Arguments(ws[1..])
  }

  function Redirects(c: Command): seq<Token> {
    (if c.out.Some? then [OutRedir, Argument(c.out.value)] else []) +
    (if c.inp.Some? then [InRedir, Argument(c.inp.value)] else [])
  }

  function Print(c: Command): seq<Token> {
    Arguments(c.words) + Redirects(c) +
    (if c.background then [Background] else []) +
    (if c.pipe.Some? then [Pipe] + Print(c.pipe.value) else []) +
    (if c.success.Some? then [SuccessConcat] + Print(c.success.value) else [])
  }

  // ---------- What the parser can build ----------

  ghost predicate NoEmptyWord(ws: seq<string>) { forall i | 0 <= i < |ws| :: ws[i] != "" }

  ghost predicate Simple(c: Command) {
    NoEmptyWord(c.words) && c.pipe == None && c.success == None && !c.background
  }

  /** No empty words, at most one continuation, and none behind a background mark. */
  ghost predicate Buildable(c: Command) {
    && NoEmptyWord(c.words)
    && !(c.pipe.Some? && c.success.Some?)
    && (c.background ==> c.pipe == None && c.success == None)
    && (c.pipe.Some? ==> Buildable(c.pipe.value))
    && (c.success.Some? ==> Buildable(c.success.value))
  }

  lemma {:induction false} ParseBuilds(env: Env, ts: seq<Token>, d: Command)
    requires Simple(d) && Parse(env, ts, d).Done?
    ensures Buildable(Parse(env, ts, d).command)
    decreases |ts|
  {
    if ts != [] {
      var sym, rest := ts[0], ts[1..];
      match sym
      case Terminator =>
      case OutRedir => ParseBuilds(env, rest[1..], d.(out := TextOf(env, rest[0])));
      case InRedir => ParseBuilds(env, rest[1..], d.(inp := TextOf(env, rest[0])));
      case Pipe => ParseBuilds(env, rest, EMPTY);
      case SuccessConcat => ParseBuilds(env, rest, EMPTY);
      case Background =>
      case _ => ParseBuilds(env, rest, WithWord(d, TextOf(env, sym).value));
    }
  }

  // ---------- What tokens stand for ----------

  /** Quoted words and variables, replaced by the plain word they stand for. */
  function AsArgument(env: Env, t: Token): Token {
    match t
    case Quoted(text) => Argument(text)
    case Environment(name) => Argument(match env(name) case Some(value) => value case None => "")
    case _ => t
  }

  function Substituted(env: Env, ts: seq<Token>): (r: seq<Token>)
    ensures |r| == |ts|
  {
    if ts == [] then [] else [AsArgument(env, ts[0])] + Substituted(env, ts[1..])
  }

  function RestSubstituted(env: Env, p: Parsed): Parsed {
    match p case Error => Error case Done(c, rest) => Done(c, Substituted(env, rest))
  }

  lemma SubstitutedTarget(env: Env, ts: seq<Token>)
    requires ts != []
    ensures Substituted(env, ts)[0] == AsArgument(env, ts[0]) && Substituted(env, ts)[1..] == Substituted(env, ts[1..])
    ensures TextOf(env, Substituted(env, ts)[0]) == TextOf(env, ts[0])
  {
  }

  /**
   Quoting and variables are only ways to write a word: parsing a line and parsing it with every
   quoted word and variable replaced by its text give the same command, wherever they stand.
   */
  lemma {:induction false} SubstitutionLaw(env: Env, ts: seq<Token>, d: Command)
    ensures Parse(env, Substituted(env, ts), d) == RestSubstituted(env, Parse(env, ts, d))
    decreases |ts|
  {
    if ts != [] {
      var sym, rest := ts[0], ts[1..];
      var ts' := Substituted(env, ts);
      assert ts'[1..] == Substituted(env, rest);
      match sym
      case Terminator =>
      case OutRedir =>
        if rest != [] {
          SubstitutedTarget(env, rest);
          SubstitutionLaw(env, rest[1..], d.(out := TextOf(env, rest[0])));
        }
      case InRedir =>
        if rest != [] {
          SubstitutedTarget(env, rest);
          SubstitutionLaw(env, rest[1..], d.(inp := TextOf(env, rest[0])));
        }
      case Pipe => SubstitutionLaw(env, rest, EMPTY);
      case SuccessConcat => SubstitutionLaw(env, rest, EMPTY);
      case Background => if rest != [] { SubstitutedTarget(env, rest); }
      case _ => SubstitutionLaw(env, rest, WithWord(d, TextOf(env, sym).value));
    }
  }

  /** Words and redirections, in any order. */
  datatype Item = Word(text: string) | To(target: string) | From(target: string)

  function ItemTokens(item: Item): seq<Token> {
    match item
    case Word(text) => [Argument(text)]
    case To(target) => [OutRedir, Argument(target)]
    case From(target) => [InRedir, Argument(target)]
  }

  function AllTokens(items: seq<Item>): seq<Token> {
    if items == [] then [] else ItemTokens(items[0]) + AllTokens(items[1..])
  }

  /** The words that are not empty, in order. */
  function WordsOf(items: seq<Item>): seq<string> {
    if items == [] then []
    else (if items[0].Word? && items[0].text != "" then [items[0].text] else []) + WordsOf(items[1..])
  }

  /** The last redirection of the output decides; without one, what was decided before stays. */
  function OutOf(items: seq<Item>, before: Option<string>): Option<string> {
    if items == [] then before else OutOf(items[1..], if items[0].To? then Some(items[0].target) else before)
  }

  function InOf(items: seq<Item>, before: Option<string>): Option<string> {
    if items == [] then before else InOf(items[1..], if items[0].From? then Some(items[0].target) else before)
  }

  // ---------- Printing and parsing again ----------

  lemma ParseWord(env: Env, w: string, tail: seq<Token>, d: Command)
    ensures Parse(env, [Argument(w)] + tail, d) == Parse(env, tail, WithWord(d, w))
  {
    assert ([Argument(w)] + tail)[1..] == tail;
  }

  lemma {:induction false} ParseArguments(env: Env, ws: seq<string>, tail: seq<Token>, d: Command)
    requires NoEmptyWord(ws)
    ensures Parse(env, Arguments(ws) + tail, d) == Parse(env, tail, d.(words := d.words + ws))
  {
    if ws == [] {
      assert Arguments(ws) + tail == tail && d.words + ws == d.words;
    } else {
      assert Arguments(ws) + tail == [Argument(ws[0])] + (Arguments(ws[1..]) + tail);
      ParseWord(env, ws[0], Arguments(ws[1..]) + tail, d);
      ParseArguments(env, ws[1..], tail, WithWord(d, ws[0]));
      assert d.words + [ws[0]] + ws[1..] == d.words + ws;
    }
  }

  lemma ParseOut(env: Env, t: string, tail: seq<Token>, d: Command)
    ensures Parse(env, [OutRedir, Argument(t)] + tail, d) == Parse(env, tail, d.(out := Some(t)))
  {
    var ts := [OutRedir, Argument(t)] + tail;
    assert ts[1..] == [Argument(t)] + tail && ts[1..][1..] == tail;
  }

  lemma ParseIn(env: Env, t: string, tail: seq<Token>, d: Command)
    ensures Parse(env, [InRedir, Argument(t)] + tail, d) == Parse(env, tail, d.(inp := Some(t)))
  {
    var ts := [InRedir, Argument(t)] + tail;
    assert ts[1..] == [Argument(t)] + tail && ts[1..][1..] == tail;
  }

  /** The command with what the items say added to it. */
  function WithItems(d: Command, items: seq<Item>): Command {
    d.(words := d.words + WordsOf(items), out := OutOf(items, d.out), inp := InOf(items, d.inp))
  }

  lemma OneItem(item: Item, before: Option<string>)
    ensures WordsOf([item]) == if item.Word? && item.text != "" then [item.text] else []
    ensures OutOf([item], before) == if item.To? then Some(item.target) else before
    ensures InOf([item], before) == if item.From? then Some(item.target) else before
  {
    assert [item][1..] == [];
  }

  lemma WithFirst(d: Command, items: seq<Item>)
    requires items != []
    ensures WithItems(WithItems(d, [items[0]]), items[1..]) == WithItems(d, items)
  {
    OneItem(items[0], d.out);
    OneItem(items[0], d.inp);
    assert d.words + WordsOf([items[0]]) + WordsOf(items[1..]) == d.words + WordsOf(items);
  }

  lemma ParseItem(env: Env, item: Item, tail: seq<Token>, d: Command)
    ensures Parse(env, ItemTokens(item) + tail, d) == Parse(env, tail, WithItems(d, [item]))
  {
    OneItem(item, d.out);
    OneItem(item, d.inp);
    assert d.words + [] == d.words;
    match item
    case Word(text) => ParseWord(env, text, tail, d);
    case To(target) => ParseOut(env, target, tail, d);
    case From(target) => ParseIn(env, target, tail, d);
  }

  /** However words and redirections are mixed, all words count and the last redirection each way decides. */
  lemma {:induction false} ParseItems(env: Env, items: seq<Item>, tail: seq<Token>, d: Command)
    ensures Parse(env, AllTokens(items) + tail, d) == Parse(env, tail, WithItems(d, items))
    decreases |items|
  {
    if items == [] {
      assert AllTokens(items) + tail == tail && d.words + [] == d.words;
    } else {
      var rest := AllTokens(items[1..]) + tail;
      assert AllTokens(items) + tail == ItemTokens(items[0]) + rest;
      ParseItem(env, items[0], rest, d);
      ParseItems(env, items[1..], tail, WithItems(d, [items[0]]));
      WithFirst(d, items);
    }
  }

  /** A token that stands for a word. */
  predicate IsWord(t: Token) { t.Argument? || t.Quoted? || t.Environment? }

  /** The syntax errors: a redirection without a word behind it, a background mark without a terminator. */
  lemma SyntaxErrors(env: Env, ts: seq<Token>, d: Command)
    ensures ts == [] || !IsWord(ts[0]) ==> Parse(env, [OutRedir] + ts, d) == Error == Parse(env, [InRedir] + ts, d)
    ensures ts == [] || ts[0] != Terminator ==> Parse(env, [Background] + ts, d) == Error
  {
    assert ([OutRedir] + ts)[1..] == ts && ([InRedir] + ts)[1..] == ts && ([Background] + ts)[1..] == ts;
  }

  lemma ParseRedirects(env: Env, c: Command, tail: seq<Token>, d: Command)
    requires d.out == None && d.inp == None
    ensures Parse(env, Redirects(c) + tail, d) == Parse(env, tail, d.(out := c.out, inp := c.inp))
  {
    var ins := if c.inp.Some? then [InRedir, Argument(c.inp.value)] else [];
    var d1 := d.(out := c.out);
    if c.out.Some? {
      assert Redirects(c) + tail == [OutRedir, Argument(c.out.value)] + (ins + tail);
      ParseOut(env, c.out.value, ins + tail, d);
    } else {
      assert Redirects(c) + tail == ins + tail;
    }
    if c.inp.Some? { ParseIn(env, c.inp.value, tail, d1); } else { assert ins + tail == tail; }
  }

  /** The words and redirections of a command, printed, are read back whole. */
  lemma ParseHead(env: Env, c: Command, tail: seq<Token>)
    requires Buildable(c)
    ensures Parse(env, Arguments(c.words) + Redirects(c) + tail, EMPTY) ==
            Parse(env, tail, Command(c.words, c.out, c.inp, None, None, false))
  {
    assert Arguments(c.words) + Redirects(c) + tail == Arguments(c.words) + (Redirects(c) + tail);
    ParseArguments(env, c.words, Redirects(c) + tail, EMPTY);
    ParseRedirects(env, c, tail, EMPTY.(words := [] + c.words));
    assert [] + c.words == c.words;
  }

  /** What follows the words and redirections of a printed command. */
  function Continuation(c: Command): seq<Token> {
    if c.background then [Background]
    else if c.pipe.Some? then [Pipe] + Print(c.pipe.value)
    else if c.success.Some? then [SuccessConcat] + Print(c.success.value)
    else []
  }

  lemma PrintParts(c: Command)
    requires Buildable(c)
    ensures Print(c) == Arguments(c.words) + Redirects(c) + Continuation(c)
  {
  }

  lemma ParsePipe(env: Env, ts: seq<Token>, d: Command)
    ensures Parse(env, [Pipe] + ts, d) ==
            match ParseLine(env, ts) case Error => Error case Done(c, rest) => Done(d.(pipe := Some(c)), rest)
  {
    assert ([Pipe] + ts)[1..] == ts;
  }

  lemma ParseSuccess(env: Env, ts: seq<Token>, d: Command)
    ensures Parse(env, [SuccessConcat] + ts, d) ==
            match ParseLine(env, ts) case Error => Error case Done(c, rest) => Done(d.(success := Some(c)), rest)
  {
    assert ([SuccessConcat] + ts)[1..] == ts;
  }

  /** Printing a command the parser can build and parsing the tokens again gives the same command. */
  lemma {:induction false} RoundTrip(env: Env, c: Command, rest: seq<Token>)
    requires Buildable(c)
    ensures Parse(env, Print(c) + [Terminator] + rest, EMPTY) == Done(c, rest)
    decreases c, 1
  {
    PrintParts(c);
    var tail := Continuation(c) + [Terminator] + rest;
    assert Print(c) + [Terminator] + rest == Arguments(c.words) + Redirects(c) + tail;
    ParseHead(env, c, tail);
    RoundTripTail(env, c, rest);
  }

  lemma ParseBackground(env: Env, rest: seq<Token>, d: Command)
    ensures Parse(env, [Background] + ([Terminator] + rest), d) == Done(d.(background := true), rest)
  {
    var ts := [Background] + ([Terminator] + rest);
    assert ts[1..] == [Terminator] + rest && ts[1..][1..] == rest;
  }

  lemma ParseEnd(env: Env, rest: seq<Token>, d: Command)
    ensures Parse(env, [Terminator] + rest, d) == Done(d, rest)
  {
    assert ([Terminator] + rest)[1..] == rest;
  }

  lemma Behind(sign: Token, ts: seq<Token>, rest: seq<Token>)
    ensures [sign] + ts + [Terminator] + rest == [sign] + (ts + [Terminator] + rest)
  {
  }

  lemma {:induction false} RoundTripTail(env: Env, c: Command, rest: seq<Token>)
    requires Buildable(c)
    ensures Parse(env, Continuation(c) + [Terminator] + rest, Command(c.words, c.out, c.inp, None, None, false)) ==
            Done(c, rest)
    decreases c, 0
  {
    var d := Command(c.words, c.out, c.inp, None, None, false);
    if c.background {
      ParseBackground(env, rest, d);
      assert [Background] + [Terminator] + rest == [Background] + ([Terminator] + rest);
    } else if c.pipe.Some? {
      var ts := Print(c.pipe.value) + [Terminator] + rest;
      RoundTrip(env, c.pipe.value, rest);
      ParsePipe(env, ts, d);
      Behind(Pipe, Print(c.pipe.value), rest);
    } else if c.success.Some? {
      var ts := Print(c.success.value) + [Terminator] + rest;
      RoundTrip(env, c.success.value, rest);
      ParseSuccess(env, ts, d);
      Behind(SuccessConcat, Print(c.success.value), rest);
    } else {
      ParseEnd(env, rest, d);
      assert [] + [Terminator] + rest == [Terminator] + rest;
    }
  }

  /** The end of the chain of pipes and successes: the command printed last. */
  ghost function Tail(c: Command): Command {
    if c.pipe.Some? then Tail(c.pipe.value) else if c.success.Some? then Tail(c.success.value) else c
  }

  lemma {:induction false} EmptyPrint(c: Command)
    ensures Print(c) == [] <==> c == EMPTY
  {
    if c.words != [] { assert Arguments(c.words)[0] == Argument(c.words[0]); }
  }

  /**
   Without a terminator behind it, the printed text is read back exactly when the chain does not
   end in a background command or in an empty one: the parser wants to see both ended.
   */
  lemma {:induction false} BareRoundTrip(env: Env, c: Command)
    requires Buildable(c)
    ensures ParseLine(env, Print(c)) == Done(c, []) <==> Tail(c) != EMPTY && !Tail(c).background
    ensures ParseLine(env, Print(c)) == Done(c, []) || ParseLine(env, Print(c)) == Error
  {
    EmptyPrint(c);
    PrintParts(c);
    ParseHead(env, c, Continuation(c));
    var head := Command(c.words, c.out, c.inp, None, None, false);
    if c.pipe.Some? {
      BareRoundTrip(env, c.pipe.value);
      ParsePipe(env, Print(c.pipe.value), head);
    } else if c.success.Some? {
      BareRoundTrip(env, c.success.value);
      ParseSuccess(env, Print(c.success.value), head);
    } else if c.background {
      assert [Background][1..] == [];
    }
  }

  // ---------- Commands in place ----------

  class CommandObject {
    var words: seq<string>
    var out: Option<string>
    var inp: Option<string>
    var pipe: Option<Command>
    var success: Option<Command>
    var background: bool

    ghost function Value(): Command
      reads this
    {
      Command(words, out, inp, pipe, success, background)
    }

    constructor ()
      ensures Value() == EMPTY
    {
      words, out, inp, pipe, success, background := [], None, None, None, None, false;
    }

    /** The copy goes through `AddWord`, which drops empty words; a parsed command has none. */
    constructor Copy(rhs: CommandObject)
      requires NoEmptyWord(rhs.words)
      ensures Value() == rhs.Value()
    {
      words, out, inp, pipe, success, background := [], None, None, None, None, false;
      new;
      for i := 0 to |rhs.words|
        invariant words == rhs.words[..i] && out == inp == None && pipe == success == None && !background
      {
        AddWord(rhs.words[i]);
      }
      if rhs.out.Some? { out := rhs.out; }
      if rhs.inp.Some? { inp := rhs.inp; }
      if rhs.pipe.Some? { pipe := rhs.pipe; }
      if rhs.success.Some? { success := rhs.success; }
      background := rhs.background;
    }

    method AddWord(word: string)
      modifies this
      ensures Value() == WithWord(old(Value()), word)
    {
      if word != "" { words := words + [word]; }
    }

    method SetPipe(cmd: CommandObject)
      requires NoEmptyWord(cmd.words)
      modifies this
      ensures Value() == old(Value()).(pipe := Some(old(cmd.Value())))
    {
      var target := new CommandObject.Copy(cmd);
      pipe := Some(Command(target.words, target.out, target.inp, target.pipe, target.success, target.background));
    }

    method SetSuccessChain(cmd: CommandObject)
      requires NoEmptyWord(cmd.words)
      modifies this
      ensures Value() == old(Value()).(success := Some(old(cmd.Value())))
    {
      var target := new CommandObject.Copy(cmd);
      success := Some(Command(target.words, target.out, target.inp, target.pipe, target.success, target.background));
    }
  }

  /** The parser: the current symbol and the tokens the lexer has not delivered yet. */
  class Parser {
    const env: Env
    var symbol: Token
    var input: seq<Token>

    constructor (env: Env, input: seq<Token>)
      ensures this.env == env && this.input == input
    {
      this.env, this.input, symbol := env, input, Terminator;
    }

    method NextSym() returns (ok: bool)
      modifies this
      ensures ok <==> old(input) != []
      ensures if ok then [symbol] + input == old(input) else input == [] && symbol == old(symbol)
    {
      if input == [] { return false; }
      symbol, input := input[0], input[1..];
      return true;
    }

    /** What comes back from the rest of the input, starting at the current symbol. */
    ghost function Expected(d: Command): Parsed
      reads this
    {
      Parse(env, [symbol] + input, d)
    }

    method ParseInput() returns (ok: bool, command: CommandObject)
      modifies this
      ensures fresh(command)
      ensures match ParseLine(env, old(input))
              case Error => !ok
              case Done(c, rest) => ok && command.Value() == c && input == rest
    {
      command := new CommandObject();
      var some := NextSym();
      if !some { return false, command; }
      ok := ParseCommand(command);
    }

    /** The file name behind a redirection sign. */
    method RedirectTarget() returns (target: Option<string>)
      modifies this
      ensures old(input) == [] ==> target == None && input == []
      ensures old(input) != [] ==> target == TextOf(env, old(input)[0]) && [symbol] + input == old(input)
    {
      var some := NextSym();
      if !some { return None; }
      return TextOf(env, symbol);
    }

    method ParseCommand(dest: CommandObject) returns (ok: bool)
      requires NoEmptyWord(dest.words)
      modifies this, dest
      ensures match old(Expected(dest.Value()))
              case Error => !ok
              case Done(c, rest) => ok && dest.Value() == c && input == rest
      ensures |input| <= old(|input|) && NoEmptyWord(dest.words)
      decreases |input|, 2
    {
      while true
        invariant Expected(dest.Value()) == old(Expected(dest.Value()))
        invariant |input| <= old(|input|) && NoEmptyWord(dest.words)
        decreases |input|
      {
        var more;
        more, ok := ParseSymbol(dest);
        if !more { return; }
        more := NextSym();
        if !more { return true; }
      }
    }

    /** One pass of the parser's loop: the current symbol and, behind a redirection, its target. */
    method ParseSymbol(dest: CommandObject) returns (more: bool, ok: bool)
      requires NoEmptyWord(dest.words)
      modifies this, dest
      ensures |input| <= old(|input|) && NoEmptyWord(dest.words)
      ensures more ==> Parse(env, input, dest.Value()) == old(Expected(dest.Value()))
      ensures !more ==>
                match old(Expected(dest.Value()))
                case Error => !ok
                case Done(c, rest) => ok && dest.Value() == c && input == rest
      decreases |input|, 1
    {
      assert ([symbol] + input)[1..] == input;
      var word := TextOf(env, symbol);
      if symbol == Terminator {
        return false, true;
      } else if word.Some? {
        dest.AddWord(word.value);
      } else if symbol == OutRedir || symbol == InRedir {
        var out := symbol == OutRedir;
        var target := RedirectTarget();
        if target == None { return false, false; }
        if out { dest.out := target; } else { dest.inp := target; }
      } else if symbol == Pipe || symbol == SuccessConcat {
        ok := ParseContinuation(dest);
        return false, ok;
      } else {
        dest.background := true;
        var some := NextSym();
        return false, some && symbol == Terminator;
      }
      return true, true;
    }

    /** The command behind a pipe or a success sign goes into a command of its own. */
    method ParseContinuation(dest: CommandObject) returns (ok: bool)
      requires NoEmptyWord(dest.words) && (symbol == Pipe || symbol == SuccessConcat)
      modifies this, dest
      ensures match old(Expected(dest.Value()))
              case Error => !ok
              case Done(c, rest) => ok && dest.Value() == c && input == rest
      ensures |input| <= old(|input|)
      ensures NoEmptyWord(dest.words)
      decreases |input|, 0
    {
      assert ([symbol] + input)[1..] == input;
      var pipe := symbol == Pipe;
      var some := NextSym();
      if !some { return false; }
      var temp := new CommandObject();
      ok := ParseCommand(temp);
      if ok {
        if pipe { dest.SetPipe(temp); } else { dest.SetSuccessChain(temp); }
      }
    }
  }
}
