/**
 The shell's lexer and the text its printer writes: when a printed command, lexed again, gives
 the tokens it was printed from. Inputs hold no `!`, the mark of history expansion.
 */
module ShellText {
  import opened Words
  import opened Shell

  predicate ArgChar(c: char) {
    || '0' <= c <= '9' || 'A' <= c <= 'Z' || 'a' <= c <= 'z'
    || c == ',' || c == ':' || c == '/' || c == '-' || c == '_' || c == '=' || c == '.' || c == '~'
  }

  /** The length of the longest prefix of argument characters. */
  function ArgRun(s: string): (n: nat)
    ensures n <= |s| && forall i | 0 <= i < n :: ArgChar(s[i])
    ensures n < |s| ==> !ArgChar(s[n])
  {
    if s == "" || !ArgChar(s[0]) then 0 else 1 + ArgRun(s[1..])
  }

  /** Where the quote that opens before position `i` closes, if it does. */
  function QuoteEnd(s: string, i: nat): (e: Option<nat>)
    requires i <= |s|
    ensures e.Some? ==> i <= e.value < |s| && s[e.value] == '"'
    decreases |s| - i
  {
    if i == |s| then None
    else if s[i] == '"' then Some(i)
    else if s[i] != '\\' then QuoteEnd(s, i + 1)
    else if i + 1 < |s| && s[i + 1] != '\n' then QuoteEnd(s, i + 2)
    else None
  }

  /** One rule of the lexer at the head of the text: what it delivers, and how much it takes. */
  function FirstMatch(s: string): (m: (seq<Token>, nat))
    requires s != ""
    ensures 0 < m.1 <= |s| && |m.0| <= 1
  {
    var c := s[0];
    if ArgChar(c) then ([Argument(s[..ArgRun(s)])], ArgRun(s))
    else if c == '>' then ([OutRedir], 1)
    else if c == '<' then ([InRedir], 1)
    else if c == '|' then ([Pipe], 1)
    else if c == ';' || c == '\n' then ([Terminator], 1)
    else if c == '&' then (if |s| > 1 && s[1] == '&' then ([SuccessConcat], 2) else ([Background], 1))
    else if c == '"' && QuoteEnd(s, 1).Some? then
      var e := QuoteEnd(s, 1).value;
      ([Quoted(s[1..e])], e + 1)
    else if c == '$' && |s| > 1 && s[1] == '(' then
      var n := ArgRun(s[2..]);
      if n > 0 && n + 2 < |s| && s[n + 2] == ')' then ([Environment(s[2..n + 2])], n + 3) else ([], 1)
    else ([], 1)
  }

  function Lex(s: string): seq<Token>
    decreases |s|
  {
    if s == "" then [] else FirstMatch(s).0 + Lex(s[FirstMatch(s).1..])
  }

  // ---------- The text the printer writes ----------

  /** Each function gives what is printed, followed by a text that is already there. */
  function WordsThen(ws: seq<string>, s: string): string {
    if ws == [] then s else ws[0] + (" " + WordsThen(ws[1..], s))
  }

  function SignThen(c: char, s: string): string { [c] + (" " + s) }

  function RedirectThen(c: char, target: Option<string>, s: string): string {
    if target.Some? then SignThen(c, target.value + (" " + s)) else s
  }

  function TextThen(c: Command, s: string): string
    decreases c, 1
  {
    WordsThen(c.words, RedirectThen('>', c.out, RedirectThen('<', c.inp, EndThen(c, s))))
  }

  /** The signs and commands behind the words and redirections. */
  function EndThen(c: Command, s: string): string
    decreases c, 0
  {
    var s2 := if c.success.Some? then "&" + SignThen('&', TextThen(c.success.value, s)) else s;
    var s1 := if c.pipe.Some? then SignThen('|', TextThen(c.pipe.value, s2)) else s2;
    if c.background then SignThen('&', s1) else s1
  }

  // The tokens of the same, in the same form.

  function RedirectTokens(sign: Token, target: Option<string>, ts: seq<Token>): seq<Token> {
    if target.Some? then [sign] + ([Argument(target.value)] + ts) else ts
  }

  function TokensThen(c: Command, ts: seq<Token>): seq<Token>
    decreases c, 1
  {
    Arguments(c.words) + RedirectTokens(OutRedir, c.out, RedirectTokens(InRedir, c.inp, EndTokens(c, ts)))
  }

  function EndTokens(c: Command, ts: seq<Token>): seq<Token>
    decreases c, 0
  {
    var t2 := if c.success.Some? then [SuccessConcat] + TokensThen(c.success.value, ts) else ts;
    var t1 := if c.pipe.Some? then [Pipe] + TokensThen(c.pipe.value, t2) else t2;
    if c.background then [Background] + t1 else t1
  }

  function Ending(c: Command): seq<Token> {
    (if c.background then [Background] else []) + Follow(Pipe, c.pipe) + Follow(SuccessConcat, c.success)
  }

  function Follow(sign: Token, c: Option<Command>): seq<Token> {
    if c.Some? then [sign] + Print(c.value) else []
  }

  lemma Regroup<T>(a: seq<T>, b: seq<T>, c: seq<T>, d: seq<T>)
    ensures a + (b + (c + d)) == a + b + c + d
  {
  }

  lemma RedirectsFirst(c: Command, ts: seq<Token>)
    ensures RedirectTokens(OutRedir, c.out, RedirectTokens(InRedir, c.inp, ts)) == Redirects(c) + ts
  {
  }

  lemma {:induction false} TokensArePrint(c: Command, ts: seq<Token>)
    ensures TokensThen(c, ts) == Print(c) + ts
    decreases c, 1
  {
    EndTokensArePrint(c, ts);
    RedirectsFirst(c, Ending(c) + ts);
    PrintEnds(c);
    Regroup(Arguments(c.words), Redirects(c), Ending(c), ts);
  }

  lemma PrintEnds(c: Command)
    ensures Print(c) == Arguments(c.words) + Redirects(c) + Ending(c)
  {
  }

  function FollowThen(sign: Token, c: Option<Command>, ts: seq<Token>): seq<Token> {
    if c.Some? then [sign] + (Print(c.value) + ts) else ts
  }

  lemma FollowSplits(sign: Token, c: Option<Command>, ts: seq<Token>)
    ensures FollowThen(sign, c, ts) == Follow(sign, c) + ts
  {
    if c.Some? { Regroup([], [sign], Print(c.value), ts); }
  }

  lemma {:induction false} EndTokensArePrint(c: Command, ts: seq<Token>)
    ensures EndTokens(c, ts) == Ending(c) + ts
    decreases c, 0
  {
    var t2 := FollowThen(SuccessConcat, c.success, ts);
    if c.success.Some? { TokensArePrint(c.success.value, ts); }
    if c.pipe.Some? { TokensArePrint(c.pipe.value, t2); }
    FollowSplits(SuccessConcat, c.success, ts);
    FollowSplits(Pipe, c.pipe, t2);
    Regroup(if c.background then [Background] else [], Follow(Pipe, c.pipe), Follow(SuccessConcat, c.success), ts);
  }

  /** A word the lexer reads as one argument. */
  predicate PlainWord(w: string) { w != "" && forall i | 0 <= i < |w| :: ArgChar(w[i]) }

  ghost predicate Plain(c: Command) {
    && (forall i | 0 <= i < |c.words| :: PlainWord(c.words[i]))
    && (c.out.Some? ==> PlainWord(c.out.value))
    && (c.inp.Some? ==> PlainWord(c.inp.value))
    && (c.pipe.Some? ==> Plain(c.pipe.value))
    && (c.success.Some? ==> Plain(c.success.value))
  }

  // ---------- Plain commands are lexed back ----------

  lemma {:induction false} ArgRunOf(w: string, s: string)
    requires (forall i | 0 <= i < |w| :: ArgChar(w[i])) && (s != "" ==> !ArgChar(s[0]))
    ensures ArgRun(w + s) == |w|
  {
    if w != "" {
      assert (w + s)[1..] == w[1..] + s;
      ArgRunOf(w[1..], s);
    } else {
      assert w + s == s;
    }
  }

  lemma LexBlank(s: string)
    ensures Lex(" " + s) == Lex(s) && Lex("\t" + s) == Lex(s)
  {
    assert (" " + s)[1..] == s && ("\t" + s)[1..] == s;
  }

  /** A word ends where its characters do, with or without a blank. */
  lemma LexPrefix(w: string, s: string)
    requires PlainWord(w) && (s != "" ==> !ArgChar(s[0]))
    ensures Lex(w + s) == [Argument(w)] + Lex(s)
  {
    ArgRunOf(w, s);
    assert (w + s)[..|w|] == w && (w + s)[|w|..] == s;
  }

  lemma LexWord(w: string, s: string)
    requires PlainWord(w)
    ensures Lex(w + (" " + s)) == [Argument(w)] + Lex(s)
  {
    LexPrefix(w, " " + s);
    LexBlank(s);
  }

  ghost predicate SignOf(c: char, tok: Token) {
    || (c == '>' && tok == OutRedir) || (c == '<' && tok == InRedir) || (c == '|' && tok == Pipe)
    || (c == '&' && tok == Background) || (c == ';' && tok == Terminator) || (c == '\n' && tok == Terminator)
  }

  lemma SignMatch(t: string, tok: Token)
    requires t != "" && SignOf(t[0], tok) && (t[0] == '&' && |t| > 1 ==> t[1] != '&')
    ensures FirstMatch(t) == ([tok], 1)
  {
  }

  /** A one-character sign needs no blanks around it. */
  lemma LexMark(c: char, tok: Token, s: string)
    requires SignOf(c, tok) && (c == '&' && s != "" ==> s[0] != '&')
    ensures Lex([c] + s) == [tok] + Lex(s)
  {
    assert ([c] + s)[1..] == s;
    SignMatch([c] + s, tok);
  }

  lemma LexSign(c: char, tok: Token, s: string)
    requires SignOf(c, tok)
    ensures Lex(SignThen(c, s)) == [tok] + Lex(s)
  {
    LexMark(c, tok, " " + s);
    LexBlank(s);
  }

  lemma AndMatch(t: string)
    requires |t| > 1 && t[0] == '&' && t[1] == '&'
    ensures FirstMatch(t) == ([SuccessConcat], 2)
  {
  }

  /** Two ampersands are one sign, whatever follows them. */
  lemma LexAndMark(s: string)
    ensures Lex("&&" + s) == [SuccessConcat] + Lex(s)
  {
    assert ("&&" + s)[2..] == s;
    AndMatch("&&" + s);
  }

  lemma LexAnd(s: string)
    ensures Lex("&" + SignThen('&', s)) == [SuccessConcat] + Lex(s)
  {
    var t := "&" + SignThen('&', s);
    assert t[2..] == " " + s;
    AndMatch(t);
    LexBlank(s);
  }

  lemma ArgumentsFirst(ws: seq<string>, ts: seq<Token>)
    requires ws != []
    ensures [Argument(ws[0])] + (Arguments(ws[1..]) + ts) == Arguments(ws) + ts
  {
  }

  lemma {:induction false} LexWords(ws: seq<string>, s: string)
    requires forall i | 0 <= i < |ws| :: PlainWord(ws[i])
    ensures Lex(WordsThen(ws, s)) == Arguments(ws) + Lex(s)
  {
    if ws == [] {
      assert Arguments(ws) + Lex(s) == Lex(s);
    } else {
      LexWord(ws[0], WordsThen(ws[1..], s));
      LexWords(ws[1..], s);
      ArgumentsFirst(ws, Lex(s));
    }
  }

  lemma LexRedirect(c: char, tok: Token, target: Option<string>, s: string)
    requires SignOf(c, tok) && (target.Some? ==> PlainWord(target.value))
    ensures Lex(RedirectThen(c, target, s)) == RedirectTokens(tok, target, Lex(s))
  {
    if target.Some? {
      LexSign(c, tok, target.value + (" " + s));
      LexWord(target.value, s);
    }
  }

  /** The printed text of a plain command is lexed to its printed tokens. */
  lemma {:induction false} LexText(c: Command, s: string)
    requires Plain(c)
    ensures Lex(TextThen(c, s)) == TokensThen(c, Lex(s))
    decreases c, 1
  {
    var e := EndThen(c, s);
    LexWords(c.words, RedirectThen('>', c.out, RedirectThen('<', c.inp, e)));
    LexRedirect('>', OutRedir, c.out, RedirectThen('<', c.inp, e));
    LexRedirect('<', InRedir, c.inp, e);
    LexEnd(c, s);
  }

  lemma {:induction false} LexEnd(c: Command, s: string)
    requires Plain(c)
    ensures Lex(EndThen(c, s)) == EndTokens(c, Lex(s))
    decreases c, 0
  {
    var s2, s1 := s, s;
    if c.success.Some? {
      s2 := "&" + SignThen('&', TextThen(c.success.value, s));
      LexAnd(TextThen(c.success.value, s));
      LexText(c.success.value, s);
    }
    s1 := s2;
    if c.pipe.Some? {
      s1 := SignThen('|', TextThen(c.pipe.value, s2));
      LexSign('|', Pipe, TextThen(c.pipe.value, s2));
      LexText(c.pipe.value, s2);
    }
    if c.background { LexSign('&', Background, s1); }
  }

  // ---------- And no others ----------

  ghost predicate PlainTokens(ts: seq<Token>) {
    forall i | 0 <= i < |ts| && ts[i].Argument? :: PlainWord(ts[i].text)
  }

  lemma {:induction false} LexIsPlain(s: string)
    ensures PlainTokens(Lex(s))
    decreases |s|
  {
    if s != "" { LexIsPlain(s[FirstMatch(s).1..]); }
  }

  lemma PlainSplit(a: seq<Token>, b: seq<Token>)
    ensures PlainTokens(a + b) <==> PlainTokens(a) && PlainTokens(b)
  {
    if PlainTokens(a + b) {
      forall i | 0 <= i < |a| && a[i].Argument? ensures PlainWord(a[i].text) { assert (a + b)[i] == a[i]; }
      forall i | 0 <= i < |b| && b[i].Argument? ensures PlainWord(b[i].text) { assert (a + b)[|a| + i] == b[i]; }
    }
  }

  lemma {:induction false} PlainArguments(ws: seq<string>, i: nat)
    requires PlainTokens(Arguments(ws)) && i < |ws|
    ensures PlainWord(ws[i])
  {
    PlainSplit([Argument(ws[0])], Arguments(ws[1..]));
    if i == 0 { assert [Argument(ws[0])][0].Argument?; } else { PlainArguments(ws[1..], i - 1); }
  }

  lemma PlainRedirect(tok: Token, target: Option<string>, ts: seq<Token>)
    requires PlainTokens(RedirectTokens(tok, target, ts))
    ensures PlainTokens(ts) && (target.Some? ==> PlainWord(target.value))
  {
    if target.Some? {
      PlainSplit([tok], [Argument(target.value)] + ts);
      PlainSplit([Argument(target.value)], ts);
      assert [Argument(target.value)][0].Argument?;
    }
  }

  lemma {:induction false} PlainPrint(c: Command, ts: seq<Token>)
    requires PlainTokens(TokensThen(c, ts))
    ensures Plain(c) && PlainTokens(ts)
    decreases c, 1
  {
    var e := EndTokens(c, ts);
    PlainSplit(Arguments(c.words), RedirectTokens(OutRedir, c.out, RedirectTokens(InRedir, c.inp, e)));
    PlainRedirect(OutRedir, c.out, RedirectTokens(InRedir, c.inp, e));
    PlainRedirect(InRedir, c.inp, e);
    forall i | 0 <= i < |c.words| ensures PlainWord(c.words[i]) { PlainArguments(c.words, i); }
    PlainEnd(c, ts);
  }

  lemma {:induction false} PlainEnd(c: Command, ts: seq<Token>)
    requires PlainTokens(EndTokens(c, ts))
    ensures (c.pipe.Some? ==> Plain(c.pipe.value)) && (c.success.Some? ==> Plain(c.success.value)) && PlainTokens(ts)
    decreases c, 0
  {
    var t2 := if c.success.Some? then [SuccessConcat] + TokensThen(c.success.value, ts) else ts;
    var t1 := if c.pipe.Some? then [Pipe] + TokensThen(c.pipe.value, t2) else t2;
    if c.background { PlainSplit([Background], t1); }
    if c.pipe.Some? {
      PlainSplit([Pipe], TokensThen(c.pipe.value, t2));
      PlainPrint(c.pipe.value, t2);
    }
    if c.success.Some? {
      PlainSplit([SuccessConcat], TokensThen(c.success.value, ts));
      PlainPrint(c.success.value, ts);
    }
  }

  /** Printed text lexes back to the printed tokens exactly when every word and target is plain. */
  lemma LexesBack(c: Command)
    ensures Lex(TextThen(c, ";")) == Print(c) + [Terminator] <==> Plain(c)
  {
    LexTerminator();
    TokensArePrint(c, [Terminator]);
    if Plain(c) { LexText(c, ";"); }
    if Lex(TextThen(c, ";")) == Print(c) + [Terminator] {
      LexIsPlain(TextThen(c, ";"));
      PlainPrint(c, [Terminator]);
    }
  }

  lemma LexTerminator()
    ensures Lex(";") == [Terminator]
  {
    assert FirstMatch(";") == ([Terminator], 1) && ";"[1..] == "";
  }

  /** The text of a plain command, given back to the shell, runs the same command. */
  lemma PlainRoundTrip(env: Env, c: Command)
    requires Buildable(c) && Plain(c)
    ensures ParseLine(env, Lex(TextThen(c, ";"))) == Done(c, [])
  {
    LexesBack(c);
    RoundTrip(env, c, []);
    assert Print(c) + [Terminator] + [] == Print(c) + [Terminator];
  }

  /** A word with a blank in it comes back as two words. */
  lemma BlankSplits(env: Env)
    ensures var c := EMPTY.(words := ["a b"]);
            Buildable(c) && ParseLine(env, Lex(TextThen(c, ";"))) == Done(EMPTY.(words := ["a", "b"]), [])
  {
    var c, d := EMPTY.(words := ["a b"]), EMPTY.(words := ["a", "b"]);
    assert c.words[1..] == [] && d.words[1..] == ["b"] && d.words[1..][1..] == [];
    assert WordsThen(d.words[1..], ";") == "b" + (" " + ";");
    assert TextThen(c, ";") == TextThen(d, ";");
    PlainRoundTrip(env, d);
  }

  // ---------- No other command comes back ----------

  /** How often a character occurs. */
  function Count(s: string, x: char): nat {
    if s == "" then 0 else (if s[0] == x then 1 else 0) + Count(s[1..], x)
  }

  lemma {:induction false} CountConcat(a: string, b: string, x: char)
    ensures Count(a + b, x) == Count(a, x) + Count(b, x)
  {
    if a == "" {
      assert a + b == b;
    } else {
      assert (a + b)[1..] == a[1..] + b;
      CountConcat(a[1..], b, x);
    }
  }

  lemma {:induction false} CountAbsent(s: string, x: char)
    requires x !in s
    ensures Count(s, x) == 0
  {
    if s != "" { CountAbsent(s[1..], x); }
  }

  /** The characters that only quotes and variables are made with. */
  predicate Special(x: char) { x == '"' || x == '$' }

  function WordsCount(ws: seq<string>, x: char): nat {
    if ws == [] then 0 else Count(ws[0], x) + WordsCount(ws[1..], x)
  }

  function TargetCount(t: Option<string>, x: char): nat { if t.Some? then Count(t.value, x) else 0 }

  function CommandCount(c: Command, x: char): nat {
    WordsCount(c.words, x) + TargetCount(c.out, x) + TargetCount(c.inp, x) +
    (if c.pipe.Some? then CommandCount(c.pipe.value, x) else 0) +
    (if c.success.Some? then CommandCount(c.success.value, x) else 0)
  }

  lemma CountBlank(w: string, s: string, x: char)
    requires Special(x)
    ensures Count(w + (" " + s), x) == Count(w, x) + Count(s, x)
  {
    CountConcat(w, " " + s, x);
    assert (" " + s)[1..] == s;
  }

  lemma CountSign(c: char, s: string, x: char)
    requires Special(x) && c != x
    ensures Count(SignThen(c, s), x) == Count(s, x)
  {
    CountBlank([c], s, x);
    assert [c][1..] == "";
  }

  lemma CountAnd(s: string, x: char)
    requires Special(x)
    ensures Count("&" + SignThen('&', s), x) == Count(s, x)
  {
    CountSign('&', s, x);
    assert ("&" + SignThen('&', s))[1..] == SignThen('&', s);
  }

  lemma {:induction false} CountWords(ws: seq<string>, s: string, x: char)
    requires Special(x)
    ensures Count(WordsThen(ws, s), x) == WordsCount(ws, x) + Count(s, x)
  {
    if ws != [] {
      CountWords(ws[1..], s, x);
      CountBlank(ws[0], WordsThen(ws[1..], s), x);
    }
  }

  lemma CountRedirect(c: char, target: Option<string>, s: string, x: char)
    requires Special(x) && c != x
    ensures Count(RedirectThen(c, target, s), x) == TargetCount(target, x) + Count(s, x)
  {
    if target.Some? {
      CountSign(c, target.value + (" " + s), x);
      CountBlank(target.value, s, x);
    }
  }

  /** The printer writes the special characters of the command and no others. */
  lemma {:induction false} CountText(c: Command, s: string, x: char)
    requires Special(x)
    ensures Count(TextThen(c, s), x) == CommandCount(c, x) + Count(s, x)
    decreases c, 1
  {
    var e := EndThen(c, s);
    CountWords(c.words, RedirectThen('>', c.out, RedirectThen('<', c.inp, e)), x);
    CountRedirect('>', c.out, RedirectThen('<', c.inp, e), x);
    CountRedirect('<', c.inp, e, x);
    CountEnd(c, s, x);
  }

  lemma {:induction false} CountEnd(c: Command, s: string, x: char)
    requires Special(x)
    ensures Count(EndThen(c, s), x) ==
            (if c.pipe.Some? then CommandCount(c.pipe.value, x) else 0) +
            (if c.success.Some? then CommandCount(c.success.value, x) else 0) + Count(s, x)
    decreases c, 0
  {
    var s2, s1 := s, s;
    if c.success.Some? {
      s2 := "&" + SignThen('&', TextThen(c.success.value, s));
      CountAnd(TextThen(c.success.value, s), x);
      CountText(c.success.value, s, x);
    }
    s1 := s2;
    if c.pipe.Some? {
      s1 := SignThen('|', TextThen(c.pipe.value, s2));
      CountSign('|', TextThen(c.pipe.value, s2), x);
      CountText(c.pipe.value, s2, x);
    }
    if c.background { CountSign('&', s1, x); }
  }

  /** What a token puts into a command. */
  ghost function Given(env: Env, t: Token, x: char): nat {
    match TextOf(env, t) case Some(w) => Count(w, x) case None => 0
  }

  /** What of the lexed text it leaves behind: two quotes, or the mark of a variable. */
  ghost function Lost(t: Token, x: char): nat {
    if x == '"' && t.Quoted? then 2 else if x == '$' && t.Environment? then 1 else 0
  }

  ghost function AllGiven(env: Env, ts: seq<Token>, x: char): nat {
    if ts == [] then 0 else Given(env, ts[0], x) + AllGiven(env, ts[1..], x)
  }

  ghost function AllLost(ts: seq<Token>, x: char): nat {
    if ts == [] then 0 else Lost(ts[0], x) + AllLost(ts[1..], x)
  }

  /** No variable among the tokens stands for a text with the character. */
  ghost predicate Clean(env: Env, ts: seq<Token>, x: char) {
    forall i | 0 <= i < |ts| && ts[i].Environment? :: Given(env, ts[i], x) == 0
  }

  lemma CountQuoted(s: string, e: nat, x: char)
    requires Special(x) && 1 <= e < |s| && s[0] == '"' && s[e] == '"'
    ensures Count(s[..e + 1], x) == Count(s[1..e], x) + Lost(Quoted(s[1..e]), x)
  {
    var inner := s[1..e];
    assert s[..e + 1] == "\"" + (inner + "\"");
    assert ("\"" + (inner + "\""))[1..] == inner + "\"";
    CountConcat(inner, "\"", x);
    assert "\""[1..] == "";
  }

  lemma CountPlain(w: string, x: char)
    requires Special(x) && forall i | 0 <= i < |w| :: ArgChar(w[i])
    ensures Count(w, x) == 0
  {
    CountAbsent(w, x);
  }

  /** A text has at least the special characters that tokens give and lose. */
  ghost predicate Covers(env: Env, s: string, ts: seq<Token>, x: char) {
    AllGiven(env, ts, x) + AllLost(ts, x) <= Count(s, x)
  }

  /** The first rule takes at least the special characters its token gives and loses. */
  lemma MatchCounts(env: Env, s: string, x: char)
    requires Special(x) && s != ""
    requires Clean(env, FirstMatch(s).0, x)
    ensures Covers(env, s[..FirstMatch(s).1], FirstMatch(s).0, x)
  {
    var (ts, n) := FirstMatch(s);
    if ts != [] {
      var t := ts[0];
      assert ts == [t] && ts[1..] == [];
      if t.Argument? {
        CountPlain(t.text, x);
      } else if t.Quoted? {
        CountQuoted(s, n - 1, x);
      } else if t.Environment? {
        assert s[..n][0] == '$';
      }
    }
  }

  lemma {:induction false} AllConcat(env: Env, a: seq<Token>, b: seq<Token>, x: char)
    ensures AllGiven(env, a + b, x) == AllGiven(env, a, x) + AllGiven(env, b, x)
    ensures AllLost(a + b, x) == AllLost(a, x) + AllLost(b, x)
  {
    if a == [] {
      assert a + b == b;
    } else {
      assert (a + b)[1..] == a[1..] + b;
      AllConcat(env, a[1..], b, x);
    }
  }

  lemma CleanSplit(env: Env, a: seq<Token>, b: seq<Token>, x: char)
    requires Clean(env, a + b, x)
    ensures Clean(env, a, x) && Clean(env, b, x)
  {
    forall i | 0 <= i < |a| && a[i].Environment? ensures Given(env, a[i], x) == 0 { assert (a + b)[i] == a[i]; }
    forall i | 0 <= i < |b| && b[i].Environment? ensures Given(env, b[i], x) == 0 { assert (a + b)[|a| + i] == b[i]; }
  }

  lemma CoversJoin(env: Env, s: string, n: nat, ts: seq<Token>, us: seq<Token>, x: char)
    requires n <= |s| && Covers(env, s[..n], ts, x) && Covers(env, s[n..], us, x)
    ensures Covers(env, s, ts + us, x)
  {
    AllConcat(env, ts, us, x);
    CountConcat(s[..n], s[n..], x);
    assert s == s[..n] + s[n..];
  }

  /** So a text covers its tokens. */
  lemma {:induction false} LexCounts(env: Env, s: string, x: char)
    requires Special(x) && Clean(env, Lex(s), x)
    ensures Covers(env, s, Lex(s), x)
    decreases |s|
  {
    if s != "" {
      var ts, n := FirstMatch(s).0, FirstMatch(s).1;
      var us := Lex(s[n..]);
      CleanSplit(env, ts, us, x);
      MatchCounts(env, s, x);
      LexCounts(env, s[n..], x);
      CoversJoin(env, s, n, ts, us, x);
    }
  }

  lemma {:induction false} WordsCountSnoc(ws: seq<string>, w: string, x: char)
    ensures WordsCount(ws + [w], x) == WordsCount(ws, x) + Count(w, x)
  {
    if ws == [] {
      assert ([] + [w])[1..] == [];
    } else {
      assert (ws + [w])[1..] == ws[1..] + [w];
      WordsCountSnoc(ws[1..], w, x);
    }
  }

  lemma WithWordCounts(c: Command, w: string, x: char)
    ensures CommandCount(WithWord(c, w), x) == CommandCount(c, x) + Count(w, x)
  {
    WordsCountSnoc(c.words, w, x);
  }

  /** The parser puts nothing into a command but what its tokens give. */
  lemma {:induction false} ParseCounts(env: Env, ts: seq<Token>, d: Command, x: char)
    requires Simple(d) && Parse(env, ts, d).Done?
    ensures CommandCount(Parse(env, ts, d).command, x) <= CommandCount(d, x) + AllGiven(env, ts, x)
    decreases |ts|
  {
    if ts != [] {
      var sym, rest := ts[0], ts[1..];
      match sym
      case Terminator =>
      case OutRedir => ParseCounts(env, rest[1..], d.(out := TextOf(env, rest[0])), x);
      case InRedir => ParseCounts(env, rest[1..], d.(inp := TextOf(env, rest[0])), x);
      case Pipe => ParseCounts(env, rest, EMPTY, x);
      case SuccessConcat => ParseCounts(env, rest, EMPTY, x);
      case Background =>
      case _ =>
        WithWordCounts(d, TextOf(env, sym).value, x);
        ParseCounts(env, rest, WithWord(d, TextOf(env, sym).value), x);
    }
  }

  lemma {:induction false} NoneLost(ts: seq<Token>, x: char, i: nat)
    requires AllLost(ts, x) == 0 && i < |ts|
    ensures Lost(ts[i], x) == 0
  {
    if i > 0 { NoneLost(ts[1..], x, i - 1); }
  }

  /** A command that comes back lost nothing on the way. */
  lemma NothingLost(env: Env, c: Command, x: char)
    requires Special(x) && ParseLine(env, Lex(TextThen(c, ";"))) == Done(c, [])
    requires Clean(env, Lex(TextThen(c, ";")), x)
    ensures AllLost(Lex(TextThen(c, ";")), x) == 0
  {
    var s := TextThen(c, ";");
    CountText(c, ";", x);
    assert Count(";", x) == 0 by { assert ";"[1..] == ""; }
    LexCounts(env, s, x);
    ParseCounts(env, Lex(s), EMPTY, x);
  }

  /** Only arguments, all of them plain. */
  ghost predicate PlainOnly(ts: seq<Token>) {
    PlainTokens(ts) && forall i | 0 <= i < |ts| :: !ts[i].Quoted? && !ts[i].Environment?
  }

  lemma PlainOnlyTail(ts: seq<Token>)
    requires ts != [] && PlainOnly(ts)
    ensures PlainOnly(ts[1..])
  {
    assert forall i | 0 <= i < |ts[1..]| :: ts[1..][i] == ts[i + 1];
  }

  lemma PlainWithWord(d: Command, w: string)
    requires Plain(d) && PlainWord(w)
    ensures Plain(WithWord(d, w))
  {
  }

  lemma PlainAt(env: Env, ts: seq<Token>, i: nat)
    requires PlainOnly(ts) && i < |ts| && TextOf(env, ts[i]).Some?
    ensures PlainWord(TextOf(env, ts[i]).value)
  {
    assert !ts[i].Quoted? && !ts[i].Environment?;
  }

  lemma {:induction false} ParsePlain(env: Env, ts: seq<Token>, d: Command)
    requires PlainOnly(ts) && Plain(d) && Parse(env, ts, d).Done?
    ensures Plain(Parse(env, ts, d).command)
    decreases |ts|
  {
    if ts != [] {
      PlainOnlyTail(ts);
      var rest := ts[1..];
      if TextOf(env, ts[0]).Some? {
        var w := TextOf(env, ts[0]).value;
        PlainAt(env, ts, 0);
        PlainWithWord(d, w);
        ParsePlain(env, rest, WithWord(d, w));
      } else if ts[0].OutRedir? || ts[0].InRedir? {
        PlainOnlyTail(rest);
        PlainAt(env, rest, 0);
        ParsePlain(env, rest[1..], if ts[0].OutRedir? then d.(out := TextOf(env, rest[0])) else d.(inp := TextOf(env, rest[0])));
      } else if ts[0].Pipe? || ts[0].SuccessConcat? {
        ParsePlain(env, rest, EMPTY);
      }
    }
  }

  /** No variable stands for a text with the mark of a variable in it. */
  ghost predicate NoMarks(env: Env) {
    forall name :: env(name).Some? ==> '$' !in env(name).value
  }

  lemma ReturnedIsPlain(env: Env, c: Command)
    requires NoMarks(env) && ParseLine(env, Lex(TextThen(c, ";"))) == Done(c, [])
    ensures Plain(c)
  {
    var ts := Lex(TextThen(c, ";"));
    forall i | 0 <= i < |ts| && ts[i].Environment? ensures Given(env, ts[i], '$') == 0 {
      assert Count("", '$') == 0;
      if env(ts[i].name).Some? { CountAbsent(env(ts[i].name).value, '$'); }
    }
    NothingLost(env, c, '$');
    forall i | 0 <= i < |ts| ensures !ts[i].Environment? { NoneLost(ts, '$', i); }
    NothingLost(env, c, '"');
    forall i | 0 <= i < |ts| ensures !ts[i].Quoted? { NoneLost(ts, '"', i); }
    LexIsPlain(TextThen(c, ";"));
    ParsePlain(env, ts, EMPTY);
  }

  /** The text of a command, given back to the shell, is the same command if and only if the command is plain. */
  lemma TextRoundTrip(env: Env, c: Command)
    requires Buildable(c) && NoMarks(env)
    ensures ParseLine(env, Lex(TextThen(c, ";"))) == Done(c, []) <==> Plain(c)
  {
    if Plain(c) { PlainRoundTrip(env, c); }
    if ParseLine(env, Lex(TextThen(c, ";"))) == Done(c, []) { ReturnedIsPlain(env, c); }
  }

  // ---------- Quoting and variables ----------

  /** What may stand between quotes: a quote only behind a backslash, a backslash only before another character of the line. */
  predicate Quotable(w: string) {
    w == ""
    || (w[0] != '"' && w[0] != '\\' && Quotable(w[1..]))
    || (w[0] == '\\' && |w| > 1 && w[1] != '\n' && Quotable(w[2..]))
  }

  /** Text without quotes and backslashes needs no escapes. */
  lemma {:induction false} UnescapedIsQuotable(w: string)
    requires '"' !in w && '\\' !in w
    ensures Quotable(w)
  {
    if w != "" {
      assert w[0] in w && forall x | x in w[1..] :: x in w;
      UnescapedIsQuotable(w[1..]);
    }
  }

  /** A backslash before every quote and backslash makes any text quotable. */
  function Escape(w: string): string {
    if w == "" then "" else (if w[0] == '"' || w[0] == '\\' then "\\" + [w[0]] else [w[0]]) + Escape(w[1..])
  }

  lemma {:induction false} EscapedIsQuotable(w: string)
    ensures Quotable(Escape(w))
  {
    if w != "" {
      EscapedIsQuotable(w[1..]);
      var e := Escape(w);
      if w[0] == '"' || w[0] == '\\' {
        assert e[0] == '\\' && e[1] == w[0] && e[2..] == Escape(w[1..]);
      } else {
        assert e[0] == w[0] && e[1..] == Escape(w[1..]);
      }
    }
  }

  /** A quote closes at the end of the one text that may stand between quotes there. */
  lemma {:induction false} QuoteEndExactly(s: string, i: nat, e: nat)
    requires i <= e < |s|
    ensures QuoteEnd(s, i) == Some(e) <==> s[e] == '"' && Quotable(s[i..e])
    decreases e - i
  {
    if i < e {
      var w := s[i..e];
      assert w[0] == s[i] && w[1..] == s[i + 1..e];
      if s[i] == '\\' {
        if i + 1 < e {
          assert w[1] == s[i + 1] && w[2..] == s[i + 2..e];
          if s[i + 1] != '\n' { QuoteEndExactly(s, i + 2, e); }
        }
      } else if s[i] != '"' {
        QuoteEndExactly(s, i + 1, e);
      }
    }
  }

  lemma QuotedMatch(t: string, w: string)
    requires |w| + 1 < |t| && t[0] == '"' && t[1..|w| + 1] == w && t[|w| + 1] == '"' && Quotable(w)
    ensures FirstMatch(t) == ([Quoted(w)], |w| + 2)
  {
    QuoteEndExactly(t, 1, |w| + 1);
  }

  /** Between quotes, all quotable text is one token: blanks and signs are protected. */
  lemma LexQuoted(w: string, s: string)
    requires Quotable(w)
    ensures Lex("\"" + w + "\"" + s) == [Quoted(w)] + Lex(s)
  {
    var t := "\"" + w + "\"" + s;
    assert t[1..|w| + 1] == w && t[|w| + 2..] == s;
    QuotedMatch(t, w);
  }

  lemma ClosedAt(front: string, s: string, e: nat)
    requires QuoteEnd(front + s, |front|) == Some(e)
    ensures 0 <= e - |front| < |s| && s[e - |front|] == '"' && Quotable(s[..e - |front|])
  {
    var t := front + s;
    QuoteEndExactly(t, |front|, e);
    assert t[|front|..e] == s[..e - |front|] && t[e] == s[e - |front|];
  }

  lemma UnclosedMatch(s: string)
    requires forall e | 0 <= e < |s| && s[e] == '"' :: !Quotable(s[..e])
    ensures FirstMatch("\"" + s) == ([], 1)
  {
    var end := QuoteEnd("\"" + s, 1);
    if end.Some? { ClosedAt("\"", s, end.value); }
  }

  /** A quote that nothing closes is dropped, and what follows it is read as if it were not there. */
  lemma LexUnclosed(s: string)
    requires forall e | 0 <= e < |s| && s[e] == '"' :: !Quotable(s[..e])
    ensures Lex("\"" + s) == Lex(s)
  {
    UnclosedMatch(s);
    assert ("\"" + s)[1..] == s;
  }

  lemma VariableMatch(t: string, name: string, rest: string)
    requires |t| > 2 && t[0] == '$' && t[1] == '(' && t[2..] == name + (")" + rest) && PlainWord(name)
    ensures FirstMatch(t) == ([Environment(name)], |name| + 3)
  {
    ArgRunOf(name, ")" + rest);
    assert t[|name| + 2] == t[2..][|name|];
    assert t[2..|name| + 2] == t[2..][..|name|];
  }

  /** A name between `$(` and `)` is one token. */
  lemma LexVariable(name: string, s: string)
    requires PlainWord(name)
    ensures Lex("$(" + name + ")" + s) == [Environment(name)] + Lex(s)
  {
    var t := "$(" + name + ")" + s;
    assert t[2..] == name + (")" + s) && t[|name| + 3..] == s;
    VariableMatch(t, name, s);
  }

  /** So quoting a word gives it back whole, and a variable stands for its value; empty ones vanish. */
  lemma WordForms(env: Env, w: string, name: string)
    requires Quotable(w) && PlainWord(name)
    ensures ParseLine(env, Lex("\"" + w + "\"" + ";")) == Done(WithWord(EMPTY, w), [])
    ensures ParseLine(env, Lex("$(" + name + ")" + ";")) ==
            Done(match env(name) case Some(v) => WithWord(EMPTY, v) case None => EMPTY, [])
  {
    LexTerminator();
    LexQuoted(w, ";");
    LexVariable(name, ";");
    OneWord(env, Quoted(w), w);
    OneWord(env, Environment(name), match env(name) case Some(v) => v case None => "");
  }

  lemma OneWord(env: Env, t: Token, w: string)
    requires TextOf(env, t) == Some(w)
    ensures ParseLine(env, [t] + [Terminator]) == Done(WithWord(EMPTY, w), [])
  {
    var ts := [t] + [Terminator];
    var d := WithWord(EMPTY, w);
    assert ts[1..] == [Terminator] && [Terminator][1..] == [];
    assert Parse(env, [Terminator], d) == Done(d, []);
    assert Parse(env, ts, EMPTY) == Parse(env, ts[1..], d);
  }

  /** A variable that stands for its own mention: then a command comes back that is not plain. */
  lemma MarkComesBack(env: Env, name: string)
    requires PlainWord(name) && env(name) == Some("$(" + name + ")")
    ensures var c := EMPTY.(words := ["$(" + name + ")"]);
            Buildable(c) && !Plain(c) && ParseLine(env, Lex(TextThen(c, ";"))) == Done(c, [])
  {
    var w := "$(" + name + ")";
    var c := EMPTY.(words := [w]);
    assert w[0] == '$' && c.words[0] == w && c.words[1..] == [] && [] + [w] == [w];
    assert EndThen(c, ";") == ";" && WordsThen(c.words[1..], ";") == ";";
    assert TextThen(c, ";") == WordsThen(c.words, ";") == w + (" " + ";");
    LexVariable(name, " " + ";");
    LexBlank(";");
    LexTerminator();
    OneWord(env, Environment(name), w);
  }
}
