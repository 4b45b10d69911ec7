/**
 * What happens to an incoming chat message (handleMessage in
 * src/discordEvents.js): the string operations it relies on (indexOf, slice,
 * trim, split on / +/, toLowerCase), the classification of a message and the
 * effects of each class.
 */
module MessageRouting {
  import opened Effects
  import opened CommandChecks

  /** The fields of a chat message the handler looks at. `mentionsBot` is
      whether one of the mentioned members is the bot's own user. */
  datatype Message = Message(authorIsBot: bool, content: string, mentionsBot: bool, isDm: bool)

  datatype Route =
    | Ignore
    | FortuneReply
    | DmWelcome
    | Help
    | Dispatch(command: string, args: seq<string>)

  // ---------------------------------------------------------------------
  // String.prototype.indexOf

  /** `p` occurs in `s` at position `k`. */
  predicate OccursAt(s: string, p: string, k: nat) {
    k + |p| <= |s| && s[k..k + |p|] == p
  }

  /** The first position at or after `from` where `p` occurs in `s`, or -1. */
  function IndexOfFrom(s: string, p: string, from: nat): (r: int)
    requires from <= |s|
    ensures r == -1 || (from <= r && OccursAt(s, p, r))
    ensures forall k: nat | from <= k && (r == -1 || k < r) :: !OccursAt(s, p, k)
    decreases |s| - from
  {
    if |s| - from < |p| then -1
    else if s[from..from + |p|] == p then from
    else if from == |s| then -1
    else IndexOfFrom(s, p, from + 1)
  }

  function IndexOf(s: string, p: string): int {
    IndexOfFrom(s, p, 0)
  }

  /** `s.indexOf(p) === 0` says exactly that `s` starts with `p`. */
  lemma IndexOfZeroIffPrefix(s: string, p: string)
    ensures IndexOf(s, p) == 0 <==> p <= s
  {
    if p <= s {
      assert OccursAt(s, p, 0);
    }
  }

  // ---------------------------------------------------------------------
  // String.prototype.trim

  /** The characters ECMAScript's trim removes: WhiteSpace (tab, vertical tab,
      form feed, the byte order mark and the space separators) and
      LineTerminator. */
  predicate IsJsWhitespace(c: char) {
    || c == '\t' || c == '\n' || c == '\U{B}' || c == '\U{C}' || c == '\r' || c == ' '
    || c == '\U{A0}' || c == '\U{1680}' || ('\U{2000}' <= c <= '\U{200A}')
    || c == '\U{2028}' || c == '\U{2029}' || c == '\U{202F}' || c == '\U{205F}'
    || c == '\U{3000}' || c == '\U{FEFF}'
  }

  /** Drops the longest whitespace prefix. */
  function TrimStart(s: string): (r: string)
    ensures |r| <= |s| && r == s[|s| - |r|..]
    ensures forall k | 0 <= k < |s| - |r| :: IsJsWhitespace(s[k])
    ensures r == [] || !IsJsWhitespace(r[0])
  {
    if s != [] && IsJsWhitespace(s[0]) then
      var r := TrimStart(s[1..]);
      assert forall k | 1 <= k < |s| :: s[k] == s[1..][k - 1];
      r
    else s
  }

  /** Drops the longest whitespace suffix. */
  function TrimEnd(s: string): (r: string)
    ensures |r| <= |s| && r == s[..|r|]
    ensures forall k | |r| <= k < |s| :: IsJsWhitespace(s[k])
    ensures r == [] || !IsJsWhitespace(r[|r| - 1])
  {
    if s != [] && IsJsWhitespace(s[|s| - 1]) then
      var r := TrimEnd(s[..|s| - 1]);
      assert forall k | 0 <= k < |s| - 1 :: s[k] == s[..|s| - 1][k];
      r
    else s
  }

  /** `s.trim()`: what is left of `s` between a whitespace prefix and a
      whitespace suffix, neither end of it whitespace. */
  function Trim(s: string): (r: string)
    ensures r == [] || (!IsJsWhitespace(r[0]) && !IsJsWhitespace(r[|r| - 1]))
    ensures TrimmedAt(s, r, |s| - |TrimStart(s)|)
  {
    var t := TrimStart(s);
    var r := TrimEnd(t);
    TrimmedBetween(s, t, r);
    r
  }

  /** Whitespace removed in front of `s`, leaving `t`, and then at the end of
      `t`, leaving `r`: `r` lies in `s` where `Trim` promises. */
  lemma TrimmedBetween(s: string, t: string, r: string)
    requires |t| <= |s| && t == s[|s| - |t|..]
    requires forall k | 0 <= k < |s| - |t| :: IsJsWhitespace(s[k])
    requires t == [] || !IsJsWhitespace(t[0])
    requires |r| <= |t| && r == t[..|r|]
    requires forall k | |r| <= k < |t| :: IsJsWhitespace(t[k])
    requires r == [] || !IsJsWhitespace(r[|r| - 1])
    ensures r == [] || (!IsJsWhitespace(r[0]) && !IsJsWhitespace(r[|r| - 1]))
    ensures TrimmedAt(s, r, |s| - |t|)
  {
    var i := |s| - |t|;
    assert r != [] ==> r[0] == t[0];
    assert s[i..][..|r|] == s[i..i + |r|];
    forall k | i + |r| <= k < |s|
      ensures IsJsWhitespace(s[k])
    {
      assert s[k] == t[k - i];
    }
  }

  /** `r` is `s` with whitespace only removed before position `i` and after `r`. */
  predicate TrimmedAt(s: string, r: string, i: nat) {
    && i + |r| <= |s| && r == s[i..i + |r|]
    && (forall k | 0 <= k < i :: IsJsWhitespace(s[k]))
    && (forall k | i + |r| <= k < |s| :: IsJsWhitespace(s[k]))
  }

  // ---------------------------------------------------------------------
  // String.prototype.split(/ +/)

  /** The length of the leading run of non-space characters. */
  function TokenLength(s: string): (n: nat)
    ensures n <= |s| && forall k | 0 <= k < n :: s[k] != ' '
    ensures n < |s| ==> s[n] == ' '
  {
    if s == [] || s[0] == ' ' then 0 else 1 + TokenLength(s[1..])
  }

  /** The first piece of a word followed by a space, or by nothing, is the word. */
  lemma {:induction false} TokenLengthOfWord(t: string, rest: string)
    requires ' ' !in t && (rest == [] || rest[0] == ' ')
    ensures TokenLength(t + rest) == |t|
  {
    if t == [] {
      assert t + rest == rest;
    } else {
      assert t[0] in t;
      assert (t + rest)[0] == t[0];
      assert (t + rest)[1..] == t[1..] + rest;
      assert ' ' !in t[1..] by {
        forall c | c in t[1..] ensures c in t { }
      }
      TokenLengthOfWord(t[1..], rest);
    }
  }

  /** The length of the leading run of spaces. */
  function SpaceRunLength(s: string): (n: nat)
    ensures n <= |s| && forall k | 0 <= k < n :: s[k] == ' '
    ensures n < |s| ==> s[n] != ' '
  {
    if s == [] || s[0] != ' ' then 0 else 1 + SpaceRunLength(s[1..])
  }

  /** `s.split(/ +/)`: the pieces between maximal runs of spaces. A leading
      or trailing run yields an empty first or last piece, and "" yields [""]. */
  function SplitSpaces(s: string): (r: seq<string>)
    ensures |r| >= 1
    ensures forall k | 0 <= k < |r| :: ' ' !in r[k]
    decreases |s|
  {
    var n := TokenLength(s);
    assert ' ' !in s[..n] by {
      forall c | c in s[..n] ensures c != ' ' {
        var k :| 0 <= k < n && s[..n][k] == c;
      }
    }
    if n == |s| then
      assert s[..n] == s;
      [s]
    else
      var rest := s[n..];
      [s[..n]] + SplitSpaces(rest[SpaceRunLength(rest)..])
  }

  /** A run of `n` spaces. */
  function Spaces(n: nat): (r: string)
    ensures |r| == n && forall k | 0 <= k < n :: r[k] == ' '
  {
    if n == 0 then [] else [' '] + Spaces(n - 1)
  }

  /** The length of a run of spaces between two pieces of a line. */
  type Run = n: nat | n >= 1 witness 1

  /** The pieces `tokens` with a run of `gaps[k]` spaces between pieces `k`
      and `k + 1`. */
  function JoinRuns(tokens: seq<string>, gaps: seq<Run>): (r: string)
    requires |tokens| == |gaps| + 1
    ensures tokens[0] <= r
    decreases |gaps|
  {
    if gaps == [] then tokens[0]
    else tokens[0] + Spaces(gaps[0]) + JoinRuns(tokens[1..], gaps[1..])
  }

  /** Joined pieces end with the last piece. */
  lemma {:induction false} JoinEndsWithLast(tokens: seq<string>, gaps: seq<Run>)
    requires |tokens| == |gaps| + 1
    ensures var last := tokens[|tokens| - 1];
      |last| <= |JoinRuns(tokens, gaps)| && JoinRuns(tokens, gaps)[|JoinRuns(tokens, gaps)| - |last|..] == last
    decreases |gaps|
  {
    if gaps != [] {
      JoinEndsWithLast(tokens[1..], gaps[1..]);
    }
  }

  /** The leading run of spaces of `Spaces(g) + rest` is the `g` spaces, when
      `rest` does not start with one. */
  lemma {:induction false} RunOfSpaces(g: nat, rest: string)
    requires rest == [] || rest[0] != ' '
    ensures SpaceRunLength(Spaces(g) + rest) == g
  {
    if g == 0 {
      assert Spaces(g) + rest == rest;
    } else {
      assert (Spaces(g) + rest)[1..] == Spaces(g - 1) + rest;
      RunOfSpaces(g - 1, rest);
    }
  }

  /** A word, a non-empty run of spaces and a line that does not start with a
      space split into the word followed by the pieces of the line. */
  lemma SplitAfterRun(t: string, g: nat, rest: string)
    requires ' ' !in t && g >= 1 && (rest == [] || rest[0] != ' ')
    ensures SplitSpaces(t + Spaces(g) + rest) == [t] + SplitSpaces(rest)
  {
    var run := Spaces(g) + rest;
    var s := t + Spaces(g) + rest;
    assert s == t + run;
    TokenLengthOfWord(t, run);
    assert s[..|t|] == t;
    assert s[|t|..] == run;
    RunOfSpaces(g, rest);
    assert run[g..] == rest;
  }

  /** Splitting undoes joining: pieces without spaces, separated by
      non-empty runs of spaces, are split back into exactly those pieces.
      Only the first and the last piece may be empty (a leading or trailing
      run of spaces). */
  lemma {:induction false} SplitJoin(tokens: seq<string>, gaps: seq<Run>)
    requires |tokens| == |gaps| + 1
    requires forall k | 0 <= k < |tokens| :: ' ' !in tokens[k]
    requires forall k | 0 < k < |tokens| - 1 :: tokens[k] != []
    ensures SplitSpaces(JoinRuns(tokens, gaps)) == tokens
    decreases |gaps|
  {
    if gaps == [] {
      assert tokens[0] + [] == tokens[0];
      TokenLengthOfWord(tokens[0], []);
      assert tokens == [tokens[0]];
    } else {
      var joined := JoinRuns(tokens[1..], gaps[1..]);
      assert tokens[1..][0] == tokens[1];
      if tokens[1] == [] {
        assert |tokens| == 2 && joined == [];
      } else {
        assert tokens[1][0] in tokens[1];
        assert joined[0] == tokens[1][0];
      }
      calc {
        SplitSpaces(JoinRuns(tokens, gaps));
        SplitSpaces(tokens[0] + Spaces(gaps[0]) + joined);
        { SplitAfterRun(tokens[0], gaps[0], joined); }
        [tokens[0]] + SplitSpaces(joined);
        { SplitJoin(tokens[1..], gaps[1..]); }
        [tokens[0]] + tokens[1..];
      }
    }
  }

  /** Joining one more piece in front. */
  lemma JoinRunsCons(t: string, g: Run, tokens: seq<string>, gaps: seq<Run>)
    requires |tokens| == |gaps| + 1
    ensures JoinRuns([t] + tokens, [g] + gaps) == t + Spaces(g) + JoinRuns(tokens, gaps)
  {
    assert ([t] + tokens)[1..] == tokens && ([g] + gaps)[1..] == gaps;
  }

  /** A line with a run of `m` spaces at position `n`, cut around that run. */
  lemma CutAtRun(s: string, n: nat, m: nat)
    requires n + m <= |s| && forall k | n <= k < n + m :: s[k] == ' '
    ensures s == s[..n] + Spaces(m) + s[n + m..]
  {
    assert s[n..n + m] == Spaces(m);
    assert s == s[..n] + s[n..n + m] + s[n + m..];
  }

  /** After the first word of a line that has more, a non-empty run of spaces. */
  lemma RunAfterWord(s: string, n: nat, m: nat)
    requires n == TokenLength(s) < |s| && m == SpaceRunLength(s[n..])
    ensures 1 <= m && n + m <= |s| && forall k | n <= k < n + m :: s[k] == ' '
  {
    var rest := s[n..];
    assert rest[0] == ' ';
    forall k | n <= k < n + m
      ensures s[k] == ' '
    {
      assert s[k] == rest[k - n];
    }
  }

  /** The pieces of a line that is cut after its first word. */
  lemma SplitSpacesUnfold(s: string, n: nat, m: nat)
    requires n == TokenLength(s) < |s| && m == SpaceRunLength(s[n..])
    ensures n + m <= |s| && SplitSpaces(s) == [s[..n]] + SplitSpaces(s[n + m..])
  {
    assert s[n..][m..] == s[n + m..];
  }

  /** Putting a line back together from its first word, the run of spaces
      after it, and the rest. */
  lemma JoinAfterCut(s: string, n: nat, m: Run, pieces: seq<string>, more: seq<Run>)
    requires n + m <= |s| && forall k | n <= k < n + m :: s[k] == ' '
    requires |pieces| == |more| + 1 && JoinRuns(pieces, more) == s[n + m..]
    ensures JoinRuns([s[..n]] + pieces, [m] + more) == s
  {
    JoinRunsCons(s[..n], m, pieces, more);
    CutAtRun(s, n, m);
  }

  /** Every line is its pieces joined by non-empty runs of spaces. With
      `SplitJoin` this determines `SplitSpaces` completely. */
  lemma {:induction false} SplitSpacesDecomposes(s: string) returns (gaps: seq<Run>)
    ensures |SplitSpaces(s)| == |gaps| + 1
    ensures JoinRuns(SplitSpaces(s), gaps) == s
    decreases |s|
  {
    var n := TokenLength(s);
    if n == |s| {
      assert s[..n] == s;
      gaps := [];
    } else {
      var m := SpaceRunLength(s[n..]);
      RunAfterWord(s, n, m);
      SplitSpacesUnfold(s, n, m);
      var g: Run := m;
      var more := SplitSpacesDecomposes(s[n + m..]);
      gaps := [g] + more;
      JoinAfterCut(s, n, g, SplitSpaces(s[n + m..]), more);
    }
  }

  /** A line with more than one piece that does not start with a space has a
      non-empty first piece. */
  lemma FirstPieceNonEmpty(s: string)
    requires s == [] || s[0] != ' '
    requires |SplitSpaces(s)| > 1
    ensures SplitSpaces(s)[0] != []
  {
    var n := TokenLength(s);
    assert n < |s|;
    assert s[0] != ' ';
    assert SplitSpaces(s)[0] == s[..n];
  }

  /** Only the first and the last piece of a line can be empty. */
  lemma {:induction false} InnerPiecesNonEmpty(s: string)
    ensures forall k | 0 < k < |SplitSpaces(s)| - 1 :: SplitSpaces(s)[k] != []
    decreases |s|
  {
    var n := TokenLength(s);
    if n < |s| {
      var m := SpaceRunLength(s[n..]);
      RunAfterWord(s, n, m);
      SplitSpacesUnfold(s, n, m);
      var tail := s[n + m..];
      InnerPiecesNonEmpty(tail);
      if |SplitSpaces(tail)| > 1 {
        FirstPieceNonEmpty(tail);
      }
    }
  }

  /** After trimming, every piece of a non-empty line is non-empty. */
  lemma {:induction false} TrimmedPiecesNonEmpty(s: string)
    requires s != [] && s[0] != ' ' && s[|s| - 1] != ' '
    ensures forall k | 0 <= k < |SplitSpaces(s)| :: SplitSpaces(s)[k] != []
    decreases |s|
  {
    var n := TokenLength(s);
    if n < |s| {
      var rest := s[n..];
      var m := SpaceRunLength(rest);
      assert rest[|rest| - 1] == s[|s| - 1] != ' ';
      assert m < |rest|;
      var tail := rest[m..];
      assert tail[|tail| - 1] == s[|s| - 1];
      TrimmedPiecesNonEmpty(tail);
      assert SplitSpaces(s) == [s[..n]] + SplitSpaces(tail);
    }
  }

  // ---------------------------------------------------------------------
  // String.prototype.toLowerCase

  function LowerChar(c: char): char {
    if 'A' <= c <= 'Z' then (c as int - 'A' as int + 'a' as int) as char else c
  }

  function ToLower(s: string): (r: string)
    ensures |r| == |s|
    ensures forall k | 0 <= k < |s| :: r[k] == LowerChar(s[k])
  {
    if s == [] then [] else [LowerChar(s[0])] + ToLower(s[1..])
  }

  /** Lowercasing leaves no upper-case letter and is idempotent. */
  lemma LowerIsLower(s: string)
    ensures forall k | 0 <= k < |ToLower(s)| :: !('A' <= ToLower(s)[k] <= 'Z')
    ensures ToLower(ToLower(s)) == ToLower(s)
  {
  }

  // ---------------------------------------------------------------------
  // handleMessage

  /** The pieces of a command line: `content.slice(prefix.length).trim().split(/ +/g)`. */
  function CommandLine(content: string, prefix: string): (r: seq<string>)
    requires |prefix| <= |content|
    ensures |r| >= 1 && forall k | 0 <= k < |r| :: ' ' !in r[k]
  {
    SplitSpaces(Trim(content[|prefix|..]))
  }

  /** Which branch of handleMessage a message takes. */
  function Classify(prefix: string, m: Message): (r: Route)
    ensures m.authorIsBot ==> r == Ignore
    ensures !(prefix <= m.content) ==> !r.Help? && !r.Dispatch?
    ensures !m.authorIsBot && prefix <= m.content ==>
      var line := CommandLine(m.content, prefix);
      && (r.Help? || r.Dispatch?)
      && (r.Help? <==> ToLower(line[0]) == "help" || ToLower(line[0]) == "?")
      && (r.Dispatch? ==> r.command == ToLower(line[0]) && r.args == line[1..])
    ensures !m.authorIsBot && !(prefix <= m.content) ==>
      r == (if m.mentionsBot then FortuneReply else if m.isDm then DmWelcome else Ignore)
  {
    IndexOfZeroIffPrefix(m.content, prefix);
    if m.authorIsBot then Ignore
    else if IndexOf(m.content, prefix) != 0 then
      if m.mentionsBot then FortuneReply
      else if m.isDm then DmWelcome
      else Ignore
    else
      var line := CommandLine(m.content, prefix);
      var command := ToLower(line[0]);
      if command == "help" || command == "?" then Help
      else Dispatch(command, line[1..])
  }

  /** Lowercasing neither adds nor removes spaces. */
  lemma LowerKeepsSpaces(s: string)
    ensures ' ' in ToLower(s) <==> ' ' in s
  {
    if ' ' in ToLower(s) {
      var k :| 0 <= k < |s| && ToLower(s)[k] == ' ';
    }
    if ' ' in s {
      var k :| 0 <= k < |s| && s[k] == ' ';
      assert ToLower(s)[k] == ' ';
    }
  }

  /** The arguments after the command are non-empty. */
  lemma ArgumentsNonEmpty(content: string, prefix: string)
    requires |prefix| <= |content|
    ensures forall k | 1 <= k < |CommandLine(content, prefix)| :: CommandLine(content, prefix)[k] != []
  {
    var trimmed := Trim(content[|prefix|..]);
    if trimmed != [] {
      TrimmedPiecesNonEmpty(trimmed);
    } else {
      assert CommandLine(content, prefix) == [[]];
    }
  }

  /** A dispatched command is a lower-case word without spaces that is not
      a help keyword, and its arguments are non-empty and contain no spaces. */
  lemma DispatchedWords(prefix: string, m: Message)
    requires Classify(prefix, m).Dispatch?
    ensures var r := Classify(prefix, m);
      && r.command != "help" && r.command != "?"
      && ' ' !in r.command
      && (forall k | 0 <= k < |r.command| :: !('A' <= r.command[k] <= 'Z'))
      && (forall k | 0 <= k < |r.args| :: ' ' !in r.args[k] && r.args[k] != [])
  {
    var r := Classify(prefix, m);
    assert !m.authorIsBot && prefix <= m.content;
    var line := CommandLine(m.content, prefix);
    assert r.command == ToLower(line[0]) && r.args == line[1..];
    LowerIsLower(line[0]);
    LowerKeepsSpaces(line[0]);
    ArgumentsNonEmpty(m.content, prefix);
  }

  /** Trimming leaves alone a string whose ends are not whitespace. */
  lemma TrimKeeps(s: string)
    requires s == [] || (!IsJsWhitespace(s[0]) && !IsJsWhitespace(s[|s| - 1]))
    ensures Trim(s) == s
  {
  }

  /** Words without whitespace, separated by runs of spaces, are left alone
      by trimming and split back into those words. */
  lemma TypedLineSplits(tokens: seq<string>, gaps: seq<Run>)
    requires |tokens| == |gaps| + 1
    requires forall k | 0 <= k < |tokens| ::
      tokens[k] != [] && forall c | c in tokens[k] :: !IsJsWhitespace(c)
    ensures SplitSpaces(Trim(JoinRuns(tokens, gaps))) == tokens
  {
    var line := JoinRuns(tokens, gaps);
    assert line[0] == tokens[0][0];
    assert tokens[0][0] in tokens[0];
    JoinEndsWithLast(tokens, gaps);
    assert line[|line| - 1] in tokens[|tokens| - 1];
    TrimKeeps(line);
    SplitJoin(tokens, gaps);
  }

  /** A line typed as the prefix followed by words separated by runs of
      spaces is parsed back into those words: the lowercased first word is
      the command (or the help panel), the others are its arguments. */
  lemma ParsesTypedCommand(prefix: string, m: Message, word: string, args: seq<string>, gaps: seq<Run>)
    requires !m.authorIsBot
    requires |gaps| == |args|
    requires m.content == prefix + JoinRuns([word] + args, gaps)
    requires forall k | 0 <= k < |[word] + args| ::
      ([word] + args)[k] != [] && forall c | c in ([word] + args)[k] :: !IsJsWhitespace(c)
    ensures Classify(prefix, m) ==
      if ToLower(word) == "help" || ToLower(word) == "?" then Help else Dispatch(ToLower(word), args)
  {
    var tokens := [word] + args;
    assert prefix <= m.content;
    assert m.content[|prefix|..] == JoinRuns(tokens, gaps);
    TypedLineSplits(tokens, gaps);
    assert CommandLine(m.content, prefix) == tokens;
  }

  /**
   * handleMessage: classifies the message and performs the branch taken.
   * `lang` is what getLang returns for the channel's guild, `fortune` the
   * text fortune() returns, and `reports` the verdicts of the dispatched
   * command's checks in completion order.
   */
  method HandleMessage(prefix: string, registry: map<string, Command>, m: Message,
                       lang: string, fortune: string, reports: seq<CheckReport>)
    returns (effects: seq<Effect>, handlerCalls: nat)
    requires var r := Classify(prefix, m);
      r.Dispatch? && r.command in registry ==> WellFormed(|registry[r.command].checks|, reports)
    ensures Classify(prefix, m).Ignore? ==> effects == [] && handlerCalls == 0
    ensures Classify(prefix, m).FortuneReply? ==> effects == [Reply(fortune)] && handlerCalls == 0
    ensures Classify(prefix, m).DmWelcome? ==>
      effects == [PostLocalized(lang, "welcomeMessage")] && handlerCalls == 0
    ensures Classify(prefix, m).Help? ==> effects == [PostHelp(lang)] && handlerCalls == 0
    ensures Classify(prefix, m).Dispatch? && Classify(prefix, m).command !in registry ==>
      effects == [] && handlerCalls == 0
    ensures Classify(prefix, m).Dispatch? && Classify(prefix, m).command in registry ==>
      var r := Classify(prefix, m);
      var command := registry[r.command];
      if |r.args| < command.minArgs then
        effects == [PostTranslated("usage-" + r.command)] && handlerCalls == 0
      else
        && effects == PostedAfter(r.command, r.args, command.checks, reports)
        && handlerCalls == HandlerCallsAfter(|command.checks|, reports)
  {
    var route := Classify(prefix, m);
    match route
    case Ignore =>
      effects, handlerCalls := [], 0;
    case FortuneReply =>
      effects, handlerCalls := [Reply(fortune)], 0;
    case DmWelcome =>
      effects, handlerCalls := [PostLocalized(lang, "welcomeMessage")], 0;
    case Help =>
      effects, handlerCalls := [PostHelp(lang)], 0;
    case Dispatch(command, args) =>
      effects, handlerCalls := HandleCommand(registry, command, args, reports);
  }
}

/** End-to-end consequences of handleMessage for typed command lines. */
module RoutingConsequences {
  import opened Effects
  import opened CommandChecks
  import opened MessageRouting

  /** A registered command typed with fewer arguments than it needs (such as
      "!tweet" for a command needing one) posts exactly its usage message and
      never runs the handler. */
  method UsageWhenArgumentsMissing(prefix: string, registry: map<string, Command>,
                                   word: string, args: seq<string>, gaps: seq<Run>)
    returns (effects: seq<Effect>, handlerCalls: nat)
    requires |gaps| == |args|
    requires forall k | 0 <= k < |[word] + args| ::
      ([word] + args)[k] != [] && forall c | c in ([word] + args)[k] :: !IsJsWhitespace(c)
    requires ToLower(word) != "help" && ToLower(word) != "?"
    requires ToLower(word) in registry && |args| < registry[ToLower(word)].minArgs
    ensures effects == [PostTranslated("usage-" + ToLower(word))] && handlerCalls == 0
  {
    var m := Message(false, prefix + JoinRuns([word] + args, gaps), false, false);
    ParsesTypedCommand(prefix, m, word, args, gaps);
    effects, handlerCalls := HandleMessage(prefix, registry, m, "en", "", []);
  }
}
