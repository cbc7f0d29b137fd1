/** The Exec key of a desktop entry: value unescaping, splitting into arguments and field codes, and
    the encoder that writes an argument list so that it reads back unchanged. */
module DesktopExec {
  import opened Basics

  datatype LaunchError =
    | ControlCharacter | Unterminated | EmptyExec | MisplacedFieldCode | TrailingPercent
    | UnknownFieldCode(code: char) | EmptyCommand
  datatype Result<+T> = Ok(value: T) | Err(error: LaunchError)

  datatype Entry = Entry(name: string, icon: Option<string>, desktopFile: Option<string>, terminal: bool)

  const TERMINAL_EXEC := "xdg-terminal-exec"

  predicate IsControl(c: char) {
    var n := c as int;
    n < 0x20 || 0x7f <= n <= 0x9f
  }

  predicate Forbidden(c: char) {
    IsControl(c) && !IsWhitespace(c)
  }

  // ---------------------------------------------------------------- Layer 1: value escapes

  function UnescapePair(c: char): string {
    match c
    case 's' => [' ']
    case 'n' => ['\n']
    case 't' => ['\t']
    case 'r' => ['\r']
    case '\\' => ['\\']
    case _ => ['\\', c]
  }

  function Unescape(value: string): string {
    if value == [] then []
    else if value[0] != '\\' then [value[0]] + Unescape(value[1..])
    else if |value| == 1 then ['\\']
    else UnescapePair(value[1]) + Unescape(value[2..])
  }

  function EscapeChar(c: char): string {
    match c
    case '\\' => "\\\\"
    case '\n' => "\\n"
    case '\t' => "\\t"
    case '\r' => "\\r"
    case _ => [c]
  }

  function Escape(s: string): string {
    if s == [] then [] else EscapeChar(s[0]) + Escape(s[1..])
  }

  lemma {:induction false} UnescapeStep(c: char, rest: string)
    ensures Unescape(EscapeChar(c) + rest) == [c] + Unescape(rest)
  {
    var wire := EscapeChar(c) + rest;
    if c == '\\' || c == '\n' || c == '\t' || c == '\r' {
      assert wire[0] == '\\' && wire[2..] == rest;
    } else {
      assert wire[1..] == rest;
    }
  }

  lemma {:induction false} UnescapeInvertsEscape(s: string)
    ensures Unescape(Escape(s)) == s
  {
    if s != [] {
      UnescapeInvertsEscape(s[1..]);
      UnescapeStep(s[0], Escape(s[1..]));
    }
  }

  // ---------------------------------------------------------------- Layer 2: splitting

  datatype Lexer = Lexer(argv: seq<string>, current: string, quoted: bool, escaped: bool)

  function Feed(l: Lexer, c: char): Result<Lexer> {
    if Forbidden(c) then Err(ControlCharacter)
    else if l.escaped then Ok(l.(current := l.current + [c], escaped := false))
    else if c == '\\' then Ok(l.(escaped := true))
    else if c == '"' then Ok(l.(quoted := !l.quoted))
    else if IsWhitespace(c) && !l.quoted then
      Ok(if l.current == [] then l else l.(argv := l.argv + [l.current], current := []))
    else Ok(l.(current := l.current + [c]))
  }

  function FeedAll(l: Lexer, s: string): Result<Lexer>
    decreases |s|
  {
    if s == [] then Ok(l) else
      match Feed(l, s[0])
      case Err(e) => Err(e)
      case Ok(l') => FeedAll(l', s[1..])
  }

  function Finish(l: Lexer): Result<seq<string>> {
    if l.escaped || l.quoted then Err(Unterminated) else
      var argv := if l.current == [] then l.argv else l.argv + [l.current];
      if argv == [] then Err(EmptyExec) else Ok(argv)
  }

  function Split(exec: string): Result<seq<string>> {
    match FeedAll(Lexer([], [], false, false), exec)
    case Err(e) => Err(e)
    case Ok(l) => Finish(l)
  }

  predicate NeedsBackslash(c: char) {
    c == '"' || c == '`' || c == '$' || c == '\\'
  }

  function QuoteChar(c: char): string {
    if NeedsBackslash(c) then ['\\', c] else [c]
  }

  function QuoteBody(s: string): string {
    if s == [] then [] else QuoteChar(s[0]) + QuoteBody(s[1..])
  }

  function Quote(s: string): string {
    ['"'] + QuoteBody(s) + ['"']
  }

  function Join(args: seq<string>): string {
    if args == [] then [] else if |args| == 1 then Quote(args[0]) else Quote(args[0]) + [' '] + Join(args[1..])
  }

  predicate Clean(s: string) {
    forall i :: 0 <= i < |s| ==> !Forbidden(s[i])
  }

  lemma {:induction false} FeedConcat(l: Lexer, s: string, t: string)
    ensures FeedAll(l, s + t) == match FeedAll(l, s) case Err(e) => Err(e) case Ok(l') => FeedAll(l', t)
    decreases |s|
  {
    if s == [] {
      assert s + t == t;
    } else {
      assert (s + t)[1..] == s[1..] + t;
      match Feed(l, s[0])
      case Err(_) =>
      case Ok(l') => FeedConcat(l', s[1..], t);
    }
  }

  lemma {:induction false} FeedOne(l: Lexer, c: char)
    ensures FeedAll(l, [c]) == Feed(l, c)
  {
  }

  lemma {:induction false} FeedQuoteChar(l: Lexer, c: char)
    requires l.quoted && !l.escaped
    ensures FeedAll(l, QuoteChar(c)) == if Forbidden(c) then Err(ControlCharacter) else Ok(l.(current := l.current + [c]))
  {
    FeedOne(l, c);
    FeedOne(l.(escaped := true), c);
    assert ['\\', c][1..] == [c];
  }

  lemma {:induction false} CleanStep(s: string)
    requires s != []
    ensures Clean(s) <==> !Forbidden(s[0]) && Clean(s[1..])
  {
    assert forall i :: 0 < i < |s| ==> s[i] == s[1..][i - 1];
    assert forall i :: 0 <= i < |s[1..]| ==> s[1..][i] == s[i + 1];
  }

  lemma {:induction false} FeedQuoteBody(l: Lexer, s: string)
    requires l.quoted && !l.escaped
    ensures FeedAll(l, QuoteBody(s)) == if Clean(s) then Ok(l.(current := l.current + s)) else Err(ControlCharacter)
    decreases |s|
  {
    if s == [] {
      assert l.current + s == l.current;
    } else {
      FeedConcat(l, QuoteChar(s[0]), QuoteBody(s[1..]));
      FeedQuoteChar(l, s[0]);
      CleanStep(s);
      FeedQuoteBody(l.(current := l.current + [s[0]]), s[1..]);
      assert l.current + [s[0]] + s[1..] == l.current + s;
    }
  }

  lemma {:induction false} FeedQuote(l: Lexer, s: string)
    requires !l.quoted && !l.escaped && l.current == []
    ensures FeedAll(l, Quote(s)) == if Clean(s) then Ok(l.(current := s)) else Err(ControlCharacter)
  {
    var open := l.(quoted := true);
    FeedConcat(l, ['"'] + QuoteBody(s), ['"']);
    FeedConcat(l, ['"'], QuoteBody(s));
    FeedOne(l, '"');
    FeedQuoteBody(open, s);
    if Clean(s) {
      FeedOne(open.(current := s), '"');
      assert [] + s == s;
    }
  }

  function NonEmpty(args: seq<string>): seq<string> {
    if args == [] then [] else (if args[0] == [] then [] else [args[0]]) + NonEmpty(args[1..])
  }

  ghost predicate AllClean(args: seq<string>) {
    forall i :: 0 <= i < |args| ==> Clean(args[i])
  }

  lemma {:induction false} FeedJoin(l: Lexer, args: seq<string>)
    requires !l.quoted && !l.escaped && l.current == [] && args != []
    ensures
      var last := args[|args| - 1];
      FeedAll(l, Join(args)) == if AllClean(args) then Ok(l.(argv := l.argv + NonEmpty(args[..|args| - 1]), current := last))
                                else Err(ControlCharacter)
    decreases |args|
  {
    FeedQuote(l, args[0]);
    if |args| == 1 {
      assert args[..0] == [] && l.argv + [] == l.argv;
    } else {
      FeedConcat(l, Quote(args[0]) + [' '], Join(args[1..]));
      FeedConcat(l, Quote(args[0]), [' ']);
      if Clean(args[0]) {
        FeedOne(l.(current := args[0]), ' ');
        var l' := if args[0] == [] then l else l.(argv := l.argv + [args[0]]);
        FeedJoin(l', args[1..]);
        var front := args[..|args| - 1];
        assert front[1..] == args[1..][..|args| - 2];
        assert l'.argv + NonEmpty(front[1..]) == l.argv + NonEmpty(front);
        assert AllClean(args) <==> AllClean(args[1..]) by {
          assert forall i :: 0 < i < |args| ==> args[i] == args[1..][i - 1];
        }
      }
    }
  }

  lemma {:induction false} NonEmptySnoc(args: seq<string>, last: string)
    ensures NonEmpty(args + [last]) == NonEmpty(args) + if last == [] then [] else [last]
  {
    if args == [] {
      assert args + [last] == [last];
    } else {
      NonEmptySnoc(args[1..], last);
      assert (args + [last])[1..] == args[1..] + [last];
    }
  }

  /** Splitting the quoted arguments gives the non-empty ones back, unless one holds a forbidden
      control character or none is non-empty. */
  lemma {:induction false} SplitInvertsJoin(args: seq<string>)
    ensures Split(Join(args)) ==
            if !AllClean(args) then Err(ControlCharacter)
            else if NonEmpty(args) == [] then Err(EmptyExec) else Ok(NonEmpty(args))
  {
    if args != [] {
      var start: Lexer := Lexer([], [], false, false);
      var front, last := args[..|args| - 1], args[|args| - 1];
      FeedJoin(start, args);
      NonEmptySnoc(front, last);
      assert front + [last] == args;
      assert start.argv + NonEmpty(front) == NonEmpty(front);
      assert NonEmpty(front) + [] == NonEmpty(front);
    }
  }

  // ---------------------------------------------------------------- Layer 3: field codes

  function ExpandCode(entry: Entry, code: char): Result<string> {
    if code == '%' then Ok("%")
    else if code == 'c' then Ok(entry.name)
    else if code == 'k' then Ok(if entry.desktopFile.Some? then entry.desktopFile.value else "")
    else if code in ['f', 'u', 'd', 'D', 'n', 'N', 'v', 'm'] then Ok("")
    else Err(UnknownFieldCode(code))
  }

  function Then(front: Result<string>, back: Result<string>): Result<string> {
    if front.Err? then front else if back.Err? then back else Ok(front.value + back.value)
  }

  function ExpandToken(entry: Entry, token: string): Result<string> {
    if token == [] then Ok("")
    else if token[0] != '%' then Then(Ok([token[0]]), ExpandToken(entry, token[1..]))
    else if |token| == 1 then Err(TrailingPercent)
    else Then(ExpandCode(entry, token[1]), ExpandToken(entry, token[2..]))
  }

  predicate HasPair(s: string, c: char) {
    |s| >= 2 && ((s[0] == '%' && s[1] == c) || HasPair(s[1..], c))
  }

  /** `%F`, `%U` or `%i` occurs somewhere in the text. */
  predicate HasListCode(s: string) {
    HasPair(s, 'F') || HasPair(s, 'U') || HasPair(s, 'i')
  }

  /** What one argument contributes: nothing, an icon option, or its expansion. */
  function ExpandArgument(entry: Entry, token: string): Result<seq<string>> {
    if token == "%i" then Ok(if entry.icon.Some? then ["--icon", entry.icon.value] else [])
    else if token == "%F" || token == "%U" then Ok([])
    else if HasListCode(token) && |token| != 2 then Err(MisplacedFieldCode)
    else match ExpandToken(entry, token)
         case Err(e) => Err(e)
         case Ok(text) => Ok(if text == "" then [] else [text])
  }

  function ExpandFieldCodes(entry: Entry, argv: seq<string>): Result<seq<string>> {
    if argv == [] then Ok([]) else
      match ExpandArgument(entry, argv[0])
      case Err(e) => Err(e)
      case Ok(front) =>
        match ExpandFieldCodes(entry, argv[1..])
        case Err(e) => Err(e)
        case Ok(back) => Ok(front + back)
  }

  function DoublePercents(s: string): string {
    if s == [] then [] else (if s[0] == '%' then "%%" else [s[0]]) + DoublePercents(s[1..])
  }

  lemma {:induction false} ExpandUndoesDoubling(entry: Entry, s: string)
    ensures ExpandToken(entry, DoublePercents(s)) == Ok(s)
  {
    if s != [] {
      ExpandUndoesDoubling(entry, s[1..]);
      var wire := DoublePercents(s);
      assert s == [s[0]] + s[1..];
      if s[0] == '%' {
        assert wire[2..] == DoublePercents(s[1..]);
      } else {
        assert wire[1..] == DoublePercents(s[1..]);
      }
    }
  }

  lemma {:induction false} DoublingKeepsPairs(s: string, c: char)
    requires c != '%'
    ensures HasPair(DoublePercents(s), c) <==> HasPair(s, c)
    ensures |DoublePercents(s)| >= |s|
    ensures s != [] ==> DoublePercents(s) != [] && DoublePercents(s)[0] == s[0]
    ensures HasPair(s, c) ==> |DoublePercents(s)| > 2
  {
    if s != [] {
      DoublingKeepsPairs(s[1..], c);
      var wire, rest := DoublePercents(s), DoublePercents(s[1..]);
      if s[0] == '%' {
        assert wire[1..] == ['%'] + rest;
        assert wire[1..][1..] == rest;
      } else {
        assert wire[1..] == rest;
      }
    }
  }

  lemma {:induction false} ExpandArgumentOfDoubled(entry: Entry, s: string)
    ensures ExpandArgument(entry, DoublePercents(s)) ==
            if HasListCode(s) then Err(MisplacedFieldCode) else Ok(if s == "" then [] else [s])
  {
    var wire := DoublePercents(s);
    DoublingKeepsPairs(s, 'F');
    DoublingKeepsPairs(s, 'U');
    DoublingKeepsPairs(s, 'i');
    ExpandUndoesDoubling(entry, s);
    DoubledIsNoBareCode(s);
  }

  lemma {:induction false} DoubledIsNoBareCode(s: string)
    ensures DoublePercents(s) != "%i" && DoublePercents(s) != "%F" && DoublePercents(s) != "%U"
  {
    if s != [] && s[0] == '%' {
      assert DoublePercents(s)[1] == '%';
    } else if s != [] {
      assert DoublePercents(s)[0] == s[0];
    }
  }

  // ---------------------------------------------------------------- The three layers together

  function LaunchArgv(entry: Entry, value: string): Result<seq<string>> {
    match Split(Unescape(value))
    case Err(e) => Err(e)
    case Ok(tokens) =>
      match ExpandFieldCodes(entry, tokens)
      case Err(e) => Err(e)
      case Ok(argv) =>
        if argv == [] || argv[0] == [] then Err(EmptyCommand)
        else Ok(WithTerminal(entry, argv))
  }

  function WithTerminal(entry: Entry, argv: seq<string>): seq<string> {
    if entry.terminal then [TERMINAL_EXEC] + argv else argv
  }

  function Doubled(args: seq<string>): (d: seq<string>)
    ensures |d| == |args| && forall i :: 0 <= i < |args| ==> d[i] == DoublePercents(args[i])
  {
    seq(|args|, i requires 0 <= i < |args| => DoublePercents(args[i]))
  }

  function EncodeExec(args: seq<string>): string {
    Escape(Join(Doubled(args)))
  }

  /** Exactly what the Exec value can carry. */
  ghost predicate Encodable(args: seq<string>) {
    args != [] && forall i :: 0 <= i < |args| ==> args[i] != [] && Clean(args[i]) && !HasListCode(args[i])
  }

  lemma {:induction false} DoublingKeepsClean(s: string)
    ensures Clean(DoublePercents(s)) <==> Clean(s)
  {
    if s != [] {
      DoublingKeepsClean(s[1..]);
      var wire, rest := DoublePercents(s), DoublePercents(s[1..]);
      var n := |wire| - |rest|;
      assert forall i :: 0 < i < |s| ==> s[i] == s[1..][i - 1];
      assert forall i :: n <= i < |wire| ==> wire[i] == rest[i - n];
      assert forall i :: 0 <= i < |rest| ==> rest[i] == wire[i + n];
      assert wire[0] == s[0];
      assert s[1..] != [] ==> forall i :: 0 <= i < |s| - 1 ==> s[1..][i] == s[i + 1];
    }
  }

  lemma {:induction false} ExpandNonEmpty(entry: Entry, args: seq<string>)
    ensures ExpandFieldCodes(entry, NonEmpty(Doubled(args))) ==
            if AnyListCode(args) then Err(MisplacedFieldCode) else Ok(NonEmpty(args))
  {
    if args != [] {
      var d := Doubled(args);
      assert d[1..] == Doubled(args[1..]);
      ExpandNonEmpty(entry, args[1..]);
      ExpandArgumentOfDoubled(entry, args[0]);
      DoublingKeepsPairs(args[0], 'F');
      assert d[0] == [] <==> args[0] == [];
      if d[0] != [] {
        assert NonEmpty(d)[0] == d[0] && NonEmpty(d)[1..] == NonEmpty(d[1..]);
      } else {
        assert NonEmpty(d) == NonEmpty(d[1..]);
        assert NonEmpty(args) == NonEmpty(args[1..]);
      }
    }
  }

  predicate AnyListCode(args: seq<string>) {
    args != [] && (HasListCode(args[0]) || AnyListCode(args[1..]))
  }

  lemma {:induction false} AnyListCodeMeans(args: seq<string>)
    ensures AnyListCode(args) <==> exists i :: 0 <= i < |args| && HasListCode(args[i])
  {
    if args != [] {
      AnyListCodeMeans(args[1..]);
      if i :| 0 <= i < |args| && HasListCode(args[i]) {
        assert i > 0 ==> HasListCode(args[1..][i - 1]);
      }
      if i :| 0 <= i < |args[1..]| && HasListCode(args[1..][i]) {
        assert HasListCode(args[i + 1]);
      }
    }
  }

  lemma {:induction false} NonEmptyLength(args: seq<string>)
    ensures |NonEmpty(args)| <= |args|
    ensures NonEmpty(args) == args <==> forall i :: 0 <= i < |args| ==> args[i] != []
    ensures forall i :: 0 <= i < |NonEmpty(args)| ==> NonEmpty(args)[i] != []
  {
    if args != [] {
      NonEmptyLength(args[1..]);
      assert args == [args[0]] + args[1..];
      assert forall i :: 0 < i < |args| ==> args[i] == args[1..][i - 1];
      assert forall i :: 0 <= i < |args[1..]| ==> args[1..][i] == args[i + 1];
    }
  }

  lemma {:induction false} ReadsBackNonEmpty(entry: Entry, args: seq<string>)
    ensures LaunchArgv(entry, EncodeExec(args)) ==
            if !AllClean(args) then Err(ControlCharacter)
            else if NonEmpty(args) == [] then Err(EmptyExec)
            else if AnyListCode(args) then Err(MisplacedFieldCode)
            else Ok(WithTerminal(entry, NonEmpty(args)))
  {
    var d := Doubled(args);
    UnescapeInvertsEscape(Join(d));
    SplitInvertsJoin(d);
    ExpandNonEmpty(entry, args);
    NonEmptyLength(args);
    DoubledAlike(args);
  }

  lemma {:induction false} DoubledAlike(args: seq<string>)
    ensures AllClean(Doubled(args)) <==> AllClean(args)
    ensures NonEmpty(Doubled(args)) == [] <==> NonEmpty(args) == []
  {
    if args != [] {
      var d := Doubled(args);
      assert d[1..] == Doubled(args[1..]);
      DoubledAlike(args[1..]);
      DoublingKeepsClean(args[0]);
      DoublingKeepsPairs(args[0], 'F');
      assert AllClean(args) <==> Clean(args[0]) && AllClean(args[1..]) by {
        assert forall i :: 0 < i < |args| ==> args[i] == args[1..][i - 1];
      }
      assert AllClean(d) <==> Clean(d[0]) && AllClean(d[1..]) by {
        assert forall i :: 0 < i < |d| ==> d[i] == d[1..][i - 1];
      }
    }
  }

  /** For every argument list: writing it with doubled percents, quotes and value escapes and reading
      it back through all three layers returns the same list (behind the terminal launcher for a
      terminal entry) if and only if the list is non-empty and no argument is empty, holds a
      non-whitespace control character, or has `%` directly followed by F, U or i. */
  lemma {:induction false} ExecRoundTrip(entry: Entry, args: seq<string>)
    ensures LaunchArgv(entry, EncodeExec(args)) == Ok((if entry.terminal then ["xdg-terminal-exec"] else []) + args) <==> Encodable(args)
  {
    ReadsBackNonEmpty(entry, args);
    AnyListCodeMeans(args);
    NonEmptyLength(args);
    TerminalInFront(entry, args, NonEmpty(args));
  }

  lemma {:induction false} TerminalInFront(entry: Entry, args: seq<string>, kept: seq<string>)
    ensures WithTerminal(entry, kept) == (if entry.terminal then ["xdg-terminal-exec"] else []) + args <==> kept == args
  {
    assert ([TERMINAL_EXEC] + kept)[1..] == kept && ([TERMINAL_EXEC] + args)[1..] == args && [] + args == args;
  }

  /** The encoded value survives the line parser: it holds no line break and neither end is trimmed. */
  lemma {:induction false} EncodedValueIsOneLine(args: seq<string>)
    requires args != []
    ensures
      var value := EncodeExec(args);
      && '\n' !in value && '\r' !in value
      && |value| >= 2 && value[0] == '"' && value[|value| - 1] == '"'
  {
    var text := Join(Doubled(args));
    JoinIsQuoted(Doubled(args));
    EscapeHasNoLineBreak(text);
    EscapeKeepsEnds(text);
  }

  lemma {:induction false} JoinIsQuoted(args: seq<string>)
    requires args != []
    ensures
      var text := Join(args);
      |text| >= 2 && text[0] == '"' && text[|text| - 1] == '"'
  {
    if |args| > 1 {
      JoinIsQuoted(args[1..]);
    }
  }

  lemma {:induction false} EscapeHasNoLineBreak(s: string)
    ensures '\n' !in Escape(s) && '\r' !in Escape(s)
  {
    if s != [] {
      EscapeHasNoLineBreak(s[1..]);
    }
  }

  lemma {:induction false} EscapeKeepsLast(s: string)
    requires s != [] && s[|s| - 1] == '"'
    ensures Escape(s) != [] && Escape(s)[|Escape(s)| - 1] == '"'
  {
    if |s| > 1 {
      EscapeKeepsLast(s[1..]);
    } else {
      assert s[1..] == [];
    }
  }

  lemma {:induction false} EscapeKeepsEnds(s: string)
    requires |s| >= 2 && s[0] == '"' && s[|s| - 1] == '"'
    ensures
      var e := Escape(s);
      |e| >= 2 && e[0] == '"' && e[|e| - 1] == '"'
  {
    EscapeKeepsLast(s[1..]);
  }

  // ---------------------------------------------------------------- The loops of the launcher

  method UnescapeValue(value: string) returns (output: string)
    ensures output == Unescape(value)
  {
    output := [];
    var i := 0;
    while i < |value|
      invariant 0 <= i <= |value| && output + Unescape(value[i..]) == Unescape(value)
    {
      ghost var rest, done := value[i..], output;
      if value[i] != '\\' {
        assert rest[1..] == value[i + 1..];
        output := output + [value[i]];
        i := i + 1;
        assert done + ([rest[0]] + Unescape(value[i..])) == output + Unescape(value[i..]);
      } else if i + 1 == |value| {
        output := output + ['\\'];
        i := i + 1;
      } else {
        assert rest[2..] == value[i + 2..];
        output := output + UnescapePair(value[i + 1]);
        i := i + 2;
        assert done + (UnescapePair(rest[1]) + Unescape(value[i..])) == output + Unescape(value[i..]);
      }
    }
  }

  method SplitExec(exec: string) returns (r: Result<seq<string>>)
    ensures r == Split(exec)
  {
    var argv: seq<string>, current: string, quoted, escaped := [], [], false, false;
    for i := 0 to |exec|
      invariant FeedAll(Lexer(argv, current, quoted, escaped), exec[i..]) == FeedAll(Lexer([], [], false, false), exec)
    {
      var c := exec[i];
      assert exec[i..][1..] == exec[i + 1..];
      if IsControl(c) && !IsWhitespace(c) {
        return Err(ControlCharacter);
      }
      if escaped {
        current := current + [c];
        escaped := false;
        continue;
      }
      if c == '\\' {
        escaped := true;
      } else if c == '"' {
        quoted := !quoted;
      } else if IsWhitespace(c) && !quoted {
        if current != [] {
          argv := argv + [current];
          current := [];
        }
      } else {
        current := current + [c];
      }
    }
    if escaped || quoted {
      return Err(Unterminated);
    }
    if current != [] {
      argv := argv + [current];
    }
    if argv == [] {
      return Err(EmptyExec);
    }
    return Ok(argv);
  }

  method ExpandTokenText(entry: Entry, token: string) returns (r: Result<string>)
    ensures r == ExpandToken(entry, token)
  {
    var output, i := "", 0;
    ThenNothing(ExpandToken(entry, token));
    while i < |token|
      invariant 0 <= i <= |token| && Then(Ok(output), ExpandToken(entry, token[i..])) == ExpandToken(entry, token)
    {
      var rest := token[i..];
      if token[i] != '%' {
        assert rest[1..] == token[i + 1..];
        ThenAssociates(output, Ok([token[i]]), ExpandToken(entry, token[i + 1..]));
        output := output + [token[i]];
        i := i + 1;
      } else if i + 1 == |token| {
        return Err(TrailingPercent);
      } else {
        assert rest[2..] == token[i + 2..];
        var code := ExpandCode(entry, token[i + 1]);
        ThenAssociates(output, code, ExpandToken(entry, token[i + 2..]));
        if code.Err? {
          return code;
        }
        output := output + code.value;
        i := i + 2;
      }
    }
    assert output + "" == output;
    return Ok(output);
  }

  lemma {:induction false} ThenNothing(r: Result<string>)
    ensures Then(Ok(""), r) == r
  {
    if r.Ok? {
      assert "" + r.value == r.value;
    }
  }

  lemma {:induction false} PrefixedNothing(r: Result<seq<string>>)
    ensures Prefixed([], r) == r
  {
    if r.Ok? {
      assert [] + r.value == r.value;
    }
  }

  lemma {:induction false} ThenAssociates(output: string, middle: Result<string>, back: Result<string>)
    ensures middle.Ok? ==> Then(Ok(output), Then(middle, back)) == Then(Ok(output + middle.value), back)
  {
    if middle.Ok? && back.Ok? {
      assert output + (middle.value + back.value) == output + middle.value + back.value;
    }
  }

  function Prefixed(front: seq<string>, back: Result<seq<string>>): Result<seq<string>> {
    if back.Err? then back else Ok(front + back.value)
  }

  method ExpandArgv(entry: Entry, argv: seq<string>) returns (r: Result<seq<string>>)
    ensures r == ExpandFieldCodes(entry, argv)
  {
    var expanded: seq<string> := [];
    PrefixedNothing(ExpandFieldCodes(entry, argv));
    for i := 0 to |argv|
      invariant Prefixed(expanded, ExpandFieldCodes(entry, argv[i..])) == ExpandFieldCodes(entry, argv)
    {
      var token := argv[i];
      ghost var back := ExpandFieldCodes(entry, argv[i + 1..]);
      assert argv[i..][1..] == argv[i + 1..];
      PrefixedAssociates(expanded, ExpandArgument(entry, token), back);
      if token == "%i" {
        if entry.icon.Some? {
          expanded := expanded + ["--icon", entry.icon.value];
        } else {
          assert expanded + [] == expanded;
        }
        continue;
      }
      if token == "%F" || token == "%U" {
        assert expanded + [] == expanded;
        continue;
      }
      if HasListCode(token) && |token| != 2 {
        return Err(MisplacedFieldCode);
      }
      var text := ExpandTokenText(entry, token);
      if text.Err? {
        return Err(text.error);
      }
      if text.value != "" {
        expanded := expanded + [text.value];
      } else {
        assert expanded + [] == expanded;
      }
    }
    assert expanded + [] == expanded;
    return Ok(expanded);
  }

  lemma {:induction false} PrefixedAssociates(front: seq<string>, middle: Result<seq<string>>, back: Result<seq<string>>)
    ensures middle.Ok? ==> Prefixed(front, Prefixed(middle.value, back)) == Prefixed(front + middle.value, back)
  {
    if middle.Ok? && back.Ok? {
      assert front + (middle.value + back.value) == front + middle.value + back.value;
    }
  }

  /** `LaunchPlan::for_entry` on the raw Exec value. */
  method PlanArgv(entry: Entry, value: string) returns (r: Result<seq<string>>)
    ensures r == LaunchArgv(entry, value)
  {
    var exec := UnescapeValue(value);
    var tokens := SplitExec(exec);
    if tokens.Err? {
      return tokens;
    }
    var argv := ExpandArgv(entry, tokens.value);
    if argv.Err? {
      return argv;
    }
    if argv.value == [] || argv.value[0] == [] {
      return Err(EmptyCommand);
    }
    return Ok(if entry.terminal then [TERMINAL_EXEC] + argv.value else argv.value);
  }
}
