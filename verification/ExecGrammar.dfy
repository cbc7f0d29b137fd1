/** What an Exec value says, layer by layer, as grammars that are read in both directions: every value
    of the grammar is decoded to its meaning, and everything that is decoded is a value of the grammar. */
module ExecGrammar {
  import opened Basics
  import opened DesktopExec

  /** The character classes on ASCII. */
  lemma {:induction false} AsciiClasses(c: char)
    requires c as int < 0x80
    ensures IsWhitespace(c) <==> c in " \t\n\r" || c as int == 11 || c as int == 12
    ensures Forbidden(c) <==> (c as int < 0x20 || c as int == 0x7f) && !(c in "\t\n\r" || c as int == 11 || c as int == 12)
  {
    assert c in " \t\n\r" <==> c == ' ' || c == '\t' || c == '\n' || c == '\r';
    assert c in "\t\n\r" <==> c == '\t' || c == '\n' || c == '\r';
  }

  /** And on all of Unicode: the white space, and the control characters that are none. */
  lemma {:induction false} CharacterClasses(c: char)
    ensures IsWhitespace(c) <==>
      c as int in {9, 10, 11, 12, 13, 32, 133, 160, 5760, 8192, 8193, 8194, 8195, 8196, 8197, 8198, 8199, 8200, 8201, 8202, 8232, 8233, 8239, 8287, 12288}
    ensures Forbidden(c) <==> c as int <= 8 || 14 <= c as int <= 31 || 127 <= c as int <= 132 || 134 <= c as int <= 159
  {
  }

  // ---------------------------------------------------------------- Value escapes

  /** A character as it is, an escaped space, line feed, tab, carriage return or backslash, or a
      backslash before any other character, which both stay. */
  datatype Unit = Plain(c: char) | Coded(c: char) | Kept(c: char)

  function CodeOf(c: char): Option<char> {
    if c == ' ' then Some('s') else if c == '\n' then Some('n') else if c == '\t' then Some('t')
    else if c == '\r' then Some('r') else if c == '\\' then Some('\\') else None
  }

  predicate ValidUnit(u: Unit) {
    match u
    case Plain(c) => c != '\\'
    case Coded(c) => CodeOf(c).Some?
    case Kept(c) => c !in "sntr\\"
  }

  function UnitWire(u: Unit): string {
    match u
    case Plain(c) => [c]
    case Coded(c) => ['\\', if CodeOf(c).Some? then CodeOf(c).value else c]
    case Kept(c) => ['\\', c]
  }

  function UnitText(u: Unit): string {
    if u.Kept? then ['\\', u.c] else [u.c]
  }

  function Wire(us: seq<Unit>): string {
    if us == [] then [] else UnitWire(us[0]) + Wire(us[1..])
  }

  function Text(us: seq<Unit>): string {
    if us == [] then [] else UnitText(us[0]) + Text(us[1..])
  }

  ghost predicate ValidUnits(us: seq<Unit>) {
    forall i :: 0 <= i < |us| ==> ValidUnit(us[i])
  }

  /** A value decodes to what its units say; a lone backslash at the end stays. */
  lemma {:induction false} UnescapeReads(us: seq<Unit>, lone: string)
    requires ValidUnits(us) && (lone == "" || lone == "\\")
    ensures Unescape(Wire(us) + lone) == Text(us) + lone
  {
    if us == [] {
      assert Wire(us) + lone == lone && Text(us) + lone == lone;
    } else {
      UnescapeReads(us[1..], lone);
      var rest := Wire(us[1..]) + lone;
      assert ValidUnit(us[0]);
      assert Wire(us) + lone == UnitWire(us[0]) + rest;
      UnescapeUnit(us[0], rest);
      assert UnitText(us[0]) + (Text(us[1..]) + lone) == Text(us) + lone;
    }
  }

  lemma {:induction false} UnescapeUnit(u: Unit, rest: string)
    requires ValidUnit(u)
    ensures Unescape(UnitWire(u) + rest) == UnitText(u) + Unescape(rest)
  {
    var wire := UnitWire(u) + rest;
    if u.Plain? {
      assert wire[1..] == rest;
    } else {
      assert wire[0] == '\\' && wire[2..] == rest && wire[1] == UnitWire(u)[1];
      assert u.Kept? ==> u.c != 's' && u.c != 'n' && u.c != 't' && u.c != 'r' && u.c != '\\';
    }
  }

  /** Every value is made of such units. */
  lemma {:induction false} EveryValueHasUnits(value: string) returns (us: seq<Unit>, lone: string)
    ensures ValidUnits(us) && (lone == "" || lone == "\\") && value == Wire(us) + lone
    decreases |value|
  {
    if value == "" || value == "\\" {
      us, lone := [], value;
      return;
    }
    var u := FirstUnit(value);
    var n := |UnitWire(u)|;
    us, lone := EveryValueHasUnits(value[n..]);
    Associates(UnitWire(u), Wire(us), lone);
    assert ([u] + us)[1..] == us;
    us := [u] + us;
  }

  lemma {:induction false} FirstUnit(value: string) returns (u: Unit)
    requires value != "" && value != "\\"
    ensures ValidUnit(u) && |UnitWire(u)| <= |value| && value == UnitWire(u) + value[|UnitWire(u)|..]
  {
    if value[0] != '\\' {
      u := Plain(value[0]);
    } else if value[1] in "sntr\\" {
      u := Coded(if value[1] == 's' then ' ' else if value[1] == 'n' then '\n' else if value[1] == 't' then '\t' else if value[1] == 'r' then '\r' else '\\');
    } else {
      u := Kept(value[1]);
    }
  }

  lemma {:induction false} Associates<T>(a: seq<T>, b: seq<T>, c: seq<T>)
    ensures a + b + c == a + (b + c) && a + [] == a && [] + a == a
  {
  }

  lemma {:induction false} Uncons<T>(a: seq<T>, b: seq<T>)
    requires a != []
    ensures a + b == [a[0]] + (a[1..] + b)
  {
  }

  // ---------------------------------------------------------------- Splitting

  /** Inside quotes: a character as it is, or one behind a backslash. */
  datatype Inner = Lit(c: char) | Esc(c: char)

  /** White space between words, or a piece of a word: bare, behind a backslash, or quoted. */
  datatype Piece = Gap(c: char) | Bare(c: char) | Escaped(c: char) | Quoted(body: seq<Inner>)

  predicate ValidInner(x: Inner) {
    !Forbidden(x.c) && (x.Lit? ==> x.c != '"' && x.c != '\\')
  }

  predicate ValidBody(body: seq<Inner>) {
    body == [] || (ValidInner(body[0]) && ValidBody(body[1..]))
  }

  predicate ValidPiece(p: Piece) {
    match p
    case Gap(c) => IsWhitespace(c)
    case Bare(c) => !Forbidden(c) && !IsWhitespace(c) && c != '"' && c != '\\'
    case Escaped(c) => !Forbidden(c)
    case Quoted(body) => ValidBody(body)
  }

  predicate ValidPieces(ps: seq<Piece>) {
    ps == [] || (ValidPiece(ps[0]) && ValidPieces(ps[1..]))
  }

  lemma {:induction false} ValidConcat(ps: seq<Piece>, qs: seq<Piece>)
    requires ValidPieces(ps) && ValidPieces(qs)
    ensures ValidPieces(ps + qs)
  {
    if ps == [] {
      assert ps + qs == qs;
    } else {
      ValidConcat(ps[1..], qs);
      assert (ps + qs)[1..] == ps[1..] + qs;
    }
  }

  function InnerWire(x: Inner): string {
    if x.Lit? then [x.c] else ['\\', x.c]
  }

  function BodyWire(body: seq<Inner>): string {
    if body == [] then [] else InnerWire(body[0]) + BodyWire(body[1..])
  }

  function BodyText(body: seq<Inner>): string {
    if body == [] then [] else [body[0].c] + BodyText(body[1..])
  }

  function PieceWire(p: Piece): string {
    match p
    case Gap(c) => [c]
    case Bare(c) => [c]
    case Escaped(c) => ['\\', c]
    case Quoted(body) => ['"'] + BodyWire(body) + ['"']
  }

  function PieceText(p: Piece): string {
    match p
    case Gap(_) => []
    case Bare(c) => [c]
    case Escaped(c) => [c]
    case Quoted(body) => BodyText(body)
  }

  function PiecesWire(ps: seq<Piece>): string {
    if ps == [] then [] else PieceWire(ps[0]) + PiecesWire(ps[1..])
  }

  /** The texts between the gaps, empty ones included. */
  function Fields(ps: seq<Piece>): (fields: seq<string>)
    ensures fields != []
  {
    if ps == [] then [""] else BeforeFields(ps[0], Fields(ps[1..]))
  }

  function BeforeFields(p: Piece, rest: seq<string>): (fields: seq<string>)
    requires rest != []
    ensures fields != []
  {
    if p.Gap? then [""] + rest else [PieceText(p) + rest[0]] + rest[1..]
  }

  lemma {:induction false} FieldsCons(p: Piece, ps: seq<Piece>)
    ensures Fields([p] + ps) == BeforeFields(p, Fields(ps))
  {
    assert ([p] + ps)[1..] == ps;
  }

  lemma {:induction false} FeedBody(l: Lexer, body: seq<Inner>)
    requires l.quoted && !l.escaped && ValidBody(body)
    ensures FeedAll(l, BodyWire(body)) == Ok(l.(current := l.current + BodyText(body)))
    decreases |body|
  {
    if body == [] {
      assert l.current + [] == l.current;
    } else {
      var x := body[0];
      FeedBody(l.(current := l.current + [x.c]), body[1..]);
      FeedInnerThen(l, x, BodyWire(body[1..]));
      Associates(l.current, [x.c], BodyText(body[1..]));
    }
  }

  lemma {:induction false} FeedInnerThen(l: Lexer, x: Inner, rest: string)
    requires l.quoted && !l.escaped && ValidInner(x)
    ensures FeedAll(l, InnerWire(x) + rest) == FeedAll(l.(current := l.current + [x.c]), rest)
  {
    FeedConcat(l, InnerWire(x), rest);
    FeedInner(l, x);
  }

  lemma {:induction false} FeedInner(l: Lexer, x: Inner)
    requires l.quoted && !l.escaped && ValidInner(x)
    ensures FeedAll(l, InnerWire(x)) == Ok(l.(current := l.current + [x.c]))
  {
    if x.Lit? {
      FeedOne(l, x.c);
    } else {
      assert ['\\', x.c][1..] == [x.c];
      FeedOne(l.(escaped := true), x.c);
    }
  }

  lemma {:induction false} FeedPiece(l: Lexer, p: Piece)
    requires !l.quoted && !l.escaped && ValidPiece(p)
    ensures FeedAll(l, PieceWire(p)) ==
            Ok(if !p.Gap? then l.(current := l.current + PieceText(p))
               else if l.current == [] then l else l.(argv := l.argv + [l.current], current := []))
  {
    match p
    case Gap(c) => FeedOne(l, c);
    case Bare(c) => FeedOne(l, c);
    case Escaped(c) =>
      assert ['\\', c][1..] == [c];
      FeedOne(l.(escaped := true), c);
    case Quoted(body) =>
      var open := l.(quoted := true);
      FeedConcat(l, ['"'] + BodyWire(body), ['"']);
      FeedConcat(l, ['"'], BodyWire(body));
      FeedOne(l, '"');
      FeedBody(open, body);
      FeedOne(open.(current := l.current + BodyText(body)), '"');
  }

  /** What the lexer has found so far, the word under way included. */
  function Found(l: Lexer): seq<string> {
    l.argv + NonEmpty([l.current])
  }

  lemma {:induction false} NonEmptyOne(x: string, rest: seq<string>)
    ensures NonEmpty([x]) == if x == [] then [] else [x]
    ensures NonEmpty([x] + rest) == NonEmpty([x]) + NonEmpty(rest)
  {
    assert [x][1..] == [] && ([x] + rest)[1..] == rest;
  }

  lemma {:induction false} FeedPieces(l: Lexer, ps: seq<Piece>)
    requires !l.quoted && !l.escaped && ValidPieces(ps)
    ensures FeedAll(l, PiecesWire(ps)).Ok?
    ensures var l' := FeedAll(l, PiecesWire(ps)).value;
      !l'.quoted && !l'.escaped && Found(l') == l.argv + NonEmpty([l.current + Fields(ps)[0]] + Fields(ps)[1..])
    decreases |ps|
  {
    if ps == [] {
      assert l.current + "" == l.current && [l.current] + [] == [l.current];
    } else {
      var p := ps[0];
      assert ValidPiece(p);
      FeedConcat(l, PieceWire(p), PiecesWire(ps[1..]));
      FeedPiece(l, p);
      var next := FeedAll(l, PieceWire(p)).value;
      FeedPieces(next, ps[1..]);
      FoundAtPiece(l, next, p, Fields(ps[1..]));
    }
  }

  lemma {:induction false} FoundAtPiece(l: Lexer, next: Lexer, p: Piece, rest: seq<string>)
    requires rest != []
    requires next == if !p.Gap? then l.(current := l.current + PieceText(p))
                     else if l.current == [] then l else l.(argv := l.argv + [l.current], current := [])
    ensures
      var fields := BeforeFields(p, rest);
      next.argv + NonEmpty([next.current + rest[0]] + rest[1..]) == l.argv + NonEmpty([l.current + fields[0]] + fields[1..])
  {
    if p.Gap? {
      Reassembled(next.current, rest);
      Reassembled(l.current, rest);
      FoundAtGap(l, next, rest);
    } else {
      assert l.current + PieceText(p) + rest[0] == l.current + (PieceText(p) + rest[0]);
      assert ([PieceText(p) + rest[0]] + rest[1..])[1..] == rest[1..];
    }
  }

  lemma {:induction false} FoundAtGap(l: Lexer, next: Lexer, rest: seq<string>)
    requires rest != [] && next == if l.current == [] then l else l.(argv := l.argv + [l.current], current := [])
    ensures next.argv + NonEmpty(rest) == l.argv + NonEmpty([l.current] + rest)
  {
    NonEmptyOne(l.current, rest);
    Associates(l.argv, NonEmpty([l.current]), NonEmpty(rest));
  }

  lemma {:induction false} Reassembled(current: string, rest: seq<string>)
    requires rest != []
    ensures current == "" ==> [current + rest[0]] + rest[1..] == rest
    ensures ([""] + rest)[0] == "" && ([""] + rest)[1..] == rest && current + "" == current
  {
    if current == "" {
      assert current + rest[0] == rest[0];
    }
  }

  /** Splitting gives the texts between runs of white space, quotes and backslashes removed, empty ones
      left out. */
  lemma {:induction false} SplitReads(ps: seq<Piece>)
    requires ValidPieces(ps)
    ensures Split(PiecesWire(ps)) == if NonEmpty(Fields(ps)) == [] then Err(EmptyExec) else Ok(NonEmpty(Fields(ps)))
  {
    var start := Lexer([], [], false, false);
    FeedPieces(start, ps);
    var l := FeedAll(start, PiecesWire(ps)).value;
    assert "" + Fields(ps)[0] == Fields(ps)[0] && [Fields(ps)[0]] + Fields(ps)[1..] == Fields(ps);
    assert [] + NonEmpty(Fields(ps)) == NonEmpty(Fields(ps));
    NonEmptyOne(l.current, []);
    assert Found(l) == if l.current == [] then l.argv else l.argv + [l.current];
  }

  /** A word of at least one character, and the white space that follows it. */
  datatype Spaced = Spaced(word: seq<Piece>, gap: seq<Piece>)

  predicate AllGaps(gap: seq<Piece>) {
    gap == [] || (gap[0].Gap? && AllGaps(gap[1..]))
  }

  predicate NoGaps(word: seq<Piece>) {
    word == [] || (!word[0].Gap? && NoGaps(word[1..]))
  }

  function WordText(word: seq<Piece>): string {
    if word == [] then [] else PieceText(word[0]) + WordText(word[1..])
  }

  ghost predicate ValidSpaced(ws: seq<Spaced>) {
    && (forall i :: 0 <= i < |ws| ==> ValidPieces(ws[i].word) && ValidPieces(ws[i].gap) && NoGaps(ws[i].word) && AllGaps(ws[i].gap))
    && (forall i :: 0 <= i < |ws| ==> WordText(ws[i].word) != "" && (i + 1 < |ws| ==> ws[i].gap != []))
  }

  function SpacedPieces(ws: seq<Spaced>): seq<Piece> {
    if ws == [] then [] else ws[0].word + ws[0].gap + SpacedPieces(ws[1..])
  }

  function SpacedTexts(ws: seq<Spaced>): seq<string> {
    if ws == [] then [] else [WordText(ws[0].word)] + SpacedTexts(ws[1..])
  }

  lemma {:induction false} GapsAreDropped(gap: seq<Piece>, ps: seq<Piece>)
    requires AllGaps(gap)
    ensures NonEmpty(Fields(gap + ps)) == NonEmpty(Fields(ps))
    ensures gap != [] ==> Fields(gap + ps)[0] == ""
  {
    if gap == [] {
      assert gap + ps == ps;
    } else {
      GapsAreDropped(gap[1..], ps);
      var rest := gap[1..] + ps;
      Uncons(gap, ps);
      FieldsCons(gap[0], rest);
      GapDropsNothing(gap[0], Fields(rest));
    }
  }

  lemma {:induction false} GapDropsNothing(p: Piece, rest: seq<string>)
    requires rest != [] && p.Gap?
    ensures NonEmpty(BeforeFields(p, rest)) == NonEmpty(rest) && BeforeFields(p, rest)[0] == ""
  {
    NonEmptyOne("", rest);
    Associates(NonEmpty(rest), [], []);
  }

  lemma {:induction false} WordIsOneField(word: seq<Piece>, ps: seq<Piece>)
    requires NoGaps(word)
    ensures Fields(word + ps) == [WordText(word) + Fields(ps)[0]] + Fields(ps)[1..]
  {
    if word == [] {
      assert word + ps == ps;
      Reassembled("", Fields(ps));
    } else {
      WordIsOneField(word[1..], ps);
      var rest := word[1..] + ps;
      Uncons(word, ps);
      FieldsCons(word[0], rest);
      FieldGrows(word[0], WordText(word[1..]), Fields(ps));
    }
  }

  lemma {:induction false} FieldGrows(p: Piece, text: string, fields: seq<string>)
    requires fields != [] && !p.Gap?
    ensures BeforeFields(p, [text + fields[0]] + fields[1..]) == [PieceText(p) + text + fields[0]] + fields[1..]
  {
    Associates(PieceText(p), text, fields[0]);
    assert ([text + fields[0]] + fields[1..])[1..] == fields[1..];
  }

  lemma {:induction false} SpacedFields(ws: seq<Spaced>)
    requires ValidSpaced(ws)
    ensures NonEmpty(Fields(SpacedPieces(ws))) == SpacedTexts(ws)
    ensures ValidPieces(SpacedPieces(ws))
  {
    if ws != [] {
      var w, rest := ws[0], SpacedPieces(ws[1..]);
      SpacedFields(ws[1..]);
      assert |ws| == 1 ==> rest == [];
      FieldsOfSpaced(w, rest);
      assert w.word + w.gap + rest == SpacedPieces(ws);
      ValidConcat(w.word, w.gap);
      ValidConcat(w.word + w.gap, rest);
    }
  }

  lemma {:induction false} FieldsOfSpaced(w: Spaced, rest: seq<Piece>)
    requires AllGaps(w.gap) && NoGaps(w.word) && WordText(w.word) != ""
    requires w.gap == [] ==> rest == []
    ensures NonEmpty(Fields(w.word + w.gap + rest)) == [WordText(w.word)] + NonEmpty(Fields(rest))
  {
    var fields := Fields(w.gap + rest);
    assert w.word + w.gap + rest == w.word + (w.gap + rest);
    GapsAreDropped(w.gap, rest);
    WordIsOneField(w.word, w.gap + rest);
    assert w.gap == [] ==> w.gap + rest == [];
    assert fields[0] == "" && WordText(w.word) + "" == WordText(w.word);
    NonEmptyOne(WordText(w.word), fields[1..]);
    NonEmptyOne("", fields[1..]);
    assert fields == [""] + fields[1..] && [] + NonEmpty(fields[1..]) == NonEmpty(fields[1..]);
  }

  /** Words, bare, escaped or quoted in any mixture, with any white space around and between them, split
      into exactly their texts, in order. */
  lemma {:induction false} SplitFindsTheWords(lead: seq<Piece>, ws: seq<Spaced>)
    requires ValidPieces(lead) && AllGaps(lead) && ValidSpaced(ws) && ws != []
    ensures Split(PiecesWire(lead + SpacedPieces(ws))) == Ok(SpacedTexts(ws))
  {
    SpacedFields(ws);
    GapsAreDropped(lead, SpacedPieces(ws));
    ValidConcat(lead, SpacedPieces(ws));
    SplitReads(lead + SpacedPieces(ws));
  }

  /** Neither white space nor a quote, backslash or forbidden control character. */
  predicate Ordinary(text: string) {
    forall i :: 0 <= i < |text| ==> !Forbidden(text[i]) && !IsWhitespace(text[i]) && text[i] != '"' && text[i] != '\\'
  }

  predicate Blank(text: string) {
    forall i :: 0 <= i < |text| ==> IsWhitespace(text[i])
  }

  function Bares(word: string): seq<Piece> {
    if word == [] then [] else [Bare(word[0])] + Bares(word[1..])
  }

  function Gaps(blank: string): seq<Piece> {
    if blank == [] then [] else [Gap(blank[0])] + Gaps(blank[1..])
  }

  lemma {:induction false} BareWord(word: string)
    requires Ordinary(word)
    ensures PiecesWire(Bares(word)) == word && WordText(Bares(word)) == word
    ensures ValidPieces(Bares(word)) && NoGaps(Bares(word))
  {
    if word != [] {
      assert Ordinary(word[1..]) by {
        assert forall i :: 0 <= i < |word| - 1 ==> word[1..][i] == word[i + 1];
      }
      BareWord(word[1..]);
      assert word == [word[0]] + word[1..];
    }
  }

  lemma {:induction false} BlankGaps(blank: string)
    requires Blank(blank)
    ensures PiecesWire(Gaps(blank)) == blank && ValidPieces(Gaps(blank)) && AllGaps(Gaps(blank))
    ensures Gaps(blank) == [] <==> blank == []
  {
    if blank != [] {
      assert Blank(blank[1..]) by {
        assert forall i :: 0 <= i < |blank| - 1 ==> blank[1..][i] == blank[i + 1];
      }
      BlankGaps(blank[1..]);
      assert blank == [blank[0]] + blank[1..];
    }
  }

  lemma {:induction false} WiresConcat(ps: seq<Piece>, qs: seq<Piece>)
    ensures PiecesWire(ps + qs) == PiecesWire(ps) + PiecesWire(qs)
  {
    if ps == [] {
      assert ps + qs == qs && [] + PiecesWire(qs) == PiecesWire(qs);
    } else {
      WiresConcat(ps[1..], qs);
      Uncons(ps, qs);
      assert (ps + qs)[1..] == ps[1..] + qs;
      Associates(PieceWire(ps[0]), PiecesWire(ps[1..]), PiecesWire(qs));
    }
  }

  /** The words, each followed by its white space. */
  function Line(words: seq<string>, blanks: seq<string>): string
    requires |blanks| == |words|
  {
    if words == [] then [] else words[0] + blanks[0] + Line(words[1..], blanks[1..])
  }

  function PlainSpaced(words: seq<string>, blanks: seq<string>): (ws: seq<Spaced>)
    requires |blanks| == |words|
    ensures |ws| == |words| && forall i :: 0 <= i < |ws| ==> ws[i] == Spaced(Bares(words[i]), Gaps(blanks[i]))
  {
    if words == [] then [] else [Spaced(Bares(words[0]), Gaps(blanks[0]))] + PlainSpaced(words[1..], blanks[1..])
  }

  ghost predicate PlainWords(words: seq<string>, blanks: seq<string>) {
    && |blanks| == |words|
    && (forall i :: 0 <= i < |words| ==> words[i] != [] && Ordinary(words[i]) && Blank(blanks[i]))
    && (forall i :: 0 <= i < |words| - 1 ==> blanks[i] != [])
  }

  lemma {:induction false} PlainLine(words: seq<string>, blanks: seq<string>)
    requires PlainWords(words, blanks)
    ensures PiecesWire(SpacedPieces(PlainSpaced(words, blanks))) == Line(words, blanks)
    ensures SpacedTexts(PlainSpaced(words, blanks)) == words
  {
    if words != [] {
      var ws := PlainSpaced(words, blanks);
      assert words[0] != [] && Ordinary(words[0]) && Blank(blanks[0]);
      BareWord(words[0]);
      BlankGaps(blanks[0]);
      PlainLine(words[1..], blanks[1..]);
      assert ws[1..] == PlainSpaced(words[1..], blanks[1..]);
      WiresConcat(ws[0].word, ws[0].gap);
      WiresConcat(ws[0].word + ws[0].gap, SpacedPieces(ws[1..]));
      assert [words[0]] + words[1..] == words;
    }
  }

  lemma {:induction false} PlainIsSpaced(words: seq<string>, blanks: seq<string>)
    requires PlainWords(words, blanks)
    ensures ValidSpaced(PlainSpaced(words, blanks))
  {
    forall i | 0 <= i < |words|
      ensures ValidPieces(Bares(words[i])) && NoGaps(Bares(words[i])) && WordText(Bares(words[i])) == words[i]
      ensures ValidPieces(Gaps(blanks[i])) && AllGaps(Gaps(blanks[i])) && (Gaps(blanks[i]) == [] <==> blanks[i] == [])
    {
      BareWord(words[i]);
      BlankGaps(blanks[i]);
    }
  }

  /** Ordinary words with any white space around and between them split into exactly these words, in
      order: `Exec=ls` runs `ls`. */
  lemma {:induction false} SplitPlainWords(lead: string, words: seq<string>, blanks: seq<string>)
    requires Blank(lead) && PlainWords(words, blanks) && words != []
    ensures Split(lead + Line(words, blanks)) == Ok(words)
  {
    var ws := PlainSpaced(words, blanks);
    PlainIsSpaced(words, blanks);
    PlainLine(words, blanks);
    BlankGaps(lead);
    SplitFindsTheWords(Gaps(lead), ws);
    WiresConcat(Gaps(lead), SpacedPieces(ws));
  }

  lemma {:induction false} OnlyControlsFail(l: Lexer, s: string)
    ensures FeedAll(l, s).Err? <==> !Clean(s)
    ensures FeedAll(l, s).Err? ==> FeedAll(l, s) == Err(ControlCharacter)
    decreases |s|
  {
    if s != [] {
      CleanStep(s);
      if Feed(l, s[0]).Ok? {
        OnlyControlsFail(Feed(l, s[0]).value, s[1..]);
      }
    }
  }

  ghost predicate EndsClean(l: Lexer, s: string) {
    FeedAll(l, s).Ok? && !FeedAll(l, s).value.quoted && !FeedAll(l, s).value.escaped
  }

  lemma {:induction false} FeedEscape(l: Lexer, s: string)
    requires s != [] && s[0] == '\\' && !l.escaped
    ensures FeedAll(l, s) ==
            if |s| == 1 then Ok(l.(escaped := true))
            else if Forbidden(s[1]) then Err(ControlCharacter)
            else FeedAll(l.(current := l.current + [s[1]]), s[2..])
  {
    if |s| > 1 {
      assert s[1..][0] == s[1] && s[1..][1..] == s[2..];
    }
  }

  lemma {:induction false} ReadBody(l: Lexer, s: string) returns (body: seq<Inner>, rest: string, l': Lexer)
    requires l.quoted && !l.escaped && EndsClean(l, s)
    ensures ValidBody(body) && s == BodyWire(body) + ['"'] + rest && |rest| < |s|
    ensures !l'.quoted && !l'.escaped && EndsClean(l', rest)
    decreases |s|
  {
    if s[0] == '"' {
      body, rest, l' := [], s[1..], l.(quoted := false);
      assert s == [] + ['"'] + rest;
    } else {
      if s[0] == '\\' {
        FeedEscape(l, s);
      }
      var x := if s[0] == '\\' then Esc(s[1]) else Lit(s[0]);
      var n := |InnerWire(x)|;
      var next := l.(current := l.current + [x.c]);
      assert s == s[..n] + s[n..] && s[..n] == InnerWire(x);
      assert ValidInner(x) && FeedAll(l, s) == FeedAll(next, s[n..]);
      body, rest, l' := ReadBody(next, s[n..]);
      assert InnerWire(x) + (BodyWire(body) + ['"'] + rest) == (InnerWire(x) + BodyWire(body)) + ['"'] + rest;
      assert ([x] + body)[1..] == body;
      body := [x] + body;
    }
  }

  lemma {:induction false} ReadQuoted(l: Lexer, s: string) returns (p: Piece, rest: string, l': Lexer)
    requires !l.quoted && !l.escaped && EndsClean(l, s) && s != [] && s[0] == '"'
    ensures ValidPiece(p) && s == PieceWire(p) + rest && |rest| < |s|
    ensures !l'.quoted && !l'.escaped && EndsClean(l', rest)
  {
    var body;
    body, rest, l' := ReadBody(l.(quoted := true), s[1..]);
    p := Quoted(body);
    assert s == ['"'] + s[1..];
    assert ['"'] + (BodyWire(body) + ['"'] + rest) == (['"'] + BodyWire(body) + ['"']) + rest;
  }

  lemma {:induction false} ReadUnquoted(l: Lexer, s: string) returns (p: Piece, rest: string, l': Lexer)
    requires !l.quoted && !l.escaped && EndsClean(l, s) && s != [] && s[0] != '"'
    ensures ValidPiece(p) && s == PieceWire(p) + rest && |rest| < |s|
    ensures !l'.quoted && !l'.escaped && EndsClean(l', rest)
  {
    if s[0] == '\\' {
      FeedEscape(l, s);
      p, rest, l' := Escaped(s[1]), s[2..], l.(current := l.current + [s[1]]);
    } else {
      p, rest, l' := if IsWhitespace(s[0]) then Gap(s[0]) else Bare(s[0]), s[1..], Feed(l, s[0]).value;
    }
  }

  lemma {:induction false} ReadPieces(l: Lexer, s: string) returns (ps: seq<Piece>)
    requires !l.quoted && !l.escaped && EndsClean(l, s)
    ensures ValidPieces(ps) && s == PiecesWire(ps)
    decreases |s|
  {
    if s == [] {
      return [];
    }
    var p, rest, l';
    if s[0] == '"' {
      p, rest, l' := ReadQuoted(l, s);
    } else {
      p, rest, l' := ReadUnquoted(l, s);
    }
    ps := ReadPieces(l', rest);
    ps := ConsPiece(p, ps, s, rest);
  }

  lemma {:induction false} ConsPiece(p: Piece, ps: seq<Piece>, s: string, rest: string) returns (all: seq<Piece>)
    requires ValidPiece(p) && ValidPieces(ps) && rest == PiecesWire(ps) && s == PieceWire(p) + rest
    ensures all == [p] + ps && ValidPieces(all) && s == PiecesWire(all)
  {
    all := [p] + ps;
    assert all[1..] == ps;
  }

  /** Every Exec text: refused for a control character exactly if it holds one that is no white space;
      otherwise unterminated exactly if it is not made of pieces; otherwise split as its pieces say. */
  lemma {:induction false} SplitExactly(s: string)
    ensures Split(s) == Err(ControlCharacter) <==> !Clean(s)
    ensures Clean(s) ==> (Split(s) == Err(Unterminated) <==> !exists ps :: ValidPieces(ps) && s == PiecesWire(ps))
  {
    var start := Lexer([], [], false, false);
    OnlyControlsFail(start, s);
    if Clean(s) && Split(s) != Err(Unterminated) {
      var ps := ReadPieces(start, s);
    }
    if ps :| ValidPieces(ps) && s == PiecesWire(ps) {
      SplitReads(ps);
    }
  }

  // ---------------------------------------------------------------- Field codes

  /** A character, a literal percent sign, the entry's name, the entry's file, or a code that is dropped. */
  datatype Part = Char(c: char) | Percent | Name | Location | Dropped(code: char)

  predicate ValidPart(p: Part) {
    (p.Char? ==> p.c != '%') && (p.Dropped? ==> p.code in "fudDnNvm")
  }

  function PartWire(p: Part): string {
    match p
    case Char(c) => [c]
    case Percent => "%%"
    case Name => "%c"
    case Location => "%k"
    case Dropped(code) => ['%', code]
  }

  function PartText(entry: Entry, p: Part): string {
    match p
    case Char(c) => [c]
    case Percent => "%"
    case Name => entry.name
    case Location => if entry.desktopFile.Some? then entry.desktopFile.value else ""
    case Dropped(_) => ""
  }

  function PartsWire(ps: seq<Part>): string {
    if ps == [] then [] else PartWire(ps[0]) + PartsWire(ps[1..])
  }

  function PartsText(entry: Entry, ps: seq<Part>): string {
    if ps == [] then [] else PartText(entry, ps[0]) + PartsText(entry, ps[1..])
  }

  ghost predicate ValidParts(ps: seq<Part>) {
    forall i :: 0 <= i < |ps| ==> ValidPart(ps[i])
  }

  lemma {:induction false} TokenReads(entry: Entry, ps: seq<Part>)
    requires ValidParts(ps)
    ensures ExpandToken(entry, PartsWire(ps)) == Ok(PartsText(entry, ps))
  {
    if ps != [] {
      TokenReads(entry, ps[1..]);
      assert ValidPart(ps[0]);
      TokenStep(entry, ps[0], PartsWire(ps[1..]));
    }
  }

  lemma {:induction false} TokenStep(entry: Entry, p: Part, rest: string)
    requires ValidPart(p)
    ensures ExpandToken(entry, PartWire(p) + rest) == Then(Ok(PartText(entry, p)), ExpandToken(entry, rest))
  {
    var wire := PartWire(p) + rest;
    if p.Char? {
      assert wire[1..] == rest;
    } else {
      assert wire[0] == '%' && wire[1] == PartWire(p)[1] && wire[2..] == rest;
      if p.Dropped? {
        DroppedCode(p.code);
      }
    }
  }

  lemma {:induction false} DroppedCode(code: char)
    ensures code in "fudDnNvm" <==> code in ['f', 'u', 'd', 'D', 'n', 'N', 'v', 'm']
  {
    assert "fudDnNvm" == ['f', 'u', 'd', 'D', 'n', 'N', 'v', 'm'];
  }

  /** A token expands exactly if it is made of such parts; otherwise a percent sign ends it or an unknown
      code follows one. */
  lemma {:induction false} TokenExactly(entry: Entry, token: string)
    ensures ExpandToken(entry, token).Ok? <==> exists ps :: ValidParts(ps) && token == PartsWire(ps)
    ensures ExpandToken(entry, token).Err? ==> ExpandToken(entry, token).error == TrailingPercent || ExpandToken(entry, token).error.UnknownFieldCode?
  {
    if ExpandToken(entry, token).Ok? {
      var ps := ReadParts(entry, token);
    }
    if ps :| ValidParts(ps) && token == PartsWire(ps) {
      TokenReads(entry, ps);
    }
    TokenErrors(entry, token);
  }

  lemma {:induction false} TokenErrors(entry: Entry, token: string)
    ensures ExpandToken(entry, token).Err? ==> ExpandToken(entry, token).error == TrailingPercent || ExpandToken(entry, token).error.UnknownFieldCode?
    decreases |token|
  {
    if token != [] && token[0] != '%' {
      TokenErrors(entry, token[1..]);
    } else if |token| > 1 {
      TokenErrors(entry, token[2..]);
    }
  }

  lemma {:induction false} ReadParts(entry: Entry, token: string) returns (ps: seq<Part>)
    requires ExpandToken(entry, token).Ok?
    ensures ValidParts(ps) && token == PartsWire(ps)
    decreases |token|
  {
    if token == [] {
      return [];
    }
    var p := if token[0] != '%' then Char(token[0]) else if token[1] == '%' then Percent
             else if token[1] == 'c' then Name else if token[1] == 'k' then Location else Dropped(token[1]);
    if p.Dropped? {
      DroppedCode(token[1]);
    }
    var n := |PartWire(p)|;
    ps := ReadParts(entry, token[n..]);
    assert token == PartWire(p) + token[n..];
    assert ([p] + ps)[1..] == ps;
    ps := [p] + ps;
  }

  /** An argument is text, the icon code, or a code for the files that are never passed. */
  datatype Arg = Words(parts: seq<Part>) | Icon | Files | Urls

  ghost predicate HasText(s: string, a: char, b: char) {
    exists i :: 0 <= i < |s| - 1 && s[i] == a && s[i + 1] == b
  }

  lemma {:induction false} PairMeans(s: string, c: char)
    ensures HasPair(s, c) <==> HasText(s, '%', c)
  {
    if |s| >= 2 {
      PairMeans(s[1..], c);
      if i :| 0 <= i < |s[1..]| - 1 && s[1..][i] == '%' && s[1..][i + 1] == c {
        assert s[i + 1] == '%' && s[i + 1 + 1] == c;
      }
      if i :| 0 <= i < |s| - 1 && s[i] == '%' && s[i + 1] == c {
        assert i > 0 ==> s[1..][i - 1] == '%' && s[1..][i - 1 + 1] == c;
      }
    }
  }

  /** The list and icon codes occur nowhere in it. */
  ghost predicate NoListCode(wire: string) {
    !HasText(wire, '%', 'F') && !HasText(wire, '%', 'U') && !HasText(wire, '%', 'i')
  }

  ghost predicate ValidArg(a: Arg) {
    a.Words? ==> ValidParts(a.parts) && NoListCode(PartsWire(a.parts))
  }

  function ArgWire(a: Arg): string {
    match a
    case Words(parts) => PartsWire(parts)
    case Icon => "%i"
    case Files => "%F"
    case Urls => "%U"
  }

  /** What it passes to the program: its text unless empty, `--icon` and the icon if there is one. */
  function ArgMeaning(entry: Entry, a: Arg): seq<string> {
    match a
    case Words(parts) => if PartsText(entry, parts) == "" then [] else [PartsText(entry, parts)]
    case Icon => if entry.icon.Some? then ["--icon"] + [entry.icon.value] else []
    case _ => []
  }

  lemma {:induction false} ArgumentReads(entry: Entry, a: Arg)
    requires ValidArg(a)
    ensures ExpandArgument(entry, ArgWire(a)) == Ok(ArgMeaning(entry, a))
  {
    if a.Words? {
      var wire := PartsWire(a.parts);
      PairMeans(wire, 'F');
      PairMeans(wire, 'U');
      PairMeans(wire, 'i');
      TokenReads(entry, a.parts);
      assert HasText("%i", '%', 'i') && HasText("%F", '%', 'F') && HasText("%U", '%', 'U') by {
        assert "%i"[0] == '%' && "%i"[0 + 1] == 'i' && "%F"[0] == '%' && "%F"[0 + 1] == 'F' && "%U"[0] == '%' && "%U"[0 + 1] == 'U';
      }
    } else if a.Icon? && entry.icon.Some? {
      assert ["--icon"] + [entry.icon.value] == ["--icon", entry.icon.value];
    }
  }

  /** A list or icon code inside a longer argument refuses the whole value. */
  lemma {:induction false} ListCodeMustStandAlone(entry: Entry, token: string)
    requires !NoListCode(token) && token != "%i" && token != "%F" && token != "%U"
    ensures ExpandArgument(entry, token) == Err(MisplacedFieldCode)
  {
    PairMeans(token, 'F');
    PairMeans(token, 'U');
    PairMeans(token, 'i');
    TwoCharacters(token);
  }

  lemma {:induction false} TwoCharacters(token: string)
    ensures |token| == 2 ==> token == [token[0], token[1]]
  {
  }

  function Wires(args: seq<Arg>): seq<string> {
    if args == [] then [] else [ArgWire(args[0])] + Wires(args[1..])
  }

  function Meanings(entry: Entry, args: seq<Arg>): seq<string> {
    if args == [] then [] else ArgMeaning(entry, args[0]) + Meanings(entry, args[1..])
  }

  lemma {:induction false} ArgumentsRead(entry: Entry, args: seq<Arg>)
    requires forall i :: 0 <= i < |args| ==> ValidArg(args[i])
    ensures ExpandFieldCodes(entry, Wires(args)) == Ok(Meanings(entry, args))
    ensures Meanings(entry, args) != [] ==> Meanings(entry, args)[0] != ""
  {
    if args != [] {
      ArgumentsRead(entry, args[1..]);
      ArgumentReads(entry, args[0]);
      assert Wires(args)[1..] == Wires(args[1..]);
    }
  }

  /** The whole value: escapes, words and field codes, with the terminal launcher in front for a terminal
      entry. */
  lemma {:induction false} LaunchReads(entry: Entry, us: seq<Unit>, lone: string, ps: seq<Piece>, args: seq<Arg>)
    requires ValidUnits(us) && (lone == "" || lone == "\\") && Text(us) + lone == PiecesWire(ps) && ValidPieces(ps)
    requires NonEmpty(Fields(ps)) == Wires(args) && forall i :: 0 <= i < |args| ==> ValidArg(args[i])
    ensures LaunchArgv(entry, Wire(us) + lone) ==
            if args == [] then Err(EmptyExec)
            else if Meanings(entry, args) == [] then Err(EmptyCommand)
            else Ok((if entry.terminal then ["xdg-terminal-exec"] else []) + Meanings(entry, args))
  {
    UnescapeReads(us, lone);
    SplitReads(ps);
    ArgumentsRead(entry, args);
    assert [] + Meanings(entry, args) == Meanings(entry, args);
  }
}
