/** Splitting `$VISUAL` and `$EDITOR` into a program and its flags. */
module EditorCommand {
  import opened Prelude
  import opened Text

  datatype Quote = Bare | Single | Double

  /** What is still to come of the tokens, from the middle of one. */
  function Tokens(s: string, current: string, quote: Quote, started: bool): seq<string>
    decreases |s|
  {
    if s == "" then
      if started then [current] else []
    else
      var c, rest := s[0], s[1..];
      match quote
      case Single =>
        if c == '\'' then Tokens(rest, current, Bare, started) else Tokens(rest, current + [c], Single, started)
      case Double =>
        if c == '"' then Tokens(rest, current, Bare, started)
        else if c == '\\' && rest != "" && rest[0] in {'"', '\\'} then
          Tokens(rest[1..], current + [rest[0]], Double, started)
        else Tokens(rest, current + [c], Double, started)
      case Bare =>
        if IsWhitespace(c) then
          (if started then [current] + Tokens(rest, "", Bare, false) else Tokens(rest, current, Bare, false))
        else if c == '\'' then Tokens(rest, current, Single, true)
        else if c == '"' then Tokens(rest, current, Double, true)
        else Tokens(rest, current + [c], Bare, true)
  }

  function SplitOf(value: string): seq<string> { Tokens(value, "", Bare, false) }

  /** `split_editor_command_line`. */
  method SplitEditorCommandLine(value: string) returns (args: seq<string>)
    ensures args == SplitOf(value)
  {
    args := [];
    var current, quote, tokenStarted := "", Bare, false;
    var i := 0;
    while i < |value|
      invariant i <= |value|
      invariant args + Tokens(value[i..], current, quote, tokenStarted) == SplitOf(value)
    {
      var ch := value[i];
      ghost var rest := value[i + 1..];
      assert value[i..][1..] == rest;
      i := i + 1;
      match quote {
        case Single =>
          if ch == '\'' {
            quote := Bare;
          } else {
            current := current + [ch];
          }
        case Double =>
          if ch == '"' {
            quote := Bare;
          } else if ch == '\\' && i < |value| && value[i] in {'"', '\\'} {
            assert rest[1..] == value[i + 1..];
            current := current + [value[i]];
            i := i + 1;
          } else {
            current := current + [ch];
          }
        case Bare =>
          if IsWhitespace(ch) {
            if tokenStarted {
              args := args + [current];
              current, tokenStarted := "", false;
            }
          } else if ch == '\'' || ch == '"' {
            quote := if ch == '"' then Double else Single;
            tokenStarted := true;
          } else {
            current := current + [ch];
            tokenStarted := true;
          }
      }
    }
    if tokenStarted {
      args := args + [current];
    }
  }

  // ---- writing arguments down ----

  /** A stretch of an argument, written one way. */
  datatype Piece =
    | Plain(text: string)
    | SingleQuoted(text: string)
    | DoubleQuoted(text: string)
    | SparselyEscaped(text: string)

  predicate IsPlain(c: char) { !IsWhitespace(c) && c != '\'' && c != '"' }

  /** Plain text has no blanks and no quotes, single quotes hold anything but
      themselves, double quotes hold anything, with every backslash escaped or
      only those that must be. */
  predicate Writable(p: Piece) {
    match p
    case Plain(text) => text != "" && forall i | 0 <= i < |text| :: IsPlain(text[i])
    case SingleQuoted(text) => forall i | 0 <= i < |text| :: text[i] != '\''
    case DoubleQuoted(_) => true
    case SparselyEscaped(_) => true
  }

  function Escaped(text: string): string {
    if text == "" then "" else (if text[0] in {'"', '\\'} then ['\\', text[0]] else [text[0]]) + Escaped(text[1..])
  }

  /** Inside double quotes a backslash needs escaping only before a quote, before
      another backslash and at the end. */
  function Sparse(text: string): string {
    if text == "" then ""
    else if text[0] == '"' || (text[0] == '\\' && (|text| == 1 || text[1] in {'"', '\\'})) then
      ['\\', text[0]] + Sparse(text[1..])
    else [text[0]] + Sparse(text[1..])
  }

  function PieceText(p: Piece): string {
    match p
    case Plain(text) => text
    case SingleQuoted(text) => ['\''] + text + ['\'']
    case DoubleQuoted(text) => ['"'] + Escaped(text) + ['"']
    case SparselyEscaped(text) => ['"'] + Sparse(text) + ['"']
  }

  function WordText(word: seq<Piece>): string { if word == [] then "" else PieceText(word[0]) + WordText(word[1..]) }

  function WordValue(word: seq<Piece>): string { if word == [] then "" else word[0].text + WordValue(word[1..]) }

  /** A word and the blanks before it. */
  datatype Spaced = Spaced(gap: string, word: seq<Piece>)

  predicate WritableWord(word: seq<Piece>) { word != [] && forall i | 0 <= i < |word| :: Writable(word[i]) }

  predicate WritableLine(line: seq<Spaced>) {
    forall i | 0 <= i < |line| ::
      WritableWord(line[i].word) && IsBlank(line[i].gap) && (i > 0 ==> line[i].gap != "")
  }

  function LineText(line: seq<Spaced>, ending: string): string {
    if line == [] then ending else line[0].gap + WordText(line[0].word) + LineText(line[1..], ending)
  }

  function LineValues(line: seq<Spaced>): seq<string> {
    if line == [] then [] else [WordValue(line[0].word)] + LineValues(line[1..])
  }

  // ---- reading them back ----

  lemma {:induction false} SkipBlanks(gap: string, tail: string)
    requires IsBlank(gap)
    ensures Tokens(gap + tail, "", Bare, false) == Tokens(tail, "", Bare, false)
  {
    if gap == "" {
      assert gap + tail == tail;
    } else {
      assert gap[0] in gap && (gap + tail)[0] == gap[0] && (gap + tail)[1..] == gap[1..] + tail;
      SkipBlanks(gap[1..], tail);
    }
  }

  lemma {:induction false} ReadPlain(text: string, tail: string, current: string, started: bool)
    requires text != "" && forall i | 0 <= i < |text| :: IsPlain(text[i])
    ensures Tokens(text + tail, current, Bare, started) == Tokens(tail, current + text, Bare, true)
    decreases |text|
  {
    assert (text + tail)[0] == text[0] && (text + tail)[1..] == text[1..] + tail;
    if |text| == 1 {
      assert text[1..] + tail == tail && current + [text[0]] == current + text;
    } else {
      ReadPlain(text[1..], tail, current + [text[0]], true);
      assert current + [text[0]] + text[1..] == current + text;
    }
  }

  lemma {:induction false} ReadSingle(text: string, tail: string, current: string)
    requires forall i | 0 <= i < |text| :: text[i] != '\''
    ensures Tokens(text + ['\''] + tail, current, Single, true) == Tokens(tail, current + text, Bare, true)
    decreases |text|
  {
    var s := text + ['\''] + tail;
    if text == "" {
      assert s[0] == '\'' && s[1..] == tail && current + text == current;
    } else {
      assert s[0] == text[0] && s[1..] == text[1..] + ['\''] + tail;
      ReadSingle(text[1..], tail, current + [text[0]]);
      assert current + [text[0]] + text[1..] == current + text;
    }
  }

  lemma EscapedChar(c: char, next: string, current: string)
    requires c in {'"', '\\'}
    ensures Tokens(['\\', c] + next, current, Double, true) == Tokens(next, current + [c], Double, true)
  {
    var s := ['\\', c] + next;
    assert s[1..] == [c] + next && s[1..][1..] == next;
  }

  lemma BareChar(c: char, next: string, current: string)
    requires c != '"' && (c == '\\' ==> next == "" || next[0] !in {'"', '\\'})
    ensures Tokens([c] + next, current, Double, true) == Tokens(next, current + [c], Double, true)
  {
    assert ([c] + next)[1..] == next;
  }

  lemma {:induction false} ReadDouble(text: string, tail: string, current: string)
    ensures Tokens(Escaped(text) + ['"'] + tail, current, Double, true) == Tokens(tail, current + text, Bare, true)
    decreases |text|
  {
    var s := Escaped(text) + ['"'] + tail;
    if text == "" {
      assert s[0] == '"' && s[1..] == tail && current + text == current;
    } else {
      var c, next := text[0], Escaped(text[1..]) + ['"'] + tail;
      ReadDouble(text[1..], tail, current + [c]);
      assert current + [c] + text[1..] == current + text;
      if c in {'"', '\\'} {
        assert s == ['\\', c] + next;
        EscapedChar(c, next, current);
      } else {
        assert s == [c] + next;
        BareChar(c, next, current);
      }
    }
  }

  lemma {:induction false} ReadSparse(text: string, tail: string, current: string)
    ensures Tokens(Sparse(text) + ['"'] + tail, current, Double, true) == Tokens(tail, current + text, Bare, true)
    decreases |text|
  {
    var s := Sparse(text) + ['"'] + tail;
    if text == "" {
      assert s[0] == '"' && s[1..] == tail && current + text == current;
    } else {
      var c, next := text[0], Sparse(text[1..]) + ['"'] + tail;
      ReadSparse(text[1..], tail, current + [c]);
      assert current + [c] + text[1..] == current + text;
      if c == '"' || (c == '\\' && (|text| == 1 || text[1] in {'"', '\\'})) {
        assert s == ['\\', c] + next;
        EscapedChar(c, next, current);
      } else {
        assert s == [c] + next && (c == '\\' ==> next[0] == text[1]);
        BareChar(c, next, current);
      }
    }
  }

  lemma ReadPiece(p: Piece, tail: string, current: string, started: bool)
    requires Writable(p)
    ensures Tokens(PieceText(p) + tail, current, Bare, started) == Tokens(tail, current + p.text, Bare, true)
  {
    match p {
      case Plain(text) =>
        ReadPlain(text, tail, current, started);
      case SingleQuoted(text) =>
        ReadSingle(text, tail, current);
        ReadQuoted('\'', text, tail, current, started);
      case DoubleQuoted(text) =>
        ReadDouble(text, tail, current);
        ReadQuoted('"', Escaped(text), tail, current, started);
      case SparselyEscaped(text) =>
        ReadSparse(text, tail, current);
        ReadQuoted('"', Sparse(text), tail, current, started);
    }
  }

  lemma ReadQuoted(c: char, inner: string, tail: string, current: string, started: bool)
    requires c == '\'' || c == '"'
    ensures Tokens([c] + inner + [c] + tail, current, Bare, started)
         == Tokens(inner + [c] + tail, current, if c == '"' then Double else Single, true)
  {
    OpenQuote(c, inner + [c] + tail, current, started);
    assert [c] + inner + [c] + tail == [c] + (inner + [c] + tail);
  }

  lemma OpenQuote(c: char, rest: string, current: string, started: bool)
    requires c == '\'' || c == '"'
    ensures Tokens([c] + rest, current, Bare, started) == Tokens(rest, current, if c == '"' then Double else Single, true)
  {
    assert ([c] + rest)[1..] == rest;
  }

  lemma {:induction false} ReadWord(word: seq<Piece>, tail: string, current: string, started: bool)
    requires WritableWord(word)
    ensures Tokens(WordText(word) + tail, current, Bare, started) == Tokens(tail, current + WordValue(word), Bare, true)
    decreases |word|
  {
    var first, rest := word[0], word[1..];
    var later, value := WordText(rest), WordValue(rest);
    ReadPiece(first, later + tail, current, started);
    Regroup(PieceText(first), later, tail);
    Regroup(current, first.text, value);
    if rest == [] {
      assert later + tail == tail && first.text + value == first.text;
    } else {
      ReadWord(rest, tail, current + first.text, true);
    }
  }

  /** What follows the arguments after a blank is split on its own. */
  lemma {:induction false} SplitContinues(line: seq<Spaced>, ending: string)
    requires WritableLine(line) && (line != [] && ending != "" ==> IsWhitespace(ending[0]))
    ensures SplitOf(LineText(line, ending)) == LineValues(line) + SplitOf(ending)
    decreases |line|
  {
    if line != [] {
      var first, rest := line[0], line[1..];
      var tail := LineText(rest, ending);
      assert LineText(line, ending) == first.gap + (WordText(first.word) + tail);
      SkipBlanks(first.gap, WordText(first.word) + tail);
      ReadWord(first.word, tail, "", false);
      assert "" + WordValue(first.word) == WordValue(first.word);
      assert forall i | 0 <= i < |rest| :: rest[i] == line[i + 1];
      SplitContinues(rest, ending);
      TokenEnds(tail, WordValue(first.word), rest, ending);
      Regroup([WordValue(first.word)], LineValues(rest), SplitOf(ending));
    }
  }

  /** After a word comes nothing, or a blank that ends it. */
  lemma TokenEnds(tail: string, word: string, rest: seq<Spaced>, ending: string)
    requires WritableLine(rest) && (rest != [] ==> rest[0].gap != "")
    requires ending != "" ==> IsWhitespace(ending[0])
    requires tail == LineText(rest, ending)
    ensures Tokens(tail, word, Bare, true) == [word] + SplitOf(tail)
  {
    if tail != "" {
      assert IsWhitespace(tail[0]) by {
        if rest != [] {
          assert tail[0] == rest[0].gap[0] && rest[0].gap[0] in rest[0].gap;
        }
      }
    }
  }

  /** However each argument is quoted, and in however many pieces, splitting the
      line gives back the arguments. */
  lemma SplitInvertsQuoting(line: seq<Spaced>, ending: string)
    requires WritableLine(line) && IsBlank(ending)
    ensures SplitOf(LineText(line, ending)) == LineValues(line)
  {
    assert ending != "" ==> ending[0] in ending;
    SplitContinues(line, ending);
    SkipBlanks(ending, "");
    assert ending + "" == ending && LineValues(line) + [] == LineValues(line);
  }

  lemma {:induction false} OpenSingle(text: string, current: string)
    requires forall i | 0 <= i < |text| :: text[i] != '\''
    ensures Tokens(text, current, Single, true) == [current + text]
    decreases |text|
  {
    if text == "" {
      assert current + text == current;
    } else {
      OpenSingle(text[1..], current + [text[0]]);
      assert current + [text[0]] + text[1..] == current + text;
    }
  }

  lemma {:induction false} OpenDouble(text: string, current: string)
    ensures Tokens(Escaped(text), current, Double, true) == [current + text]
    decreases |text|
  {
    if text == "" {
      assert current + text == current;
    } else {
      var c, next := text[0], Escaped(text[1..]);
      OpenDouble(text[1..], current + [c]);
      assert current + [c] + text[1..] == current + text;
      if c in {'"', '\\'} {
        EscapedChar(c, next, current);
      } else {
        BareChar(c, next, current);
      }
    }
  }

  /** A quote that never closes holds everything to the end. */
  lemma UnclosedQuote(line: seq<Spaced>, gap: string, text: string)
    requires WritableLine(line) && gap != "" && IsBlank(gap)
    ensures SplitOf(LineText(line, gap + (['"'] + Escaped(text)))) == LineValues(line) + [text]
    ensures (forall i | 0 <= i < |text| :: text[i] != '\'') ==>
              SplitOf(LineText(line, gap + (['\''] + text))) == LineValues(line) + [text]
  {
    assert gap[0] in gap && "" + text == text;
    SplitContinues(line, gap + (['"'] + Escaped(text)));
    SkipBlanks(gap, ['"'] + Escaped(text));
    OpenQuote('"', Escaped(text), "", false);
    OpenDouble(text, "");
    if forall i | 0 <= i < |text| :: text[i] != '\'' {
      SplitContinues(line, gap + (['\''] + text));
      SkipBlanks(gap, ['\''] + text);
      OpenQuote('\'', text, "", false);
      OpenSingle(text, "");
    }
  }

  function DoubleQuotedLine(args: seq<string>): seq<Spaced> {
    if args == [] then [] else [Spaced(" ", [DoubleQuoted(args[0])])] + DoubleQuotedLine(args[1..])
  }

  lemma {:induction false} DoubleQuotedIsWritable(args: seq<string>)
    ensures WritableLine(DoubleQuotedLine(args)) && LineValues(DoubleQuotedLine(args)) == args
    ensures forall i | 0 <= i < |DoubleQuotedLine(args)| :: DoubleQuotedLine(args)[i].gap == " "
  {
    if args != [] {
      DoubleQuotedIsWritable(args[1..]);
      var word := [DoubleQuoted(args[0])];
      assert word[1..] == [] && WordValue(word) == args[0] + "" == args[0];
    }
  }

  /** Every list of strings whatsoever is the split of some line. */
  lemma EveryListIsASplit(args: seq<string>)
    ensures SplitOf(LineText(DoubleQuotedLine(args), "")) == args
  {
    DoubleQuotedIsWritable(args);
    SplitInvertsQuoting(DoubleQuotedLine(args), "");
  }

  // ---- text without quotes ----

  /** The length of the run of non-blanks at the front. */
  function Run(s: string): (n: nat)
    ensures n <= |s|
    ensures forall i | 0 <= i < n :: !IsWhitespace(s[i])
    ensures n < |s| ==> IsWhitespace(s[n])
  {
    if s == "" || IsWhitespace(s[0]) then 0 else 1 + Run(s[1..])
  }

  /** `str::split_whitespace`: the runs of non-blanks. */
  function Words(s: string): seq<string>
    decreases |s|
  {
    if s == "" then []
    else if IsWhitespace(s[0]) then Words(s[1..])
    else [s[..Run(s)]] + Words(s[Run(s)..])
  }

  predicate QuoteFree(s: string) { forall i | 0 <= i < |s| :: s[i] != '\'' && s[i] != '"' }

  /** Without quotes, splitting is splitting at blanks; a backslash is a
      character like any other. */
  lemma {:induction false} QuoteFreeSplit(s: string)
    requires QuoteFree(s)
    ensures SplitOf(s) == Words(s)
    decreases |s|
  {
    if s == "" {
    } else if IsWhitespace(s[0]) {
      QuoteFreeSplit(s[1..]);
    } else {
      var n := Run(s);
      var word, tail := s[..n], s[n..];
      ReadPlain(word, tail, "", false);
      assert word + tail == s && "" + word == word;
      QuoteFreeSplit(tail);
    }
  }

  // ---- the program and its flags ----

  /** `parse_env_editor`. */
  function ParseEnvEditor(value: string): Option<(string, seq<string>)> {
    var parts := SplitOf(value);
    if parts == [] || parts[0] == "" then None else Some((parts[0], parts[1..]))
  }

  /** What a started argument holds, it keeps. */
  lemma {:induction false} TokenOnlyGrows(s: string, current: string, quote: Quote)
    ensures Tokens(s, current, quote, true) != [] && current <= Tokens(s, current, quote, true)[0]
    decreases |s|
  {
    if s != "" {
      var c, rest := s[0], s[1..];
      if quote == Double && c == '\\' && rest != "" && rest[0] in {'"', '\\'} {
        TokenOnlyGrows(rest[1..], current + [rest[0]], Double);
      } else {
        TokenOnlyGrows(rest, current, Bare);
        TokenOnlyGrows(rest, current, Single);
        TokenOnlyGrows(rest, current, Double);
        TokenOnlyGrows(rest, current + [c], quote);
      }
    }
  }

  lemma {:induction false} BlankHasNoTokens(value: string)
    ensures SplitOf(value) == [] <==> IsBlank(value)
  {
    if value != "" {
      var c, rest := value[0], value[1..];
      assert value == [c] + rest;
      if IsWhitespace(c) {
        BlankHasNoTokens(rest);
      } else {
        assert c in value;
        TokenOnlyGrows(rest, "", Single);
        TokenOnlyGrows(rest, "", Double);
        TokenOnlyGrows(rest, [c], Bare);
        assert "" + [c] == [c];
      }
    }
  }

  /** The text opens with an argument that is empty: a quote that closes at once,
      any number of times over, and then the end, a blank, or one quote more
      with nothing after it. */
  predicate OpensEmpty(s: string) {
    && s != "" && (s[0] == '\'' || s[0] == '"')
    && (|s| == 1 || (s[1] == s[0] && (|s| == 2 || IsWhitespace(s[2]) || OpensEmpty(s[2..]))))
  }

  predicate FirstIsEmpty(tokens: seq<string>) { tokens != [] && tokens[0] == "" }

  /** Inside a quote that has just opened, with the argument still empty. */
  lemma QuotedStaysEmpty(s: string, q: char)
    requires q == '\'' || q == '"'
    ensures FirstIsEmpty(Tokens(s, "", if q == '"' then Double else Single, true))
       <==> s == "" || (s[0] == q && FirstIsEmpty(Tokens(s[1..], "", Bare, true)))
  {
    if s != "" && s[0] != q {
      var c, rest := s[0], s[1..];
      assert "" + [c] == [c];
      TokenOnlyGrows(rest, [c], if q == '"' then Double else Single);
      if rest != "" {
        assert "" + [rest[0]] == [rest[0]];
        TokenOnlyGrows(rest[1..], [rest[0]], Double);
      }
    }
  }

  lemma {:induction false} BareStaysEmpty(s: string)
    ensures FirstIsEmpty(Tokens(s, "", Bare, true)) <==> s == "" || IsWhitespace(s[0]) || OpensEmpty(s)
    decreases |s|
  {
    if s != "" && !IsWhitespace(s[0]) {
      var c, rest := s[0], s[1..];
      if c == '\'' || c == '"' {
        QuotedStaysEmpty(rest, c);
        if rest != "" {
          BareStaysEmpty(rest[1..]);
          assert rest[1..] == s[2..];
        }
      } else {
        assert "" + [c] == [c];
        TokenOnlyGrows(rest, [c], Bare);
      }
    }
  }

  /** No program is named exactly when the value is blank or opens, after any
      blanks, with an empty argument. */
  lemma NoEditorNamed(value: string)
    ensures ParseEnvEditor(value) == None <==> IsBlank(value) || OpensEmpty(TrimStart(value))
  {
    var n, text := LeadingBlanks(value), TrimStart(value);
    assert value == value[..n] + text;
    assert n < |value| ==> value[n] in value;
    SkipBlanks(value[..n], text);
    BlankHasNoTokens(value);
    BareStaysEmpty(text);
  }

  /** A pair of quotes, or one quote that never closes, names no program. */
  lemma EmptyQuotesNameNothing()
    ensures ParseEnvEditor("\"\" -w") == None && ParseEnvEditor("'") == None
  {
    NoEditorNamed("\"\" -w");
    NoEditorNamed("'");
  }

  /** A program with flags, quoted in any way, is read back as it was meant. */
  lemma EditorReadsBack(line: seq<Spaced>, ending: string)
    requires WritableLine(line) && IsBlank(ending) && line != [] && WordValue(line[0].word) != ""
    ensures ParseEnvEditor(LineText(line, ending)) == Some((WordValue(line[0].word), LineValues(line[1..])))
  {
    SplitInvertsQuoting(line, ending);
  }
}
