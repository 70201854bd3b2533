/** The editor's three line tokenizers (apps/helix.py). */
module Tokens {
  datatype Kind = Keyword | Builtin | Str | Comment | Number | Op | Normal

  datatype Token = Token(kind: Kind, text: string, col: nat)

  /** How characters are classified; every letter is alphanumeric. */
  datatype Classes = Classes(isDigit: char -> bool, isAlpha: char -> bool, isAlnum: char -> bool, isSpace: char -> bool)
  {
    ghost predicate Valid() {
      forall c :: isAlpha(c) ==> isAlnum(c)
    }
  }

  const PY_KEYWORDS: set<string> := {
    "def", "class", "return", "import", "from", "if", "elif", "else", "for",
    "while", "try", "except", "finally", "with", "as", "pass", "break",
    "continue", "raise", "yield", "lambda", "and", "or", "not", "in", "is",
    "True", "False", "None", "async", "await", "global", "nonlocal", "del"
  }

  const PY_BUILTINS: set<string> := {
    "print", "len", "range", "int", "str", "float", "list", "dict", "set",
    "tuple", "bool", "type", "isinstance", "hasattr", "getattr", "setattr",
    "open", "super", "property", "staticmethod", "classmethod", "enumerate",
    "zip", "map", "filter", "sorted", "reversed", "any", "all", "sum", "min", "max"
  }

  const SH_KEYWORDS: set<string> := {
    "if", "then", "else", "fi", "for", "do", "done", "while", "case", "esac",
    "echo", "exit", "return", "export", "local", "function", "source"
  }

  /* ---------- losing nothing ---------- */

  function Joined(tokens: seq<Token>): string {
    if tokens == [] then "" else Joined(tokens[..|tokens| - 1]) + tokens[|tokens| - 1].text
  }

  /** The tokens are the line cut into pieces, and each knows where it begins. */
  ghost predicate Lossless(line: string, tokens: seq<Token>) {
    && Joined(tokens) == line
    && forall k | 0 <= k < |tokens| :: tokens[k].col == |Joined(tokens[..k])|
  }

  lemma {:induction false} OneMorePiece(line: string, i: nat, j: nat, tokens: seq<Token>, t: Token)
    requires i <= j <= |line| && Lossless(line[..i], tokens)
    requires t.text == line[i..j] && t.col == i
    ensures Lossless(line[..j], tokens + [t])
  {
    var longer := tokens + [t];
    assert longer[..|tokens|] == tokens && tokens[..|tokens|] == tokens;
    assert line[..j] == line[..i] + line[i..j];
    forall k | 0 <= k < |longer|
      ensures longer[k].col == |Joined(longer[..k])|
    {
      assert k <= |tokens| && longer[..k] == tokens[..k];
    }
  }

  /* ---------- what the scanners look for ---------- */

  predicate IsRun(line: string, lo: nat, hi: nat, accept: char -> bool) {
    && lo <= hi <= |line|
    && (forall k | lo <= k < hi :: accept(line[k]))
    && (hi < |line| ==> !accept(line[hi]))
  }

  /** How many backslashes stand right before p, without looking further back than lo. */
  function Backslashes(line: string, lo: nat, p: nat): nat
    requires p <= |line|
  {
    if p <= lo || line[p - 1] != '\\' then 0 else 1 + Backslashes(line, lo, p - 1)
  }

  predicate Escaped(line: string, lo: nat, p: nat)
    requires p <= |line|
  {
    Backslashes(line, lo, p) % 2 == 1
  }

  predicate QuoteAt(line: string, quote: string, p: nat) {
    p + |quote| <= |line| && line[p..p + |quote|] == quote
  }

  /** A string literal's body from lo ends with the first closing quote that is not escaped, or with the line. */
  ghost predicate IsStringEnd(line: string, lo: nat, quote: string, end: nat) {
    || (lo + |quote| <= end <= |line| && QuoteAt(line, quote, end - |quote|) && !Escaped(line, lo, end - |quote|)
        && forall p | lo <= p < end - |quote| :: !QuoteAt(line, quote, p) || Escaped(line, lo, p))
    || (end == |line| && forall p | lo <= p <= |line| :: !QuoteAt(line, quote, p) || Escaped(line, lo, p))
  }

  method ScanRun(line: string, lo: nat, accept: char -> bool) returns (hi: nat)
    requires lo <= |line|
    ensures IsRun(line, lo, hi, accept)
  {
    hi := lo;
    while hi < |line| && accept(line[hi])
      invariant lo <= hi <= |line| && forall k | lo <= k < hi :: accept(line[k])
    {
      hi := hi + 1;
    }
  }

  /** A backslash makes the scan skip the next character, even beyond the end of the line. */
  method ScanString(line: string, lo: nat, quote: string) returns (end: nat)
    requires lo <= |line| && quote != [] && quote[0] != '\\'
    ensures IsStringEnd(line, lo, quote, end)
  {
    var j := lo;
    while j < |line|
      invariant lo <= j <= |line| + 1
      invariant j <= |line| ==> !Escaped(line, lo, j)
      invariant forall p | lo <= p < j && p <= |line| :: !QuoteAt(line, quote, p) || Escaped(line, lo, p)
    {
      if line[j] == '\\' {
        assert Escaped(line, lo, j + 1) && !QuoteAt(line, quote, j);
        j := j + 2;
      } else if j + |quote| <= |line| && line[j..j + |quote|] == quote {
        return j + |quote|;
      } else {
        j := j + 1;
      }
    }
    return |line|;
  }

  /* ---------- Python ---------- */

  predicate NumberStart(cls: Classes, line: string, i: nat)
    requires i < |line|
  {
    cls.isDigit(line[i]) || (line[i] == '-' && i + 1 < |line| && cls.isDigit(line[i + 1]))
  }

  function Quote(line: string, i: nat): string
    requires i < |line|
  {
    if QuoteAt(line, "\"\"\"", i) || QuoteAt(line, "'''", i) then line[i..i + 3] else [line[i]]
  }

  function WordKind(word: string): Kind {
    if word in PY_KEYWORDS then Keyword else if word in PY_BUILTINS then Builtin else Normal
  }

  predicate IsPyOp(c: char) {
    c in "+-*/%=<>!&|^~@()[]{}:.,;"
  }

  function PyNumberChar(cls: Classes): char -> bool {
    c => cls.isDigit(c) || c in ".xXoObBe_"
  }

  function PyWordChar(cls: Classes): char -> bool {
    c => cls.isAlnum(c) || c == '_'
  }

  datatype Lexeme = Remark | Literal | Figure | Word | Sign | Blank | Other

  /** What begins at a position. */
  function PyLexeme(cls: Classes, line: string, i: nat): Lexeme
    requires i < |line|
  {
    var c := line[i];
    if c == '#' then Remark
    else if c in "\"'" then Literal
    else if NumberStart(cls, line, i) then Figure
    else if cls.isAlpha(c) || c == '_' then Word
    else if IsPyOp(c) then Sign
    else if c == ' ' then Blank
    else Other
  }

  function FigureBody(line: string, i: nat): nat
    requires i < |line|
  {
    if line[i] == '-' then i + 1 else i
  }

  ghost predicate PyEnds(cls: Classes, line: string, i: nat, end: nat)
    requires i < |line|
  {
    match PyLexeme(cls, line, i)
    case Remark => end == |line|
    case Literal => IsStringEnd(line, i + |Quote(line, i)|, Quote(line, i), end)
    case Figure => IsRun(line, FigureBody(line, i), end, PyNumberChar(cls))
    case Word => IsRun(line, i, end, PyWordChar(cls))
    case Blank => IsRun(line, i, end, c => c == ' ')
    case _ => end == i + 1
  }

  function PyKind(lexeme: Lexeme, text: string): Kind {
    match lexeme
    case Remark => Comment
    case Literal => Str
    case Figure => Number
    case Word => WordKind(text)
    case Sign => Op
    case _ => Normal
  }

  /** The token at its column is of the kind that begins there, and as long as that kind goes. */
  ghost predicate IsPyToken(cls: Classes, line: string, t: Token) {
    var i, end := t.col, t.col + |t.text|;
    && i < end <= |line| && t.text == line[i..end]
    && PyEnds(cls, line, i, end) && t.kind == PyKind(PyLexeme(cls, line, i), t.text)
  }

  method TokenizePython(cls: Classes, line: string) returns (tokens: seq<Token>)
    requires cls.Valid()
    ensures Lossless(line, tokens)
    ensures forall t <- tokens :: IsPyToken(cls, line, t)
  {
    tokens := [];
    var i := 0;
    while i < |line|
      invariant i <= |line| && Lossless(line[..i], tokens)
      invariant forall t <- tokens :: IsPyToken(cls, line, t)
    {
      var t := NextPyToken(cls, line, i);
      OneMorePiece(line, i, i + |t.text|, tokens, t);
      tokens := tokens + [t];
      i := i + |t.text|;
    }
    assert line[..|line|] == line;
  }

  method PyEnd(cls: Classes, line: string, i: nat) returns (end: nat)
    requires cls.Valid() && i < |line|
    ensures i < end <= |line| && PyEnds(cls, line, i, end)
  {
    match PyLexeme(cls, line, i)
    case Remark => end := |line|;
    case Literal => end := ScanString(line, i + |Quote(line, i)|, Quote(line, i));
    case Figure => end := ScanRun(line, FigureBody(line, i), PyNumberChar(cls));
    case Word => end := ScanRun(line, i, PyWordChar(cls));
    case Blank => end := ScanRun(line, i, c => c == ' ');
    case _ => end := i + 1;
  }

  method NextPyToken(cls: Classes, line: string, i: nat) returns (t: Token)
    requires cls.Valid() && i < |line|
    ensures t.col == i && IsPyToken(cls, line, t)
  {
    var end := PyEnd(cls, line, i);
    t := Token(PyKind(PyLexeme(cls, line, i), line[i..end]), line[i..end], i);
  }

  /* ---------- nothing left open ---------- */

  lemma {:induction false} RunIsUnique(line: string, lo: nat, hi: nat, other: nat, accept: char -> bool)
    requires IsRun(line, lo, hi, accept) && IsRun(line, lo, other, accept)
    ensures hi == other
  {
  }

  lemma {:induction false} StringEndIsUnique(line: string, lo: nat, quote: string, end: nat, other: nat)
    requires quote != [] && IsStringEnd(line, lo, quote, end) && IsStringEnd(line, lo, quote, other)
    ensures end == other
  {
  }

  lemma {:induction false} PyTokenIsUnique(cls: Classes, line: string, t: Token, u: Token)
    requires IsPyToken(cls, line, t) && IsPyToken(cls, line, u) && t.col == u.col
    ensures t == u
  {
    PyEndIsUnique(cls, line, t.col, t.col + |t.text|, u.col + |u.text|);
  }

  lemma {:induction false} PyEndIsUnique(cls: Classes, line: string, i: nat, end: nat, other: nat)
    requires i < |line| && PyEnds(cls, line, i, end) && PyEnds(cls, line, i, other)
    ensures end == other
  {
    match PyLexeme(cls, line, i)
    case Literal => StringEndIsUnique(line, i + |Quote(line, i)|, Quote(line, i), end, other);
    case Figure => RunIsUnique(line, FigureBody(line, i), end, other, PyNumberChar(cls));
    case Word => RunIsUnique(line, i, end, other, PyWordChar(cls));
    case Blank => RunIsUnique(line, i, end, other, c => c == ' ');
    case _ =>
  }

  /* ---------- what a token says of the line ---------- */

  predicate BeginsNumber(cls: Classes, line: string, i: nat)
    requires i < |line|
  {
    cls.isDigit(line[i]) || (line[i] == '-' && i + 1 < |line| && cls.isDigit(line[i + 1]))
  }

  /** The first character of a Python token tells its kind, for words together with the word. */
  lemma {:induction false} PyTokenKind(cls: Classes, line: string, t: Token)
    requires IsPyToken(cls, line, t)
    ensures var c := line[t.col];
      t.kind ==
        if c == '#' then Comment
        else if c == '"' || c == '\'' then Str
        else if BeginsNumber(cls, line, t.col) then Number
        else if cls.isAlpha(c) || c == '_' then
          (if t.text in PY_KEYWORDS then Keyword else if t.text in PY_BUILTINS then Builtin else Normal)
        else if c in "+-*/%=<>!&|^~@()[]{}:.,;" then Op
        else Normal
  {
  }

  /** And the kind tells how far it goes: a comment to the end, words, numbers and blanks as far as they can. */
  lemma {:induction false} PyTokenExtent(cls: Classes, line: string, t: Token)
    requires IsPyToken(cls, line, t)
    ensures var end := t.col + |t.text|;
      && t.text == line[t.col..end] && |t.text| > 0
      && match t.kind {
           case Comment => end == |line|
           case Number => IsRun(line, if line[t.col] == '-' then t.col + 1 else t.col, end,
                                x => cls.isDigit(x) || x in ".xXoObBe_")
           case Op => |t.text| == 1
           case Str => IsStringEnd(line, t.col + |Quote(line, t.col)|, Quote(line, t.col), end)
           case Keyword => IsRun(line, t.col, end, x => cls.isAlnum(x) || x == '_')
           case Builtin => IsRun(line, t.col, end, x => cls.isAlnum(x) || x == '_')
           case Normal => if line[t.col] == ' ' && !cls.isAlpha(' ') && !cls.isDigit(' ')
             then IsRun(line, t.col, end, x => x == ' ')
             else |t.text| == 1 || IsRun(line, t.col, end, x => cls.isAlnum(x) || x == '_')
                  || IsRun(line, t.col, end, x => x == ' ')
         }
  {
  }

  /** A string opens with three quotes where there are three. */
  lemma {:induction false} QuoteIff(line: string, i: nat)
    requires i < |line| && line[i] in "\"'"
    ensures var c := line[i];
      Quote(line, i) == if i + 3 <= |line| && line[i + 1] == c && line[i + 2] == c then [c, c, c] else [c]
  {
    assert i + 3 <= |line| ==> line[i..i + 3] == [line[i], line[i + 1], line[i + 2]];
  }

  lemma {:induction false} NextPiece(line: string, a: seq<Token>, b: seq<Token>, k: nat)
    requires Lossless(line, a) && Lossless(line, b) && k < |a| && k <= |b| && a[..k] == b[..k]
    requires a[k].text != "" && a[k].col + |a[k].text| <= |line|
    ensures k < |b| && a[k].col == b[k].col
  {
    assert a[k].col == |Joined(a[..k])|;
    assert b[..|b|] == b;
  }

  lemma {:induction false} Extend(a: seq<Token>, b: seq<Token>, k: nat)
    requires k < |a| && k < |b| && a[..k] == b[..k] && a[k] == b[k]
    ensures a[..k + 1] == b[..k + 1]
  {
    assert a[..k + 1] == a[..k] + [a[k]] && b[..k + 1] == b[..k] + [b[k]];
  }

  lemma {:induction false} PythonAgrees(cls: Classes, line: string, a: seq<Token>, b: seq<Token>, k: nat)
    requires Lossless(line, a) && Lossless(line, b) && k <= |a|
    requires (forall t <- a :: IsPyToken(cls, line, t)) && (forall t <- b :: IsPyToken(cls, line, t))
    ensures k <= |b| && a[..k] == b[..k]
    decreases k
  {
    if k > 0 {
      PythonAgrees(cls, line, a, b, k - 1);
      assert IsPyToken(cls, line, a[k - 1]);
      NextPiece(line, a, b, k - 1);
      PyTokenIsUnique(cls, line, a[k - 1], b[k - 1]);
      Extend(a, b, k - 1);
    }
  }

  /** There is one way to cut a line into the tokens its columns call for. */
  lemma {:induction false} PythonIsDetermined(cls: Classes, line: string, a: seq<Token>, b: seq<Token>)
    requires Lossless(line, a) && Lossless(line, b)
    requires (forall t <- a :: IsPyToken(cls, line, t)) && (forall t <- b :: IsPyToken(cls, line, t))
    ensures a == b
  {
    PythonAgrees(cls, line, a, b, |a|);
    PythonAgrees(cls, line, b, a, |b|);
    assert a[..|a|] == a && b[..|b|] == b;
  }

  /* ---------- JSON ---------- */

  predicate IsJsonOp(c: char) {
    c in "{}[],:"
  }

  function JsonNumberChar(): char -> bool {
    c => c in "0123456789.eE+-"
  }

  function LiteralAt(line: string, i: nat): string {
    if QuoteAt(line, "true", i) then "true"
    else if QuoteAt(line, "false", i) then "false"
    else if QuoteAt(line, "null", i) then "null"
    else ""
  }

  function JsonLexeme(cls: Classes, line: string, i: nat): Lexeme
    requires i < |line|
  {
    if line[i] == '"' then Literal
    else if NumberStart(cls, line, i) then Figure
    else if LiteralAt(line, i) != "" then Word
    else if IsJsonOp(line[i]) then Sign
    else Other
  }

  ghost predicate JsonEnds(cls: Classes, line: string, i: nat, end: nat)
    requires i < |line|
  {
    match JsonLexeme(cls, line, i)
    case Literal => IsStringEnd(line, i + 1, ['"'], end)
    case Figure => IsRun(line, i + 1, end, JsonNumberChar())
    case Word => end == i + |LiteralAt(line, i)|
    case _ => end == i + 1
  }

  function JsonKind(lexeme: Lexeme): Kind {
    match lexeme
    case Literal => Str
    case Figure => Number
    case Word => Keyword
    case Sign => Op
    case _ => Normal
  }

  ghost predicate IsJsonToken(cls: Classes, line: string, t: Token) {
    var i, end := t.col, t.col + |t.text|;
    && i < end <= |line| && t.text == line[i..end]
    && JsonEnds(cls, line, i, end) && t.kind == JsonKind(JsonLexeme(cls, line, i))
  }

  lemma {:induction false} QuoteIsThere(line: string, p: nat)
    requires p < |line|
    ensures QuoteAt(line, ['"'], p) <==> line[p] == '"'
  {
    assert line[p..p + 1] == [line[p]];
  }

  method ScanJsonString(line: string, lo: nat) returns (end: nat)
    requires lo <= |line|
    ensures IsStringEnd(line, lo, ['"'], end)
  {
    var j := lo;
    while j < |line| && line[j] != '"'
      invariant lo <= j <= |line| + 1
      invariant j <= |line| ==> !Escaped(line, lo, j)
      invariant forall p | lo <= p < j && p <= |line| :: !QuoteAt(line, ['"'], p) || Escaped(line, lo, p)
    {
      QuoteIsThere(line, j);
      if line[j] == '\\' {
        assert Escaped(line, lo, j + 1);
        j := j + 1;
      }
      j := j + 1;
    }
    if j < |line| {
      QuoteIsThere(line, j);
    }
    return if j + 1 <= |line| then j + 1 else |line|;
  }

  method JsonEnd(cls: Classes, line: string, i: nat) returns (end: nat)
    requires i < |line|
    ensures i < end <= |line| && JsonEnds(cls, line, i, end)
  {
    match JsonLexeme(cls, line, i)
    case Literal => end := ScanJsonString(line, i + 1);
    case Figure => end := ScanRun(line, i + 1, JsonNumberChar());
    case Word => end := i + |LiteralAt(line, i)|;
    case _ => end := i + 1;
  }

  method NextJsonToken(cls: Classes, line: string, i: nat) returns (t: Token)
    requires i < |line|
    ensures t.col == i && IsJsonToken(cls, line, t)
  {
    var end := JsonEnd(cls, line, i);
    t := Token(JsonKind(JsonLexeme(cls, line, i)), line[i..end], i);
  }

  method TokenizeJson(cls: Classes, line: string) returns (tokens: seq<Token>)
    ensures Lossless(line, tokens)
    ensures forall t <- tokens :: IsJsonToken(cls, line, t)
  {
    tokens := [];
    var i := 0;
    while i < |line|
      invariant i <= |line| && Lossless(line[..i], tokens)
      invariant forall t <- tokens :: IsJsonToken(cls, line, t)
    {
      var t := NextJsonToken(cls, line, i);
      OneMorePiece(line, i, i + |t.text|, tokens, t);
      tokens := tokens + [t];
      i := i + |t.text|;
    }
    assert line[..|line|] == line;
  }

  /** The first characters of a JSON token tell its kind and how far it goes. */
  lemma {:induction false} JsonTokenReads(cls: Classes, line: string, t: Token)
    requires IsJsonToken(cls, line, t)
    ensures var c, end := line[t.col], t.col + |t.text|;
      && t.text == line[t.col..end] && |t.text| > 0
      && if c == '"' then t.kind == Str && IsStringEnd(line, t.col + 1, ['"'], end)
         else if BeginsNumber(cls, line, t.col) then
           t.kind == Number && IsRun(line, t.col + 1, end, x => x in "0123456789.eE+-")
         else if exists w :: w in {"true", "false", "null"} && QuoteAt(line, w, t.col) then
           t.kind == Keyword && t.text in {"true", "false", "null"}
         else |t.text| == 1 && t.kind == if c in "{}[],:" then Op else Normal
  {
  }

  lemma {:induction false} JsonTokenIsUnique(cls: Classes, line: string, t: Token, u: Token)
    requires IsJsonToken(cls, line, t) && IsJsonToken(cls, line, u) && t.col == u.col
    ensures t == u
  {
    var i, end, other := t.col, t.col + |t.text|, u.col + |u.text|;
    match JsonLexeme(cls, line, i)
    case Literal => StringEndIsUnique(line, i + 1, ['"'], end, other);
    case Figure => RunIsUnique(line, i + 1, end, other, JsonNumberChar());
    case _ =>
  }

  lemma {:induction false} JsonAgrees(cls: Classes, line: string, a: seq<Token>, b: seq<Token>, k: nat)
    requires Lossless(line, a) && Lossless(line, b) && k <= |a|
    requires (forall t <- a :: IsJsonToken(cls, line, t)) && (forall t <- b :: IsJsonToken(cls, line, t))
    ensures k <= |b| && a[..k] == b[..k]
    decreases k
  {
    if k > 0 {
      JsonAgrees(cls, line, a, b, k - 1);
      assert IsJsonToken(cls, line, a[k - 1]);
      NextPiece(line, a, b, k - 1);
      JsonTokenIsUnique(cls, line, a[k - 1], b[k - 1]);
      Extend(a, b, k - 1);
    }
  }

  lemma {:induction false} JsonIsDetermined(cls: Classes, line: string, a: seq<Token>, b: seq<Token>)
    requires Lossless(line, a) && Lossless(line, b)
    requires (forall t <- a :: IsJsonToken(cls, line, t)) && (forall t <- b :: IsJsonToken(cls, line, t))
    ensures a == b
  {
    JsonAgrees(cls, line, a, b, |a|);
    JsonAgrees(cls, line, b, a, |b|);
    assert a[..|a|] == a && b[..|b|] == b;
  }

  /* ---------- shell ---------- */

  predicate Odd(n: nat) {
    n > 0 && !Odd(n - 1)
  }

  function Blanks(cls: Classes, blank: bool): char -> bool {
    if blank then cls.isSpace else c => !cls.isSpace(c)
  }

  ghost predicate IsShellPiece(cls: Classes, line: string, t: Token, blank: bool) {
    && IsRun(line, t.col, t.col + |t.text|, Blanks(cls, blank))
    && t.text == line[t.col..t.col + |t.text|] && (blank ==> t.text != "")
    && t.kind == if t.text in SH_KEYWORDS then Keyword else Normal
  }

  /** Pieces in turn without and with white space only, each as long as it goes; just the outer ones may be empty. */
  ghost predicate IsShellCut(cls: Classes, line: string, tokens: seq<Token>) {
    Lossless(line, tokens) && Odd(|tokens|) && AreShellPieces(cls, line, tokens)
  }

  ghost predicate AreShellPieces(cls: Classes, line: string, tokens: seq<Token>) {
    tokens != [] ==>
      var n := |tokens| - 1;
      AreShellPieces(cls, line, tokens[..n]) && IsShellPiece(cls, line, tokens[n], Odd(n))
  }

  /** A piece is of white space only, or has none and is a keyword exactly if it is on the list. */
  lemma {:induction false} ShellPieceReads(cls: Classes, line: string, t: Token, blank: bool)
    requires IsShellPiece(cls, line, t, blank)
    ensures t.col + |t.text| <= |line| && forall k | 0 <= k < |t.text| :: cls.isSpace(t.text[k]) <==> blank
    ensures t.col + |t.text| < |line| ==> (cls.isSpace(line[t.col + |t.text|]) <==> !blank)
    ensures t.kind in {Keyword, Normal} && (t.kind == Keyword <==> t.text in SH_KEYWORDS)
  {
    assert forall k | 0 <= k < |t.text| :: t.text[k] == line[t.col + k];
  }

  lemma {:induction false} ShellPieceAt(cls: Classes, line: string, tokens: seq<Token>, k: nat)
    requires AreShellPieces(cls, line, tokens) && k < |tokens|
    ensures IsShellPiece(cls, line, tokens[k], Odd(k))
    decreases tokens
  {
    if k < |tokens| - 1 {
      ShellPieceAt(cls, line, tokens[..|tokens| - 1], k);
    }
  }

  predicate IsRemark(cls: Classes, line: string) {
    exists i | 0 <= i < |line| :: line[i] == '#' && !cls.isSpace('#') && forall j | 0 <= j < i :: cls.isSpace(line[j])
  }

  method IsComment(cls: Classes, line: string) returns (comment: bool)
    ensures comment <==> IsRemark(cls, line)
  {
    var i := ScanRun(line, 0, cls.isSpace);
    comment := i < |line| && line[i] == '#';
  }

  method NextShellPiece(cls: Classes, line: string, i: nat, blank: bool) returns (t: Token)
    requires i <= |line| && (blank ==> i < |line| && cls.isSpace(line[i]))
    ensures t.col == i && IsShellPiece(cls, line, t, blank)
    ensures !blank && i + |t.text| < |line| ==> cls.isSpace(line[i + |t.text|])
  {
    var j := ScanRun(line, i, Blanks(cls, blank));
    t := Token(if line[i..j] in SH_KEYWORDS then Keyword else Normal, line[i..j], i);
  }

  /** The line has been cut up to i, and a blank piece is due next, or one without blanks. */
  ghost predicate CutUpTo(cls: Classes, line: string, i: nat, tokens: seq<Token>, blank: bool) {
    && i <= |line| && Lossless(line[..i], tokens) && AreShellPieces(cls, line, tokens)
    && blank == Odd(|tokens|) && (blank && i < |line| ==> cls.isSpace(line[i]))
  }

  lemma {:induction false} CutFurther(cls: Classes, line: string, i: nat, tokens: seq<Token>, blank: bool, t: Token)
    requires CutUpTo(cls, line, i, tokens, blank) && t.col == i && IsShellPiece(cls, line, t, blank)
    requires !blank && i + |t.text| < |line| ==> cls.isSpace(line[i + |t.text|])
    ensures CutUpTo(cls, line, i + |t.text|, tokens + [t], !blank)
  {
    OneMorePiece(line, i, i + |t.text|, tokens, t);
  }

  method ShellPieces(cls: Classes, line: string) returns (tokens: seq<Token>)
    ensures IsShellCut(cls, line, tokens)
  {
    tokens := [];
    var i, blank := 0, false;
    while i < |line| || !blank
      invariant CutUpTo(cls, line, i, tokens, blank)
      decreases |line| - i, !blank
    {
      var t := NextShellPiece(cls, line, i, blank);
      CutFurther(cls, line, i, tokens, blank, t);
      tokens := tokens + [t];
      i, blank := i + |t.text|, !blank;
    }
  }

  method TokenizeShell(cls: Classes, line: string) returns (tokens: seq<Token>)
    ensures Lossless(line, tokens)
    ensures if IsRemark(cls, line) then tokens == [Token(Comment, line, 0)] else IsShellCut(cls, line, tokens)
  {
    var comment := IsComment(cls, line);
    if comment {
      tokens := [Token(Comment, line, 0)];
      OneMorePiece(line, 0, |line|, [], tokens[0]);
    } else {
      tokens := ShellPieces(cls, line);
    }
  }

  lemma {:induction false} NextShellToken(cls: Classes, line: string, a: seq<Token>, b: seq<Token>, k: nat)
    requires IsShellCut(cls, line, a) && IsShellCut(cls, line, b) && k < |a| && k <= |b| && a[..k] == b[..k]
    ensures k < |b| && a[..k + 1] == b[..k + 1]
  {
    ShellPieceAt(cls, line, a, k);
    if Odd(k) {
      NextPiece(line, a, b, k);
    }
    ShellPieceAt(cls, line, b, k);
    Extend(a, b, k);
  }

  lemma {:induction false} ShellAgrees(cls: Classes, line: string, a: seq<Token>, b: seq<Token>, k: nat)
    requires IsShellCut(cls, line, a) && IsShellCut(cls, line, b) && k <= |a|
    ensures k <= |b| && a[..k] == b[..k]
    decreases k
  {
    if k > 0 {
      ShellAgrees(cls, line, a, b, k - 1);
      NextShellToken(cls, line, a, b, k - 1);
    }
  }

  lemma {:induction false} ShellIsDetermined(cls: Classes, line: string, a: seq<Token>, b: seq<Token>)
    requires IsShellCut(cls, line, a) && IsShellCut(cls, line, b)
    ensures a == b
  {
    ShellAgrees(cls, line, a, b, |a|);
    ShellAgrees(cls, line, b, a, |b|);
    assert a[..|a|] == a && b[..|b|] == b;
  }
}
