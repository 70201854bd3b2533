/** The editor's edits as functions on lines and cursor, and what each does to the flat text (apps/helix.py). */
module Edits {
  import opened Text

  /** Python's str.lstrip and str.rstrip, over the characters that count as white space. */
  function LStrip(isSpace: char -> bool, s: string): (r: string)
    ensures |r| <= |s|
  {
    if s == "" || !isSpace(s[0]) then s else LStrip(isSpace, s[1..])
  }

  function RStrip(isSpace: char -> bool, s: string): string {
    if s == "" || !isSpace(s[|s| - 1]) then s else RStrip(isSpace, s[..|s| - 1])
  }

  /** What is stripped is white space, and all of it. */
  lemma {:induction false} LStripLaws(isSpace: char -> bool, s: string)
    ensures var r := LStrip(isSpace, s);
      s[|s| - |r|..] == r && (forall i | 0 <= i < |s| - |r| :: isSpace(s[i])) && (r == "" || !isSpace(r[0]))
  {
    if s != "" && isSpace(s[0]) {
      LStripLaws(isSpace, s[1..]);
      assert forall i | 1 <= i < |s| :: s[i] == s[1..][i - 1];
    }
  }

  lemma {:induction false} RStripLaws(isSpace: char -> bool, s: string)
    ensures var r := RStrip(isSpace, s);
      r <= s && (forall i | |r| <= i < |s| :: isSpace(s[i])) && (r == "" || !isSpace(r[|r| - 1]))
  {
    if s != "" && isSpace(s[|s| - 1]) {
      RStripLaws(isSpace, s[..|s| - 1]);
      assert forall i | 0 <= i < |s| - 1 :: s[i] == s[..|s| - 1][i];
    }
  }

  predicate EndsWithColon(s: string) {
    s != "" && s[|s| - 1] == ':'
  }

  function Spaces(n: nat): string {
    seq(n, _ => ' ')
  }

  /** How far the line after a break is indented: as the broken line, and four more after a colon. */
  function Indent(isSpace: char -> bool, line: string): nat {
    |line| - |LStrip(isSpace, line)| + if EndsWithColon(RStrip(isSpace, line)) then 4 else 0
  }

  function InsertAt(c: Caret, ch: string): (after: Caret)
    requires c.Valid()
    ensures after.Valid()
  {
    var line := c.lines[c.y];
    Caret(c.lines[c.y := line[..c.x] + ch + line[c.x..]], c.y, c.x + |ch|)
  }

  lemma {:induction false} InsertedText(c: Caret, ch: string)
    requires c.Valid()
    ensures var after := InsertAt(c, ch);
      Edited(c.Text(), c.At(), c.At(), ch, after.Text()) && after.At() == c.At() + |ch|
  {
    assert c.lines[..c.y] + [InsertAt(c, ch).lines[c.y]] + c.lines[c.y + 1..] == InsertAt(c, ch).lines;
    ReplacedIsEdited(c.lines, c.y, c.x, c.y, c.x, [ch], ch, InsertAt(c, ch));
  }

  function DeleteAt(c: Caret): (after: Caret)
    requires c.Valid()
    ensures after.Valid()
  {
    var line := c.lines[c.y];
    if c.x > 0 then Caret(c.lines[c.y := line[..c.x - 1] + line[c.x..]], c.y, c.x - 1)
    else if c.y > 0 then
      var prev := c.lines[c.y - 1];
      Caret(c.lines[..c.y - 1] + [prev + line] + c.lines[c.y + 1..], c.y - 1, |prev|)
    else c
  }

  /** Deleting takes away the character before the cursor, be it a newline; at the start of the text, nothing. */
  lemma {:induction false} DeletedText(c: Caret)
    requires c.Valid()
    ensures var after := DeleteAt(c);
      if c.At() > 0 then Edited(c.Text(), c.At() - 1, c.At(), "", after.Text()) && after.At() == c.At() - 1
      else after == c
  {
    if c.x > 0 {
      CharacterDeleted(c, DeleteAt(c));
    } else if c.y > 0 {
      NewlineDeleted(c.lines, c.y, DeleteAt(c));
    }
  }

  lemma {:induction false} CharacterDeleted(c: Caret, after: Caret)
    requires c.Valid() && c.x > 0
    requires var line := c.lines[c.y]; after == Caret(c.lines[c.y := line[..c.x - 1] + line[c.x..]], c.y, c.x - 1)
    ensures c.At() > 0 && Edited(c.Text(), c.At() - 1, c.At(), "", after.Text()) && after.At() == c.At() - 1
  {
    var line := c.lines[c.y];
    assert line[..c.x - 1] + "" + line[c.x..] == line[..c.x - 1] + line[c.x..];
    assert c.lines[..c.y] + [after.lines[c.y]] + c.lines[c.y + 1..] == after.lines;
    OffsetAddsColumn(c.lines, c.y, c.x);
    OffsetAddsColumn(c.lines, c.y, c.x - 1);
    ReplacedIsEdited(c.lines, c.y, c.x - 1, c.y, c.x, [""], "", after);
  }

  lemma {:induction false} NewlineDeleted(lines: seq<string>, y: nat, after: Caret)
    requires 0 < y < |lines|
    requires after == Caret(lines[..y - 1] + [lines[y - 1] + lines[y]] + lines[y + 1..], y - 1, |lines[y - 1]|)
    ensures var at := Offset(lines, y, 0);
      at > 0 && Edited(Joined(lines), at - 1, at, "", after.Text()) && after.At() == at - 1
  {
    var prev := lines[y - 1];
    assert prev[..|prev|] + "" + lines[y][0..] == prev + lines[y];
    NextLine(lines, y - 1);
    ReplacedIsEdited(lines, y - 1, |prev|, y, 0, [""], "", after);
  }

  function DeleteLineAt(c: Caret): (after: Caret)
    requires c.Valid()
    ensures after.Valid()
  {
    if |c.lines| == 1 then Caret([""], c.y, 0)
    else
      var lines := c.lines[..c.y] + c.lines[c.y + 1..];
      Caret(lines, if c.y < |lines| - 1 then c.y else |lines| - 1, 0)
  }

  /** The line goes together with the newline behind it or, for the last line, before it. */
  lemma {:induction false} LineDeletedText(c: Caret)
    requires c.Valid()
    ensures var after, start, end := DeleteLineAt(c), Offset(c.lines, c.y, 0), Offset(c.lines, c.y, |c.lines[c.y]|);
      if |c.lines| == 1 then after.Text() == "" && after.At() == 0
      else if c.y + 1 < |c.lines| then Edited(c.Text(), start, end + 1, "", after.Text()) && after.At() == start
      else Edited(c.Text(), start - 1, end, "", after.Text()) && after.y == |after.lines| - 1
  {
    if |c.lines| == 1 {
    } else if c.y + 1 < |c.lines| {
      InnerLineDeleted(c.lines, c.y, DeleteLineAt(c));
    } else {
      LastLineDeleted(c.lines, DeleteLineAt(c));
    }
  }

  lemma {:induction false} InnerLineDeleted(lines: seq<string>, y: nat, after: Caret)
    requires y + 1 < |lines| && after == Caret(lines[..y] + lines[y + 1..], y, 0)
    ensures Edited(Joined(lines), Offset(lines, y, 0), Offset(lines, y, |lines[y]|) + 1, "", after.Text())
    ensures after.At() == Offset(lines, y, 0)
  {
    assert lines[y][..0] + "" + lines[y + 1][0..] == lines[y + 1];
    assert lines[..y] + [lines[y + 1]] + lines[y + 2..] == after.lines;
    NextLine(lines, y);
    ReplacedIsEdited(lines, y, 0, y + 1, 0, [""], "", after);
  }

  lemma {:induction false} LastLineDeleted(lines: seq<string>, after: Caret)
    requires |lines| > 1 && after == Caret(lines[..|lines| - 1] + [], |lines| - 2, 0)
    ensures var y := |lines| - 1;
      Edited(Joined(lines), Offset(lines, y, 0) - 1, Offset(lines, y, |lines[y]|), "", after.Text())
  {
    var y, prev := |lines| - 1, lines[|lines| - 2];
    assert prev[..|prev|] + "" + lines[y][|lines[y]|..] == prev;
    assert lines[..y - 1] + [prev] + lines[y + 1..] == after.lines;
    NextLine(lines, y - 1);
    ReplacedIsEdited(lines, y - 1, |prev|, y, |lines[y]|, [""], "", after.(x := |prev|));
  }

  /** Breaking the line at the cursor, with k characters behind it giving way to a newline and the padding. */
  function BreakAt(c: Caret, k: nat, pad: string): (after: Caret)
    requires c.Valid() && c.x + k <= |c.lines[c.y]|
    ensures after.Valid()
  {
    var line := c.lines[c.y];
    Caret(c.lines[..c.y] + [line[..c.x], pad + line[c.x + k..]] + c.lines[c.y + 1..], c.y + 1, |pad|)
  }

  lemma {:induction false} BrokenText(c: Caret, k: nat, pad: string, inserted: string)
    requires c.Valid() && c.x + k <= |c.lines[c.y]| && inserted == "\n" + pad
    ensures var after := BreakAt(c, k, pad);
      Edited(c.Text(), c.At(), c.At() + k, inserted, after.Text()) && after.At() == c.At() + |inserted|
  {
    var line, mid := c.lines[c.y], ["", pad];
    assert line[..c.x] + "" == line[..c.x];
    assert Joined(mid) == inserted;
    OffsetAddsColumn(c.lines, c.y, c.x);
    OffsetAddsColumn(c.lines, c.y, c.x + k);
    ReplacedIsEdited(c.lines, c.y, c.x, c.y, c.x + k, mid, inserted, BreakAt(c, k, pad));
  }

  /** How much white space stands right behind the cursor. */
  function SpaceBehind(isSpace: char -> bool, c: Caret): (k: nat)
    requires c.Valid()
    ensures c.x + k <= |c.lines[c.y]|
  {
    var rest := c.lines[c.y][c.x..];
    |rest| - |LStrip(isSpace, rest)|
  }

  lemma {:induction false} BehindSpace(isSpace: char -> bool, c: Caret)
    requires c.Valid()
    ensures c.lines[c.y][c.x + SpaceBehind(isSpace, c)..] == LStrip(isSpace, c.lines[c.y][c.x..])
    ensures forall i | c.x <= i < c.x + SpaceBehind(isSpace, c) :: isSpace(c.lines[c.y][i])
  {
    var rest := c.lines[c.y][c.x..];
    LStripLaws(isSpace, rest);
    assert forall i | c.x <= i < c.x + SpaceBehind(isSpace, c) :: c.lines[c.y][i] == rest[i - c.x];
  }

  function NewlineAt(isSpace: char -> bool, c: Caret): (after: Caret)
    requires c.Valid()
    ensures after.Valid()
  {
    BreakAt(c, SpaceBehind(isSpace, c), Spaces(Indent(isSpace, c.lines[c.y])))
  }

  /** The white space behind the cursor gives way to a newline and the indentation. */
  lemma {:induction false} NewlineText(isSpace: char -> bool, c: Caret, inserted: string)
    requires c.Valid() && inserted == "\n" + Spaces(Indent(isSpace, c.lines[c.y]))
    ensures var after := NewlineAt(isSpace, c);
      && Edited(c.Text(), c.At(), c.At() + SpaceBehind(isSpace, c), inserted, after.Text())
      && after.At() == c.At() + |inserted|
  {
    BrokenText(c, SpaceBehind(isSpace, c), Spaces(Indent(isSpace, c.lines[c.y])), inserted);
  }

  /**
   The indentation of the broken line goes on, by four more columns if the last character that is not white space
   is a colon; and all the white space behind the cursor gives way.
   */
  lemma {:induction false} BreakMeasures(isSpace: char -> bool, c: Caret, m: nat)
    requires c.Valid() && !isSpace(':')
    requires var line := c.lines[c.y];
      m <= |line| && (forall i | 0 <= i < m :: isSpace(line[i])) && (m < |line| ==> !isSpace(line[m]))
    ensures var line, k := c.lines[c.y], SpaceBehind(isSpace, c);
      && (Indent(isSpace, line) == m + 4 <==>
           exists i :: 0 <= i < |line| && line[i] == ':' && forall j | i < j < |line| :: isSpace(line[j]))
      && Indent(isSpace, line) in {m, m + 4}
      && (forall i | c.x <= i < c.x + k :: isSpace(line[i])) && (c.x + k < |line| ==> !isSpace(line[c.x + k]))
    ensures |Spaces(m)| == m && forall i | 0 <= i < m :: Spaces(m)[i] == ' '
  {
    var line := c.lines[c.y];
    LStripLaws(isSpace, line);
    LStripLaws(isSpace, line[c.x..]);
    BehindSpace(isSpace, c);
    StrippedLength(isSpace, line, m);
    ColonIsLast(isSpace, line);
  }

  lemma {:induction false} StrippedLength(isSpace: char -> bool, line: string, m: nat)
    requires m <= |line| && (forall i | 0 <= i < m :: isSpace(line[i])) && (m < |line| ==> !isSpace(line[m]))
    ensures |line| - |LStrip(isSpace, line)| == m
  {
    LStripLaws(isSpace, line);
    var r := LStrip(isSpace, line);
    assert r != "" ==> r[0] == line[|line| - |r|];
  }

  lemma {:induction false} ColonIsLast(isSpace: char -> bool, line: string)
    requires !isSpace(':')
    ensures EndsWithColon(RStrip(isSpace, line)) <==>
      exists i :: 0 <= i < |line| && line[i] == ':' && forall j | i < j < |line| :: isSpace(line[j])
  {
    RStripLaws(isSpace, line);
    var r := RStrip(isSpace, line);
    if EndsWithColon(r) {
      assert line[|r| - 1] == ':';
    }
  }

  datatype Position = Position(y: nat, x: nat)

  /** A column beyond the end of its line counts as the end. */
  function Clamp(lines: seq<string>, p: Position): (r: Position)
    requires p.y < |lines|
    ensures InText(lines, r.y, r.x) && r.y == p.y && r.x <= p.x && (r.x < p.x ==> r.x == |lines[p.y]|)
  {
    Position(p.y, if p.x <= |lines[p.y]| then p.x else |lines[p.y]|)
  }

  /** The ends of a selection, the earlier one first. */
  function Ordered(lines: seq<string>, s: Position, e: Position): (ends: (Position, Position))
    requires s.y < |lines| && e.y < |lines|
    ensures InText(lines, ends.0.y, ends.0.x) && InText(lines, ends.1.y, ends.1.x)
    ensures !Before(ends.1.y, ends.1.x, ends.0.y, ends.0.x)
    ensures ends in {(Clamp(lines, s), Clamp(lines, e)), (Clamp(lines, e), Clamp(lines, s))}
  {
    if Before(e.y, e.x, s.y, s.x) then (Clamp(lines, e), Clamp(lines, s)) else (Clamp(lines, s), Clamp(lines, e))
  }

  function ReplaceBetween(lines: seq<string>, from: Position, to: Position, text: string): (after: Caret)
    requires InText(lines, from.y, from.x) && InText(lines, to.y, to.x) && !Before(to.y, to.x, from.y, from.x)
    ensures after.Valid()
  {
    Replace(lines, from.y, from.x, to.y, to.x, Split(text))
  }

  /** Replacing a selection puts the text in place of the slice, with the cursor behind it. */
  lemma {:induction false} ReplacedBetweenText(lines: seq<string>, from: Position, to: Position, text: string)
    requires InText(lines, from.y, from.x) && InText(lines, to.y, to.x) && !Before(to.y, to.x, from.y, from.x)
    ensures var after := ReplaceBetween(lines, from, to, text);
      var start, end := Offset(lines, from.y, from.x), Offset(lines, to.y, to.x);
      Edited(Joined(lines), start, end, text, after.Text()) && after.At() == start + |text|
  {
    SplitThenJoin(text);
    ReplacedIsEdited(lines, from.y, from.x, to.y, to.x, Split(text), text, ReplaceBetween(lines, from, to, text));
  }

  function DuplicateAt(c: Caret): (after: Caret)
    requires c.Valid()
    ensures after.Valid()
  {
    Caret(c.lines[..c.y + 1] + [c.lines[c.y]] + c.lines[c.y + 1..], c.y + 1, c.x)
  }

  lemma {:induction false} GlueCopy(line: string)
    ensures Glue(line, ["", line], "") == [line, line]
  {
    assert line + "" == line;
    assert ["", line][0 := line + ""] == [line, line];
  }

  /** A line is repeated behind itself, and the cursor moves to the same place in the copy. */
  lemma {:induction false} DuplicatedText(c: Caret)
    requires c.Valid()
    ensures var after, line := DuplicateAt(c), c.lines[c.y];
      var end := Offset(c.lines, c.y, |line|);
      Edited(c.Text(), end, end, "\n" + line, after.Text()) && after.At() == c.At() + |line| + 1
  {
    var after, line := DuplicateAt(c), c.lines[c.y];
    var behind := Caret(after.lines, c.y + 1, |line|);
    assert Joined(["", line]) == "\n" + line by {
      assert ["", line][1..] == [line];
    }
    GlueCopy(line);
    assert line[..|line|] == line && line[|line|..] == "";
    assert after.lines == Splice(c.lines[..c.y], line, ["", line], "", c.lines[c.y + 1..]);
    ReplacedIsEdited(c.lines, c.y, |line|, c.y, |line|, ["", line], "\n" + line, behind);
    OffsetAddsColumn(after.lines, c.y + 1, |line|);
    OffsetAddsColumn(after.lines, c.y + 1, c.x);
    OffsetAddsColumn(c.lines, c.y, |line|);
    OffsetAddsColumn(c.lines, c.y, c.x);
  }

  const INDENT := "    "

  predicate Indented(line: string) {
    INDENT <= line
  }

  function DedentAt(c: Caret): (after: Caret)
    requires c.Valid()
    ensures after.Valid()
  {
    var line := c.lines[c.y];
    if !Indented(line) then c
    else Caret(c.lines[c.y := line[|INDENT|..]], c.y, if c.x >= |INDENT| then c.x - |INDENT| else 0)
  }

  /** An indented line loses its first four spaces; the cursor stays with its character, or at the line's start. */
  lemma {:induction false} DedentedText(c: Caret)
    requires c.Valid()
    ensures "    " <= c.lines[c.y] ==> var after, start := DedentAt(c), Offset(c.lines, c.y, 0);
      && Edited(c.Text(), start, start + 4, "", after.Text())
      && after.At() == if c.x >= 4 then c.At() - 4 else start
    ensures !("    " <= c.lines[c.y]) ==> DedentAt(c) == c
  {
    if Indented(c.lines[c.y]) {
      IndentTaken(c);
    }
  }

  lemma {:induction false} IndentTaken(c: Caret)
    requires c.Valid() && Indented(c.lines[c.y])
    ensures var after, start := DedentAt(c), Offset(c.lines, c.y, 0);
      && Edited(c.Text(), start, start + 4, "", after.Text())
      && after.At() == if c.x >= 4 then c.At() - 4 else start
  {
    var after, line := DedentAt(c), c.lines[c.y];
    assert line[..0] + "" + line[4..] == line[4..];
    assert c.lines[..c.y] + [after.lines[c.y]] + c.lines[c.y + 1..] == after.lines;
    OffsetAddsColumn(c.lines, c.y, 4);
    ReplacedIsEdited(c.lines, c.y, 0, c.y, 4, [""], "", Caret(after.lines, c.y, 0));
    OffsetAddsColumn(after.lines, c.y, after.x);
    OffsetAddsColumn(c.lines, c.y, c.x);
  }

  /** The edits of the editor that take a snapshot. */
  datatype Edit =
    | Insert(ch: string)
    | Delete
    | DeleteWholeLine
    | Break
    | Duplicate
    | Dedent
    | ReplaceBlock(from: Position, to: Position, text: string)

  /** A line that is not indented is not dedented, and a block is replaced where it lies in existing lines. */
  predicate TakesEffect(c: Caret, e: Edit)
    requires c.Valid()
  {
    && (e.Dedent? ==> Indented(c.lines[c.y]))
    && (e.ReplaceBlock? ==> e.from.y < |c.lines| && e.to.y < |c.lines|)
  }

  function EditAt(isSpace: char -> bool, c: Caret, e: Edit): (after: Caret)
    requires c.Valid()
    ensures after.Valid()
  {
    if !TakesEffect(c, e) then c
    else match e
      case Insert(ch) => InsertAt(c, ch)
      case Delete => DeleteAt(c)
      case DeleteWholeLine => DeleteLineAt(c)
      case Break => NewlineAt(isSpace, c)
      case Duplicate => DuplicateAt(c)
      case Dedent => DedentAt(c)
      case ReplaceBlock(from, to, text) =>
        var ends := Ordered(c.lines, from, to);
        ReplaceBetween(c.lines, ends.0, ends.1, text)
  }

  function AfterEdits(isSpace: char -> bool, c: Caret, edits: seq<Edit>): (after: Caret)
    requires c.Valid()
    ensures after.Valid()
  {
    if edits == [] then c
    else EditAt(isSpace, AfterEdits(isSpace, c, edits[..|edits| - 1]), edits[|edits| - 1])
  }

  /** The edits of a row that take effect. */
  function Effective(isSpace: char -> bool, c: Caret, edits: seq<Edit>): seq<Edit>
    requires c.Valid()
  {
    if edits == [] then []
    else
      var front, last := edits[..|edits| - 1], edits[|edits| - 1];
      Effective(isSpace, c, front) + if TakesEffect(AfterEdits(isSpace, c, front), last) then [last] else []
  }

  lemma {:induction false} OneMoreEdit(isSpace: char -> bool, c: Caret, edits: seq<Edit>, e: Edit)
    requires c.Valid()
    ensures AfterEdits(isSpace, c, edits + [e]) == EditAt(isSpace, AfterEdits(isSpace, c, edits), e)
  {
    var more := edits + [e];
    assert more[..|more| - 1] == edits && more[|more| - 1] == e;
  }

  lemma {:induction false} EffectiveOneMore(isSpace: char -> bool, c: Caret, edits: seq<Edit>, i: nat)
    requires c.Valid() && i < |edits|
    ensures var before, after := Effective(isSpace, c, edits[..i]), Effective(isSpace, c, edits[..i + 1]);
      after == if TakesEffect(AfterEdits(isSpace, c, edits[..i]), edits[i]) then before + [edits[i]] else before
    ensures AfterEdits(isSpace, c, edits[..i + 1]) == EditAt(isSpace, AfterEdits(isSpace, c, edits[..i]), edits[i])
  {
    assert edits[..i + 1][..i] == edits[..i];
  }

  /** The others change nothing. */
  lemma {:induction false} EffectiveSuffice(isSpace: char -> bool, c: Caret, edits: seq<Edit>)
    requires c.Valid()
    ensures AfterEdits(isSpace, c, Effective(isSpace, c, edits)) == AfterEdits(isSpace, c, edits)
    decreases edits
  {
    if edits != [] {
      var front, last := edits[..|edits| - 1], edits[|edits| - 1];
      EffectiveSuffice(isSpace, c, front);
      if TakesEffect(AfterEdits(isSpace, c, front), last) {
        OneMoreEdit(isSpace, c, Effective(isSpace, c, front), last);
      } else {
        assert Effective(isSpace, c, front) + [] == Effective(isSpace, c, front);
      }
    }
  }
}
