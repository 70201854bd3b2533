module Text {

  /*
   A text as an array of lines, the form the HELIX editor keeps it in (apps/helix.py), and what its
   line operations mean for the flat text, in which lines are separated by newlines.
   */

  /** "\n".join(lines) */
  function Joined(lines: seq<string>): string {
    if lines == [] then ""
    else if |lines| == 1 then lines[0]
    else lines[0] + "\n" + Joined(lines[1..])
  }

  /** text.split("\n") */
  function Split(text: string): (lines: seq<string>)
    ensures lines != []
  {
    if text == "" then [""]
    else
      var rest := Split(text[1..]);
      if text[0] == '\n' then [""] + rest else [[text[0]] + rest[0]] + rest[1..]
  }

  /** The position in the flat text of column x in line y. */
  function Offset(lines: seq<string>, y: nat, x: nat): nat
    requires y < |lines|
  {
    if y == 0 then x else |lines[0]| + 1 + Offset(lines[1..], y - 1, x)
  }

  lemma {:induction false} SplitThenJoin(text: string)
    ensures Joined(Split(text)) == text
  {
    if text != "" {
      var rest := Split(text[1..]);
      SplitThenJoin(text[1..]);
      if text[0] == '\n' {
        assert ([""] + rest)[1..] == rest;
      } else {
        assert ([[text[0]] + rest[0]] + rest[1..])[1..] == rest[1..];
      }
      assert text == [text[0]] + text[1..];
    }
  }

  /** Lines free of newlines are recovered from the flat text. */
  lemma {:induction false} JoinThenSplit(lines: seq<string>)
    requires lines != [] && forall i | 0 <= i < |lines| :: '\n' !in lines[i]
    ensures Split(Joined(lines)) == lines
  {
    if |lines| == 1 {
      SplitOneLine(lines[0], "");
      assert lines[0] + "" == lines[0];
      assert lines == [lines[0]];
    } else {
      JoinThenSplit(lines[1..]);
      SplitOneLine(lines[0], "\n" + Joined(lines[1..]));
      assert lines[0] + "\n" + Joined(lines[1..]) == lines[0] + ("\n" + Joined(lines[1..]));
      var rest := "\n" + Joined(lines[1..]);
      assert rest[1..] == Joined(lines[1..]);
      assert Split(rest) == [""] + lines[1..];
      assert Split(rest)[1..] == lines[1..] && lines[0] + "" == lines[0];
      assert lines == [lines[0]] + lines[1..];
    }
  }

  lemma {:induction false} SplitOneLine(line: string, rest: string)
    requires '\n' !in line
    ensures Split(line + rest) == [line + Split(rest)[0]] + Split(rest)[1..]
  {
    if line == "" {
      assert line + rest == rest && line + Split(rest)[0] == Split(rest)[0];
    } else {
      SplitOneLine(line[1..], rest);
      assert (line + rest)[1..] == line[1..] + rest;
      var first := Split(rest)[0];
      assert [line[0]] + (line[1..] + first) == line + first;
    }
  }

  lemma {:induction false} JoinedConcat(a: seq<string>, b: seq<string>)
    requires a != [] && b != []
    ensures Joined(a + b) == Joined(a) + "\n" + Joined(b)
  {
    if |a| == 1 {
      assert (a + b)[1..] == b;
    } else {
      JoinedConcat(a[1..], b);
      assert (a + b)[1..] == a[1..] + b;
    }
  }

  /** Inside one line: text before the last line's end, and text after the first line's start, join directly. */
  lemma {:induction false} JoinedAppend(a: seq<string>, last: string, more: string)
    ensures Joined(a + [last + more]) == Joined(a + [last]) + more
  {
    if a != [] {
      JoinedConcat(a, [last + more]);
      JoinedConcat(a, [last]);
    } else {
      assert a + [last + more] == [last + more] && a + [last] == [last];
    }
  }

  /** New lines with `pre` in front of the first and `post` behind the last. */
  function Glue(pre: string, mid: seq<string>, post: string): seq<string>
    requires mid != []
  {
    var glued := mid[0 := pre + mid[0]];
    glued[|glued| - 1 := glued[|glued| - 1] + post]
  }

  /** Replacing what lies between two cuts: `before` and `pre` stay ahead of the new lines, the others behind. */
  function Splice(before: seq<string>, pre: string, mid: seq<string>, post: string, after: seq<string>): seq<string>
    requires mid != []
  {
    before + Glue(pre, mid, post) + after
  }

  /** In the flat text a splice is plain concatenation. */
  lemma {:induction false} SpliceText(
    before: seq<string>, pre: string, mid: seq<string>, post: string, after: seq<string>)
    requires mid != []
    ensures Joined(Splice(before, pre, mid, post, after)) ==
      Joined(before + [pre]) + Joined(mid) + Joined([post] + after)
  {
    var last := mid[|mid| - 1];
    if |mid| == 1 {
      assert Glue(pre, mid, post) == [pre + mid[0] + post];
      GluedText(before, pre + mid[0], post, after);
      JoinedAppend(before, pre, mid[0]);
    } else {
      // the lines in front of the last new one form one block
      var front := mid[1..|mid| - 1];
      assert Glue(pre, mid, post) == [pre + mid[0]] + front + [last + post];
      GluedText(before + [pre + mid[0]] + front, last, post, after);
      assert before + [pre + mid[0]] + front + [last + post] + after == Splice(before, pre, mid, post, after);
      assert before + [pre + mid[0]] + front + [last] == (before + [pre + mid[0]]) + (front + [last]);
      JoinedConcat(before + [pre + mid[0]], front + [last]);
      JoinedAppend(before, pre, mid[0]);
      assert mid == [mid[0]] + (front + [last]);
      JoinedConcat([mid[0]], front + [last]);
    }
  }

  lemma {:induction false} GluedText(before: seq<string>, pre: string, post: string, after: seq<string>)
    ensures Joined(before + [pre + post] + after) == Joined(before + [pre]) + Joined([post] + after)
  {
    JoinedAppend(before, pre, post);
    if after != [] {
      JoinedConcat(before + [pre + post], after);
      JoinedConcat([post], after);
    } else {
      assert before + [pre + post] + after == before + [pre + post];
    }
  }

  predicate InText(lines: seq<string>, y: nat, x: nat) {
    y < |lines| && x <= |lines[y]|
  }

  /** What stands before and after a position: the parts make up the text, and the first is as long as the offset. */
  lemma {:induction false} CutAt(lines: seq<string>, y: nat, x: nat)
    requires InText(lines, y, x)
    ensures Joined(lines[..y] + [lines[y][..x]]) + Joined([lines[y][x..]] + lines[y + 1..]) == Joined(lines)
    ensures |Joined(lines[..y] + [lines[y][..x]])| == Offset(lines, y, x)
  {
    GluedText(lines[..y], lines[y][..x], lines[y][x..], lines[y + 1..]);
    assert lines[y][..x] + lines[y][x..] == lines[y];
    assert lines[..y] + [lines[y]] + lines[y + 1..] == lines;
    OffsetIsLength(lines, y, x);
  }

  lemma {:induction false} OffsetIsLength(lines: seq<string>, y: nat, x: nat)
    requires InText(lines, y, x)
    ensures |Joined(lines[..y] + [lines[y][..x]])| == Offset(lines, y, x)
  {
    if y == 0 {
      assert lines[..y] + [lines[y][..x]] == [lines[y][..x]];
    } else {
      OffsetIsLength(lines[1..], y - 1, x);
      assert (lines[..y] + [lines[y][..x]])[1..] == lines[1..][..y - 1] + [lines[1..][y - 1][..x]];
    }
  }

  /** Offsets depend only on the lines up to the position. */
  lemma {:induction false} OffsetPrefix(a: seq<string>, b: seq<string>, y: nat, x: nat)
    requires y < |a| && y < |b| && a[..y] == b[..y]
    ensures Offset(a, y, x) == Offset(b, y, x)
  {
    if y > 0 {
      assert a[..y][0] == b[..y][0];
      assert a[1..][..y - 1] == a[..y][1..] && b[1..][..y - 1] == b[..y][1..];
      OffsetPrefix(a[1..], b[1..], y - 1, x);
    }
  }

  /** The order of positions, by line and then by column, is the order of offsets. */
  predicate Before(y: nat, x: nat, y': nat, x': nat) {
    y < y' || (y == y' && x < x')
  }

  lemma {:induction false} OffsetIsMonotone(lines: seq<string>, y: nat, x: nat, y': nat, x': nat)
    requires InText(lines, y, x) && InText(lines, y', x')
    ensures Offset(lines, y, x) < Offset(lines, y', x') <==> Before(y, x, y', x')
  {
    if y > 0 && y' > 0 {
      OffsetIsMonotone(lines[1..], y - 1, x, y' - 1, x');
    } else if y == 0 && y' > 0 {
      assert Offset(lines, y', x') >= |lines[0]| + 1;
    }
  }

  lemma {:induction false} NextLine(lines: seq<string>, y: nat)
    requires y + 1 < |lines|
    ensures Offset(lines, y + 1, 0) == Offset(lines, y, |lines[y]|) + 1
  {
    if y > 0 {
      NextLine(lines[1..], y - 1);
    }
  }

  lemma {:induction false} OffsetAddsColumn(lines: seq<string>, y: nat, x: nat)
    requires y < |lines|
    ensures Offset(lines, y, x) == Offset(lines, y, 0) + x
  {
    if y > 0 {
      OffsetAddsColumn(lines[1..], y - 1, x);
    }
  }

  /** A text in lines with a cursor in it. */
  datatype Caret = Caret(lines: seq<string>, y: nat, x: nat) {
    predicate Valid() {
      InText(lines, y, x)
    }

    function Text(): string {
      Joined(lines)
    }

    /** The cursor's place in the flat text. */
    function At(): nat
      requires y < |lines|
    {
      Offset(lines, y, x)
    }
  }

  /** `after` is `before` with the slice [from..to] replaced by `inserted`. */
  ghost predicate Edited(before: string, from: int, to: int, inserted: string, after: string) {
    0 <= from <= to <= |before| && after == before[..from] + inserted + before[to..]
  }

  /** The text from (y, x) to (y', x') replaced by the lines mid, with the cursor behind them. */
  function Replace(lines: seq<string>, y: nat, x: nat, y': nat, x': nat, mid: seq<string>): Caret
    requires InText(lines, y, x) && InText(lines, y', x') && mid != []
  {
    Caret(Splice(lines[..y], lines[y][..x], mid, lines[y'][x'..], lines[y' + 1..]),
          y + |mid| - 1, (if |mid| == 1 then x else 0) + |mid[|mid| - 1]|)
  }

  lemma {:induction false} ReplacedText(lines: seq<string>, y: nat, x: nat, y': nat, x': nat, mid: seq<string>)
    requires InText(lines, y, x) && InText(lines, y', x') && mid != []
    ensures Offset(lines, y, x) <= |Joined(lines)| && Offset(lines, y', x') <= |Joined(lines)|
    ensures Replace(lines, y, x, y', x', mid).Text()
         == Joined(lines)[..Offset(lines, y, x)] + Joined(mid) + Joined(lines)[Offset(lines, y', x')..]
  {
    CutAt(lines, y, x);
    CutAt(lines, y', x');
    SpliceText(lines[..y], lines[y][..x], mid, lines[y'][x'..], lines[y' + 1..]);
    var head, tail := Joined(lines[..y] + [lines[y][..x]]), Joined([lines[y'][x'..]] + lines[y' + 1..]);
    assert Joined(lines)[..|head|] == head;
    assert Joined(lines)[Offset(lines, y', x')..] == tail;
  }

  lemma {:induction false} ReplacedEnd(lines: seq<string>, y: nat, x: nat, y': nat, x': nat, mid: seq<string>)
    requires InText(lines, y, x) && InText(lines, y', x') && mid != []
    ensures var after := Replace(lines, y, x, y', x', mid);
      after.Valid() && after.At() == Offset(lines, y, x) + |Joined(mid)|
  {
    var after := Replace(lines, y, x, y', x', mid);
    SpliceText(lines[..y], lines[y][..x], mid, "", []);
    assert after.lines[..after.y] + [after.lines[after.y][..after.x]]
      == Splice(lines[..y], lines[y][..x], mid, "", []) by {
      var line := after.lines[after.y];
      if |mid| == 1 {
        assert line == lines[y][..x] + mid[0] + lines[y'][x'..];
        assert line[..after.x] == lines[y][..x] + mid[0] + "";
      } else {
        assert line == mid[|mid| - 1] + lines[y'][x'..];
        assert line[..after.x] == mid[|mid| - 1] + "";
      }
    }
    OffsetIsLength(after.lines, after.y, after.x);
    CutAt(lines, y, x);
    assert [""] + [] == [""];
  }

  /** Replacing the lines between two positions is editing the flat text between their offsets. */
  lemma {:induction false} ReplacedIsEdited(lines: seq<string>, y: nat, x: nat, y': nat, x': nat,
                                            mid: seq<string>, inserted: string, after: Caret)
    requires InText(lines, y, x) && InText(lines, y', x') && !Before(y', x', y, x) && mid != []
    requires inserted == Joined(mid) && after == Replace(lines, y, x, y', x', mid)
    ensures after.Valid() && after.At() == Offset(lines, y, x) + |inserted|
    ensures Edited(Joined(lines), Offset(lines, y, x), Offset(lines, y', x'), inserted, after.Text())
  {
    ReplacedText(lines, y, x, y', x', mid);
    ReplacedEnd(lines, y, x, y', x', mid);
    OffsetIsMonotone(lines, y', x', y, x);
  }

  /** The text between two positions, line by line. */
  function Between(lines: seq<string>, y: nat, x: nat, y': nat, x': nat): seq<string>
    requires InText(lines, y, x) && InText(lines, y', x') && !Before(y', x', y, x)
  {
    if y == y' then [lines[y][x..x']] else [lines[y][x..]] + lines[y + 1..y'] + [lines[y'][..x']]
  }

  lemma {:induction false} BetweenText(lines: seq<string>, y: nat, x: nat, y': nat, x': nat)
    requires InText(lines, y, x) && InText(lines, y', x') && !Before(y', x', y, x)
    ensures Offset(lines, y, x) <= Offset(lines, y', x') <= |Joined(lines)|
    ensures Joined(Between(lines, y, x, y', x')) == Joined(lines)[Offset(lines, y, x)..Offset(lines, y', x')]
  {
    var between := Between(lines, y, x, y', x');
    PutBack(lines, y, x, y', x');
    ReplacedText(lines, y, x, y', x', between);
    OffsetIsMonotone(lines, y', x', y, x);
    SliceOfEdit(Joined(lines), Offset(lines, y, x), Offset(lines, y', x'), Joined(between));
  }

  /** Putting the piece back where it came from changes nothing. */
  lemma {:induction false} PutBack(lines: seq<string>, y: nat, x: nat, y': nat, x': nat)
    requires InText(lines, y, x) && InText(lines, y', x') && !Before(y', x', y, x)
    ensures Replace(lines, y, x, y', x', Between(lines, y, x, y', x')).lines == lines
  {
    var between := Between(lines, y, x, y', x');
    if y == y' {
      assert lines[y][..x] + lines[y][x..x'] + lines[y][x'..] == lines[y];
    } else {
      assert lines[y][..x] + lines[y][x..] == lines[y] && lines[y'][..x'] + lines[y'][x'..] == lines[y'];
      assert between[1..|between| - 1] == lines[y + 1..y'];
    }
  }

  lemma {:induction false} SliceOfEdit(text: string, from: nat, to: nat, piece: string)
    requires Edited(text, from, to, piece, text)
    ensures piece == text[from..to]
  {
    assert |text| == from + |piece| + (|text| - to);
    assert text[from..to] == (text[..from] + piece + text[to..])[from..to];
  }
}
