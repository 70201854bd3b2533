/** The HELIX editor's buffer: lines, cursor, selection and undo tree (apps/helix.py). */
module Buffer {
  import opened Wrappers
  import opened Text
  import opened Edits

  class UndoNode {
    const lines: seq<string>
    const cy: nat
    const cx: nat
    const parent: UndoNode?
    /** Distance from the root. */
    ghost const depth: nat
    var children: seq<UndoNode>

    constructor (lines: seq<string>, cy: nat, cx: nat, parent: UndoNode?)
      ensures this.lines == lines && this.cy == cy && this.cx == cx && this.parent == parent && children == []
      ensures depth == if parent == null then 0 else parent.depth + 1
    {
      this.lines, this.cy, this.cx, this.parent := lines, cy, cx, parent;
      depth := if parent == null then 0 else parent.depth + 1;
      children := [];
    }

    predicate Sound() {
      InText(lines, cy, cx)
    }

    function Held(): Caret {
      Caret(lines, cy, cx)
    }
  }

  /** The nodes from the root down to a node. */
  datatype Way = Root(tip: UndoNode) | Below(up: Way, tip: UndoNode)

  ghost function Above(way: Way): set<UndoNode> {
    match way
    case Root(_) => {}
    case Below(up, _) => Above(up) + {up.tip}
  }

  /** Each step of the way goes to the last child. */
  ghost predicate LastChildren(way: Way)
    reads Above(way)
  {
    match way
    case Root(tip) => tip.parent == null
    case Below(up, tip) =>
      && LastChildren(up)
      && tip.parent == up.tip && (forall n <- Above(way) :: n.depth < tip.depth)
      && up.tip.children != [] && up.tip.children[|up.tip.children| - 1] == tip
  }

  class Buffer {
    const isSpace: char -> bool
    var lines: seq<string>
    var cy: nat
    var cx: nat
    var modified: bool
    var selStart: Option<Position>
    var selEnd: Option<Position>
    var undoRoot: UndoNode
    var undoCurrent: UndoNode
    /** All nodes of the undo tree, and the way from the root to the current node. */
    ghost var nodes: set<UndoNode>
    ghost var way: Way

    /**
     Every snapshot in the tree can be shown, and the current node is reached from the root by always
     taking the last child.
     */
    ghost predicate TreeOk()
      reads `undoCurrent, `nodes, `way, nodes
    {
      && (forall n <- nodes :: n.Sound()
           && forall c <- n.children :: c in nodes && c.parent == n && c.depth == n.depth + 1)
      && way.tip == undoCurrent && undoCurrent in nodes && Above(way) <= nodes && LastChildren(way)
    }

    ghost predicate Valid()
      reads `lines, `cy, `cx, `undoCurrent, `nodes, `way, nodes
    {
      TreeOk() && InText(lines, cy, cx)
    }

    /** The lines with the cursor in them. */
    function State(): Caret
      reads `lines, `cy, `cx
    {
      Caret(lines, cy, cx)
    }

    /** The buffer shows exactly what its undo node holds, as after creation, undo and redo. */
    predicate AtSnapshot()
      reads `lines, `cy, `cx, `undoCurrent
    {
      lines == undoCurrent.lines && cy == undoCurrent.cy && cx == undoCurrent.cx
    }

    constructor (content: seq<string>, isSpace: char -> bool)
      ensures Valid() && AtSnapshot() && fresh(nodes)
      ensures lines == (if content == [] then [""] else content) && cy == 0 && cx == 0
      ensures !modified && selStart == None && selEnd == None && this.isSpace == isSpace
    {
      this.isSpace := isSpace;
      lines := if content == [] then [""] else content;
      cy, cx, modified, selStart, selEnd := 0, 0, false, None, None;
      var root := new UndoNode(if content == [] then [""] else content, 0, 0, null);
      undoRoot, undoCurrent := root, root;
      nodes, way := {root}, Root(root);
    }

    /** Adds the present state below the current undo node and moves there. */
    method Snapshot()
      requires Valid()
      modifies `undoCurrent, `nodes, `way, undoCurrent`children
      ensures Valid() && AtSnapshot() && SnapshotTaken()
      ensures fresh(nodes - old(nodes))
    {
      var node := new UndoNode(lines, cy, cx, undoCurrent);
      undoCurrent.children := undoCurrent.children + [node];
      undoCurrent := node;
      nodes := nodes + {node};
      way := Below(way, node);
    }

    method Undo()
      requires Valid()
      modifies `undoCurrent, `lines, `cy, `cx, `modified, `way
      ensures Valid()
      ensures if old(undoCurrent.parent) != null
        then undoCurrent == old(undoCurrent.parent) && AtSnapshot() && modified
        else unchanged(`undoCurrent, `lines, `cy, `cx, `modified)
    {
      if undoCurrent.parent != null {
        undoCurrent := undoCurrent.parent;
        lines, cy, cx, modified := undoCurrent.lines, undoCurrent.cy, undoCurrent.cx, true;
        way := way.up;
      }
    }

    method Redo()
      requires Valid()
      modifies `undoCurrent, `lines, `cy, `cx, `way
      ensures Valid()
      ensures var down := old(undoCurrent.children);
        if down != [] then undoCurrent == down[|down| - 1] && AtSnapshot()
        else unchanged(`undoCurrent, `lines, `cy, `cx)
    {
      var down := undoCurrent.children;
      if down != [] {
        undoCurrent := down[|down| - 1];
        assert undoCurrent in down;
        lines, cy, cx := undoCurrent.lines, undoCurrent.cy, undoCurrent.cx;
        way := Below(way, undoCurrent);
      }
    }

    /** What every edit does to the undo tree: one new node, holding the state before the edit, becomes current. */
    twostate predicate SnapshotTaken()
      reads `undoCurrent
    {
      && fresh(undoCurrent) && undoCurrent.parent == old(undoCurrent)
      && undoCurrent.lines == old(lines) && undoCurrent.cy == old(cy) && undoCurrent.cx == old(cx)
    }

    /* Each edit takes a snapshot and then changes the lines; the second halves come first. */

    method PutText(ch: string)
      requires State().Valid()
      modifies `lines, `cx
      ensures State() == InsertAt(old(State()), ch)
    {
      var line := lines[cy];
      lines := lines[cy := line[..cx] + ch + line[cx..]];
      cx := cx + |ch|;
    }

    method TakeChar()
      requires State().Valid()
      modifies `lines, `cy, `cx
      ensures State() == DeleteAt(old(State()))
    {
      var line := lines[cy];
      if cx > 0 {
        lines := lines[cy := line[..cx - 1] + line[cx..]];
        cx := cx - 1;
      } else if cy > 0 {
        var prev := lines[cy - 1];
        cx := |prev|;
        lines := lines[cy - 1 := prev + line];
        lines := lines[..cy] + lines[cy + 1..];
        cy := cy - 1;
      }
    }

    method TakeLine()
      requires State().Valid()
      modifies `lines, `cy, `cx
      ensures State() == DeleteLineAt(old(State()))
    {
      if |lines| > 1 {
        lines := lines[..cy] + lines[cy + 1..];
        cy := if cy < |lines| - 1 then cy else |lines| - 1;
      } else {
        lines := lines[0 := ""];
      }
      cx := 0;
    }

    method BreakLine()
      requires State().Valid()
      modifies `lines, `cy, `cx
      ensures State() == NewlineAt(isSpace, old(State()))
    {
      var line := lines[cy];
      var indent := |line| - |LStrip(isSpace, line)|;
      if EndsWithColon(RStrip(isSpace, line)) {
        indent := indent + 4;
      }
      var rest := line[cx..];
      BehindSpace(isSpace, State());
      lines := lines[cy := line[..cx]];
      lines := lines[..cy + 1] + [Spaces(indent) + LStrip(isSpace, rest)] + lines[cy + 1..];
      cy := cy + 1;
      cx := indent;
      assert lines == BreakAt(old(State()), SpaceBehind(isSpace, old(State())), Spaces(indent)).lines;
    }

    method RepeatLine()
      requires State().Valid()
      modifies `lines, `cy
      ensures State() == DuplicateAt(old(State()))
    {
      var line := lines[cy];
      lines := lines[..cy + 1] + [line] + lines[cy + 1..];
      cy := cy + 1;
    }

    method TakeIndent()
      requires State().Valid() && Indented(lines[cy])
      modifies `lines, `cx
      ensures State() == DedentAt(old(State()))
    {
      lines := lines[cy := lines[cy][4..]];
      cx := if cx - 4 > 0 then cx - 4 else 0;
    }

    method PutBetween(s: Position, e: Position, newText: string)
      requires InText(lines, s.y, s.x) && InText(lines, e.y, e.x) && !Before(e.y, e.x, s.y, s.x)
      modifies `lines, `cy, `cx
      ensures State() == ReplaceBetween(old(lines), s, e, newText)
    {
      var before, after := lines[s.y][..s.x], lines[e.y][e.x..];
      var newLines := Split(newText);
      newLines := newLines[0 := before + newLines[0]];
      newLines := newLines[|newLines| - 1 := newLines[|newLines| - 1] + after];
      lines := lines[..s.y] + newLines + lines[e.y + 1..];
      cy := s.y + |newLines| - 1;
      cx := |newLines[|newLines| - 1]| - |after|;
      assert newLines == Glue(before, Split(newText), after);
    }

    method InsertChar(ch: string)
      requires Valid()
      modifies `undoCurrent, `nodes, `way, `lines, `cx, `modified, undoCurrent`children
      ensures Valid() && modified && SnapshotTaken() && fresh(nodes - old(nodes))
      ensures State() == InsertAt(old(State()), ch)
    {
      Snapshot();
      PutText(ch);
      modified := true;
    }

    method DeleteChar()
      requires Valid()
      modifies `undoCurrent, `nodes, `way, `lines, `cy, `cx, `modified, undoCurrent`children
      ensures Valid() && modified && SnapshotTaken() && fresh(nodes - old(nodes))
      ensures State() == DeleteAt(old(State()))
    {
      Snapshot();
      TakeChar();
      modified := true;
    }

    method DeleteLine()
      requires Valid()
      modifies `undoCurrent, `nodes, `way, `lines, `cy, `cx, `modified, undoCurrent`children
      ensures Valid() && modified && SnapshotTaken() && fresh(nodes - old(nodes))
      ensures State() == DeleteLineAt(old(State()))
    {
      Snapshot();
      TakeLine();
      modified := true;
    }

    method Newline()
      requires Valid()
      modifies `undoCurrent, `nodes, `way, `lines, `cy, `cx, `modified, undoCurrent`children
      ensures Valid() && modified && SnapshotTaken() && fresh(nodes - old(nodes))
      ensures State() == NewlineAt(isSpace, old(State()))
    {
      Snapshot();
      BreakLine();
      modified := true;
    }

    method DuplicateLine()
      requires Valid()
      modifies `undoCurrent, `nodes, `way, `lines, `cy, `modified, undoCurrent`children
      ensures Valid() && modified && SnapshotTaken() && fresh(nodes - old(nodes))
      ensures State() == DuplicateAt(old(State()))
    {
      Snapshot();
      RepeatLine();
      modified := true;
    }

    /** Only an indented line is dedented, and only then is there a snapshot. */
    method DedentLine()
      requires Valid()
      modifies `undoCurrent, `nodes, `way, `lines, `cx, `modified, undoCurrent`children
      ensures Valid() && State() == DedentAt(old(State())) && fresh(nodes - old(nodes))
      ensures if Indented(old(lines[cy])) then modified && SnapshotTaken()
        else unchanged(`undoCurrent, `nodes, `way, `modified)
    {
      if Indented(lines[cy]) {
        Snapshot();
        TakeIndent();
        modified := true;
      }
    }

    /** The cursor keys lead to some place in the text. */
    method Move(to: Position)
      requires Valid()
      modifies `cy, `cx
      ensures Valid() && State() == if InText(lines, to.y, to.x) then Caret(lines, to.y, to.x) else old(State())
    {
      if to.y < |lines| && to.x <= |lines[to.y]| {
        cy, cx := to.y, to.x;
      }
    }

    /** The next search match leads to a place remembered from when the search was made. */
    method Jump(to: Position)
      requires Valid()
      modifies `cy, `cx
      ensures TreeOk() && State() == Caret(lines, to.y, to.x) && (Valid() <==> InText(lines, to.y, to.x))
    {
      cy, cx := to.y, to.x;
    }

    method SetSelection(from: Position, to: Position)
      requires Valid()
      modifies `selStart, `selEnd
      ensures Valid() && HasSelection() && selStart.value == from && selEnd.value == to
    {
      selStart, selEnd := Some(from), Some(to);
    }

    predicate HasSelection()
      reads `selStart, `selEnd
    {
      selStart.Some? && selEnd.Some?
    }

    /** Both ends of a selection lie in existing lines. */
    predicate SelectionInText()
      reads `selStart, `selEnd, `lines
    {
      HasSelection() ==> selStart.value.y < |lines| && selEnd.value.y < |lines|
    }

    function SelectionEnds(): (Position, Position)
      requires HasSelection() && SelectionInText()
      reads `selStart, `selEnd, `lines
    {
      Ordered(lines, selStart.value, selEnd.value)
    }

    /** The slice of the flat text between the ends of the selection; without one, the cursor's line. */
    method SelectedText() returns (text: string)
      requires Valid() && SelectionInText()
      ensures if HasSelection()
        then var (s, e) := SelectionEnds();
          Offset(lines, s.y, s.x) <= Offset(lines, e.y, e.x) <= |Joined(lines)|
          && text == Joined(lines)[Offset(lines, s.y, s.x)..Offset(lines, e.y, e.x)]
        else text == lines[cy]
    {
      if !HasSelection() {
        return lines[cy];
      }
      var (s, e) := SelectionEnds();
      BetweenText(lines, s.y, s.x, e.y, e.x);
      if s.y == e.y {
        return lines[s.y][s.x..e.x];
      }
      var result := [lines[s.y][s.x..]];
      for y := s.y + 1 to e.y
        invariant result == [lines[s.y][s.x..]] + lines[s.y + 1..y]
      {
        result := result + [lines[y]];
      }
      result := result + [lines[e.y][..e.x]];
      return Joined(result);
    }

    method ReplaceFromTo(from: Position, to: Position, newText: string)
      requires Valid() && InText(lines, from.y, from.x) && InText(lines, to.y, to.x)
      requires !Before(to.y, to.x, from.y, from.x)
      modifies `undoCurrent, `nodes, `way, `lines, `cy, `cx, `modified, undoCurrent`children
      ensures Valid() && modified && SnapshotTaken() && fresh(nodes - old(nodes))
      ensures State() == ReplaceBetween(old(lines), from, to, newText)
    {
      Snapshot();
      PutBetween(from, to, newText);
      modified := true;
    }

    /**
     Puts new text in the place of the selection.  Without a selection the cursor's line is replaced,
     unless the new text has several lines, with neither a snapshot nor a move of the cursor: the cursor
     is then still in the text exactly if the new line is long enough.
     */
    method ReplaceSelection(newText: string)
      requires Valid() && SelectionInText()
      modifies `undoCurrent, `nodes, `way, `lines, `cy, `cx, `modified, `selStart, `selEnd, undoCurrent`children
      ensures TreeOk() && fresh(nodes - old(nodes))
      ensures old(HasSelection()) ==> Valid() && modified && SnapshotTaken() && !HasSelection()
      ensures old(HasSelection()) ==> var ends := old(SelectionEnds());
        State() == ReplaceBetween(old(lines), ends.0, ends.1, newText)
      ensures !old(HasSelection()) ==>
        && unchanged(`undoCurrent, `nodes, `way, `cy, `cx, `modified, `selStart, `selEnd)
        && lines == (if '\n' in newText then old(lines) else old(lines)[cy := newText])
        && (State().Valid() <==> '\n' in newText || cx <= |newText|)
    {
      if HasSelection() {
        var ends := SelectionEnds();
        ReplaceFromTo(ends.0, ends.1, newText);
        selStart, selEnd := None, None;
      } else if '\n' !in newText {
        lines := lines[cy := newText];
      }
    }

    /** A block is replaced by selecting it first. */
    method ReplaceBlockBy(from: Position, to: Position, text: string)
      requires Valid()
      modifies `undoCurrent, `nodes, `way, `lines, `cy, `cx, `modified, `selStart, `selEnd, undoCurrent`children
      ensures Valid() && Applied(ReplaceBlock(from, to, text))
    {
      if from.y < |lines| && to.y < |lines| {
        SetSelection(from, to);
        assert SelectionEnds() == Ordered(lines, from, to);
        ReplaceSelection(text);
      }
    }

    /** An edit that takes effect takes a snapshot first; any other leaves everything as it was. */
    twostate predicate Applied(e: Edit)
      requires old(State()).Valid()
      reads `undoCurrent, `lines, `cy, `cx, `modified, `nodes
    {
      && State() == EditAt(isSpace, old(State()), e) && fresh(nodes - old(nodes))
      && if TakesEffect(old(State()), e) then modified && SnapshotTaken()
         else undoCurrent == old(undoCurrent) && nodes == old(nodes) && modified == old(modified)
    }

    method Apply(e: Edit)
      requires Valid()
      modifies `undoCurrent, `nodes, `way, `lines, `cy, `cx, `modified, `selStart, `selEnd, undoCurrent`children
      ensures Valid() && Applied(e)
    {
      match e
      case Insert(ch) => InsertChar(ch);
      case Delete => DeleteChar();
      case DeleteWholeLine => DeleteLine();
      case Break => Newline();
      case Duplicate => DuplicateLine();
      case Dedent => DedentLine();
      case ReplaceBlock(from, to, text) => ReplaceBlockBy(from, to, text);
    }
  }

  /* ---------- what undo does ---------- */

  /**
   Snapshots are taken before edits, so undo takes an edit back exactly when the edit was made in a state
   its undo node held.
   */
  method EditThenUndo(b: Buffer, e: Edit)
    requires b.Valid() && TakesEffect(b.State(), e)
    modifies b, b.undoCurrent`children
    ensures b.Valid() && (b.State() == old(b.State()) <==> old(b.AtSnapshot()))
  {
    b.Apply(e);
    b.Undo();
  }

  /** The undo nodes a row of edits has added, the latest last. */
  datatype Trail = Start | Step(before: Trail, node: UndoNode)

  ghost function Tip(first: UndoNode, trail: Trail): UndoNode {
    if trail.Start? then first else trail.node
  }

  /** Each node hangs below the one before it and holds the state before its edit. */
  ghost predicate Traces(isSpace: char -> bool, start: Caret, first: UndoNode, edits: seq<Edit>, trail: Trail)
    requires start.Valid()
    decreases trail
  {
    match trail
    case Start => edits == []
    case Step(before, node) =>
      && edits != []
      && var earlier := edits[..|edits| - 1];
         && node.parent == Tip(first, before) && node.Held() == AfterEdits(isSpace, start, earlier)
         && Traces(isSpace, start, first, earlier, before)
  }

  lemma {:induction false} TrailGrows(isSpace: char -> bool, start: Caret, first: UndoNode, edits: seq<Edit>, i: nat,
                                      trail: Trail, node: UndoNode)
    requires start.Valid() && i < |edits| && Traces(isSpace, start, first, Effective(isSpace, start, edits[..i]), trail)
    requires TakesEffect(AfterEdits(isSpace, start, edits[..i]), edits[i])
    requires node.parent == Tip(first, trail) && node.Held() == AfterEdits(isSpace, start, edits[..i])
    ensures Traces(isSpace, start, first, Effective(isSpace, start, edits[..i + 1]), Step(trail, node))
  {
    EffectiveOneMore(isSpace, start, edits, i);
    EffectiveSuffice(isSpace, start, edits[..i]);
    var taken := Effective(isSpace, start, edits[..i + 1]);
    assert taken[..|taken| - 1] == Effective(isSpace, start, edits[..i]);
  }

  method ApplyNext(b: Buffer, edits: seq<Edit>, i: nat, ghost start: Caret, ghost first: UndoNode, ghost trail: Trail)
    returns (ghost longer: Trail)
    requires b.Valid() && start.Valid() && i < |edits| && b.State() == AfterEdits(b.isSpace, start, edits[..i])
    requires Traces(b.isSpace, start, first, Effective(b.isSpace, start, edits[..i]), trail)
    requires b.undoCurrent == Tip(first, trail)
    modifies b, b.nodes`children
    ensures b.Valid() && fresh(b.nodes - old(b.nodes))
    ensures b.State() == AfterEdits(b.isSpace, start, edits[..i + 1])
    ensures Traces(b.isSpace, start, first, Effective(b.isSpace, start, edits[..i + 1]), longer)
    ensures b.undoCurrent == Tip(first, longer)
  {
    longer := trail;
    EffectiveOneMore(b.isSpace, start, edits, i);
    ghost var effective := TakesEffect(b.State(), edits[i]);
    b.Apply(edits[i]);
    if effective {
      TrailGrows(b.isSpace, start, first, edits, i, trail, b.undoCurrent);
      longer := Step(trail, b.undoCurrent);
    }
  }

  method ApplyAll(b: Buffer, edits: seq<Edit>) returns (ghost trail: Trail)
    requires b.Valid()
    modifies b, b.nodes`children
    ensures b.Valid() && b.State() == AfterEdits(b.isSpace, old(b.State()), edits)
    ensures Traces(b.isSpace, old(b.State()), old(b.undoCurrent), Effective(b.isSpace, old(b.State()), edits), trail)
    ensures b.undoCurrent == Tip(old(b.undoCurrent), trail)
  {
    ghost var start, first := b.State(), b.undoCurrent;
    trail := Start;
    for i := 0 to |edits|
      invariant b.Valid() && fresh(b.nodes - old(b.nodes))
      invariant b.State() == AfterEdits(b.isSpace, start, edits[..i])
      invariant Traces(b.isSpace, start, first, Effective(b.isSpace, start, edits[..i]), trail)
      invariant b.undoCurrent == Tip(first, trail)
    {
      trail := ApplyNext(b, edits, i, start, first, trail);
    }
    assert edits[..|edits|] == edits;
  }

  /** Undo goes back along the trail. */
  method UndoTimes(b: Buffer, j: nat, ghost start: Caret, ghost first: UndoNode, ghost edits: seq<Edit>,
                   ghost trail: Trail)
    returns (ghost rest: Trail)
    requires b.Valid() && 0 < j <= |edits| && start.Valid()
    requires Traces(b.isSpace, start, first, edits, trail) && b.undoCurrent == Tip(first, trail)
    modifies b
    ensures b.Valid() && b.AtSnapshot()
    ensures Traces(b.isSpace, start, first, edits[..|edits| - j], rest) && b.undoCurrent == Tip(first, rest)
  {
    rest := trail;
    assert edits[..|edits|] == edits;
    for k := 0 to j
      invariant b.Valid() && (k > 0 ==> b.AtSnapshot())
      invariant Traces(b.isSpace, start, first, edits[..|edits| - k], rest) && b.undoCurrent == Tip(first, rest)
    {
      assert edits[..|edits| - k][..|edits| - k - 1] == edits[..|edits| - k - 1];
      b.Undo();
      rest := rest.before;
    }
  }

  /**
   Undoing lags one edit behind: after n edits that took effect the first undo takes back two, each further one
   another, so that j undos lead to the state before edit n - j; n undos lead to what the first undo node held.
   */
  method EditsThenUndos(b: Buffer, edits: seq<Edit>, j: nat)
    requires b.Valid() && 0 < j <= |Effective(b.isSpace, b.State(), edits)|
    modifies b, b.nodes`children
    ensures b.Valid()
    ensures var taken := Effective(b.isSpace, old(b.State()), edits);
      b.State() == if j < |taken| then AfterEdits(b.isSpace, old(b.State()), taken[..|taken| - j - 1])
        else old(b.undoCurrent.Held())
  {
    ghost var start, first := b.State(), b.undoCurrent;
    ghost var taken := Effective(b.isSpace, start, edits);
    ghost var trail := ApplyAll(b, edits);
    ghost var rest := UndoTimes(b, j, start, first, taken, trail);
    assert b.State() == b.undoCurrent.Held();
    if j < |taken| {
      assert taken[..|taken| - j][..|taken| - j - 1] == taken[..|taken| - j - 1];
    }
  }

  /** In particular, after two edits the first undo takes back both. */
  method TwoEditsThenUndo(b: Buffer, first: Edit, second: Edit)
    requires b.Valid() && TakesEffect(b.State(), first) && TakesEffect(EditAt(b.isSpace, b.State(), first), second)
    modifies b, b.nodes`children
    ensures b.Valid() && b.State() == old(b.State())
  {
    ghost var both := [first, second];
    assert both[..1] == [first] && both[..1][..0] == [];
    assert Effective(b.isSpace, b.State(), both[..1]) == [first];
    assert Effective(b.isSpace, b.State(), both) == both;
    EditsThenUndos(b, [first, second], 1);
    assert both[..0] == [];
  }

  /** Undoing and redoing leads back to the same undo node, although the edits made since it was taken are gone. */
  method UndoThenRedo(b: Buffer)
    requires b.Valid() && b.undoCurrent.parent != null
    modifies b
    ensures b.Valid() && b.undoCurrent == old(b.undoCurrent) && b.AtSnapshot()
  {
    assert LastChildren(b.way);
    b.Undo();
    b.Redo();
  }

  datatype Key =
    | Do(edit: Edit)
    | UndoKey
    | RedoKey
    | MoveTo(to: Position)
    | JumpTo(to: Position)
    | Select(from: Position, to: Position)
    | ReplaceSelected(text: string)

  /** One key other than a jump.  The cursor keys stay within the text; a selection beyond it is not replaced. */
  method Press(b: Buffer, key: Key)
    requires b.Valid() && !key.JumpTo?
    modifies b, b.nodes`children
    ensures b.Valid() && fresh(b.nodes - old(b.nodes))
  {
    match key
    case Do(edit) => b.Apply(edit);
    case UndoKey => b.Undo();
    case RedoKey => b.Redo();
    case MoveTo(to) => b.Move(to);
    case Select(from, to) => b.SetSelection(from, to);
    case ReplaceSelected(text) =>
      if b.HasSelection() && b.SelectionInText() {
        b.ReplaceSelection(text);
      }
  }

  /**
   Whatever is typed, undone, redone, selected and replaced, the text has a line for the cursor and a column
   in it.  The one way out is a jump to a place that is not, or no longer, in the text; the session ends there.
   */
  method Session(b: Buffer, keys: seq<Key>) returns (left: Option<Position>)
    requires b.Valid()
    modifies b, b.nodes`children
    ensures left.None? ==> b.Valid() && b.lines != [] && b.cy < |b.lines| && b.cx <= |b.lines[b.cy]|
    ensures left.Some? ==> JumpTo(left.value) in keys && !InText(b.lines, left.value.y, left.value.x)
    ensures left.Some? ==> b.TreeOk() && b.cy == left.value.y && b.cx == left.value.x
  {
    for i := 0 to |keys|
      invariant b.Valid() && fresh(b.nodes - old(b.nodes))
    {
      if keys[i].JumpTo? {
        b.Jump(keys[i].to);
        if !InText(b.lines, b.cy, b.cx) {
          return Some(keys[i].to);
        }
      } else {
        Press(b, keys[i]);
      }
    }
    return None;
  }
}
