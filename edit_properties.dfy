/** Properties of ice.c's editing commands, proved on the value model: which
    command undoes which, what merging and splitting lines conserve, and how the
    mode machine ends the loop. */
module EditProperties {
  import opened Text
  import opened EditModel

  /** `n` presses of Backspace. */
  function Backspaces(d: Doc, n: nat): (r: Doc)
    requires Wf(d)
    ensures Wf(r)
    decreases n
  {
    if n == 0 then d else Backspaces(DeleteLeft(d, false), n - 1)
  }

  /** Backspace pressed once per inserted character removes a block inserted at the
      cursor and puts the cursor back. */
  lemma {:induction false} BackspacesUndoInsert(d: Doc, t: seq<char>)
    requires Wf(d) && ValidText(t)
    ensures Backspaces(InsertAt(d, t), |t|) == d
    decreases |t|
  {
    var c := Cur(d);
    if t == [] {
      assert c[..d.cp] + t + c[d.cp..] == c;
      assert d.lines[d.row := c] == d.lines;
    } else {
      var t' := t[..|t| - 1];
      assert ValidText(t') by {
        forall j | 0 <= j < |t'| ensures ValidChar(t'[j] as int) { assert t'[j] == t[j]; }
      }
      var n := c[..d.cp] + t + c[d.cp..];
      var k := d.cp + |t|;
      assert n[..k - 1] + n[k..] == c[..d.cp] + t' + c[d.cp..];
      assert DeleteLeft(InsertAt(d, t), false) == InsertAt(d, t');
      BackspacesUndoInsert(d, t');
    }
  }

  /** Backspace undoes typing one accepted character. */
  lemma BackspaceUndoesInsertChar(d: Doc, ch: int)
    requires Wf(d) && ValidChar(ch)
    ensures DeleteLeft(InsertChar(d, ch), false) == d
  {
    assert ValidText([ch as char]);
    BackspacesUndoInsert(d, [ch as char]);
    assert Backspaces(InsertChar(d, ch), 1) == DeleteLeft(InsertChar(d, ch), false);
  }

  /** TAB_WIDTH presses of Backspace undo a Tab. */
  lemma BackspacesUndoTab(d: Doc)
    requires Wf(d)
    ensures Backspaces(InsertTab(d), TAB_WIDTH) == d
  {
    BackspacesUndoInsert(d, Spaces(TAB_WIDTH));
  }

  /** Typing the character Backspace removed restores the line and the cursor. */
  lemma InsertUndoesBackspace(d: Doc)
    requires Wf(d) && d.cp > 0
    ensures InsertChar(DeleteLeft(d, false), Cur(d)[d.cp - 1] as int) == d
  {
    var c := Cur(d);
    var x := c[d.cp - 1];
    assert ValidText(c);
    assert ValidChar(x as int);
    var n := c[..d.cp - 1] + c[d.cp..];
    assert n[..d.cp - 1] + [x] + n[d.cp - 1..] == c;
    assert d.lines[d.row := n][d.row := c] == d.lines;
  }

  /** Backspace inside a line removes exactly the character before the cursor. */
  lemma BackspaceRemovesOne(d: Doc)
    requires Wf(d) && d.cp > 0
    ensures var r := DeleteLeft(d, false);
            && r.lines == d.lines[d.row := Cur(d)[..d.cp - 1] + Cur(d)[d.cp..]]
            && r.row == d.row && r.cp == d.cp - 1
            && |Cur(r)| == |Cur(d)| - 1
  {
  }

  /** Ctrl+W inside a line removes, in one cut, the spaces left of the cursor and the
      word before them; the cut is never empty and the cursor lands at its start. */
  lemma WordDeleteSpan(d: Doc)
    requires Wf(d) && d.cp > 0
    ensures var c := Cur(d);
            var pos := WordLeft(c, d.cp);
            var q := SkipSpacesLeft(c, d.cp);
            var r := DeleteLeft(d, true);
            && pos < d.cp
            && r.lines == d.lines[d.row := c[..pos] + c[d.cp..]]
            && r.row == d.row && r.cp == pos
            && (forall i :: pos <= i < q ==> c[i] != ' ')
            && (forall i :: q <= i < d.cp ==> c[i] == ' ')
            && (pos == 0 || c[pos - 1] == ' ')
  {
    WordLeftSpan(Cur(d), d.cp);
  }

  /** All the characters of a sequence of lines, in order. */
  function Flatten(ls: seq<seq<char>>): seq<char> {
    if ls == [] then [] else ls[0] + Flatten(ls[1..])
  }

  lemma {:induction false} FlattenAppend(a: seq<seq<char>>, b: seq<seq<char>>)
    ensures Flatten(a + b) == Flatten(a) + Flatten(b)
  {
    if a == [] {
      assert a + b == b;
    } else {
      assert (a + b)[1..] == a[1..] + b;
      FlattenAppend(a[1..], b);
    }
  }

  /** The cursor's position in the flattened text. */
  function Offset(d: Doc): nat
    requires d.row <= |d.lines|
  {
    |Flatten(d.lines[..d.row])| + d.cp
  }

  /** Backspace or Ctrl+W at the start of a line: with a previous line the two are
      merged, so one line fewer, no character lost or duplicated, and the cursor still
      at the same character; on the first line nothing changes. */
  lemma DeleteAtLineStart(d: Doc, word: bool)
    requires Wf(d) && d.cp == 0
    ensures d.row == 0 ==> DeleteLeft(d, word) == d
    ensures d.row > 0 ==>
              var r := DeleteLeft(d, word);
              && |r.lines| == |d.lines| - 1
              && r.row == d.row - 1
              && Cur(r) == d.lines[d.row - 1] + Cur(d)
              && r.cp == |d.lines[d.row - 1]|
              && Flatten(r.lines) == Flatten(d.lines)
              && Offset(r) == Offset(d)
  {
    if d.row > 0 {
      var r := DeleteLeft(d, word);
      var a := d.lines[..d.row - 1];
      var p := d.lines[d.row - 1];
      var c := Cur(d);
      var b := d.lines[d.row + 1..];
      assert d.lines == a + [p, c] + b;
      assert r.lines == a + [p + c] + b;
      FlattenAppend(a + [p, c], b);
      FlattenAppend(a, [p, c]);
      FlattenAppend(a + [p + c], b);
      FlattenAppend(a, [p + c]);
      assert [p, c][1..] == [c] && [c][1..] == [];
      assert Flatten([p, c]) == p + c;
      assert Flatten([p + c]) == p + c;
      assert d.lines[..d.row] == a + [p];
      FlattenAppend(a, [p]);
      assert r.lines[..r.row] == a;
    }
  }

  /** Enter: the line is cut at the cursor, the new line right after it holds the
      line's indentation as spaces followed by the cut-off part, the lines around are
      untouched, and the cursor lands inside the new line. */
  lemma SplitShape(d: Doc)
    requires Wf(d)
    ensures var r := Split(d);
            var c := Cur(d);
            var indent := LeadingSpaces(c);
            && |r.lines| == |d.lines| + 1
            && r.lines[..d.row] == d.lines[..d.row]
            && r.lines[d.row] == c[..d.cp]
            && r.lines[d.row + 1] == Spaces(indent) + c[d.cp..]
            && r.lines[d.row + 2..] == d.lines[d.row + 1..]
            && r.row == d.row + 1 && r.cp == indent
            && r.cp <= |Cur(r)|
  {
    var c := Cur(d);
    var indent := LeadingSpaces(c);
    assert c[..indent] == Spaces(indent);
  }

  /** On a line that does not start with a space, Backspace (or Ctrl+W) right after
      Enter joins the two halves again and puts the cursor back. */
  lemma MergeUndoesSplit(d: Doc, word: bool)
    requires Wf(d) && LeadingSpaces(Cur(d)) == 0
    ensures DeleteLeft(Split(d), word) == d
  {
    var s := Split(d);
    var c := Cur(d);
    assert c[..0] + c[d.cp..] == c[d.cp..];
    assert c[..d.cp] + c[d.cp..] == c;
    var ls := d.lines[..d.row] + [c[..d.cp], c[d.cp..]] + d.lines[d.row + 1..];
    assert s.lines == ls;
    assert ls[..d.row] == d.lines[..d.row];
    assert ls[d.row + 2..] == d.lines[d.row + 1..];
    assert d.lines == d.lines[..d.row] + [c] + d.lines[d.row + 1..];
  }

  /** Plain Right undoes a plain Left that moved, also across a line boundary. */
  lemma RightUndoesLeft(d: Doc)
    requires Wf(d) && (d.cp > 0 || d.row > 0)
    ensures Right(Left(d, false), false) == d
  {
  }

  /** Plain Left undoes a plain Right that moved, also across a line boundary. */
  lemma LeftUndoesRight(d: Doc)
    requires Wf(d) && (d.cp < |Cur(d)| || d.row + 1 < |d.lines|)
    ensures Left(Right(d, false), false) == d
  {
  }

  /** Up and Down move one line and clamp the cursor to the line they reach; Down
      undoes Up when the cursor fitted on the line above. */
  lemma VerticalMotion(d: Doc)
    requires Wf(d)
    ensures d.row > 0 ==> Up(d).row == d.row - 1 && Up(d).cp == Min(d.cp, |d.lines[d.row - 1]|)
    ensures d.row + 1 < |d.lines| ==> Down(d).row == d.row + 1 && Down(d).cp == Min(d.cp, |d.lines[d.row + 1]|)
    ensures d.row > 0 && d.cp <= |d.lines[d.row - 1]| ==> Down(Up(d)) == d
  {
  }

  function Min(a: nat, b: nat): nat {
    if a < b then a else b
  }

  /** Ctrl+Left and Ctrl+Right move within the line whenever the cursor is not at
      the line's edge; at the edge they behave like the plain arrows and change line. */
  lemma CtrlMotion(d: Doc)
    requires Wf(d)
    ensures d.cp > 0 ==> Left(d, true).row == d.row && Left(d, true).cp < d.cp
                         && Left(d, true).cp == WordLeft(Cur(d), d.cp)
    ensures d.cp < |Cur(d)| ==> Right(d, true).row == d.row && Right(d, true).cp > d.cp
                                && Right(d, true).cp == WordRight(Cur(d), d.cp)
    ensures d.cp == 0 ==> Left(d, true) == Left(d, false)
    ensures d.cp == |Cur(d)| ==> Right(d, true) == Right(d, false)
  {
    if d.cp > 0 { WordLeftSpan(Cur(d), d.cp); }
    if d.cp < |Cur(d)| { WordRightSpan(Cur(d), d.cp); }
  }

  /** The buffer the editor keeps always exports to text that splits back into the
      same lines. */
  lemma ExportRoundTrip(d: Doc)
    requires Wf(d)
    ensures SplitLines(Export(d.lines)) == d.lines
  {
    forall i | 0 <= i < |d.lines| ensures NoNewline(d.lines[i]) {
      ValidTextIsPlain(d.lines[i]);
    }
    SplitExport(d.lines);
  }

  /** The loop ends exactly on Ctrl+C, in any mode, or on y/Y/n/N in the menu. */
  lemma QuitKeys(e: Editor, ev: Event)
    requires Wf(e.doc)
    ensures Handle(e, ev).quit <==>
              ev.KeyEvent? && (ev.key == CtrlC || (e.mode == MenuMode && ev.key != Esc && Quits(ev.ch)))
    ensures Handle(e, ev).quit ==> Handle(e, ev).next == e
  {
  }

  /** Esc switches between the two modes, and pressing it twice changes nothing. */
  lemma EscToggles(e: Editor, ch: int, ctrl: bool)
    requires Wf(e.doc)
    ensures var e' := Handle(e, KeyEvent(Esc, ch, ctrl)).next;
            && e'.mode != e.mode && e'.doc == e.doc
            && Handle(e', KeyEvent(Esc, ch, ctrl)).next == e
  {
  }

  /** The buffer changes only on a key event in edit mode; the menu never edits. */
  lemma OnlyEditModeEdits(e: Editor, ev: Event)
    requires Wf(e.doc)
    ensures Handle(e, ev).next.doc != e.doc ==>
              e.mode == EditMode && ev.KeyEvent? && ev.key != CtrlC && ev.key != Esc
    ensures Handle(e, ev).next.mode != e.mode ==>
              ev.KeyEvent? && (ev.key == Esc || (e.mode == MenuMode && ResumesEditing(ev.ch)))
  {
  }
}
