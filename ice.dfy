/** ice.c's editor state g_state and handle_events over it: the mode, the line
    list, the current line and the cursor offset, changed in place by one input
    event at a time. Every operation is proved to leave the state equal to what
    the function of module EditModel for that key computes from the state before,
    so the properties proved there hold of the editor. */
module Ice {
  import opened Support
  import opened Text
  import opened IceList
  import EditModel

  /** g_state. */
  class State {
    var m: EditModel.Mode
    var lines: LineList
    /** The current line. */
    var cl: Line
    /** The cursor offset within the current line. */
    var cp: nat
    /** The position of the current line in the list. */
    ghost var row: nat

    /** The buffer as a value: the lines' texts, the current row, the cursor. */
    ghost function Doc(): EditModel.Doc
      reads this, lines
    {
      EditModel.Doc(lines.Contents, row, cp)
    }

    ghost function Abs(): EditModel.Editor
      reads this, lines
    {
      EditModel.Editor(m, Doc())
    }

    /** The list is well formed, the current line is the node at `row`, and the
        buffer keeps the editor's invariant. */
    ghost predicate Valid()
      reads this, lines, NodeSet(lines.Nodes), BufSet(lines.Bufs)
    {
      && lines.Valid()
      && row < |lines.Nodes| && cl == lines.Nodes[row]
      && EditModel.Wf(Doc())
    }

    /** tui_loop's start-up: edit mode, a list holding one empty line, which is
        current, and the cursor at its start. */
    constructor ()
      ensures Valid() && Abs() == EditModel.Editor(EditModel.EditMode, EditModel.Initial())
      ensures fresh(lines)
    {
      m := EditModel.EditMode;
      var l := new LineList();
      l.Append(Some(""));
      assert l.Contents == [[]];
      lines := l;
      cl := l.head;
      cp := 0;
      row := 0;
    }

    /** The characters [from, cp) of the current line are cut out and the cursor
        goes to `from` (the memmove of Backspace and Ctrl+W). */
    method CutBack(from: nat)
      requires Valid() && from <= cp
      modifies this`cp, lines`Bufs, lines`Contents, cl`cap, cl`len, cl`buf, cl`Text, cl.buf
      ensures Valid() && Doc() == EditModel.Cut(old(Doc()), from, old(cp))
    {
      LineList.CutIn(lines, cl, row, from, cp);
      cp := from;
    }

    /** Backspace at the start of a line that has a previous one: the line is
        appended to the previous line (strcat, the buffer growing when needed),
        which becomes current with the cursor at its old end, and the line is
        removed from the list. */
    method MergeUp()
      requires Valid() && cp == 0 && row > 0
      modifies this`cl, this`cp, this`row, lines, NodeSet(lines.Nodes), BufSet(lines.Bufs)
      ensures Valid() && Doc() == EditModel.Merge(old(Doc()))
    {
      ghost var d := Doc();
      assert Owns(lines.Nodes[row], lines.Bufs[row], d.lines[row]);
      var cur := cl;
      var curlen := cur.len;
      var prev := cur.prev;
      assert prev == lines.Nodes[row - 1];
      LineList.MergeIn(lines, prev, cur, row);
      assert Owns(lines.Nodes[row - 1], lines.Bufs[row - 1], lines.Contents[row - 1]);
      cl := prev;
      cp := prev.len - curlen;
      row := row - 1;
    }

    /** Backspace, Backspace2 (word == false) and Ctrl+W (word == true). */
    method DeleteLeft(word: bool)
      requires Valid()
      modifies this`cl, this`cp, this`row, lines, NodeSet(lines.Nodes), BufSet(lines.Bufs)
      ensures Valid() && Doc() == EditModel.DeleteLeft(old(Doc()), word)
    {
      assert Owns(lines.Nodes[row], lines.Bufs[row], lines.Contents[row]);
      if cp > 0 {
        if word {
          var pos := cl.ScanWordLeft(cp);
          if cp - pos > 0 {
            CutBack(pos);
          }
        } else {
          CutBack(cp - 1);
        }
      } else if cl.prev != null {
        MergeUp();
      }
    }

    /** Tab: TAB_WIDTH spaces at the cursor, which moves past them. */
    method InsertTab()
      requires Valid()
      modifies this`cp, lines`Bufs, lines`Contents, cl`cap, cl`len, cl`buf, cl`Text, cl.buf
      ensures Valid() && Doc() == EditModel.InsertTab(old(Doc()))
    {
      LineList.InsertTabIn(lines, cl, row, cp);
      cp := cp + EditModel.TAB_WIDTH;
    }

    /** The default branch: a character valid_char accepts is inserted at the
        cursor, which moves past it; any other character is ignored. */
    method InsertChar(ch: int)
      requires Valid()
      modifies this`cp, lines`Bufs, lines`Contents, cl`cap, cl`len, cl`buf, cl`Text, cl.buf
      ensures Valid() && Doc() == EditModel.InsertChar(old(Doc()), ch)
    {
      if EditModel.ValidChar(ch) {
        LineList.InsertCharIn(lines, cl, row, cp, ch as char);
        cp := cp + 1;
      }
    }

    /** Enter: a new line after the current one holds the current line's leading
        spaces followed by the text after the cursor; the current line is cut at
        the cursor; the new line becomes current, the cursor just after the
        indentation. */
    method Split()
      requires Valid()
      modifies this`cl, this`cp, this`row, lines, NodeSet(lines.Nodes), BufSet(lines.Bufs)
      ensures Valid() && Doc() == EditModel.Split(old(Doc()))
    {
      ghost var d := Doc();
      assert Owns(lines.Nodes[row], lines.Bufs[row], d.lines[row]);
      var curline := cl;
      var s := curline.buf[..curline.len];
      assert s == d.lines[row];
      var newpos := EditModel.LeadingSpaces(s);
      var text := s[..newpos] + s[cp..];
      EditModel.SplitParts(d);
      EditModel.ValidTextIsPlain(text);
      var newline := LineList.SplitIn(lines, curline, row, cp, text);
      cl := newline;
      cp := newpos;
      row := row + 1;
    }

    /** Arrow Left (ctrl: the modifier is exactly Ctrl): back one character or
        over spaces and a word, or to the end of the previous line. */
    method Left(ctrl: bool)
      requires Valid()
      modifies this`cl, this`cp, this`row
      ensures Valid() && Doc() == EditModel.Left(old(Doc()), ctrl)
    {
      assert Owns(lines.Nodes[row], lines.Bufs[row], lines.Contents[row]);
      if cp > 0 {
        if ctrl {
          cp := cl.ScanWordLeft(cp);
        } else {
          cp := cp - 1;
        }
      } else if cl.prev != null {
        cl := cl.prev;
        row := row - 1;
        assert Owns(lines.Nodes[row], lines.Bufs[row], lines.Contents[row]);
        cp := cl.len;
      }
    }

    /** Arrow Right (ctrl: the modifier is exactly Ctrl): on one character or
        over a word and spaces, or to the start of the next line. */
    method Right(ctrl: bool)
      requires Valid()
      modifies this`cl, this`cp, this`row
      ensures Valid() && Doc() == EditModel.Right(old(Doc()), ctrl)
    {
      assert Owns(lines.Nodes[row], lines.Bufs[row], lines.Contents[row]);
      if cp < cl.len {
        if ctrl {
          cp := cl.ScanWordRight(cp);
        } else {
          cp := cp + 1;
        }
      } else if cl.next != null {
        cl := cl.next;
        row := row + 1;
        cp := 0;
      }
    }

    /** Arrow Up: to the previous line, the cursor clamped to its length. */
    method Up()
      requires Valid()
      modifies this`cl, this`cp, this`row
      ensures Valid() && Doc() == EditModel.Up(old(Doc()))
    {
      if cl.prev != null {
        cl := cl.prev;
        row := row - 1;
        assert Owns(lines.Nodes[row], lines.Bufs[row], lines.Contents[row]);
        if cp > cl.len {
          cp := cl.len;
        }
      }
    }

    /** Arrow Down: to the next line, the cursor clamped to its length. */
    method Down()
      requires Valid()
      modifies this`cl, this`cp, this`row
      ensures Valid() && Doc() == EditModel.Down(old(Doc()))
    {
      if cl.next != null {
        cl := cl.next;
        row := row + 1;
        assert Owns(lines.Nodes[row], lines.Bufs[row], lines.Contents[row]);
        if cp > cl.len {
          cp := cl.len;
        }
      }
    }

    /** One key in edit mode, dispatched on the key code as handle_events does
        after Esc; every code it does not name goes to the default branch. */
    method EditKey(key: EditModel.Key, ch: int, ctrl: bool)
      requires Valid()
      modifies this`cl, this`cp, this`row, lines, NodeSet(lines.Nodes), BufSet(lines.Bufs)
      ensures Valid() && Doc() == EditModel.EditKey(old(Doc()), key, ch, ctrl)
    {
      assert Owns(lines.Nodes[row], lines.Bufs[row], lines.Contents[row]);
      match key
      case Backspace => DeleteLeft(false);
      case Backspace2 => DeleteLeft(false);
      case CtrlW => DeleteLeft(true);
      case Tab => InsertTab();
      case Enter => Split();
      case ArrowLeft => Left(ctrl);
      case ArrowRight => Right(ctrl);
      case ArrowUp => Up();
      case ArrowDown => Down();
      case _ => InsertChar(ch);
    }

    /** handle_events for one polled event: the new state and whether the main
        loop ends are those EditModel.Handle gives. */
    method HandleEvent(ev: EditModel.Event) returns (quit: bool)
      requires Valid()
      modifies this, lines, NodeSet(lines.Nodes), BufSet(lines.Bufs)
      ensures Valid()
      ensures EditModel.Handle(old(Abs()), ev) == EditModel.Outcome(Abs(), quit)
    {
      assert Owns(lines.Nodes[row], lines.Bufs[row], lines.Contents[row]);
      quit := false;
      match ev
      case OtherEvent =>
      case KeyEvent(key, ch, ctrl) =>
        if key == EditModel.CtrlC {
          quit := true;
        } else if m == EditModel.MenuMode {
          if key == EditModel.Esc || EditModel.ResumesEditing(ch) {
            m := EditModel.EditMode;
          } else if EditModel.Quits(ch) {
            quit := true;
          }
        } else if key == EditModel.Esc {
          m := EditModel.MenuMode;
        } else {
          EditKey(key, ch, ctrl);
        }
    }
  }
}
