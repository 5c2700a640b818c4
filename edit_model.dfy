/** What ice.c's key handling does, stated on values: the buffer as a sequence of
    lines, the current line as an index `row` into it and the cursor offset `cp`
    (`g_state.cl` and `g_state.cp`), the two modes, and the dispatch of one input
    event. The imperative editor in module Ice is proved to compute exactly these
    functions; the properties of editing are proved here. */
module EditModel {
  import opened Text

  /** TAB_WIDTH of config.h. */
  const TAB_WIDTH: nat := 4

  /** valid_char: the only characters typing inserts. */
  predicate ValidChar(ch: int) {
    || ('A' as int <= ch <= 'Z' as int)
    || ('a' as int <= ch <= 'z' as int)
    || ('0' as int <= ch <= '9' as int)
    || ch == '.' as int || ch == '-' as int
    || ch == '_' as int || ch == '/' as int
    || ch == ' ' as int
  }

  /** The ASCII characters from lo to hi, in order. */
  function CharRange(lo: char, hi: char): seq<char>
    requires lo <= hi < 128 as char
  {
    seq(hi as int - lo as int + 1, i requires 0 <= i <= hi as int - lo as int => (lo as int + i) as char)
  }

  /** The characters valid_char accepts, listed: the two alphabets, the digits,
      four punctuation marks and the blank. */
  const Accepted: seq<char> := CharRange('A', 'Z') + CharRange('a', 'z') + CharRange('0', '9') + ".-_/ "

  /** valid_char accepts exactly the listed characters; in particular nothing
      outside ' '..'z'. */
  lemma ValidCharAccepted(ch: int)
    ensures ValidChar(ch) <==> 0 <= ch < 128 && ch as char in Accepted
    ensures ValidChar(ch) ==> ' ' as int <= ch <= 'z' as int
  {
    var upper, lower, digits := CharRange('A', 'Z'), CharRange('a', 'z'), CharRange('0', '9');
    if 'A' as int <= ch <= 'Z' as int {
      assert upper[ch - 'A' as int] == ch as char;
    } else if 'a' as int <= ch <= 'z' as int {
      assert lower[ch - 'a' as int] == ch as char;
    } else if '0' as int <= ch <= '9' as int {
      assert digits[ch - '0' as int] == ch as char;
    }
  }

  predicate ValidText(t: seq<char>) {
    forall j :: 0 <= j < |t| ==> ValidChar(t[j] as int)
  }

  predicate AllValid(ls: seq<seq<char>>) {
    forall i :: 0 <= i < |ls| ==> ValidText(ls[i])
  }

  /** Text made of valid characters holds neither a terminator nor a line break. */
  lemma ValidTextIsPlain(t: seq<char>)
    requires ValidText(t)
    ensures NoNul(t) && NoNewline(t)
  {
    forall j | 0 <= j < |t| ensures t[j] != Nul && t[j] != Newline {
      assert ValidChar(t[j] as int);
    }
  }

  function Spaces(n: nat): seq<char> {
    seq(n, _ => ' ')
  }

  /** strspn(s, " "): the number of leading spaces. */
  function LeadingSpaces(s: seq<char>): (n: nat)
    ensures n <= |s|
    ensures forall i :: 0 <= i < n ==> s[i] == ' '
    ensures n < |s| ==> s[n] != ' '
  {
    if s == [] || s[0] != ' ' then 0 else 1 + LeadingSpaces(s[1..])
  }

  // The four scans of ice.c's word commands: each moves `pos` over a maximal run.

  function SkipSpacesLeft(s: seq<char>, pos: nat): (r: nat)
    requires pos <= |s|
    ensures r <= pos
    ensures forall i :: r <= i < pos ==> s[i] == ' '
    ensures r == 0 || s[r - 1] != ' '
    decreases pos
  {
    if pos > 0 && s[pos - 1] == ' ' then SkipSpacesLeft(s, pos - 1) else pos
  }

  function SkipWordLeft(s: seq<char>, pos: nat): (r: nat)
    requires pos <= |s|
    ensures r <= pos
    ensures forall i :: r <= i < pos ==> s[i] != ' '
    ensures r == 0 || s[r - 1] == ' '
    decreases pos
  {
    if pos > 0 && s[pos - 1] != ' ' then SkipWordLeft(s, pos - 1) else pos
  }

  function SkipWordRight(s: seq<char>, pos: nat): (r: nat)
    requires pos <= |s|
    ensures pos <= r <= |s|
    ensures forall i :: pos <= i < r ==> s[i] != ' '
    ensures r == |s| || s[r] == ' '
    decreases |s| - pos
  {
    if pos < |s| && s[pos] != ' ' then SkipWordRight(s, pos + 1) else pos
  }

  function SkipSpacesRight(s: seq<char>, pos: nat): (r: nat)
    requires pos <= |s|
    ensures pos <= r <= |s|
    ensures forall i :: pos <= i < r ==> s[i] == ' '
    ensures r == |s| || s[r] != ' '
    decreases |s| - pos
  {
    if pos < |s| && s[pos] == ' ' then SkipSpacesRight(s, pos + 1) else pos
  }

  /** Where Ctrl+W and Ctrl+Left stop: back over spaces, then over a word. */
  function WordLeft(s: seq<char>, pos: nat): nat
    requires pos <= |s|
  {
    SkipWordLeft(s, SkipSpacesLeft(s, pos))
  }

  /** Where Ctrl+Right stops: forward over a word, then over spaces. */
  function WordRight(s: seq<char>, pos: nat): nat
    requires pos <= |s|
  {
    SkipSpacesRight(s, SkipWordRight(s, pos))
  }

  /** From a cursor inside the line, the word scan to the left always moves, and
      the span it crosses is a word followed by spaces. */
  lemma WordLeftSpan(s: seq<char>, cp: nat)
    requires 0 < cp <= |s|
    ensures var q := SkipSpacesLeft(s, cp);
            var pos := WordLeft(s, cp);
            && pos <= q <= cp && pos < cp
            && (forall i :: pos <= i < q ==> s[i] != ' ')
            && (forall i :: q <= i < cp ==> s[i] == ' ')
            && (pos == 0 || s[pos - 1] == ' ')
  {
  }

  /** From a cursor inside the line, the word scan to the right always moves, and
      the span it crosses is a word followed by spaces. */
  lemma WordRightSpan(s: seq<char>, cp: nat)
    requires cp < |s|
    ensures var q := SkipWordRight(s, cp);
            var pos := WordRight(s, cp);
            && cp <= q <= pos && cp < pos
            && (forall i :: cp <= i < q ==> s[i] != ' ')
            && (forall i :: q <= i < pos ==> s[i] == ' ')
            && (pos == |s| || s[pos] != ' ')
  {
  }

  /** The editor's buffer: the lines, the index of the current line, the cursor offset. */
  datatype Doc = Doc(lines: seq<seq<char>>, row: nat, cp: nat)

  /** The invariant the editor keeps: at least one line, the current line is one of
      them, the cursor is within it, and the text holds only valid_char characters. */
  predicate Wf(d: Doc) {
    && 0 < |d.lines|
    && d.row < |d.lines|
    && d.cp <= |d.lines[d.row]|
    && AllValid(d.lines)
  }

  function Cur(d: Doc): seq<char>
    requires d.row < |d.lines|
  {
    d.lines[d.row]
  }

  /** The buffer right after start-up: one empty line, cursor at 0. */
  function Initial(): (d: Doc)
    ensures Wf(d)
  {
    Doc([[]], 0, 0)
  }

  /** `t` typed at the cursor: the suffix moves right, the cursor moves past `t`. */
  function InsertAt(d: Doc, t: seq<char>): (r: Doc)
    requires Wf(d) && ValidText(t)
    ensures Wf(r)
  {
    var c := Cur(d);
    var n := c[..d.cp] + t + c[d.cp..];
    assert ValidText(n) by {
      forall j | 0 <= j < |n| ensures ValidChar(n[j] as int) {
        if j < d.cp { assert n[j] == c[j]; }
        else if j < d.cp + |t| { assert n[j] == t[j - d.cp]; }
        else { assert n[j] == c[j - |t|]; }
      }
    }
    Doc(d.lines[d.row := n], d.row, d.cp + |t|)
  }

  /** The default branch: a character accepted by valid_char is inserted, any other
      input changes nothing. */
  function InsertChar(d: Doc, ch: int): (r: Doc)
    requires Wf(d)
    ensures Wf(r)
    ensures !ValidChar(ch) ==> r == d
    ensures ValidChar(ch) ==> && r.row == d.row && r.cp == d.cp + 1
                              && r.lines == d.lines[d.row := Cur(d)[..d.cp] + [ch as char] + Cur(d)[d.cp..]]
  {
    if ValidChar(ch) then InsertAt(d, [ch as char]) else d
  }

  /** Tab: a block of TAB_WIDTH spaces. */
  function InsertTab(d: Doc): (r: Doc)
    requires Wf(d)
    ensures Wf(r)
  {
    InsertAt(d, Spaces(TAB_WIDTH))
  }

  /** The characters [from, to) of the current line cut out; the cursor goes to `from`. */
  function Cut(d: Doc, from: nat, to: nat): (r: Doc)
    requires Wf(d) && from <= to <= |Cur(d)|
    ensures Wf(r)
  {
    var c := Cur(d);
    var n := c[..from] + c[to..];
    assert ValidText(n) by {
      forall j | 0 <= j < |n| ensures ValidChar(n[j] as int) {
        if j < from { assert n[j] == c[j]; } else { assert n[j] == c[j - from + to]; }
      }
    }
    Doc(d.lines[d.row := n], d.row, from)
  }

  /** The current line appended to the previous one, which becomes current with the
      cursor at its old end. */
  function Merge(d: Doc): (r: Doc)
    requires Wf(d) && d.row > 0
    ensures Wf(r)
  {
    var p := d.lines[d.row - 1];
    var c := Cur(d);
    var m := p + c;
    assert ValidText(m) by {
      forall j | 0 <= j < |m| ensures ValidChar(m[j] as int) {
        if j < |p| { assert m[j] == p[j]; } else { assert m[j] == c[j - |p|]; }
      }
    }
    var ls := d.lines[..d.row - 1] + [m] + d.lines[d.row + 1..];
    assert AllValid(ls) by {
      forall i | 0 <= i < |ls| ensures ValidText(ls[i]) {
        if i < d.row - 1 { assert ls[i] == d.lines[i]; }
        else if i > d.row - 1 { assert ls[i] == d.lines[i + 1]; }
      }
    }
    Doc(ls, d.row - 1, |p|)
  }

  /** Backspace (word == false) and Ctrl+W (word == true). */
  function DeleteLeft(d: Doc, word: bool): (r: Doc)
    requires Wf(d)
    ensures Wf(r)
  {
    if d.cp > 0 then
      if word then
        var pos := WordLeft(Cur(d), d.cp);
        if d.cp - pos > 0 then Cut(d, pos, d.cp) else d
      else Cut(d, d.cp - 1, d.cp)
    else if d.row > 0 then Merge(d)
    else d
  }

  /** Enter: the line is cut at the cursor; the part after the cursor, preceded by
      the line's leading spaces, becomes a new line right after it, and the cursor
      goes to the new line just after that indentation. */
  function Split(d: Doc): (r: Doc)
    requires Wf(d)
    ensures Wf(r)
  {
    var c := Cur(d);
    var indent := LeadingSpaces(c);
    var a := c[..d.cp];
    var b := c[..indent] + c[d.cp..];
    assert ValidText(a) by {
      forall j | 0 <= j < |a| ensures ValidChar(a[j] as int) { assert a[j] == c[j]; }
    }
    assert ValidText(b) by {
      forall j | 0 <= j < |b| ensures ValidChar(b[j] as int) {
        if j < indent { assert b[j] == c[j]; } else { assert b[j] == c[j - indent + d.cp]; }
      }
    }
    var ls := d.lines[..d.row] + [a, b] + d.lines[d.row + 1..];
    assert AllValid(ls) by {
      forall i | 0 <= i < |ls| ensures ValidText(ls[i]) {
        if i < d.row { assert ls[i] == d.lines[i]; }
        else if i > d.row + 1 { assert ls[i] == d.lines[i - 1]; }
      }
    }
    Doc(ls, d.row + 1, indent)
  }

  /** The two lines Enter leaves in place of the current one, and the
      indentation the cursor lands after. */
  lemma SplitParts(d: Doc)
    requires Wf(d)
    ensures var c, indent := Cur(d), LeadingSpaces(Cur(d));
            && ValidText(c[..indent] + c[d.cp..])
            && Split(d) == Doc(d.lines[..d.row] + [c[..d.cp], c[..indent] + c[d.cp..]] + d.lines[d.row + 1..], d.row + 1, indent)
  {
    assert Split(d).lines[d.row + 1] == Cur(d)[..LeadingSpaces(Cur(d))] + Cur(d)[d.cp..];
  }

  /** Arrow Left (ctrl: the modifier is exactly Ctrl). */
  function Left(d: Doc, ctrl: bool): (r: Doc)
    requires Wf(d)
    ensures Wf(r)
  {
    if d.cp > 0 then
      if ctrl then d.(cp := WordLeft(Cur(d), d.cp)) else d.(cp := d.cp - 1)
    else if d.row > 0 then d.(row := d.row - 1, cp := |d.lines[d.row - 1]|)
    else d
  }

  /** Arrow Right (ctrl: the modifier is exactly Ctrl). */
  function Right(d: Doc, ctrl: bool): (r: Doc)
    requires Wf(d)
    ensures Wf(r)
  {
    if d.cp < |Cur(d)| then
      if ctrl then d.(cp := WordRight(Cur(d), d.cp)) else d.(cp := d.cp + 1)
    else if d.row + 1 < |d.lines| then d.(row := d.row + 1, cp := 0)
    else d
  }

  /** Arrow Up: to the previous line, the cursor clamped to its length. */
  function Up(d: Doc): (r: Doc)
    requires Wf(d)
    ensures Wf(r)
  {
    if d.row > 0 then
      var l := d.lines[d.row - 1];
      d.(row := d.row - 1, cp := if d.cp > |l| then |l| else d.cp)
    else d
  }

  /** Arrow Down: to the next line, the cursor clamped to its length. */
  function Down(d: Doc): (r: Doc)
    requires Wf(d)
    ensures Wf(r)
  {
    if d.row + 1 < |d.lines| then
      var l := d.lines[d.row + 1];
      d.(row := d.row + 1, cp := if d.cp > |l| then |l| else d.cp)
    else d
  }

  // ---------------------------------------------------------------------------
  // Input events and the two modes.

  datatype Mode = EditMode | MenuMode

  /** The key codes handle_events tells apart; every other code is OtherKey. */
  datatype Key =
    | CtrlC | Esc | Backspace | Backspace2 | CtrlW | Tab | Enter
    | ArrowLeft | ArrowRight | ArrowUp | ArrowDown | OtherKey

  /** A key event carries the key code, the character code and whether the
      modifier field is exactly Ctrl; all other events (resize, mouse) are OtherEvent. */
  datatype Event = KeyEvent(key: Key, ch: int, ctrl: bool) | OtherEvent

  /** The abstract g_state: mode and buffer. */
  datatype Editor = Editor(mode: Mode, doc: Doc)

  /** What one call of handle_events leaves behind, and whether the loop ends. */
  datatype Outcome = Outcome(next: Editor, quit: bool)

  /** The characters that leave the menu ('q' and 'e') and that end the program ('y', 'n'). */
  predicate ResumesEditing(ch: int) {
    ch == 'q' as int || ch == 'Q' as int || ch == 'e' as int || ch == 'E' as int
  }

  predicate Quits(ch: int) {
    ch == 'y' as int || ch == 'Y' as int || ch == 'n' as int || ch == 'N' as int
  }

  /** One key in edit mode other than Esc and Ctrl+C. */
  function EditKey(d: Doc, key: Key, ch: int, ctrl: bool): (r: Doc)
    requires Wf(d)
    ensures Wf(r)
  {
    match key
    case Backspace => DeleteLeft(d, false)
    case Backspace2 => DeleteLeft(d, false)
    case CtrlW => DeleteLeft(d, true)
    case Tab => InsertTab(d)
    case Enter => Split(d)
    case ArrowLeft => Left(d, ctrl)
    case ArrowRight => Right(d, ctrl)
    case ArrowUp => Up(d)
    case ArrowDown => Down(d)
    case _ => InsertChar(d, ch)
  }

  /** handle_events for one event. */
  function Handle(e: Editor, ev: Event): (o: Outcome)
    requires Wf(e.doc)
    ensures Wf(o.next.doc)
  {
    match ev
    case OtherEvent => Outcome(e, false)
    case KeyEvent(key, ch, ctrl) =>
      if key == CtrlC then Outcome(e, true)
      else if e.mode == MenuMode then
        if key == Esc || ResumesEditing(ch) then Outcome(e.(mode := EditMode), false)
        else if Quits(ch) then Outcome(e, true)
        else Outcome(e, false)
      else if key == Esc then Outcome(e.(mode := MenuMode), false)
      else Outcome(e.(doc := EditKey(e.doc, key, ch, ctrl)), false)
  }
}
