/** C strings as character sequences, and the text format the line lists export:
    every line's characters followed by one newline, in list order. */
module Text {
  import opened Support

  const Nul: char := '\0'
  const Newline: char := '\n'

  predicate NoNul(s: seq<char>) {
    forall i :: 0 <= i < |s| ==> s[i] != Nul
  }

  predicate NoNewline(s: seq<char>) {
    forall i :: 0 <= i < |s| ==> s[i] != Newline
  }

  /** strlen: the number of characters before the first NUL. */
  function StrLen(s: seq<char>): (n: nat)
    ensures n <= |s| && NoNul(s[..n])
    ensures n < |s| ==> s[n] == Nul
  {
    if s == [] || s[0] == Nul then 0
    else
      var n := 1 + StrLen(s[1..]);
      assert s[..n] == [s[0]] + s[1..][..n - 1];
      n
  }

  /** The characters of a C string that may be NULL (NULL reads as the empty string). */
  function CString(text: Option<seq<char>>): seq<char> {
    match text
    case None => []
    case Some(s) => s[..StrLen(s)]
  }

  /** A NUL-free sequence is its own C string. */
  lemma CStringOfText(s: seq<char>)
    requires NoNul(s)
    ensures CString(Some(s)) == s
  {
  }

  /** What fprintf(out, "%s\n", line->buf) writes for one line: read back, a
      line without a newline of its own is found again up to the newline. */
  function PrintLine(t: seq<char>): (r: seq<char>)
    ensures NoNewline(t) ==> FindNewline(r) == |t| && SplitLines(r) == [t]
  {
    var r := t + [Newline];
    assert r[..|t|] == t && r[|t| + 1..] == [];
    if NoNewline(t) then
      assert r[|t|] == Newline;
      assert FindNewline(r) == |t|;
      r
    else r
  }

  /** The output of calling a writing callback on every element in order. */
  function ConcatMap<T>(f: T -> seq<char>, xs: seq<T>): seq<char> {
    if xs == [] then [] else f(xs[0]) + ConcatMap(f, xs[1..])
  }

  lemma {:induction false} ConcatMapSnoc<T>(f: T -> seq<char>, xs: seq<T>, x: T)
    ensures ConcatMap(f, xs + [x]) == ConcatMap(f, xs) + f(x)
  {
    if xs == [] {
      assert [x][1..] == [];
    } else {
      assert (xs + [x])[1..] == xs[1..] + [x];
      ConcatMapSnoc(f, xs[1..], x);
    }
  }

  /** The exported text of a sequence of lines: empty for no lines, and
      otherwise ending with the last line's newline. */
  function Export(ls: seq<seq<char>>): (r: seq<char>)
    ensures r == [] <==> ls == []
    ensures r != [] ==> r[|r| - 1] == Newline
  {
    PrintedEndsInNewline(ls);
    ConcatMap(PrintLine, ls)
  }

  lemma {:induction false} PrintedEndsInNewline(ls: seq<seq<char>>)
    ensures ConcatMap(PrintLine, ls) == [] <==> ls == []
    ensures ls != [] ==> var s := ConcatMap(PrintLine, ls); s[|s| - 1] == Newline
  {
    if ls != [] {
      PrintedEndsInNewline(ls[1..]);
    }
  }

  /** The position of the first newline of `s`, or |s| when there is none. */
  function FindNewline(s: seq<char>): (k: nat)
    ensures k <= |s| && NoNewline(s[..k])
    ensures k < |s| ==> s[k] == Newline
  {
    if s == [] || s[0] == Newline then 0
    else
      var k := 1 + FindNewline(s[1..]);
      assert s[..k] == [s[0]] + s[1..][..k - 1];
      k
  }

  /** Reading text back as lines: split at every newline; a last piece without a
      newline is a line of its own. */
  function SplitLines(s: seq<char>): seq<seq<char>>
    decreases |s|
  {
    if s == [] then []
    else
      var k := FindNewline(s);
      if k == |s| then [s] else [s[..k]] + SplitLines(s[k + 1..])
  }

  /** Exporting lines that hold no newline and splitting the text at newlines
      gives the lines back. */
  lemma {:induction false} SplitExport(ls: seq<seq<char>>)
    requires forall i :: 0 <= i < |ls| ==> NoNewline(ls[i])
    ensures SplitLines(Export(ls)) == ls
  {
    if ls != [] {
      var s := Export(ls);
      var n := |ls[0]|;
      assert s == ls[0] + [Newline] + Export(ls[1..]);
      assert s[..n] == ls[0];
      var k := FindNewline(s);
      assert s[n] == Newline;
      assert k == n;
      assert s[k + 1..] == Export(ls[1..]);
      SplitExport(ls[1..]);
    }
  }

  /** `a` is obtained from `b` by leaving out characters. */
  predicate IsSubseq(a: seq<char>, b: seq<char>)
    decreases |b|
  {
    if a == [] then true
    else if b == [] then false
    else (a[0] == b[0] && IsSubseq(a[1..], b[1..])) || IsSubseq(a, b[1..])
  }

  lemma {:induction false} SubseqSkipPrefix(a: seq<char>, b: seq<char>, p: seq<char>)
    requires IsSubseq(a, b)
    ensures IsSubseq(a, p + b)
  {
    if p != [] && a != [] {
      assert (p + b)[1..] == p[1..] + b;
      SubseqSkipPrefix(a, b, p[1..]);
      assert IsSubseq(a, (p + b)[1..]);
    } else if p == [] {
      assert p + b == b;
    }
  }

  lemma {:induction false} SubseqCommonPrefix(a: seq<char>, b: seq<char>, p: seq<char>)
    requires IsSubseq(a, b)
    ensures IsSubseq(p + a, p + b)
  {
    if p != [] {
      assert (p + a)[1..] == p[1..] + a;
      assert (p + b)[1..] == p[1..] + b;
      SubseqCommonPrefix(a, b, p[1..]);
      assert (p + a)[0] == (p + b)[0] && IsSubseq((p + a)[1..], (p + b)[1..]);
    } else {
      assert p + a == a && p + b == b;
    }
  }
}
