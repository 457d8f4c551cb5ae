/** The input line of ui/curses_ui/curses_ui.cpp: a fixed array of cells with a length and
    a cursor, against a text with a cursor in it. */
module LineEditor {

  const STRING_MAX: nat := 256

  // Keys that are not text.  The code compares character codes alone, so characters
  // with these codes cannot be typed.
  const NEWLINE: nat := 10
  const TAB: nat := 9
  const DELETE: nat := 127
  const KEY_DOWN: nat := 258
  const KEY_UP: nat := 259
  const KEY_LEFT: nat := 260
  const KEY_RIGHT: nat := 261
  const KEY_HOME: nat := 262
  const KEY_BACKSPACE: nat := 263
  const KEY_DC: nat := 330
  const SHIFT_TAB: nat := 353
  const KEY_END: nat := 360
  const KEY_RESIZE: nat := 410

  // ------------------------------------------------------------- the text

  /** What is left and right of the cursor. */
  datatype Line = Line(before: seq<nat>, after: seq<nat>)

  function Text(l: Line): seq<nat> { l.before + l.after }

  predicate NoEffect(ch: nat) {
    ch == KEY_UP || ch == KEY_DOWN || ch == KEY_RESIZE || ch == TAB || ch == SHIFT_TAB
  }

  /** One key other than a newline, on the text. */
  function Press(l: Line, ch: nat): Line {
    var n := |l.before|;
    if ch == KEY_LEFT then (if n == 0 then l else Line(l.before[..n - 1], [l.before[n - 1]] + l.after))
    else if ch == KEY_RIGHT then (if l.after == [] then l else Line(l.before + [l.after[0]], l.after[1..]))
    else if ch == KEY_END then Line(Text(l), [])
    else if ch == KEY_HOME then Line([], Text(l))
    else if ch == KEY_BACKSPACE || ch == DELETE then (if n == 0 then l else Line(l.before[..n - 1], l.after))
    else if ch == KEY_DC then (if l.after == [] then l else Line(l.before, l.after[1..]))
    else if NoEffect(ch) || |Text(l)| >= STRING_MAX - 1 then l
    else Line(l.before + [ch], l.after)
  }

  /** All keys up to the newline. */
  function PressAll(l: Line, keys: seq<nat>): Line
    decreases |keys|
  {
    if keys == [] || keys[0] == NEWLINE then l else PressAll(Press(l, keys[0]), keys[1..])
  }

  /** A character that is none of the special keys. */
  predicate Plain(ch: nat) {
    ch !in [10, 9, 127, 258, 259, 260, 261, 262, 263, 330, 353, 360, 410]
  }

  /** Ordinary characters, typed anywhere in the line, stand there in the order in which they
      were typed, with the cursor behind them. */
  lemma {:induction false} TypedInOrder(l: Line, chars: seq<nat>)
    requires (forall i :: 0 <= i < |chars| ==> Plain(chars[i])) && |l.before| + |l.after| + |chars| <= 255
    ensures PressAll(l, chars) == Line(l.before + chars, l.after)
    decreases |chars|
  {
    if chars == [] {
      assert l.before + [] == l.before;
    } else {
      TypedInOrder(Line(l.before + [chars[0]], l.after), chars[1..]);
      assert l.before + chars == l.before + [chars[0]] + chars[1..];
    }
  }

  /** The first newline ends the line, and the keys before it act one after the other. */
  lemma {:induction false} NewlineEnds(l: Line, keys: seq<nat>, more: seq<nat>, rest: seq<nat>)
    requires 10 !in keys && 10 !in more
    ensures PressAll(l, keys + more + [10] + rest) == PressAll(PressAll(l, keys), more)
    decreases |keys| + |more|
  {
    var all := keys + more + [10] + rest;
    if keys != [] {
      assert all[0] == keys[0] && all[1..] == keys[1..] + more + [10] + rest && keys[0] in keys;
      NewlineEnds(Press(l, keys[0]), keys[1..], more, rest);
    } else if more != [] {
      assert all[0] == more[0] && all[1..] == [] + more[1..] + [10] + rest && more[0] in more;
      NewlineEnds(Press(l, more[0]), [], more[1..], rest);
    } else {
      assert all[0] == 10;
    }
  }

  /** The keys undo each other: right undoes left and left right, and either key for deleting
      backwards undoes a typed character. */
  lemma KeysUndo(l: Line, ch: nat)
    ensures l.before != [] ==> Press(l, 260) != l && Press(Press(l, 260), 261) == l
    ensures l.after != [] ==> Press(l, 261) != l && Press(Press(l, 261), 260) == l
    ensures Plain(ch) && |l.before| + |l.after| < 255 ==>
              |Text(Press(l, ch))| == |Text(l)| + 1 && Press(Press(l, ch), 263) == l && Press(Press(l, ch), 127) == l
  {
    assert forall x: nat :: (l.before + [x])[..|l.before|] == l.before;
  }

  /** Moving keeps the text: left and right move by one, home and end all the way. */
  lemma MovesKeepText(l: Line, ch: nat)
    requires ch in [260, 261, 262, 360]
    ensures Text(Press(l, ch)) == Text(l)
    ensures |Press(l, ch).before| == match ch
                                     case 260 => if l.before == [] then 0 else |l.before| - 1
                                     case 261 => if l.after == [] then |l.before| else |l.before| + 1
                                     case 262 => 0
                                     case _ => |Text(l)|
  {
  }

  /** The delete key takes out the one character behind the cursor, the keys for deleting
      backwards the one before it. */
  lemma DeletesOne(l: Line, ch: nat)
    requires ch in [330, 127, 263]
    ensures var r, n := Press(l, ch), |l.before|;
            if ch == 330 then
              Text(r) == (if l.after == [] then Text(l) else Text(l)[..n] + Text(l)[n + 1..]) && |r.before| == n
            else if n == 0 then r == l
            else Text(r) == Text(l)[..n - 1] + Text(l)[n..] && |r.before| == n - 1
  {
  }

  /** A full line takes no further character, and keys without effect change nothing. */
  lemma KeysIgnored(l: Line, ch: nat)
    requires ch in [9, 258, 259, 353, 410] || (Plain(ch) && |Text(l)| >= 255)
    ensures Press(l, ch) == l
  {
  }

  // ------------------------------------------------------------- the cells

  datatype Cells = Cells(str: seq<nat>, len: nat, cursor: nat)

  /** Cells below the length are characters, all from it on are zero. */
  ghost predicate Good(c: Cells) {
    && |c.str| == STRING_MAX && c.cursor <= c.len <= STRING_MAX - 1
    && (forall i :: 0 <= i < c.len ==> c.str[i] != 0)
    && (forall i :: c.len <= i < STRING_MAX ==> c.str[i] == 0)
  }

  /** Lengths and cursor in range: all that the cell updates themselves rely on. */
  predicate InRange(c: Cells) {
    |c.str| == STRING_MAX && c.cursor <= c.len <= STRING_MAX - 1
  }

  function LineOf(c: Cells): Line
    requires InRange(c)
  {
    Line(c.str[..c.cursor], c.str[c.cursor..c.len])
  }

  /** The cell updates of the code: deleting shifts the tail down and zeroes the last cell,
      typing at the end writes one cell, typing elsewhere shifts the tail up first. */
  function DeleteCell(c: Cells): (r: Cells)
    requires InRange(c) && c.cursor < c.len
    ensures InRange(r)
  {
    Cells(c.str[..c.cursor] + c.str[c.cursor + 1..c.len] + [0] + c.str[c.len..], c.len - 1, c.cursor)
  }

  /** Cell by cell, what the overlapping move and the zero behind it leave. */
  lemma DeletedCells(c: Cells, str: seq<nat>)
    requires InRange(c) && c.cursor < c.len && |str| == STRING_MAX
    requires forall k {:trigger str[k]} :: 0 <= k < STRING_MAX ==>
               str[k] == if c.cursor <= k < c.len - 1 then c.str[k + 1] else if k == c.len - 1 then 0 else c.str[k]
    ensures str == DeleteCell(c).str
  {
    var r := DeleteCell(c).str;
    forall k | 0 <= k < STRING_MAX
      ensures str[k] == r[k]
    {
    }
  }

  function TypeCell(c: Cells, ch: nat): (r: Cells)
    requires InRange(c)
    ensures InRange(r)
  {
    if c.cursor >= STRING_MAX - 1 then c
    else if c.str[c.cursor] == 0 && c.len < STRING_MAX - 1 then
      c.(str := c.str[c.cursor := ch], len := c.len + 1, cursor := c.cursor + 1)
    else if c.len < STRING_MAX - 1 then
      Cells(c.str[..c.cursor] + [ch] + c.str[c.cursor..c.len] + c.str[c.len + 1..], c.len + 1, c.cursor + 1)
    else c
  }

  function KeyCells(c: Cells, ch: nat): (r: Cells)
    requires InRange(c)
    ensures InRange(r)
  {
    if ch == KEY_LEFT then (if c.cursor > 0 then c.(cursor := c.cursor - 1) else c)
    else if ch == KEY_RIGHT then (if c.cursor + 1 <= c.len then c.(cursor := c.cursor + 1) else c)
    else if ch == KEY_END then c.(cursor := c.len)
    else if ch == KEY_HOME then c.(cursor := 0)
    else if ch == KEY_BACKSPACE || ch == DELETE then
      (if c.cursor == 0 then c else DeleteCell(c.(cursor := c.cursor - 1)))
    else if ch == KEY_DC then (if c.cursor == c.len then c else DeleteCell(c))
    else if NoEffect(ch) then c
    else TypeCell(c, ch)
  }

  lemma DeleteRefines(c: Cells)
    requires Good(c) && c.cursor < c.len
    ensures Good(DeleteCell(c))
    ensures LineOf(DeleteCell(c)) == Line(c.str[..c.cursor], c.str[c.cursor + 1..c.len])
  {
    var r := DeleteCell(c);
    assert forall i :: 0 <= i < STRING_MAX ==>
             r.str[i] == if i < c.cursor || i >= c.len then c.str[i] else if i < c.len - 1 then c.str[i + 1] else 0;
    assert r.str[..c.cursor] == c.str[..c.cursor];
    assert r.str[c.cursor..r.len] == c.str[c.cursor + 1..c.len];
  }

  /** What typing makes of the cells, whichever branch does it. */
  lemma TypedCells(c: Cells, ch: nat)
    requires Good(c) && c.len < STRING_MAX - 1
    ensures var r := TypeCell(c, ch);
            r.len == c.len + 1 && r.cursor == c.cursor + 1
            && forall i :: 0 <= i < STRING_MAX ==>
                 r.str[i] == if i < c.cursor || i > c.len then c.str[i] else if i == c.cursor then ch else c.str[i - 1]
  {
    var r := TypeCell(c, ch);
    if c.cursor == c.len {
      assert c.str[c.cursor] == 0 && r.str == c.str[c.cursor := ch];
    } else {
      assert c.str[c.cursor] != 0;
      InsertedCells(c.str, c.cursor, c.len, ch);
    }
  }

  /** Cell by cell, what moving the cells from `at` to `len` up by one and writing leaves. */
  lemma InsertedCells(str: seq<nat>, at: nat, len: nat, ch: nat)
    requires at <= len < |str|
    ensures var r := str[..at] + [ch] + str[at..len] + str[len + 1..];
            |r| == |str| && forall i :: 0 <= i < |str| ==>
              r[i] == if i < at || i > len then str[i] else if i == at then ch else str[i - 1]
  {
    var r := str[..at] + [ch] + str[at..len] + str[len + 1..];
    forall i | 0 <= i < |str|
      ensures r[i] == if i < at || i > len then str[i] else if i == at then ch else str[i - 1]
    {
    }
  }

  lemma TypeRefines(c: Cells, ch: nat)
    requires Good(c) && ch != 0 && c.len < STRING_MAX - 1
    ensures Good(TypeCell(c, ch))
    ensures LineOf(TypeCell(c, ch)) == Line(c.str[..c.cursor] + [ch], c.str[c.cursor..c.len])
  {
    var r := TypeCell(c, ch);
    TypedCells(c, ch);
    assert r.str[..r.cursor] == c.str[..c.cursor] + [ch];
    assert r.str[r.cursor..r.len] == c.str[c.cursor..c.len];
  }

  lemma BackspaceRefines(c: Cells)
    requires Good(c) && c.cursor > 0
    ensures var r := DeleteCell(c.(cursor := c.cursor - 1));
            Good(r) && LineOf(r) == Line(LineOf(c).before[..c.cursor - 1], LineOf(c).after)
  {
    DeleteRefines(c.(cursor := c.cursor - 1));
    assert LineOf(c).before[..c.cursor - 1] == c.str[..c.cursor - 1];
  }

  lemma DeleteKeyRefines(c: Cells)
    requires Good(c) && c.cursor < c.len
    ensures Good(DeleteCell(c)) && LineOf(DeleteCell(c)) == Line(LineOf(c).before, LineOf(c).after[1..])
  {
    DeleteRefines(c);
    assert LineOf(c).after[1..] == c.str[c.cursor + 1..c.len];
  }

  lemma MovesRefine(c: Cells, ch: nat)
    requires Good(c) && (ch == KEY_LEFT || ch == KEY_RIGHT || ch == KEY_END || ch == KEY_HOME)
    ensures Good(KeyCells(c, ch)) && LineOf(KeyCells(c, ch)) == Press(LineOf(c), ch)
  {
    assert Text(LineOf(c)) == c.str[..c.len];
  }

  lemma TypingRefines(c: Cells, ch: nat)
    requires Good(c) && ch != 0
    ensures Good(TypeCell(c, ch))
    ensures LineOf(TypeCell(c, ch))
            == if c.len >= STRING_MAX - 1 then LineOf(c)
               else Line(LineOf(c).before + [ch], LineOf(c).after)
  {
    if c.len < STRING_MAX - 1 {
      TypeRefines(c, ch);
    }
  }

  /** Every non-zero key does to the cells what it does to the text, in the middle of the
      line and at its ends, and on a full line. */
  lemma KeyRefines(c: Cells, ch: nat)
    requires Good(c) && ch != 0
    ensures Good(KeyCells(c, ch))
    ensures LineOf(KeyCells(c, ch)) == Press(LineOf(c), ch)
  {
    if ch == KEY_BACKSPACE || ch == DELETE {
      if c.cursor > 0 { BackspaceRefines(c); }
    } else if ch == KEY_DC {
      if c.cursor < c.len { DeleteKeyRefines(c); }
    } else if ch == KEY_LEFT || ch == KEY_RIGHT || ch == KEY_END || ch == KEY_HOME {
      MovesRefine(c, ch);
    } else if !NoEffect(ch) {
      TypingRefines(c, ch);
      assert |Text(LineOf(c))| == c.len;
    }
  }

  /** A zero key spoils the cells exactly when there is room to take it. */
  lemma ZeroKeyIff(c: Cells)
    requires Good(c)
    ensures Good(KeyCells(c, 0)) <==> c.len == STRING_MAX - 1
  {
    var r := KeyCells(c, 0);
    if c.len < STRING_MAX - 1 {
      assert r.str[c.cursor] == 0 && c.cursor < r.len;
    } else if c.cursor < STRING_MAX - 1 {
      assert c.str[c.cursor] != 0;
    }
  }

  // ------------------------------------------------------------- the array

  class Editor {
    const str: array<nat>
    var strLen: nat
    var cursor: nat

    ghost function View(): Cells
      reads this, str
    {
      Cells(str[..], strLen, cursor)
    }

    /** The static buffer is zero to begin with. */
    constructor ()
      ensures Good(View()) && fresh(str)
    {
      str := new nat[STRING_MAX](_ => 0);
      strLen, cursor := 0, 0;
    }

    /** `memmove` of `n` cells from `from` to `to`, which may overlap. */
    method MoveCells(to: nat, from: nat, n: nat)
      requires from + n <= str.Length && to + n <= str.Length
      modifies str
      ensures forall k :: 0 <= k < str.Length ==>
                str[k] == if to <= k < to + n then old(str[k - to + from]) else old(str[k])
    {
      if to <= from {
        for i := 0 to n
          invariant forall k :: 0 <= k < str.Length ==>
                      str[k] == if to <= k < to + i then old(str[k - to + from]) else old(str[k])
        {
          str[to + i] := str[from + i];
        }
      } else {
        var i := n;
        while i > 0
          invariant 0 <= i <= n
          invariant forall k :: 0 <= k < str.Length ==>
                      str[k] == if to + i <= k < to + n then old(str[k - to + from]) else old(str[k])
        {
          i := i - 1;
          str[to + i] := str[from + i];
        }
      }
    }

    method Delete()
      requires InRange(View()) && cursor < strLen
      modifies this`strLen, str
      ensures View() == DeleteCell(old(View()))
    {
      ghost var c := View();
      MoveCells(cursor, cursor + 1, strLen - cursor - 1);
      str[strLen - 1] := 0;
      strLen := strLen - 1;
      DeletedCells(c, str[..]);
    }

    method Type(ch: nat)
      requires Good(View())
      modifies this, str
      ensures View() == TypeCell(old(View()), ch)
    {
      ghost var c := View();
      if c.len < STRING_MAX - 1 { TypedCells(c, ch); }
      if cursor < STRING_MAX - 1 {
        if str[cursor] == 0 {
          str[cursor] := ch;
          cursor := cursor + 1;
          strLen := strLen + 1;
        } else if strLen < STRING_MAX - 1 {
          MoveCells(cursor + 1, cursor, strLen - cursor);
          str[cursor] := ch;
          cursor := cursor + 1;
          strLen := strLen + 1;
          assert forall k :: 0 <= k < STRING_MAX ==> str[k] == TypeCell(c, ch).str[k];
        }
      }
    }

    method Key(ch: nat)
      requires Good(View())
      modifies this, str
      ensures View() == KeyCells(old(View()), ch)
    {
      if ch == KEY_LEFT {
        if cursor > 0 { cursor := cursor - 1; }
      } else if ch == KEY_RIGHT {
        if cursor + 1 <= strLen { cursor := cursor + 1; }
      } else if ch == KEY_END {
        cursor := strLen;
      } else if ch == KEY_HOME {
        cursor := 0;
      } else if ch == KEY_UP || ch == KEY_DOWN {
      } else if ch == KEY_BACKSPACE || ch == DELETE || ch == KEY_DC {
        if ch == KEY_BACKSPACE || ch == DELETE {
          if cursor == 0 { return; }
          cursor := cursor - 1;
        } else if cursor == strLen { return; }
        if strLen > 0 { Delete(); }
      } else if ch == KEY_RESIZE || ch == TAB || ch == SHIFT_TAB {
      } else {
        Type(ch);
      }
    }

    /** `HandleInput`: the text typed up to the newline, for keys without a zero. */
    method HandleInput(keys: seq<nat>) returns (text: seq<nat>)
      requires Good(View()) && forall i :: 0 <= i < |keys| ==> keys[i] != 0
      modifies this, str
      ensures Good(View()) && cursor == 0
      ensures text == Text(PressAll(Line([], []), keys))
      ensures |text| <= STRING_MAX - 1 && forall i :: 0 <= i < |text| ==> text[i] != 0
    {
      Reset();
      var i := 0;
      while i < |keys| && keys[i] != NEWLINE
        invariant i <= |keys| && Good(View())
        invariant PressAll(Line([], []), keys) == PressAll(LineOf(View()), keys[i..])
      {
        KeyRefines(View(), keys[i]);
        Key(keys[i]);
        i := i + 1;
      }
      assert Text(LineOf(View())) == str[..strLen];
      cursor := 0;
      text := CString();
    }

    /** memset of all cells but the last, and an empty line. */
    method Reset()
      requires Good(View())
      modifies this, str
      ensures Good(View()) && LineOf(View()) == Line([], [])
    {
      for i := 0 to STRING_MAX - 1
        invariant forall k :: 0 <= k < STRING_MAX ==> str[k] == if k < i then 0 else old(str[k])
        invariant unchanged(this)
      {
        str[i] := 0;
      }
      strLen, cursor := 0, 0;
    }

    /** The string that begins in the first cell and ends before the first zero. */
    method CString() returns (text: seq<nat>)
      requires Good(View())
      ensures text == str[..strLen]
    {
      text := [];
      var k := 0;
      while str[k] != 0
        invariant 0 <= k <= strLen && text == str[..k]
        decreases strLen - k
      {
        text := text + [str[k]];
        k := k + 1;
      }
    }
  }
}
