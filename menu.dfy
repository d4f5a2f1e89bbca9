/** The menu session of qdmenu.cpp: the item store read at start-up, the
    query buffer `text` and its cursor, the match list, the paging and
    selection pointers, and the keypress state machine that updates them.
    The item list pointers (`matches`, `curr`, `sel`, ...) are modelled as
    positions in the match list; the item at position k has position k-1
    on its left and k+1 on its right. */
module Menu {
  import opened CStr
  import Matcher
  import opened Pager
  import opened TextBuffer

  const NEWLINE: Byte := 0x0A

  /** A line read by readstdin becomes an item: a trailing newline is
      dropped, and strdup keeps the bytes before the first NUL. */
  function ItemText(line: seq<Byte>): (s: seq<Byte>)
    requires |line| > 0
    ensures NoNul(s) && s <= line
    ensures NoNul(line) && line[|line| - 1] == NEWLINE ==> s + [NEWLINE] == line
    ensures NoNul(line) && line[|line| - 1] != NEWLINE ==> s == line
  {
    var l := if line[|line| - 1] == NEWLINE then line[..|line| - 1] else line;
    assert NoNul(line) ==> NoNul(l);
    CString(l)
  }

  /** `lines = MIN(lines, i)` in readstdin followed by `lines = MAX(lines, 0)`
      in setup, as written: MIN compares the int `lines` with the size_t
      count i, so a negative request is converted to a huge unsigned value
      and the count wins. */
  function LinesAsWritten(requested: int, count: nat): (l: int)
    ensures -0x8000_0000 <= requested < 0x8000_0000 ==> 0 <= l <= count
    ensures l == 0 ==> requested <= 0 || count == 0
  {
    var least := if requested % 0x1_0000_0000_0000_0000 < count then requested else count;
    if least > 0 then least else 0
  }

  /** A negative `-l` argument yields a vertical list as tall as the item
      count, not the single-row layout that MAX(lines, 0) aims for. */
  lemma NegativeLinesAsWritten(requested: int, count: nat)
    requires -0x8000_0000 <= requested < 0 && count < 0x8000_0000
    ensures LinesAsWritten(requested, count) == count
  {
    assert requested % 0x1_0000_0000_0000_0000 == requested + 0x1_0000_0000_0000_0000;
  }

  /** The number of list rows: the request, capped at the item count, and
      at least 0 (the single-row layout). */
  function EffectiveLines(requested: int, count: nat): (l: nat)
    ensures l <= count
    ensures 0 <= requested <= count ==> l == requested
    ensures requested < 0 ==> l == 0
    ensures requested > count ==> l == count
  {
    if requested < 0 then 0 else if requested < count then requested else count
  }

  /** For the requests atoi can produce that are not negative, the code as
      written and the intended rule agree. */
  lemma LinesAgree(requested: int, count: nat)
    requires 0 <= requested < 0x8000_0000
    ensures LinesAsWritten(requested, count) == EffectiveLines(requested, count)
  {
    assert requested % 0x1_0000_0000_0000_0000 == requested;
  }

  /** The texts of the matched items, in match-list order. */
  function Texts(items: seq<seq<Byte>>, m: seq<nat>): (t: seq<seq<Byte>>)
    ensures |t| == |m|
    ensures forall k :: 0 <= k < |m| && m[k] < |items| ==> t[k] == items[m[k]]
  {
    seq(|m|, k requires 0 <= k < |m| => if m[k] < |items| then items[m[k]] else [])
  }

  /** The query buffer holds a terminator. */
  predicate BufferOk(buf: seq<Byte>) {
    |buf| == BUFSIZ && StrLen(buf) < BUFSIZ
  }

  /** Every item is a C string. */
  predicate ItemsOk(items: seq<seq<Byte>>) {
    forall k :: 0 <= k < |items| ==> NoNul(items[k])
  }

  /** The paging invariant over the match list m: with no match every
      pointer is NULL; otherwise prev and next are what calcoffsets
      computes for curr, and the selection lies on the current page. */
  predicate PagesOk(L: Layout, items: seq<seq<Byte>>, m: seq<nat>,
                    prev: Option<nat>, curr: Option<nat>, next: Option<nat>, sel: Option<nat>) {
    && (forall k :: 0 <= k < |m| ==> m[k] < |items|)
    && (|m| == 0 ==> prev.None? && curr.None? && next.None? && sel.None?)
    && (|m| > 0 ==>
          && curr.Some? && sel.Some? && sel.value < |m|
          && curr.value <= sel.value < PageEnd(next, |m|)
          && IsPrev(L, Texts(items, m), curr.value, prev)
          && IsNext(L, Texts(items, m), curr.value, next))
  }

  /** The buffer after `memcpy(text, buf, len + 1)` from the line edit's
      UTF-8 bytes and their terminator.  len counts UTF-16 units, so with
      multi-byte characters the copy stops inside the text and the query
      runs on into what earlier copies left in the buffer; when every
      character is one byte the query becomes the line edit's text. */
  function AfterInsert(buf: seq<Byte>, content: seq<Byte>, len: nat): (b: seq<Byte>)
    requires len <= |content| && len + 1 <= |buf|
    ensures |b| == |buf|
    ensures forall k :: 0 <= k < len ==> b[k] == content[k]
    ensures forall k :: len < k < |b| ==> b[k] == buf[k]
    ensures b[len] == (if len == |content| then NUL else content[len])
  {
    (content + [NUL])[..len + 1] + buf[len + 1..]
  }

  /** When the line edit's length is its byte count (every character is
      one byte), the query becomes exactly the line edit's text. */
  lemma InsertWholeLine(buf: seq<Byte>, content: seq<Byte>)
    requires NoNul(content) && |content| + 1 <= |buf|
    ensures CString(AfterInsert(buf, content, |content|)) == content
  {
    var b := AfterInsert(buf, content, |content|);
    assert b[..|content|] == content;
    CStringIs(b, content);
  }

  /** How the session ended: still running, the selection printed
      (exit(0)), or cancelled (exit(1)).  Undefined marks the branches
      whose C behaviour is undefined (a copy from a null pointer, a buffer
      overrun), after which nothing is modelled. */
  datatype Status = Running | Accepted | Cancelled | Undefined

  /** The Qt keys keypress distinguishes; every other key is OtherKey. */
  datatype Key =
    | KeyK | KeyU | KeyW | KeyY | KeyJ | KeyBracketLeft
    | KeyReturn | KeyEnter | KeyEnd | KeyEscape | KeyHome
    | KeyLeft | KeyUp | KeyRight | KeyDown | KeyTab | OtherKey

  /** The plain keys that end the session or jump in the list. */
  predicate ExitingKey(key: Key) {
    key.KeyEnd? || key.KeyEscape? || key.KeyReturn? || key.KeyEnter?
  }

  /** The plain keys that move the selection or the cursor. */
  predicate NavigationKey(key: Key) {
    key.KeyHome? || key.KeyLeft? || key.KeyUp? || key.KeyRight? || key.KeyDown?
  }

  /** The keys without Ctrl or Alt that write the query buffer: Tab, and
      every key that reaches insert(). */
  predicate PlainKeyEdits(key: Key) {
    !ExitingKey(key) && !NavigationKey(key)
  }

  datatype KeyEvent = KeyEvent(key: Key, ctrl: bool, alt: bool, shift: bool)

  /** What keypress reads from the line edit once Qt has handled the key:
      the UTF-8 bytes of its text, the length of that text in UTF-16 code
      units (QString::length) and the cursor position. */
  datatype LineEdit = LineEdit(content: seq<Byte>, length: nat, cursorPos: nat)

  class Menu {
    const items: seq<seq<Byte>>
    /** `-i`: fstrncmp/fstrstr are the case-insensitive comparators. */
    const icase: bool
    const layout: Layout
    /** `static char text[BUFSIZ]`: the query is the C string it holds;
        the bytes after its terminator are whatever earlier copies left. */
    const text: array<Byte>
    var cursor: nat
    var matches: seq<nat>
    var prev: Option<nat>
    var curr: Option<nat>
    var next: Option<nat>
    var sel: Option<nat>
    /** The lines written by puts. */
    var output: seq<seq<Byte>>
    var status: Status

    /** The query: the C string in the buffer. */
    function Query(): seq<Byte>
      reads text
    {
      CString(text[..])
    }

    /** The texts of the matches, as calcoffsets measures them. */
    function Shown(): seq<seq<Byte>>
      reads this`matches
    {
      Texts(items, matches)
    }

    /** The head of the match list (`matches`). */
    function Head(): Option<nat>
      reads this`matches
    {
      if |matches| == 0 then None else Some(0)
    }

    /** The tail of the match list (`matchend`). */
    function Last(): Option<nat>
      reads this`matches
    {
      if |matches| == 0 then None else Some(|matches| - 1)
    }

    /** The parts of the state match() relies on: a terminated buffer,
        items that are C strings, and a usable layout. */
    predicate Base()
      reads text
    {
      text.Length == BUFSIZ && BufferOk(text[..]) && ItemsOk(items) && WellFormed(layout)
    }

    /** The session invariant: the match list is the one match() builds for
        the query, and the pages agree with it. */
    predicate Valid()
      reads this`matches, this`prev, this`curr, this`next, this`sel, text
    {
      && Base()
      && matches == Matcher.MatchList(items, Query(), icase)
      && PagesOk(layout, items, matches, prev, curr, next, sel)
    }

    /** readstdin and setup: the items from the input lines, an empty
        query, and match() run once. */
    constructor (input: seq<seq<Byte>>, icase: bool, requestedLines: int, bh: nat, hBudget: int,
                 measure: (seq<Byte>, nat) -> nat)
      requires forall k :: 0 <= k < |input| ==> |input[k]| > 0
      requires WellFormed(Layout(EffectiveLines(requestedLines, |input|), bh, hBudget, measure))
      ensures Valid() && fresh(text)
      ensures |items| == |input| && forall k :: 0 <= k < |input| ==> items[k] == ItemText(input[k])
      ensures layout == Layout(EffectiveLines(requestedLines, |input|), bh, hBudget, measure)
      ensures this.icase == icase
      ensures Query() == [] && cursor == 0 && output == [] && status == Running
      ensures curr == Head() && sel == Head()
    {
      items := seq(|input|, k requires 0 <= k < |input| => ItemText(input[k]));
      this.icase := icase;
      layout := Layout(EffectiveLines(requestedLines, |input|), bh, hBudget, measure);
      text := new Byte[BUFSIZ](_ => NUL);
      cursor := 0;
      matches := [];
      prev, curr, next, sel := None, None, None, None;
      output := [];
      status := Running;
      new;
      CStringIs(text[..], []);
      Match();
    }

    /** calcoffsets() on the session's pointers. */
    method CalcOffsets()
      modifies this
      requires curr.Some? ==> curr.value < |matches|
      ensures matches == old(matches) && curr == old(curr) && sel == old(sel)
      ensures cursor == old(cursor) && output == old(output) && status == old(status)
      ensures curr.None? ==> prev.None? && next.None?
      ensures curr.Some? ==> IsPrev(layout, Shown(), curr.value, prev) && IsNext(layout, Shown(), curr.value, next)
    {
      prev, next := Pager.CalcOffsets(layout, Shown(), curr);
    }

    /** match(): rebuild the match list for the query, select its head and
        page from there. */
    method Match()
      modifies this
      requires Base()
      ensures Valid()
      ensures curr == Head() && sel == Head()
      ensures cursor == old(cursor) && output == old(output) && status == old(status)
    {
      matches := Matcher.Match(items, Query(), icase);
      Matcher.MatchListBounded(items, Query(), icase);
      curr := Head();
      sel := curr;
      CalcOffsets();
      if |matches| > 0 {
        NextAfterCurr(layout, Shown(), 0, next);
      }
    }

    /** Key_Up: select the item on the left; leaving the page through its
        first item turns to the previous page. */
    method MoveUp()
      modifies this
      requires Valid()
      ensures Valid()
      ensures old(sel).Some? && old(sel).value > 0 ==>
        sel == Some(old(sel).value - 1) && curr == (if old(sel) == old(curr) then old(prev) else old(curr))
      ensures !(old(sel).Some? && old(sel).value > 0) ==>
        sel == old(sel) && curr == old(curr) && prev == old(prev) && next == old(next)
      ensures matches == old(matches) && cursor == old(cursor) && output == old(output) && status == old(status)
    {
      if sel.Some? && sel.value > 0 {
        var first := sel == curr;
        sel := Some(sel.value - 1);
        if first {
          var c := curr.value;
          PrevBeforeCurr(layout, Shown(), c, prev);
          curr := prev;
          assert IsPrev(layout, Shown(), c, curr);
          CalcOffsets();
          PrevPageReaches(layout, Shown(), c, curr.value, next);
        }
      }
    }

    /** Key_Down: select the item on the right; reaching the first item of
        the next page turns to that page. */
    method MoveDown()
      modifies this
      requires Valid()
      ensures Valid()
      ensures old(sel).Some? && old(sel).value + 1 < |matches| ==>
        sel == Some(old(sel).value + 1) && curr == (if sel == old(next) then old(next) else old(curr))
      ensures !(old(sel).Some? && old(sel).value + 1 < |matches|) ==>
        sel == old(sel) && curr == old(curr) && prev == old(prev) && next == old(next)
      ensures matches == old(matches) && cursor == old(cursor) && output == old(output) && status == old(status)
    {
      if sel.Some? && sel.value + 1 < |matches| {
        sel := Some(sel.value + 1);
        if sel == next {
          curr := next;
          CalcOffsets();
          NextAfterCurr(layout, Shown(), curr.value, next);
        }
      }
    }

    /** Alt+J: turn to the next page and select its first item; on the
        last page nothing happens. */
    method PageDown()
      modifies this
      requires Valid()
      ensures Valid()
      ensures old(next).Some? ==> curr == old(next) && sel == old(next) && old(curr).value < curr.value
      ensures old(next).None? ==> sel == old(sel) && curr == old(curr) && prev == old(prev) && next == old(next)
      ensures matches == old(matches) && cursor == old(cursor) && output == old(output) && status == old(status)
    {
      if next.Some? {
        NextAfterCurr(layout, Shown(), curr.value, next);
        sel := next;
        curr := next;
        CalcOffsets();
        NextAfterCurr(layout, Shown(), curr.value, next);
      }
    }

    /** Alt+K: turn to the previous page and select its first item; the
        head page stays where it is (prev == curr there). */
    method PageUp()
      modifies this
      requires Valid()
      ensures Valid()
      ensures old(prev).Some? ==>
        curr == old(prev) && sel == old(prev) && (curr.value < old(curr).value || curr.value == 0)
      ensures old(prev).None? ==> |matches| == 0 && sel == old(sel) && curr == old(curr)
      ensures matches == old(matches) && cursor == old(cursor) && output == old(output) && status == old(status)
    {
      if prev.Some? {
        PrevBeforeCurr(layout, Shown(), curr.value, prev);
        sel := prev;
        curr := prev;
        CalcOffsets();
        NextAfterCurr(layout, Shown(), curr.value, next);
      }
    }

    /** Key_Home: when the head is already selected, move the cursor to the
        start of the query; otherwise select the head and page from it. */
    method Home()
      modifies this
      requires Valid()
      ensures Valid()
      ensures old(sel) == Head() ==>
        cursor == 0 && sel == old(sel) && curr == old(curr) && prev == old(prev) && next == old(next)
      ensures old(sel) != Head() ==> cursor == old(cursor) && sel == Head() && curr == Head()
      ensures matches == old(matches) && output == old(output) && status == old(status)
    {
      if sel == Head() {
        cursor := 0;
      } else {
        sel := Head();
        curr := Head();
        CalcOffsets();
        NextAfterCurr(layout, Shown(), 0, next);
      }
    }

    /** On a page with a next page, the items from the page start to the
        end of the list exceed the budget. */
    lemma TailExceeds(c: nat)
      requires c < |matches| && IsNext(layout, Shown(), c, next) && next.Some?
      ensures SumCost(layout, Shown(), c, |matches|) > Budget(layout)
    {
      SumCostMono(layout, Shown(), c, next.value + 1, |matches|);
    }

    /** The pointers calcoffsets leaves for a page start curr. */
    predicate Paged()
      reads this`matches, this`prev, this`curr, this`next
    {
      curr.Some? && curr.value < |matches| &&
      IsPrev(layout, Texts(items, matches), curr.value, prev) && IsNext(layout, Texts(items, matches), curr.value, next)
    }

    /** The list jump of Key_End: `curr = matchend; calcoffsets(); curr =
        prev; calcoffsets();` and then the loop that moves curr right. */
    method JumpToLast()
      modifies this
      requires WellFormed(layout) && |matches| > 0
      ensures matches == old(matches) && sel == old(sel)
      ensures cursor == old(cursor) && output == old(output) && status == old(status)
      ensures Paged() && next.None? && IsLastPageStart(layout, Shown(), curr.value)
    {
      var t := Shown();
      var start, _ := Pager.CalcOffsets(layout, t, Some(|matches| - 1));
      var p1, n1 := Pager.CalcOffsets(layout, t, start);
      var c, p, n := Pager.AdvanceToTail(layout, t, start.value, p1, n1);
      LastPageWitness(layout, t, start.value, c);
      curr, prev, next := Some(c), p, n;
    }

    /** Key_End with the cursor away from the end of the line: select the
        last match; when there is a next page, page from the start of the
        page ending at the last match, then advance the page start until
        the rest of the list fits. */
    method End()
      modifies this
      requires Valid()
      ensures Valid()
      ensures sel == Last()
      ensures old(next).None? ==> curr == old(curr) && prev == old(prev) && next == old(next)
      ensures old(next).Some? ==> next.None? && curr.Some? && IsLastPageStart(layout, Shown(), curr.value)
      ensures matches == old(matches) && cursor == old(cursor) && output == old(output) && status == old(status)
    {
      if next.Some? {
        JumpToLast();
      }
      sel := Last();
    }

    /** Key_Left: move the cursor back one character while the cursor
        line owns the key (vertical list, or nothing to the left of the
        selection); in the single-row layout fall through to Key_Up. */
    method Left()
      modifies this
      requires Valid() && cursor <= BUFSIZ
      ensures Valid()
      ensures old(cursor) > 0 && (old(sel).None? || old(sel) == Some(0) || layout.lines > 0) ==>
        cursor == RuneBack(text[..], old(cursor) - 1) && sel == old(sel) && curr == old(curr)
      ensures !(old(cursor) > 0 && (old(sel).None? || old(sel) == Some(0) || layout.lines > 0)) ==>
        cursor == old(cursor) &&
        (old(sel).Some? && old(sel).value > 0 && layout.lines == 0 ==>
           sel == Some(old(sel).value - 1) && curr == (if old(sel) == old(curr) then old(prev) else old(curr))) &&
        (!(old(sel).Some? && old(sel).value > 0 && layout.lines == 0) ==> sel == old(sel) && curr == old(curr))
      ensures matches == old(matches) && output == old(output) && status == old(status)
    {
      if cursor > 0 && (sel.None? || sel == Some(0) || layout.lines > 0) {
        RuneLeft();
      } else if layout.lines > 0 {
      } else {
        MoveUp();
      }
    }

    /** The cursor step of Key_Left: `cursor = nextrune(-1)`. */
    method RuneLeft()
      modifies this
      requires text.Length == BUFSIZ && 0 < cursor <= BUFSIZ
      ensures cursor == RuneBack(text[..], old(cursor) - 1)
      ensures matches == old(matches) && prev == old(prev) && curr == old(curr) && next == old(next)
      ensures sel == old(sel) && output == old(output) && status == old(status)
    {
      var n := NextRune(text[..], cursor, -1);
      cursor := n;
    }

    /** Key_Right: move the cursor on one character while there is a byte
        under it; at the end of the query fall through to Key_Down in the
        single-row layout. */
    method Right()
      modifies this
      requires Valid() && cursor < BUFSIZ
      ensures Valid()
      ensures text[old(cursor)] != NUL && RuneFwd(text[..], old(cursor) + 1) < BUFSIZ ==>
        cursor == RuneFwd(text[..], old(cursor) + 1) && sel == old(sel) && curr == old(curr) && status == old(status)
      ensures text[old(cursor)] != NUL && RuneFwd(text[..], old(cursor) + 1) == BUFSIZ ==> status == Undefined
      ensures text[old(cursor)] == NUL ==>
        cursor == old(cursor) && status == old(status) &&
        (old(sel).Some? && old(sel).value + 1 < |matches| && layout.lines == 0 ==>
           sel == Some(old(sel).value + 1) && curr == (if sel == old(next) then old(next) else old(curr))) &&
        (!(old(sel).Some? && old(sel).value + 1 < |matches| && layout.lines == 0) ==> sel == old(sel) && curr == old(curr))
      ensures matches == old(matches) && output == old(output)
    {
      if text[cursor] != NUL {
        RuneRight();
      } else if layout.lines > 0 {
      } else {
        MoveDown();
      }
    }

    /** The cursor step of Key_Right: `cursor = nextrune(+1)`. */
    method RuneRight()
      modifies this
      requires text.Length == BUFSIZ && cursor < BUFSIZ
      ensures RuneFwd(text[..], old(cursor) + 1) < BUFSIZ ==>
        cursor == RuneFwd(text[..], old(cursor) + 1) && status == old(status)
      ensures RuneFwd(text[..], old(cursor) + 1) == BUFSIZ ==> status == Undefined
      ensures matches == old(matches) && prev == old(prev) && curr == old(curr) && next == old(next)
      ensures sel == old(sel) && output == old(output)
    {
      var n := NextRune(text[..], cursor, 1);
      if n == BUFSIZ {
        // nextrune read text[BUFSIZ]
        status := Undefined;
      } else {
        cursor := n;
      }
    }

    /** Key_Tab: copy the selected item into the query (at most BUFSIZ-1
        bytes), put the cursor at its end and match again. */
    method Tab()
      modifies this, text
      requires Valid()
      ensures Valid()
      ensures old(sel).None? ==>
        unchanged(text) && cursor == old(cursor) && sel == old(sel) && curr == old(curr)
      ensures old(sel).Some? ==>
        var s := items[old(matches)[old(sel).value]];
        && cursor == (if |s| < BUFSIZ - 1 then |s| else BUFSIZ - 1)
        && text[..] == s[..cursor] + [NUL] + old(text[..])[cursor + 1..]
        && Query() == s[..cursor]
        && curr == Head() && sel == Head()
      ensures output == old(output) && status == old(status)
    {
      if sel.Some? {
        var s := items[matches[sel.value]];
        var n := if |s| < BUFSIZ - 1 then |s| else BUFSIZ - 1;
        StoreQuery(s, n);
        cursor := n;
        Match();
      }
    }

    /** `memcpy(text, s, n); text[n] = '\0';`: the query becomes the first n
        bytes of s, and the bytes after the new terminator are kept. */
    method StoreQuery(s: seq<Byte>, n: nat)
      modifies text
      requires text.Length == BUFSIZ && n < BUFSIZ && n <= |s| && NoNul(s)
      ensures text[..] == s[..n] + [NUL] + old(text[..])[n + 1..]
      ensures BufferOk(text[..]) && CString(text[..]) == s[..n]
    {
      CopyIn(s, n);
      text[n] := NUL;
      assert text[..] == s[..n] + [NUL] + old(text[..])[n + 1..];
      assert text[..][..n] == s[..n];
      CStringIs(text[..], s[..n]);
    }

    /** insert(buf, len) for the other keys: copy len + 1 bytes of the
        line edit's UTF-8 text (with its terminator) over the buffer and
        match again. */
    method Insert(content: seq<Byte>, len: nat)
      modifies this, text
      requires Valid() && len <= |content|
      ensures Valid()
      ensures len + 1 > BUFSIZ ==> status == Undefined
      ensures len + 1 <= BUFSIZ && StrLen(AfterInsert(old(text[..]), content, len)) == BUFSIZ ==>
        status == Undefined
      ensures len + 1 <= BUFSIZ && StrLen(AfterInsert(old(text[..]), content, len)) < BUFSIZ ==>
        text[..] == AfterInsert(old(text[..]), content, len) && status == old(status) &&
        curr == Head() && sel == Head()
      ensures output == old(output) && cursor == old(cursor)
    {
      if len + 1 > BUFSIZ {
        // memcpy writes past the buffer
        status := Undefined;
        return;
      }
      if StrLen(AfterInsert(text[..], content, len)) == BUFSIZ {
        // no terminator is left, and match() reads past the buffer
        status := Undefined;
        return;
      }
      CopyIn(content + [NUL], len + 1);
      Match();
    }

    /** memcpy(text, src, n). */
    method CopyIn(src: seq<Byte>, n: nat)
      modifies text
      requires n <= |src| && n <= text.Length
      ensures text[..] == src[..n] + old(text[..])[n..]
    {
      forall i | 0 <= i < n {
        text[i] := src[i];
      }
    }

    /** Ctrl+K: end the query at the cursor and match again. */
    method CutLine()
      modifies this, text
      requires Valid() && cursor < BUFSIZ
      ensures Valid()
      ensures text[..] == old(text[..])[old(cursor) := NUL]
      ensures Query() == if cursor < |old(Query())| then old(Query())[..cursor] else old(Query())
      ensures curr == Head() && sel == Head()
      ensures cursor == old(cursor) && output == old(output) && status == old(status)
    {
      CStringCut(text[..], cursor);
      text[cursor] := NUL;
      Match();
    }

    /** Key_Return / Key_Enter: print the selected item, or the query when
        nothing is selected or Shift is held, and exit(0). */
    method Accept(shift: bool)
      modifies this
      requires Valid()
      ensures Valid()
      ensures status == Accepted
      ensures output == old(output) + [if old(sel).Some? && !shift then items[matches[old(sel).value]] else Query()]
      ensures matches == old(matches) && cursor == old(cursor) && sel == old(sel) && curr == old(curr)
    {
      var chosen := if sel.Some? && !shift then items[matches[sel.value]] else Query();
      output := output + [chosen];
      status := Accepted;
    }

    /** What Ctrl+K leaves, from the cursor c0: the query cut at c0 (if it
        reached that far), matched again, with the head selected. */
    twostate predicate CutDone(c0: nat)
      reads this, text
    {
      && Query() == (if c0 < |old(Query())| then old(Query())[..c0] else old(Query()))
      && curr == Head() && sel == Head()
      && status == old(status) && output == old(output)
    }

    /** The match list, the pointers and the output are as they were. */
    twostate predicate ListKept()
      reads this
    {
      && matches == old(matches) && prev == old(prev) && curr == old(curr) && next == old(next)
      && sel == old(sel) && output == old(output)
    }

    /** What Key_End leaves, from the cursor c0 with a line edit of len
        characters: at the end of the line the cursor moves to the end of
        the query and the list stays; otherwise the last match is selected
        and, when there was a next page, the last page is shown.  The
        session goes on and prints nothing. */
    twostate predicate EndDone(c0: nat, len: nat)
      reads this, text
    {
      && status == Running && output == old(output) && matches == old(matches)
      && (c0 == len ==>
            cursor == StrLen(text[..]) &&
            sel == old(sel) && curr == old(curr) && prev == old(prev) && next == old(next))
      && (c0 != len ==>
            cursor == c0 && sel == Last() &&
            (old(next).None? ==> curr == old(curr) && prev == old(prev) && next == old(next)) &&
            (old(next).Some? ==>
               next.None? && curr.Some? && curr.value < |matches| &&
               IsLastPageStart(layout, Shown(), curr.value)))
    }

    /** What Key_Return / Key_Enter leaves: the selected item, or the query
        when nothing is selected or Shift is held, printed, and the session
        accepted. */
    twostate predicate AcceptDone(shift: bool)
      reads this, text
    {
      && status == Accepted && matches == old(matches)
      && output == old(output) +
           [if old(sel).Some? && old(sel).value < |old(matches)| &&
               old(matches)[old(sel).value] < |items| && !shift
            then items[old(matches)[old(sel).value]] else old(Query())]
    }

    /** The Ctrl branch of keypress. */
    method CtrlKey(key: Key)
      modifies this, text
      requires Valid() && status == Running && cursor < BUFSIZ
      ensures Valid()
      ensures key == KeyU ==> status == Undefined
      ensures key == KeyW ==> (status == Running <==> old(cursor) == 0)
      ensures key == KeyBracketLeft ==> status == Cancelled
      ensures key == KeyK ==> CutDone(old(cursor))
      ensures key != KeyK ==> unchanged(text) && ListKept()
      ensures !(key.KeyK? || key.KeyU? || key.KeyW? || key.KeyBracketLeft?) ==> status == old(status)
      ensures output == old(output) && cursor == old(cursor)
    {
      match key
      case KeyK => CutLine();
      case KeyU =>
        // insert(NULL, 0 - cursor) copies from a null pointer
        status := Undefined;
      case KeyW =>
        // insert(NULL, nextrune(-1) - cursor) copies from a null pointer,
        // or copies nothing and leaves the cursor, so the loop never ends
        if cursor > 0 {
          status := Undefined;
        }
      case KeyBracketLeft => status := Cancelled;
      case _ =>
        // Ctrl+Y puts the line edit's text on the clipboard
    }

    /** The Alt branch of keypress. */
    method AltKey(key: Key)
      modifies this
      requires Valid() && status == Running
      ensures Valid()
      ensures output == old(output) && cursor == old(cursor) && status == old(status)
    {
      match key
      case KeyJ => PageDown();
      case KeyK => PageUp();
      case _ =>
    }

    /** The branch of keypress without Ctrl or Alt. */
    method PlainKey(key: Key, shift: bool, edit: LineEdit)
      modifies this, text
      requires Valid() && status == Running && cursor < BUFSIZ
      requires edit.length <= |edit.content|
      ensures Valid()
      ensures key == KeyEscape ==> status == Cancelled
      ensures key == KeyEnd ==> EndDone(old(cursor), edit.length)
      ensures key == KeyReturn || key == KeyEnter ==> AcceptDone(shift)
      ensures output != old(output) ==> status == Accepted
      ensures !PlainKeyEdits(key) ==> unchanged(text)
      ensures !ExitingKey(key) ==>
        status == Running || (status == Undefined && (PlainKeyEdits(key) || key == KeyRight))
    {
      if ExitingKey(key) {
        ExitKey(key, shift, edit);
      } else if NavigationKey(key) {
        NavKey(key);
      } else {
        EditKey(key, edit);
      }
    }

    /** Key_End, Key_Escape, Key_Return and Key_Enter. */
    method ExitKey(key: Key, shift: bool, edit: LineEdit)
      modifies this
      requires Valid() && status == Running
      requires ExitingKey(key)
      ensures Valid()
      ensures key == KeyEscape ==> status == Cancelled && ListKept()
      ensures key == KeyEnd ==> EndDone(old(cursor), edit.length)
      ensures key == KeyReturn || key == KeyEnter ==> AcceptDone(shift)
    {
      if key == KeyEnd {
        if cursor == edit.length {
          cursor := StrLen(text[..]);
        } else {
          End();
        }
      } else if key == KeyEscape {
        status := Cancelled;
      } else {
        Accept(shift);
      }
    }

    /** The keys that rewrite the query: Tab completes it, and every other
        key inserts the line edit's text. */
    method EditKey(key: Key, edit: LineEdit)
      modifies this, text
      requires Valid() && edit.length <= |edit.content|
      ensures Valid() && output == old(output)
      ensures status == old(status) || status == Undefined
    {
      if key == KeyTab {
        Tab();
      } else {
        Insert(edit.content, edit.length);
      }
    }

    /** The keys that move the selection or the cursor and leave the
        query alone. */
    method NavKey(key: Key)
      modifies this
      requires Valid() && cursor < BUFSIZ
      requires NavigationKey(key)
      ensures Valid() && output == old(output)
      ensures key != KeyRight ==> status == old(status)
      ensures key == KeyRight ==> status == old(status) || status == Undefined
    {
      if key == KeyHome {
        Home();
      } else if key == KeyLeft {
        Left();
      } else if key == KeyUp {
        MoveUp();
      } else if key == KeyRight {
        Right();
      } else {
        MoveDown();
      }
    }

    /** keypress(): take the cursor from the line edit, then dispatch on the
        modifiers (Ctrl before Alt before none) and the key. */
    method Keypress(ev: KeyEvent, edit: LineEdit)
      modifies this, text
      requires Valid() && status == Running
      requires edit.cursorPos <= edit.length <= |edit.content| && edit.cursorPos < BUFSIZ
      ensures Valid()
      ensures ev.ctrl && ev.key == KeyU ==> status == Undefined
      ensures ev.ctrl && ev.key == KeyW ==> (status == Running <==> edit.cursorPos == 0)
      ensures ev.ctrl && ev.key == KeyBracketLeft ==> status == Cancelled
      ensures !ev.ctrl && !ev.alt && ev.key == KeyEscape ==> status == Cancelled
      ensures ev.ctrl && ev.key == KeyK ==> CutDone(edit.cursorPos)
      ensures ev.ctrl && ev.key != KeyK ==> ListKept()
      ensures ev.ctrl && !(ev.key.KeyK? || ev.key.KeyU? || ev.key.KeyW? || ev.key.KeyBracketLeft?) ==>
        status == Running
      ensures !ev.ctrl && !ev.alt && ev.key == KeyEnd ==> EndDone(edit.cursorPos, edit.length)
      ensures !ev.ctrl && !ev.alt && (ev.key == KeyReturn || ev.key == KeyEnter) ==> AcceptDone(ev.shift)
      ensures output != old(output) ==> status == Accepted
      ensures !((ev.ctrl && ev.key == KeyK) || (!ev.ctrl && !ev.alt && PlainKeyEdits(ev.key))) ==> unchanged(text)
      ensures ev.alt && !ev.ctrl ==> cursor == edit.cursorPos && status == Running
      ensures !ev.ctrl && !ev.alt && !ExitingKey(ev.key) ==>
        status == Running || (status == Undefined && (PlainKeyEdits(ev.key) || ev.key == KeyRight))
    {
      cursor := edit.cursorPos;
      if ev.ctrl {
        CtrlKey(ev.key);
      } else if ev.alt {
        AltKey(ev.key);
      } else {
        PlainKey(ev.key, ev.shift, edit);
      }
    }
  }
}
