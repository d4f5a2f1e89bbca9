# qdmenu: matcher, pager, cursor walk and UTF-8 decoder

This project models the engine of qdmenu, a Qt port of dmenu. It covers:

- the item filter and its ranking (`match`, `cistrstr`, `appenditem`);
- the pager (`calcoffsets`, `textw_clamp`);
- the UTF-8 cursor and word helpers (`nextrune`, `movewordedge`);
- the state machine of `keypress`, which moves the selection, pages and the text cursor;
- the two rules that `readstdin` and `setup` apply to the input: newline stripping, and capping the number of lines;
- the table-driven UTF-8 decoder of `drw.cpp` (`utf8decodebyte`, `utf8validate`, `utf8decode`).

Modules:

- `CStr` models bytes and C strings. A C string is the bytes before its terminator. The module also holds the libc routines the code relies on, each modelled by what it returns: `strlen`, `tolower`, `strncmp`/`strncasecmp` and `strstr`.
- `Matcher` models `match()`:
  - the `strtok` tokens of the query;
  - the test that an item holds every token;
  - the three bands (exact, prefix, substring), joined in that order, each in store order.

  An item is identified by its index in the immutable item store. The list that `appenditem` links together is the sequence of those indices.
- `Pager` models `calcoffsets()` on positions in the match list. The font width of an item is a function parameter, `measure`. `textw_clamp` bounds it by the page budget.
- `TextBuffer` models `nextrune()` and `movewordedge()` on the bytes of the query buffer.
- `Utf8` models the decoder. Each of its loops is a method proved equal to a function. The function is then related to the RFC 3629 section 3 encoding (`Encode`), in both directions.
- `Menu` holds a class with the program's globals as fields:
  - `text`, an array of BUFSIZ bytes;
  - `cursor`;
  - the match list, and the `prev`/`curr`/`next`/`sel` pointers (as optional positions);
  - the printed output;
  - the session status.

  It also holds one method per keypress branch. The class invariant `Valid()` says two things. First, the match list is the one `match()` builds for the current query. Second, the pointers are what `calcoffsets` computes, with the selection on the current page.

Where a description of the design and the code disagree, the model follows the code:

- `utf8decode` returns 0, 1 or the number of bytes consumed (`j`) on malformed input, not always 1.
- Key_Enter and Key_Return always accept. The multi-accept branch cannot be reached, because Ctrl+Return is handled by the Ctrl branch first.
- Escape ends the session through `exit(1)`, which the model records as the status `Cancelled`.

## Model

| member | source | states |
|---|---|---|
| CStr.ToBv | src/drw.cpp:29 | converting a byte to a bit-vector, as `(unsigned char)c & mask` does, keeps its value |
| CStr.StrLen | src/qdmenu.cpp:313 | `strlen` of a buffer is the index of its first NUL: no NUL before it, a NUL at it |
| CStr.CString | src/qdmenu.cpp:313 | the C string of a buffer is a NUL-free prefix of it |
| CStr.CStringIs | src/qdmenu.cpp:519-520 | a buffer holding s followed by a NUL holds the C string s, and `strlen` is \|s\| |
| CStr.CStringCut | src/qdmenu.cpp:392-395 | storing NUL at the cursor (Ctrl+K) cuts the query there if it reached that far, and otherwise leaves it unchanged |
| CStr.ToLower | src/qdmenu.cpp:218-219 | ASCII `tolower`: only A-Z change, each to its lower-case letter; NUL stays NUL; no upper-case letter remains |
| CStr.StrNEq | src/qdmenu.cpp:321-323 | `fstrncmp(a, b, n) == 0` (`strncmp`, or `strncasecmp` under `-i`) holds exactly when, at every position below n not past a terminator of a, the two bytes agree under the comparator |
| CStr.StrNEqWhole | src/qdmenu.cpp:313-321 | `fstrncmp(text, item, strlen(text)+1) == 0` holds exactly when the item equals the query under the comparator |
| CStr.StrNEqPrefix | src/qdmenu.cpp:310-323 | `fstrncmp(tok, item, strlen(tok)) == 0` holds exactly when the item starts with the token under the comparator |
| CStr.FirstOccurrenceFound | src/qdmenu.cpp:316 | a substring search result is non-NULL exactly when the needle occurs |
| CStr.OccursAtSlice | src/qdmenu.cpp:316 | a case-sensitive occurrence at p is equality of the slice at p |
| CStr.StrStr | src/qdmenu.cpp:316 | `strstr` returns the first offset at which the needle occurs, or NULL when it occurs nowhere |
| CStr.StrStrFrom | src/qdmenu.cpp:316 | searching from p, with no occurrence before p, finds the first occurrence |
| Matcher.CiStrStr | src/qdmenu.cpp:209-224 | an empty needle gives offset 0; otherwise the result is the first offset where the needle matches under ASCII `tolower`, or NULL if there is none |
| Matcher.WordLen | src/qdmenu.cpp:307 | the length of the maximal run of non-space bytes at the start |
| Matcher.WordEnd | src/qdmenu.cpp:307 | the scan over one token stops at the first space at or after i, or at the end |
| Matcher.Tokenize | src/qdmenu.cpp:307-309 | the tokenising loop yields exactly the `strtok(buf, " ")` tokens of the query |
| Matcher.TokensShape | src/qdmenu.cpp:307 | every token is non-empty and holds no space, and it holds no NUL when the query holds none |
| Matcher.TokensEmpty | src/qdmenu.cpp:307-310 | the query has no token exactly when it holds only spaces |
| Matcher.TokensOfJoin | src/qdmenu.cpp:307 | splitting undoes joining: non-empty, space-free words joined by single spaces tokenise back to the same words |
| Matcher.JoinHead | src/qdmenu.cpp:307 | a join starts with its first word, followed by a space and the join of the rest |
| Matcher.ContainsAll | src/qdmenu.cpp:315-319 | the token loop keeps the item exactly when every token occurs in it under the active comparator |
| Matcher.BandTest | src/qdmenu.cpp:320-326 | for an item holding every token, the band chosen is the one `Classify` gives: exact when there are no tokens or the item equals the query, prefix when it starts with the first token, otherwise substring |
| Matcher.BandsExtend | src/qdmenu.cpp:321-326 | appending one item extends exactly the band it falls into, and no other |
| Matcher.Match | src/qdmenu.cpp:312-343 | the filtering loop and the two splices produce the match list: the exact band, then the prefix band, then the substring band |
| Matcher.BandOfSpec | src/qdmenu.cpp:314-327 | an index is in a band exactly when it is below n and its item falls into that band; each band is strictly increasing (store order, no repeats) |
| Matcher.MatchListMembers | src/qdmenu.cpp:314-319 | filter soundness and completeness: an index is in the match list exactly when it is an item index and the item holds every token |
| Matcher.MatchListBounded | src/qdmenu.cpp:314-343 | every entry of the match list indexes an item |
| Matcher.BandIsOrdered | src/qdmenu.cpp:320-326 | each band is ordered, and all its entries are of that band |
| Matcher.ConcatOrdered | src/qdmenu.cpp:328-343 | splicing a list of lower-ranked bands after one of higher-ranked bands keeps the band order |
| Matcher.MatchListOrder | src/qdmenu.cpp:328-343 | in the match list the bands never decrease, each band is in store order, and no index appears twice |
| Matcher.ClassifyNoTokens | src/qdmenu.cpp:321 | with no tokens every item is an exact match |
| Matcher.AllInBand | src/qdmenu.cpp:320-327 | a band that all of the first n items fall into is 0, 1, ..., n-1 |
| Matcher.NoneInBand | src/qdmenu.cpp:320-327 | a band that none of the first n items fall into is empty |
| Matcher.NoTokensAllExact | src/qdmenu.cpp:321-322 | with no tokens the exact band holds every index in store order, and the other bands are empty |
| Matcher.EmptyQueryMatchesAll | src/qdmenu.cpp:305-343 | a query of only spaces matches every item in store order, all of them in the exact band |
| Pager.TextWClamp | src/qdmenu.cpp:161-165 | `textw_clamp` is the measured width or the budget n, and never more than either |
| Pager.SumCostSplit | src/qdmenu.cpp:189-194 | the running totals of calcoffsets add up over adjacent ranges |
| Pager.CalcOffsets | src/qdmenu.cpp:180-195 | with no `curr`, both `prev` and `next` are NULL. Otherwise `next` is the first position at which the running total from `curr` exceeds the budget (NULL when the rest fits), and `prev` is the last start before `curr` whose total to `curr` fits (the list head when all fit) |
| Pager.LastPageWitness | src/qdmenu.cpp:455-463 | the page start that Key_End reaches is the last page start |
| Pager.TailStep | src/qdmenu.cpp:461-462 | while a next page exists, the item after `curr` exists and the rest of the list from `curr` exceeds the budget |
| Pager.AdvanceToTail | src/qdmenu.cpp:461-462 | `while (next && (curr = curr->right)) calcoffsets();` stops at the first start whose rest of the list fits; `next` is NULL there, and `prev`/`next` are those of that start |
| Pager.CostFits | src/qdmenu.cpp:183-190 | in a usable layout no single item exceeds the page budget |
| Pager.SumCostMono | src/qdmenu.cpp:189-194 | the running total grows with the range |
| Pager.NextUnique | src/qdmenu.cpp:189-191 | `next` is determined by `curr` |
| Pager.PrevUnique | src/qdmenu.cpp:192-194 | `prev` is determined by `curr` |
| Pager.PageUnique | src/qdmenu.cpp:180-195 | calcoffsets is a function of the page start |
| Pager.NextAfterCurr | src/qdmenu.cpp:189-191 | in a usable layout the page from `curr` holds at least `curr`, so the next page starts after it |
| Pager.PrevBeforeCurr | src/qdmenu.cpp:192-194 | `prev` exists and starts before `curr`, unless `curr` is the head, where `prev == curr` |
| Pager.PrevPageReaches | src/qdmenu.cpp:486-488 | the page that starts at `prev` reaches up to `curr`, so a step up onto it keeps the selection on the page |
| Pager.SumCostRows | src/qdmenu.cpp:184-190 | in the vertical list every item costs one row height |
| Pager.VerticalNext | src/qdmenu.cpp:184-191 | vertical list: `next` is `curr + lines`, or NULL when fewer items remain (both directions) |
| Pager.VerticalPrev | src/qdmenu.cpp:184-194 | vertical list: `prev` is `max(0, curr - lines)` (both directions) |
| Pager.TailPageUnique | src/qdmenu.cpp:461-462 | the first start at or after a given one whose rest of the list fits is unique |
| Pager.VerticalLastPage | src/qdmenu.cpp:455-463 | vertical list: Key_End pages from `max(0, count - lines)`, that is, it shows the last `lines` items |
| TextBuffer.RuneFwd | src/qdmenu.cpp:360 | the forward scan stays within the buffer and its terminator |
| TextBuffer.RuneBack | src/qdmenu.cpp:360 | the backward scan never passes its start |
| TextBuffer.NextRune | src/qdmenu.cpp:355-362 | `nextrune(+1)` is the forward scan from cursor+1; `nextrune(-1)` is the backward scan from cursor-1, or -1 at cursor 0 |
| TextBuffer.RuneFwdLands | src/qdmenu.cpp:360 | `nextrune(+1)` lands after the cursor, on the terminator or on a byte that is not a continuation byte, and skips only continuation bytes |
| TextBuffer.RuneBackLands | src/qdmenu.cpp:360 | `nextrune(-1)` lands before the cursor, on 0 or on a byte that is not a continuation byte, and skips only continuation bytes |
| TextBuffer.EncodeShape | src/qdmenu.cpp:360 | an encoded character is one lead byte followed by continuation bytes |
| TextBuffer.RuneFwdSkips | src/qdmenu.cpp:360 | over a run of continuation bytes the forward scan stops exactly at its end |
| TextBuffer.RuneBackSkips | src/qdmenu.cpp:360 | over a run of continuation bytes the backward scan stops exactly at the byte before it |
| TextBuffer.RuneFwdOverCharacter | src/qdmenu.cpp:355-362 | in well-formed UTF-8 text, `nextrune(+1)` steps over exactly one character |
| TextBuffer.RuneBackOverCharacter | src/qdmenu.cpp:355-362 | in well-formed UTF-8 text, `nextrune(-1)` steps back over exactly one character |
| TextBuffer.SkipFwd | src/qdmenu.cpp:372-375 | each forward loop of movewordedge skips characters of one kind (delimiter or not), stops on the terminator or on the other kind, and moves if it started on its own kind |
| TextBuffer.WordEdgeFwd | src/qdmenu.cpp:371-376 | forward: the cursor does not move back; it passes the character starts that are delimiters up to a character start m, then the ones that are not up to the result; it ends on the terminator or on a delimiter |
| TextBuffer.BackRunExtend | src/qdmenu.cpp:367-370 | stepping back over one character of the kind being skipped extends the skipped run |
| TextBuffer.SkipBack | src/qdmenu.cpp:367-370 | each backward loop of movewordedge skips characters of one kind and stops at 0 or after a character of the other kind |
| TextBuffer.WordEdgeBack | src/qdmenu.cpp:366-370 | backward: the cursor does not move forward, skips the delimiters before it, then the word, and ends at 0 or just after a delimiter |
| TextBuffer.MoveWordEdge | src/qdmenu.cpp:364-377 | `movewordedge(dir)` moves in the requested direction and ends at 0 or after a delimiter (backward), or at the terminator or on a delimiter (forward); in each direction it gives the two runs, delimiters then word, that the halves state |
| Utf8.TableBounds | src/drw.cpp:23-24 | every `utfmin`/`utfmax` range lies within 0 .. 0x10FFFF |
| Utf8.ByteClass | src/drw.cpp:21-22 | a byte has one of the six classes 0..5 |
| Utf8.IsContClass | src/drw.cpp:29 | `(c & 0xc0) == 0x80` tests for class 0 |
| Utf8.Payload | src/drw.cpp:30 | the payload bits of a classified byte are below 0x80 |
| Utf8.MaskMatch | src/drw.cpp:28-30 | the mask of class k matches exactly the bytes of class k, and clearing it leaves the payload |
| Utf8.Mask0 | src/drw.cpp:21-22 | mask 0xC0 against 0x80 matches exactly the continuation bytes |
| Utf8.Mask1 | src/drw.cpp:21-22 | mask 0x80 against 0x00 matches exactly the ASCII bytes |
| Utf8.Mask2 | src/drw.cpp:21-22 | mask 0xE0 against 0xC0 matches exactly the two-byte lead bytes |
| Utf8.Mask3 | src/drw.cpp:21-22 | mask 0xF0 against 0xE0 matches exactly the three-byte lead bytes |
| Utf8.Mask4 | src/drw.cpp:21-22 | mask 0xF8 against 0xF0 matches exactly the four-byte lead bytes |
| Utf8.DecodeByte | src/drw.cpp:26-32 | `utf8decodebyte` sets `*i` to the byte's class and returns its payload bits, or 0 for class 5 |
| Utf8.Checked | src/drw.cpp:36-37 | the value is kept when it is in range for its length and not a surrogate, and replaced by U+FFFD otherwise; the result is always a scalar value |
| Utf8.EncodedLen | src/drw.cpp:38-40 | the minimal encoding length is between 1 and 4 |
| Utf8.Validate | src/drw.cpp:34-41 | `utf8validate` leaves the checked value and returns the smallest i with `*u <= utfmax[i]`, which is its minimal encoding length |
| Utf8.FirstNonCont | src/drw.cpp:54-57 | the position found holds no continuation byte |
| Utf8.FirstNonContNone | src/drw.cpp:54-57 | no such position exists exactly when every byte in the range is a continuation byte |
| Utf8.FirstNonContExtend | src/drw.cpp:54-57 | widening the range by one byte finds that byte exactly when it is not a continuation byte |
| Utf8.Decoded | src/drw.cpp:43-65 | the decoded value is always a scalar value; the length is at most clen and at most 4; length 0 comes with U+FFFD |
| Utf8.Decode | src/drw.cpp:43-65 | `utf8decode` returns: 0 for clen 0; 1 for a bad lead byte; j at the first non-continuation byte; 0 for a truncated sequence; otherwise the checked value and the announced length |
| Utf8.Encode | src/drw.cpp:21-24 | the RFC 3629 encoding of a scalar value has its minimal length |
| Utf8.ContByte | src/drw.cpp:21-22 | 0x80 plus six payload bits is a continuation byte carrying those bits |
| Utf8.LeadByte | src/drw.cpp:21-22 | a lead byte built from class k and its payload has class k and that payload |
| Utf8.DecodedComplete | src/drw.cpp:54-64 | a complete sequence decodes to the checked value of its payload bits, with the announced length |
| Utf8.DecodeEncode1 | src/drw.cpp:43-65 | an ASCII code point decodes from its one-byte encoding |
| Utf8.DecodeEncode2 | src/drw.cpp:43-65 | a code point in 0x80..0x7FF decodes from its two-byte encoding |
| Utf8.DecodeEncode3 | src/drw.cpp:43-65 | a non-surrogate code point in 0x800..0xFFFF decodes from its three-byte encoding |
| Utf8.DecodeEncode4 | src/drw.cpp:43-65 | a code point in 0x10000..0x10FFFF decodes from its four-byte encoding |
| Utf8.DecodeEncode | src/drw.cpp:43-65 | every scalar value followed by any bytes decodes from its encoding to itself and its encoding length |
| Utf8.DecodedShape | src/drw.cpp:51-64 | a decode that does not yield U+FFFD saw a lead byte of class L in 1..4, then L-1 continuation bytes, and a value in range for L |
| Utf8.Encoding2 | src/drw.cpp:54-64 | an accepted two-byte sequence is the encoding of its value |
| Utf8.Encoding3 | src/drw.cpp:54-64 | an accepted three-byte sequence is the encoding of its value |
| Utf8.Encoding4 | src/drw.cpp:54-64 | an accepted four-byte sequence is the encoding of its value |
| Utf8.DecodedIsEncoding | src/drw.cpp:43-65 | conversely, whenever the decoder yields a code point other than U+FFFD, the bytes it consumed are that code point's encoding |
| Menu.ItemText | src/qdmenu.cpp:550-552 | an input line loses one trailing newline and keeps everything else (strdup stops at a NUL) |
| Menu.LinesAsWritten | src/qdmenu.cpp:560 | `lines = MIN(lines, i)` with the `int` request converted to `size_t`, then `MAX(lines, 0)`: for a C `int` request the rows lie between 0 and the item count, and there are no rows only for a request of at most 0 or no items |
| Menu.NegativeLinesAsWritten | src/qdmenu.cpp:560 | as written, a negative `-l` request yields as many rows as there are items |
| Menu.EffectiveLines | src/qdmenu.cpp:584 | the number of rows is the request capped at the item count, and 0 (the single row) for a negative request |
| Menu.LinesAgree | src/qdmenu.cpp:560 | for requests that are not negative, the code as written and the intended rule agree |
| Menu.Texts | src/qdmenu.cpp:189-193 | the texts calcoffsets measures are the matched items' texts, in match-list order |
| Menu.AfterInsert | src/qdmenu.cpp:350 | `memcpy(text, buf, len + 1)` puts the first len bytes of the line edit's text, then its next byte or terminator, and leaves the rest of the buffer |
| Menu.InsertWholeLine | src/qdmenu.cpp:348-351 | when the line edit's length is its byte count, the query becomes exactly its text |
| Menu.Menu.constructor | src/qdmenu.cpp:537-561 | the items are the input lines with their newlines stripped; the rows follow the capping rule; the query is empty; one match() has run, so every item is matched and the head is selected |
| Menu.Menu.CalcOffsets | src/qdmenu.cpp:180-195 | `prev` and `next` become what calcoffsets computes for `curr`; nothing else changes |
| Menu.Menu.Match | src/qdmenu.cpp:295-346 | the match list becomes the one for the current query, `curr = sel = matches`, and the pages agree with it |
| Menu.Menu.MoveUp | src/qdmenu.cpp:485-490 | `sel` moves one item left when there is one, and the page turns back only when `sel` was the page's first item; the selection stays on the page |
| Menu.Menu.MoveDown | src/qdmenu.cpp:509-514 | `sel` moves one item right when there is one, and the page turns only when `sel` reaches `next`; the selection stays on the page |
| Menu.Menu.PageDown | src/qdmenu.cpp:430-435 | Alt+J: with a next page, turn to it and select its first item; otherwise nothing changes |
| Menu.Menu.PageUp | src/qdmenu.cpp:436-441 | Alt+K: turn to the previous page and select its first item, which is before the old page or is the head |
| Menu.Menu.Home | src/qdmenu.cpp:469-476 | with the head already selected, the cursor moves to 0 and nothing else changes; otherwise the head is selected and paged from |
| Menu.Menu.TailExceeds | src/qdmenu.cpp:461 | on a page with a next page, the rest of the list from the page start exceeds the budget |
| Menu.Menu.JumpToLast | src/qdmenu.cpp:455-463 | the list jump of Key_End leaves the pointers of the last page start, with no next page |
| Menu.Menu.End | src/qdmenu.cpp:449-465 | Key_End (cursor not at the end of the line) selects the last match, and jumps to the last page when there is a next page |
| Menu.Menu.Left | src/qdmenu.cpp:477-490 | Key_Left moves the cursor back one character when the cursor line owns the key; in the single row it otherwise falls through to Key_Up, selecting the item before and turning back a page exactly when the selection was the page's first item |
| Menu.Menu.RuneLeft | src/qdmenu.cpp:479 | `cursor = nextrune(-1)`: the cursor lands on the start of the character before it; nothing else changes |
| Menu.Menu.Right | src/qdmenu.cpp:501-514 | Key_Right moves the cursor on one character over a non-NUL byte (undefined when the scan reaches past the buffer); at the terminator, in the single row, it falls through to Key_Down, selecting the item after and turning the page exactly when the selection reaches `next` |
| Menu.Menu.RuneRight | src/qdmenu.cpp:503 | `cursor = nextrune(+1)`: the cursor lands after the continuation bytes of the character, or the status is `Undefined` when that scan reaches past the buffer; nothing else changes |
| Menu.Menu.Tab | src/qdmenu.cpp:515-522 | Tab copies at most BUFSIZ-1 bytes of the selected item into the query, puts the cursor at their end and matches again; the whole buffer is stated: those bytes, a NUL, and the old bytes after it; with no selection nothing changes |
| Menu.Menu.StoreQuery | src/qdmenu.cpp:518-520 | `memcpy` then the terminator: the buffer is the first n bytes of the item, a NUL and the old bytes after it, so the query is exactly those n bytes |
| Menu.Menu.Insert | src/qdmenu.cpp:348-352 | the buffer becomes `AfterInsert` of the line edit's text and match() runs; undefined when the copy, or match()'s read of the result, overruns the buffer |
| Menu.Menu.CopyIn | src/qdmenu.cpp:519 | `memcpy(text, src, n)`: the first n bytes are replaced and the rest are kept |
| Menu.Menu.CutLine | src/qdmenu.cpp:392-395 | Ctrl+K stores a NUL at the cursor, so the query is cut there, and matches again |
| Menu.Menu.Accept | src/qdmenu.cpp:491-497 | Enter prints the selected item, or the query when nothing is selected or Shift is held, and accepts |
| Menu.Menu.CtrlKey | src/qdmenu.cpp:390-420 | Ctrl+K cuts the query at the cursor, matches again, selects the head and keeps the session running; Ctrl+U is undefined; Ctrl+W is undefined except at cursor 0; Ctrl+[ cancels; every other Ctrl key keeps the match list, the pointers, the selection and the status; only Ctrl+K writes the buffer |
| Menu.Menu.AltKey | src/qdmenu.cpp:422-445 | the Alt branch keeps the invariant, the output, the cursor and the status |
| Menu.Menu.PlainKey | src/qdmenu.cpp:447-527 | Escape cancels; Home, Left, Up and Down keep the session running, and Right, Tab and the inserting keys keep it running or make it undefined; End at the end of the line moves the cursor to the end of the query, and otherwise selects the last match and shows the last page; Enter/Return accepts, printing the selected item or the query; only an accept prints; only Tab and the inserting keys write the buffer |
| Menu.Menu.ExitKey | src/qdmenu.cpp:449-500 | End at the end of the line moves the cursor to the end of the query and keeps the list; otherwise it selects the last match and, with a next page, shows the last page; End keeps the session running; Escape cancels and keeps the list; Enter/Return accepts, printing the selected item, or the query when nothing is selected or Shift is held |
| Menu.Menu.EditKey | src/qdmenu.cpp:515-526 | Tab and the inserting keys keep the invariant and the output |
| Menu.Menu.NavKey | src/qdmenu.cpp:469-514 | Home, Left, Up, Right and Down keep the invariant and the output; only Right can end the session as undefined, all the others keep the status |
| Menu.Menu.Keypress | src/qdmenu.cpp:379-531 | keypress takes the cursor from the line edit and dispatches on Ctrl, then Alt, then none. It keeps the invariant, and only an accept prints. It states the Ctrl+K, Ctrl+U, Ctrl+W and Ctrl+[ outcomes, that the other Ctrl keys keep the list, selection and status, the End outcome from the line edit's cursor, the Escape outcome, the status after the other plain keys, the Enter line printed, and which keys may write the buffer |

## Left out

- The Qt widgets, painting, window geometry and `setup`'s Xinerama code: these are toolkit glue. `drawmenu()` after each key is not modelled.
- Font metrics: the width `drw_fontset_getwidth_clamp(...) + lrpad` is the parameter `measure` of the layout.
- `main`'s option parsing, `cleanup`, `free` and `exit`: exits are the session statuses `Accepted` and `Cancelled`. `puts` appends to `output`.
- `readstdin`'s `getline`/`realloc`/`strdup` loop: the items arrive as a sequence of lines. Only its newline rule (`ItemText`) and the line cap (`EffectiveLines`) are modelled.
- The token array's `realloc` and `die` in `match()`: this is memory management.
- Ctrl+Y (the clipboard) and `paste`: nothing is modelled beyond the key leaving the state unchanged.
- Ctrl+U and Ctrl+W call `insert(NULL, negative)`, which copies from a null pointer. They are modelled as the status `Undefined`, not as deletions. The one exception is Ctrl+W at cursor 0, which does nothing.
- The `out` flag and the multi-accept branch after `puts`: that branch cannot be reached, because Ctrl+Return is caught by the Ctrl branch.
- Nothing in keypress calls `movewordedge`: its Alt+A/Alt+F cases are commented out. It is modelled on its own as `TextBuffer.MoveWordEdge`.
- Menu.Menu.Keypress: requires the line edit's cursor position to lie within the buffer (below BUFSIZ) and within its text. A cursor past the buffer would index `text` out of bounds, which is undefined in C.
- Menu.Menu.Insert: the line edit's length counts UTF-16 units, while the copy counts bytes. It is taken as given, so a query cut inside a multi-byte character is modelled but not explained.
- Pager.CalcOffsets: assumes a usable layout (`WellFormed`) where the invariant needs it. A negative horizontal budget, where the window is narrower than the prompt and input, is excluded. A row height of 0 is also excluded.
- Pager.SumCost: the `int` running total of calcoffsets is unbounded here. Overflow of that sum is not modelled.
- Menu.Menu.constructor: builds the rows from the intended line cap `EffectiveLines`. A negative `-l` then gives the single row, not the one row per item that the code as written gives (see Findings: `LinesAsWritten` models that code).
- CStr.ToLower: models `tolower` and `strncasecmp` in the C locale. `main` calls `setlocale(LC_CTYPE, "")` (src/qdmenu.cpp:688), so in a single-byte locale such as ISO-8859-1 the `-i` comparisons would also fold bytes from 0x80 up. The model is exact for the C and UTF-8 locales; `CStr.Fold` inherits the same limit.
- Menu.Menu.PlainKey: for Home, Left, Up, Right, Down, Tab and the inserting keys it states only the status, the invariant and the output. The effects are the contracts of `Home`, `Left`, `MoveUp`, `Right`, `MoveDown`, `Tab` and `Insert`.
- Menu.Menu.Keypress: besides the precondition above, for Home, the arrow keys, Tab, the inserting keys and Alt+J/Alt+K it states only the status, the cursor (under Alt), the invariant and the output. The effects are the contracts of `Home`, `Left`, `MoveUp`, `Right`, `MoveDown`, `Tab`, `Insert`, `PageDown` and `PageUp`.
- Menu.Menu.NavKey: states only the invariant and the unchanged output. The per-key effects are the contracts of `Home`, `Left`, `MoveUp`, `Right` and `MoveDown`.
- Menu.Menu.EditKey: states only the invariant, the unchanged output and the possible `Undefined` status. The effects are the contracts of `Tab` and `Insert`.
- Menu.Menu.AltKey: states only what is kept. The effects are the contracts of `PageDown` and `PageUp`.
- Nothing in the Qt port calls the UTF-8 decoder: `drw_text` uses `QString::fromUtf8`. It is modelled on its own.

## Findings

| source | as written | input that shows it | evidently intended | confidence | as-written member | corrected member |
|---|---|---|---|---|---|---|
| src/qdmenu.cpp:560 | `lines = MIN(lines, i)` compares the `int` request with the `size_t` item count, so a negative request is converted to a huge unsigned value and the count is chosen | `-l -1` with 5 input lines gives a vertical list of 5 rows | a negative request gives the single-row layout, as `lines = MAX(lines, 0)` in setup (src/qdmenu.cpp:584) aims for | medium, not executed. `lines` is declared in config.h and `MIN` is defined in util.h, neither of which is part of this model; both are taken as an `int` and the usual `((A) < (B) ? (A) : (B))` | Menu.NegativeLinesAsWritten | Menu.EffectiveLines |
