/** The cursor helpers of qdmenu.cpp that walk the query `text` by UTF-8
    characters (nextrune) and by words (movewordedge).  `text` is the
    content of the query buffer before its terminator. */
module TextBuffer {
  import opened CStr
  import opened Utf8

  /** Where the forward scan of nextrune stops from n: the first position
      at or after n whose byte is not a continuation byte (the terminator
      is one). */
  function RuneFwd(text: seq<Byte>, n: nat): (r: nat)
    requires n <= |text| + 1
    ensures n <= r <= |text| + 1 && (n <= |text| ==> r <= |text|)
    decreases |text| + 1 - n
  {
    if n < |text| && IsCont(text[n]) then RuneFwd(text, n + 1) else n
  }

  /** Where the backward scan of nextrune stops from n: the first position
      at or before n that is 0 or holds no continuation byte. */
  function RuneBack(text: seq<Byte>, n: nat): (r: nat)
    requires n < |text|
    ensures r <= n
  {
    if n >= 1 && IsCont(text[n]) then RuneBack(text, n - 1) else n
  }

  /** nextrune(inc): the position of the next character in the direction
      inc, starting from cursor.  Forward it needs a byte at cursor, and
      backward a cursor inside or at the end of the text (at 0 it yields
      -1, which the callers never use). */
  method NextRune(text: seq<Byte>, cursor: nat, inc: int) returns (n: int)
    requires inc == 1 || inc == -1
    requires inc == 1 ==> cursor < |text|
    requires inc == -1 ==> cursor <= |text|
    ensures inc == 1 ==> n == RuneFwd(text, cursor + 1)
    ensures inc == -1 && cursor > 0 ==> n == RuneBack(text, cursor - 1)
    ensures inc == -1 && cursor == 0 ==> n == -1
  {
    n := cursor + inc;
    while n + inc >= 0 && (At(text, n) as bv8 & 0xC0) == 0x80
      invariant inc == 1 ==> cursor < n <= |text| && RuneFwd(text, n) == RuneFwd(text, cursor + 1)
      invariant inc == -1 && cursor > 0 ==> 0 <= n < cursor && RuneBack(text, n) == RuneBack(text, cursor - 1)
      invariant inc == -1 && cursor == 0 ==> n == -1
      decreases if inc == 1 then |text| - n else n
    {
      n := n + inc;
    }
  }

  /** nextrune(+1) lands after the cursor, on the terminator or on a byte
      that starts a character, having passed only continuation bytes. */
  lemma {:induction false} RuneFwdLands(text: seq<Byte>, n: nat)
    requires n <= |text|
    ensures n <= RuneFwd(text, n) <= |text|
    ensures RuneFwd(text, n) == |text| || !IsCont(text[RuneFwd(text, n)])
    ensures forall k :: n <= k < RuneFwd(text, n) ==> IsCont(text[k])
    decreases |text| - n
  {
    if n < |text| && IsCont(text[n]) {
      RuneFwdLands(text, n + 1);
    }
  }

  /** nextrune(-1) lands before the cursor, on 0 or on a byte that starts
      a character, having passed only continuation bytes. */
  lemma {:induction false} RuneBackLands(text: seq<Byte>, n: nat)
    requires n < |text|
    ensures RuneBack(text, n) == 0 || !IsCont(text[RuneBack(text, n)])
    ensures forall k :: RuneBack(text, n) < k <= n ==> IsCont(text[k])
  {
    if n >= 1 && IsCont(text[n]) {
      RuneBackLands(text, n - 1);
    }
  }

  /** The bytes of an encoded character: a lead byte, then continuation
      bytes only. */
  lemma EncodeShape(u: int)
    requires IsScalar(u)
    ensures !IsCont(Encode(u)[0])
    ensures forall k :: 1 <= k < |Encode(u)| ==> IsCont(Encode(u)[k])
  {
    var e := Encode(u);
    IsContClass(e[0]);
    forall k | 1 <= k < |e| ensures IsCont(e[k]) {
      IsContClass(e[k]);
    }
  }

  /** Forward over continuation bytes only, the scan stops at the first
      other byte. */
  lemma {:induction false} RuneFwdSkips(text: seq<Byte>, n: nat, m: nat)
    requires n <= m <= |text|
    requires forall k :: n <= k < m ==> IsCont(text[k])
    requires m == |text| || !IsCont(text[m])
    ensures RuneFwd(text, n) == m
    decreases m - n
  {
    if n < m {
      RuneFwdSkips(text, n + 1, m);
    }
  }

  /** Backward over continuation bytes only, the scan stops at the first
      other byte. */
  lemma {:induction false} RuneBackSkips(text: seq<Byte>, n: nat, m: nat)
    requires m <= n < |text|
    requires forall k :: m < k <= n ==> IsCont(text[k])
    requires m == 0 || !IsCont(text[m])
    ensures RuneBack(text, n) == m
    decreases n - m
  {
    if m < n {
      RuneBackSkips(text, n - 1, m);
    }
  }

  /** The bytes of an encoded character placed in a text. */
  lemma EncodedIn(pre: seq<Byte>, u: int, post: seq<Byte>)
    requires IsScalar(u)
    ensures var t := pre + Encode(u) + post;
      !IsCont(t[|pre|]) && forall k :: |pre| < k < |pre| + |Encode(u)| ==> IsCont(t[k])
  {
    var e := Encode(u);
    var t := pre + e + post;
    EncodeShape(u);
    assert t[|pre|] == e[0];
    forall k | |pre| < k < |pre| + |e| ensures IsCont(t[k]) {
      assert t[k] == e[k - |pre|];
    }
  }

  /** In well-formed UTF-8 text nextrune(+1) steps over exactly one
      character. */
  lemma RuneFwdOverCharacter(pre: seq<Byte>, u: int, post: seq<Byte>)
    requires IsScalar(u) && (post == [] || !IsCont(post[0]))
    ensures RuneFwd(pre + Encode(u) + post, |pre| + 1) == |pre| + |Encode(u)|
  {
    var e := Encode(u);
    var t := pre + e + post;
    EncodedIn(pre, u, post);
    if post != [] {
      assert t[|pre| + |e|] == post[0];
    }
    RuneFwdSkips(t, |pre| + 1, |pre| + |e|);
  }

  /** In well-formed UTF-8 text nextrune(-1) steps back over exactly one
      character. */
  lemma RuneBackOverCharacter(pre: seq<Byte>, u: int, post: seq<Byte>)
    requires IsScalar(u)
    ensures RuneBack(pre + Encode(u) + post, |pre| + |Encode(u)| - 1) == |pre|
  {
    var e := Encode(u);
    var t := pre + e + post;
    EncodedIn(pre, u, post);
    RuneBackSkips(t, |pre| + |e| - 1, |pre|);
  }

  /** strchr(worddelimiters, c) for a byte c of the text (never NUL). */
  predicate IsDelim(c: Byte, delims: seq<Byte>) {
    c in delims
  }

  /** A position the forward word walk from `start` can stop at: the start
      itself or the start of a character. */
  predicate FwdStop(text: seq<Byte>, start: nat, p: nat) {
    p == start || p >= |text| || !IsCont(text[p])
  }

  /** Every stop in lo .. hi-1 is a delimiter (isDelim) or is not one. */
  predicate FwdRun(text: seq<Byte>, delims: seq<Byte>, start: nat, lo: nat, hi: nat, isDelim: bool)
    requires hi <= |text|
  {
    forall p :: lo <= p < hi && FwdStop(text, start, p) ==> IsDelim(text[p], delims) == isDelim
  }

  /** A character start for the backward walk: 0 or a non-continuation byte. */
  predicate BackStop(text: seq<Byte>, q: nat)
    requires q < |text|
  {
    q == 0 || !IsCont(text[q])
  }

  /** Every character start in lo .. hi-1 is a delimiter (isDelim) or not. */
  predicate BackRun(text: seq<Byte>, delims: seq<Byte>, lo: nat, hi: nat, isDelim: bool)
    requires hi <= |text|
  {
    forall q :: lo <= q < hi && BackStop(text, q) ==> IsDelim(text[q], delims) == isDelim
  }

  /** One loop of the forward half of movewordedge: from c0, step by
      characters while the byte under the cursor is a delimiter (isDelim)
      or is not one (!isDelim). */
  method SkipFwd(text: seq<Byte>, start: nat, c0: nat, delims: seq<Byte>, isDelim: bool) returns (c: nat)
    requires NoNul(text) && start <= c0 <= |text| && FwdStop(text, start, c0)
    ensures c0 <= c <= |text| && FwdStop(text, start, c)
    ensures FwdRun(text, delims, start, c0, c, isDelim)
    ensures c < |text| ==> IsDelim(text[c], delims) != isDelim
    ensures c0 < |text| && IsDelim(text[c0], delims) == isDelim ==> c0 < c
  {
    c := c0;
    while At(text, c) != NUL && IsDelim(text[c], delims) == isDelim
      invariant c0 <= c <= |text| && FwdStop(text, start, c)
      invariant FwdRun(text, delims, start, c0, c, isDelim)
      invariant c0 < |text| && IsDelim(text[c0], delims) == isDelim && c == c0 ==> c < |text|
      decreases |text| - c
    {
      var n := NextRune(text, c, 1);
      RuneFwdLands(text, c + 1);
      c := n;
    }
  }

  /** The forward half of movewordedge: skip the delimiters, then the word,
      stopping on the delimiter after it or at the end of the text. */
  method WordEdgeFwd(text: seq<Byte>, cursor: nat, delims: seq<Byte>) returns (c: nat)
    requires NoNul(text) && cursor <= |text|
    ensures cursor <= c <= |text| && FwdStop(text, cursor, c)
    ensures c < |text| ==> IsDelim(text[c], delims)
    ensures exists m :: (cursor <= m <= c && FwdStop(text, cursor, m) && FwdRun(text, delims, cursor, cursor, m, true)
                         && FwdRun(text, delims, cursor, m, c, false) && (m < |text| ==> m < c))
  {
    var m := SkipFwd(text, cursor, cursor, delims, true);
    c := SkipFwd(text, cursor, m, delims, false);
  }

  /** Stepping back over one character that starts with a delimiter
      (isDelim) or not extends the run. */
  lemma BackRunExtend(text: seq<Byte>, delims: seq<Byte>, c: nat, c0: nat, isDelim: bool)
    requires 0 < c <= c0 <= |text| && BackRun(text, delims, c, c0, isDelim)
    requires IsDelim(text[RuneBack(text, c - 1)], delims) == isDelim
    ensures BackRun(text, delims, RuneBack(text, c - 1), c0, isDelim)
    ensures BackStop(text, RuneBack(text, c - 1))
  {
    RuneBackLands(text, c - 1);
  }

  /** One loop of the backward half of movewordedge: from c0, step back by
      characters while the character before the cursor starts with a
      delimiter (isDelim) or does not (!isDelim). */
  method SkipBack(text: seq<Byte>, cursor: nat, c0: nat, delims: seq<Byte>, isDelim: bool) returns (c: nat)
    requires NoNul(text) && c0 <= cursor <= |text| && (c0 == cursor || BackStop(text, c0))
    ensures c <= c0 && (c == c0 || BackStop(text, c))
    ensures BackRun(text, delims, c, c0, isDelim)
    ensures c > 0 ==> IsDelim(text[RuneBack(text, c - 1)], delims) != isDelim
    ensures c0 > 0 && IsDelim(text[RuneBack(text, c0 - 1)], delims) == isDelim ==> c < c0
  {
    c := c0;
    while c > 0
      invariant c <= c0 && (c == c0 || BackStop(text, c))
      invariant BackRun(text, delims, c, c0, isDelim)
      invariant c0 > 0 && IsDelim(text[RuneBack(text, c0 - 1)], delims) == isDelim && c == c0 ==> c > 0
      decreases c
    {
      var p := NextRune(text, c, -1);
      if IsDelim(text[p], delims) != isDelim {
        break;
      }
      BackRunExtend(text, delims, c, c0, isDelim);
      c := p;
    }
  }

  /** The backward half of movewordedge: skip the delimiters before the
      cursor, then the word before them, stopping at the head of the text
      or just after a delimiter. */
  method WordEdgeBack(text: seq<Byte>, cursor: nat, delims: seq<Byte>) returns (c: nat)
    requires NoNul(text) && cursor <= |text|
    ensures c <= cursor && (c == cursor || BackStop(text, c))
    ensures c > 0 ==> IsDelim(text[RuneBack(text, c - 1)], delims)
    ensures exists m :: (c <= m <= cursor && BackRun(text, delims, m, cursor, true)
                         && BackRun(text, delims, c, m, false) && (m > 0 ==> c < m))
  {
    var m := SkipBack(text, cursor, cursor, delims, true);
    c := SkipBack(text, cursor, m, delims, false);
  }

  /** movewordedge(dir): dir < 0 moves to the start of the word before the
      cursor, otherwise to the end of the word at or after it. */
  method MoveWordEdge(text: seq<Byte>, cursor: nat, dir: int, delims: seq<Byte>) returns (c: nat)
    requires NoNul(text) && cursor <= |text|
    ensures dir < 0 ==> c <= cursor && (c == 0 || IsDelim(text[RuneBack(text, c - 1)], delims))
    ensures dir >= 0 ==> cursor <= c <= |text| && (c == |text| || IsDelim(text[c], delims))
    ensures dir < 0 ==> (c == cursor || BackStop(text, c))
    ensures dir < 0 ==> (exists m :: c <= m <= cursor && BackRun(text, delims, m, cursor, true)
                           && BackRun(text, delims, c, m, false) && (m > 0 ==> c < m))
    ensures dir >= 0 ==> FwdStop(text, cursor, c)
    ensures dir >= 0 ==> (exists m :: cursor <= m <= c && FwdStop(text, cursor, m)
                            && FwdRun(text, delims, cursor, cursor, m, true)
                            && FwdRun(text, delims, cursor, m, c, false) && (m < |text| ==> m < c))
  {
    if dir < 0 {
      c := WordEdgeBack(text, cursor, delims);
    } else {
      c := WordEdgeFwd(text, cursor, delims);
    }
  }
}
