/** The pager of qdmenu.cpp (calcoffsets): from the first match shown on
    the current page it finds where the next page starts and where the
    previous page starts.  Positions are indices into the match list;
    `t` holds the texts of the matched items in match-list order. */
module Pager {
  import opened CStr

  /** The drawing parameters calcoffsets reads.  `lines` > 0 selects the
      vertical list of `lines` rows of height `bh`; otherwise the items
      share one row, whose width left over for items is `hBudget`
      (mw - (promptw + inputw + TEXTW("<") + TEXTW(">"))).  `measure`
      stands for `drw_fontset_getwidth_clamp(drw, str, n) + lrpad`, which
      comes from font metrics. */
  datatype Layout = Layout(lines: nat, bh: nat, hBudget: int, measure: (seq<Byte>, nat) -> nat)

  /** A usable layout: rows have a height, and the single row leaves room
      for items (otherwise no item ever fits on a page). */
  predicate WellFormed(L: Layout) {
    L.bh > 0 && (L.lines == 0 ==> L.hBudget >= 0)
  }

  /** The budget `n` of a page: rows times row height, or the width left. */
  function Budget(L: Layout): int {
    if L.lines > 0 then L.lines * L.bh else L.hBudget
  }

  /** The C conversion of an `int` to `unsigned int`. */
  function ToUnsigned(n: int): nat {
    n % 0x1_0000_0000
  }

  /** `textw_clamp(str, n)`: the measured width, but never wider than n. */
  function TextWClamp(L: Layout, s: seq<Byte>, n: nat): (w: nat)
    ensures w <= n && w <= L.measure(s, n)
    ensures w == n || w == L.measure(s, n)
  {
    var m := L.measure(s, n);
    if m < n then m else n
  }

  /** What one item adds to the running total of calcoffsets. */
  function Cost(L: Layout, s: seq<Byte>): nat {
    if L.lines > 0 then L.bh else TextWClamp(L, s, ToUnsigned(Budget(L)))
  }

  /** The total cost of the items at positions lo .. hi-1. */
  function SumCost(L: Layout, t: seq<seq<Byte>>, lo: nat, hi: nat): nat
    requires lo <= hi <= |t|
    decreases hi - lo
  {
    if lo == hi then 0 else SumCost(L, t, lo, hi - 1) + Cost(L, t[hi - 1])
  }

  /** `next` as calcoffsets leaves it for a page starting at c: the first
      position at which the running total from c exceeds the budget, or
      None when the remaining items all fit. */
  predicate IsNext(L: Layout, t: seq<seq<Byte>>, c: nat, next: Option<nat>)
    requires c < |t|
  {
    match next
    case None => SumCost(L, t, c, |t|) <= Budget(L)
    case Some(p) =>
      c <= p < |t| && (p == c || SumCost(L, t, c, p) <= Budget(L)) && SumCost(L, t, c, p + 1) > Budget(L)
  }

  /** `prev` as calcoffsets leaves it for a page starting at c: the
      furthest position back whose items before c still fit the budget,
      stopping at the head of the list. */
  predicate IsPrev(L: Layout, t: seq<seq<Byte>>, c: nat, prev: Option<nat>)
    requires c < |t|
  {
    match prev
    case None => false
    case Some(p) =>
      p <= c && (p == c || SumCost(L, t, p, c) <= Budget(L)) && (p == 0 || SumCost(L, t, p - 1, c) > Budget(L))
  }

  /** The end (exclusive) of the page whose following page starts at next. */
  function PageEnd(next: Option<nat>, len: nat): nat {
    if next.Some? then next.value else len
  }

  /** Costs add up over adjacent ranges. */
  lemma {:induction false} SumCostSplit(L: Layout, t: seq<seq<Byte>>, lo: nat, mid: nat, hi: nat)
    requires lo <= mid <= hi <= |t|
    ensures SumCost(L, t, lo, hi) == SumCost(L, t, lo, mid) + SumCost(L, t, mid, hi)
    decreases hi - mid
  {
    if mid < hi {
      SumCostSplit(L, t, lo, mid, hi - 1);
    }
  }

  /** The walk of calcoffsets. */
  method CalcOffsets(L: Layout, t: seq<seq<Byte>>, curr: Option<nat>) returns (prev: Option<nat>, next: Option<nat>)
    requires curr.Some? ==> curr.value < |t|
    ensures curr.None? ==> prev.None? && next.None?
    ensures curr.Some? ==> IsPrev(L, t, curr.value, prev) && IsNext(L, t, curr.value, next)
  {
    if curr.None? {
      return None, None;
    }
    var n := Budget(L);
    var c := curr.value;
    var i := 0;
    var p := c;
    next := None;
    while p < |t|
      invariant c <= p <= |t|
      invariant i == SumCost(L, t, c, p)
      invariant p == c || i <= n
      invariant next == None
    {
      i := i + Cost(L, t[p]);
      if i > n {
        next := Some(p);
        break;
      }
      p := p + 1;
    }
    i := 0;
    var q := c;
    while q > 0
      invariant 0 <= q <= c
      invariant i == SumCost(L, t, q, c)
      invariant q == c || i <= n
    {
      SumCostSplit(L, t, q - 1, q, c);
      i := i + Cost(L, t[q - 1]);
      if i > n {
        break;
      }
      q := q - 1;
    }
    prev := Some(q);
  }

  /** c is the first page start at or after p0 from which the rest of the
      list fits on one page. */
  predicate TailPageFrom(L: Layout, t: seq<seq<Byte>>, p0: nat, c: nat) {
    && p0 <= c < |t|
    && SumCost(L, t, c, |t|) <= Budget(L)
    && forall c' :: p0 <= c' < c ==> SumCost(L, t, c', |t|) > Budget(L)
  }

  /** Where Key_End leaves the page start: from the start of the page that
      ends with the last item, the first start whose page reaches the end. */
  predicate IsLastPageStart(L: Layout, t: seq<seq<Byte>>, c: nat)
    requires |t| > 0
  {
    exists p0: nat :: p0 <= c && IsPrev(L, t, |t| - 1, Some(p0)) && TailPageFrom(L, t, p0, c)
  }

  lemma LastPageWitness(L: Layout, t: seq<seq<Byte>>, p0: nat, c: nat)
    requires |t| > 0 && IsPrev(L, t, |t| - 1, Some(p0)) && TailPageFrom(L, t, p0, c)
    ensures IsLastPageStart(L, t, c)
  {
  }

  /** While a next page exists, the tail from the page start overflows
      one page, and the page start can advance. */
  lemma TailStep(L: Layout, t: seq<seq<Byte>>, c: nat, next: Option<nat>)
    requires WellFormed(L) && c < |t| && IsNext(L, t, c, next) && next.Some?
    ensures c + 1 < |t| && SumCost(L, t, c, |t|) > Budget(L)
  {
    NextAfterCurr(L, t, c, next);
    SumCostMono(L, t, c, next.value + 1, |t|);
  }

  /** The loop of Key_End, `while (next && (curr = curr->right))
      calcoffsets();`: from the page start c0 the start moves right until
      the rest of the list fits on one page.  curr->right is never NULL
      there, because the next page starts after curr. */
  method AdvanceToTail(L: Layout, t: seq<seq<Byte>>, c0: nat, prev0: Option<nat>, next0: Option<nat>)
    returns (c: nat, prev: Option<nat>, next: Option<nat>)
    requires WellFormed(L) && c0 < |t| && IsPrev(L, t, c0, prev0) && IsNext(L, t, c0, next0)
    ensures TailPageFrom(L, t, c0, c)
    ensures IsPrev(L, t, c, prev) && IsNext(L, t, c, next) && next.None?
  {
    c, prev, next := c0, prev0, next0;
    while next.Some?
      invariant c0 <= c < |t| && IsPrev(L, t, c, prev) && IsNext(L, t, c, next)
      invariant forall c' :: c0 <= c' < c ==> SumCost(L, t, c', |t|) > Budget(L)
      decreases |t| - c
    {
      TailStep(L, t, c, next);
      c := c + 1;
      prev, next := CalcOffsets(L, t, Some(c));
    }
  }

  /** In a usable layout no single item exceeds the budget. */
  lemma CostFits(L: Layout, s: seq<Byte>)
    requires WellFormed(L)
    ensures 0 <= Cost(L, s) <= Budget(L)
  {
    if L.lines > 0 {
      assert L.bh * 1 <= L.bh * L.lines;
    }
  }

  /** The running total grows with the range. */
  lemma SumCostMono(L: Layout, t: seq<seq<Byte>>, lo: nat, mid: nat, hi: nat)
    requires lo <= mid <= hi <= |t|
    ensures SumCost(L, t, lo, mid) <= SumCost(L, t, lo, hi)
    ensures SumCost(L, t, mid, hi) <= SumCost(L, t, lo, hi)
  {
    SumCostSplit(L, t, lo, mid, hi);
  }

  /** calcoffsets is a function of the page start: `next` and `prev` are
      determined by curr, so recomputing with unchanged inputs changes
      nothing. */
  lemma PageUnique(L: Layout, t: seq<seq<Byte>>, c: nat, n1: Option<nat>, n2: Option<nat>, p1: Option<nat>, p2: Option<nat>)
    requires c < |t|
    ensures IsNext(L, t, c, n1) && IsNext(L, t, c, n2) ==> n1 == n2
    ensures IsPrev(L, t, c, p1) && IsPrev(L, t, c, p2) ==> p1 == p2
  {
    if IsNext(L, t, c, n1) && IsNext(L, t, c, n2) {
      NextUnique(L, t, c, n1, n2);
    }
    if IsPrev(L, t, c, p1) && IsPrev(L, t, c, p2) {
      PrevUnique(L, t, c, p1, p2);
    }
  }

  lemma NextUnique(L: Layout, t: seq<seq<Byte>>, c: nat, n1: Option<nat>, n2: Option<nat>)
    requires c < |t| && IsNext(L, t, c, n1) && IsNext(L, t, c, n2)
    ensures n1 == n2
  {
    if n1.Some? && n2.Some? {
      var a, b := n1.value, n2.value;
      if a < b { SumCostMono(L, t, c, a + 1, b); } else if b < a { SumCostMono(L, t, c, b + 1, a); }
    } else if n1.Some? {
      SumCostMono(L, t, c, n1.value + 1, |t|);
    } else if n2.Some? {
      SumCostMono(L, t, c, n2.value + 1, |t|);
    }
  }

  lemma PrevUnique(L: Layout, t: seq<seq<Byte>>, c: nat, p1: Option<nat>, p2: Option<nat>)
    requires c < |t| && IsPrev(L, t, c, p1) && IsPrev(L, t, c, p2)
    ensures p1 == p2
  {
    var a, b := p1.value, p2.value;
    if a < b { SumCostMono(L, t, a, b - 1, c); } else if b < a { SumCostMono(L, t, b, a - 1, c); }
  }

  /** In a usable layout the next page starts after the current one. */
  lemma NextAfterCurr(L: Layout, t: seq<seq<Byte>>, c: nat, next: Option<nat>)
    requires WellFormed(L) && c < |t| && IsNext(L, t, c, next)
    ensures c < PageEnd(next, |t|)
  {
    CostFits(L, t[c]);
    assert SumCost(L, t, c, c + 1) == Cost(L, t[c]);
  }

  /** In a usable layout the previous page starts before the current one,
      unless the current one starts at the head. */
  lemma PrevBeforeCurr(L: Layout, t: seq<seq<Byte>>, c: nat, prev: Option<nat>)
    requires WellFormed(L) && c < |t| && IsPrev(L, t, c, prev)
    ensures prev.value < c || c == 0
  {
    if c > 0 {
      CostFits(L, t[c - 1]);
      assert SumCost(L, t, c - 1, c) == Cost(L, t[c - 1]);
    }
  }

  /** The page that starts at the previous page start reaches up to the
      current page start: stepping back from the first item of a page by
      one item keeps the selection visible. */
  lemma PrevPageReaches(L: Layout, t: seq<seq<Byte>>, c: nat, p: nat, next: Option<nat>)
    requires c < |t| && IsPrev(L, t, c, Some(p)) && p < c && IsNext(L, t, p, next)
    ensures c <= PageEnd(next, |t|)
  {
    if next.Some? && next.value < c {
      SumCostMono(L, t, p, next.value + 1, c);
    }
  }

  /** In the vertical list every item costs one row. */
  lemma {:induction false} SumCostRows(L: Layout, t: seq<seq<Byte>>, lo: nat, hi: nat)
    requires L.lines > 0 && lo <= hi <= |t|
    ensures SumCost(L, t, lo, hi) == (hi - lo) * L.bh
    decreases hi - lo
  {
    if lo < hi {
      SumCostRows(L, t, lo, hi - 1);
      assert (hi - lo) * L.bh == (hi - 1 - lo) * L.bh + L.bh;
    }
  }

  lemma MulLe(a: nat, a': nat, b: nat)
    requires a <= a'
    ensures a * b <= a' * b
  {
  }

  lemma MulLt(a: nat, a': nat, b: nat)
    requires a < a' && b > 0
    ensures a * b < a' * b
  {
  }

  /** The vertical list: the next page starts `lines` items on, if there
      are that many, and calcoffsets finds nothing else. */
  lemma VerticalNext(L: Layout, t: seq<seq<Byte>>, c: nat, next: Option<nat>)
    requires L.lines > 0 && L.bh > 0 && c < |t|
    ensures IsNext(L, t, c, next) <==> next == (if c + L.lines < |t| then Some(c + L.lines) else None)
  {
    var k, b := L.lines, L.bh;
    var want := if c + k < |t| then Some(c + k) else None;
    if c + k < |t| {
      SumCostRows(L, t, c, c + k);
      SumCostRows(L, t, c, c + k + 1);
      MulLt(k, k + 1, b);
    } else {
      SumCostRows(L, t, c, |t|);
      MulLe(|t| - c, k, b);
    }
    assert IsNext(L, t, c, want);
    PageUnique(L, t, c, next, want, None, None);
  }

  /** The vertical list: the previous page starts `lines` items back, or
      at the head. */
  lemma VerticalPrev(L: Layout, t: seq<seq<Byte>>, c: nat, prev: Option<nat>)
    requires L.lines > 0 && L.bh > 0 && c < |t|
    ensures IsPrev(L, t, c, prev) <==> prev == Some(if c >= L.lines then c - L.lines else 0)
  {
    var k, b := L.lines, L.bh;
    var p := if c >= k then c - k else 0;
    SumCostRows(L, t, p, c);
    MulLe(c - p, k, b);
    if p > 0 {
      SumCostRows(L, t, p - 1, c);
      MulLt(k, k + 1, b);
    }
    assert IsPrev(L, t, c, Some(p));
    PageUnique(L, t, c, None, None, prev, Some(p));
  }

  /** The first start at or after p0 whose tail fits is unique. */
  lemma TailPageUnique(L: Layout, t: seq<seq<Byte>>, p0: nat, c1: nat, c2: nat)
    requires TailPageFrom(L, t, p0, c1) && TailPageFrom(L, t, p0, c2)
    ensures c1 == c2
  {
  }

  /** In the vertical list Key_End shows the last `lines` items (or all of
      them when there are fewer). */
  lemma VerticalLastPage(L: Layout, t: seq<seq<Byte>>, c: nat)
    requires L.lines > 0 && L.bh > 0 && |t| > 0
    ensures IsLastPageStart(L, t, c) <==> c == (if |t| >= L.lines then |t| - L.lines else 0)
  {
    var k, b := L.lines, L.bh;
    var last := |t| - 1;
    var p0 := if last >= k then last - k else 0;
    var want := if |t| >= k then |t| - k else 0;
    VerticalPrev(L, t, last, Some(p0));
    SumCostRows(L, t, want, |t|);
    MulLe(|t| - want, k, b);
    forall c' | p0 <= c' < want ensures SumCost(L, t, c', |t|) > Budget(L) {
      SumCostRows(L, t, c', |t|);
      MulLt(k, |t| - c', b);
    }
    assert TailPageFrom(L, t, p0, want);
    if IsLastPageStart(L, t, c) {
      var q :| IsPrev(L, t, last, Some(q)) && TailPageFrom(L, t, q, c);
      PageUnique(L, t, last, None, None, Some(q), Some(p0));
      TailPageUnique(L, t, p0, c, want);
    }
  }
}
