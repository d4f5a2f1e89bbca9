/** The matcher of qdmenu.cpp: the query is split into space-separated
    tokens, the items holding every token are kept, and the kept items are
    ordered in three bands (exact, prefix, substring), each in store order.
    Items are identified by their index into the immutable item store. */
module Matcher {
  import opened CStr

  const SPACE: Byte := 0x20

  /** `cistrstr(h, n)`: the first offset at which `n` occurs in `h` when
      both are folded with ASCII `tolower`; offset 0 for an empty needle. */
  method CiStrStr(h: seq<Byte>, n: seq<Byte>) returns (r: Option<nat>)
    requires NoNul(h) && NoNul(n)
    ensures n == [] ==> r == Some(0)
    ensures IsFirstOccurrence(h, n, true, r)
  {
    if n == [] {
      assert OccursAt(h, n, 0, true);
      return Some(0);
    }
    var p := 0;
    while p < |h|
      invariant 0 <= p <= |h|
      invariant forall q: nat :: q < p ==> !OccursAt(h, n, q, true)
    {
      var i := 0;
      while i < |n| && ToLower(n[i]) == ToLower(At(h, p + i))
        invariant 0 <= i <= |n|
        invariant p + i <= |h|
        invariant forall k :: 0 <= k < i ==> ToLower(n[k]) == ToLower(h[p + k])
      {
        i := i + 1;
      }
      if i == |n| {
        return Some(p);
      }
      assert !OccursAt(h, n, p, true) by {
        if p + i < |h| { assert ToLower(n[i]) != ToLower(h[p + i]); }
      }
      p := p + 1;
    }
    return None;
  }

  /** The length of the run of non-space bytes that starts s. */
  function WordLen(s: seq<Byte>): (w: nat)
    ensures w <= |s|
    ensures forall k :: 0 <= k < w ==> s[k] != SPACE
    ensures w == |s| || s[w] == SPACE
  {
    if s == [] || s[0] == SPACE then 0 else 1 + WordLen(s[1..])
  }

  /** The tokens `strtok(buf, " ")` returns one after another: the maximal
      runs of non-space bytes of s, left to right. */
  function Tokens(s: seq<Byte>): seq<seq<Byte>>
    decreases |s|
  {
    if s == [] then []
    else if s[0] == SPACE then Tokens(s[1..])
    else
      var w := WordLen(s);
      [s[..w]] + Tokens(s[w..])
  }

  /** The scan over one token: the index of the first space at or after
      i, or the end of s. */
  method WordEnd(s: seq<Byte>, i: nat) returns (j: nat)
    requires i <= |s|
    ensures j == i + WordLen(s[i..])
  {
    j := i;
    while j < |s| && s[j] != SPACE
      invariant i <= j <= |s|
      invariant forall k :: i <= k < j ==> s[k] != SPACE
    {
      j := j + 1;
    }
    assert forall k :: 0 <= k < |s| - i ==> s[i..][k] == s[i + k];
  }

  /** The tokenising loop at the head of match(). */
  method Tokenize(s: seq<Byte>) returns (toks: seq<seq<Byte>>)
    ensures toks == Tokens(s)
  {
    toks := [];
    var i := 0;
    while i < |s|
      invariant 0 <= i <= |s|
      invariant toks + Tokens(s[i..]) == Tokens(s)
    {
      if s[i] == SPACE {
        assert s[i..][1..] == s[i + 1..];
        i := i + 1;
      } else {
        var j := WordEnd(s, i);
        ghost var w := WordLen(s[i..]);
        assert s[i..][..w] == s[i..j] && s[i..][w..] == s[j..];
        toks := toks + [s[i..j]];
        i := j;
      }
    }
    assert s[|s|..] == [];
  }

  /** Every token is a non-empty run of non-space bytes taken from s. */
  lemma {:induction false} TokensShape(s: seq<Byte>)
    ensures forall t :: t in Tokens(s) ==>
      |t| > 0 && SPACE !in t && (NoNul(s) ==> NoNul(t))
    decreases |s|
  {
    if s == [] {
    } else if s[0] == SPACE {
      TokensShape(s[1..]);
      assert NoNul(s) ==> NoNul(s[1..]);
    } else {
      var w := WordLen(s);
      TokensShape(s[w..]);
      assert NoNul(s) ==> NoNul(s[w..]);
      assert forall k :: 0 <= k < w ==> s[..w][k] == s[k];
    }
  }

  /** The query yields no token exactly when it holds nothing but spaces. */
  lemma {:induction false} TokensEmpty(s: seq<Byte>)
    ensures Tokens(s) == [] <==> forall k :: 0 <= k < |s| ==> s[k] == SPACE
    decreases |s|
  {
    if s != [] && s[0] == SPACE {
      TokensEmpty(s[1..]);
      assert forall k :: 1 <= k < |s| ==> s[k] == s[1..][k - 1];
    }
  }

  /** The tokens joined back with single spaces. */
  function Join(ts: seq<seq<Byte>>): seq<Byte> {
    if ts == [] then [] else if |ts| == 1 then ts[0] else ts[0] + [SPACE] + Join(ts[1..])
  }

  /** Splitting undoes joining: non-empty space-free words joined with
      single spaces split back into the same words. */
  lemma {:induction false} TokensOfJoin(ts: seq<seq<Byte>>)
    requires forall t :: t in ts ==> |t| > 0 && SPACE !in t
    ensures Tokens(Join(ts)) == ts
  {
    if ts != [] {
      var s := Join(ts);
      var t := ts[0];
      JoinHead(ts);
      if |ts| == 1 {
        assert s[|t|..] == [];
      } else {
        assert s[|t|..][1..] == Join(ts[1..]);
        TokensOfJoin(ts[1..]);
      }
    }
  }

  /** The first word of a join, and what follows it. */
  lemma JoinHead(ts: seq<seq<Byte>>)
    requires ts != [] && |ts[0]| > 0 && SPACE !in ts[0]
    ensures var s := Join(ts); var w := |ts[0]|;
      && WordLen(s) == w && s[..w] == ts[0]
      && s[w..] == (if |ts| == 1 then [] else [SPACE] + Join(ts[1..]))
  {
    var s := Join(ts);
    var t := ts[0];
    assert s[..|t|] == t;
    assert forall k :: 0 <= k < |t| ==> s[k] == t[k];
    assert |s| == |t| || s[|t|] == SPACE;
  }

  datatype Band = Exact | Prefix | Substring

  /** The item holds every token as a substring under the comparator. */
  predicate HasAllTokens(item: seq<Byte>, toks: seq<seq<Byte>>, icase: bool) {
    forall k :: 0 <= k < |toks| ==> Occurs(item, toks[k], icase)
  }

  /** The band an item falls into for a query, or None if some token is
      missing from it: exact when the query has no token or equals the
      item, prefix when the item starts with the first token. */
  function Classify(item: seq<Byte>, query: seq<Byte>, icase: bool): Option<Band> {
    var toks := Tokens(query);
    if !HasAllTokens(item, toks, icase) then None
    else if |toks| == 0 || FoldEq(query, item, icase) then Some(Exact)
    else if |toks[0]| <= |item| && FoldEq(toks[0], item[..|toks[0]|], icase) then Some(Prefix)
    else Some(Substring)
  }

  /** The indices, among the first n items, that fall into band b, in
      store order. */
  function BandOf(items: seq<seq<Byte>>, query: seq<Byte>, icase: bool, b: Band, n: nat): seq<nat>
    requires n <= |items|
  {
    if n == 0 then []
    else BandOf(items, query, icase, b, n - 1)
         + (if Classify(items[n - 1], query, icase) == Some(b) then [n - 1] else [])
  }

  /** The match list: the exact band, then the prefix band, then the
      substring band. */
  function MatchList(items: seq<seq<Byte>>, query: seq<Byte>, icase: bool): seq<nat> {
    BandOf(items, query, icase, Exact, |items|)
    + BandOf(items, query, icase, Prefix, |items|)
    + BandOf(items, query, icase, Substring, |items|)
  }

  /** The token test of match(): every token must occur in the item;
      the first token that does not stops the search. */
  method ContainsAll(item: seq<Byte>, tokv: seq<seq<Byte>>, icase: bool) returns (found: bool)
    requires NoNul(item)
    requires forall k :: 0 <= k < |tokv| ==> NoNul(tokv[k])
    ensures found == HasAllTokens(item, tokv, icase)
  {
    var j := 0;
    found := true;
    while j < |tokv| && found
      invariant 0 <= j <= |tokv|
      invariant forall k :: 0 <= k < j ==> Occurs(item, tokv[k], icase)
      invariant !found ==> j < |tokv| && !Occurs(item, tokv[j], icase)
      decreases |tokv| - j, found
    {
      var r;
      if icase {
        r := CiStrStr(item, tokv[j]);
      } else {
        r := StrStr(item, tokv[j]);
      }
      FirstOccurrenceFound(item, tokv[j], icase, r);
      if r.None? {
        found := false;
      } else {
        j := j + 1;
      }
    }
  }

  /** The band test of match() for an item holding every token: exact
      when there is no token or `strncmp(text, item, strlen(text) + 1)`
      finds them equal, prefix when `strncmp(tokv[0], item, len)` finds
      the first token at its head, substring otherwise. */
  method BandTest(item: seq<Byte>, text: seq<Byte>, tokv: seq<seq<Byte>>, icase: bool) returns (b: Band)
    requires NoNul(item) && NoNul(text) && tokv == Tokens(text)
    requires HasAllTokens(item, tokv, icase)
    ensures Classify(item, text, icase) == Some(b)
  {
    var len := if |tokv| > 0 then |tokv[0]| else 0;
    StrNEqWhole(text, item, icase);
    if |tokv| == 0 || StrNEq(text, item, |text| + 1, icase) {
      b := Exact;
    } else {
      TokensShape(text);
      assert tokv[0] in tokv;
      StrNEqPrefix(tokv[0], item, icase);
      if StrNEq(tokv[0], item, len, icase) {
        b := Prefix;
      } else {
        b := Substring;
      }
    }
  }

  /** One more item extends exactly the band it is classified into. */
  lemma BandsExtend(items: seq<seq<Byte>>, query: seq<Byte>, icase: bool, i: nat, r: Option<Band>)
    requires i < |items| && r == Classify(items[i], query, icase)
    ensures BandOf(items, query, icase, Exact, i + 1) ==
      BandOf(items, query, icase, Exact, i) + (if r == Some(Exact) then [i] else [])
    ensures BandOf(items, query, icase, Prefix, i + 1) ==
      BandOf(items, query, icase, Prefix, i) + (if r == Some(Prefix) then [i] else [])
    ensures BandOf(items, query, icase, Substring, i + 1) ==
      BandOf(items, query, icase, Substring, i) + (if r == Some(Substring) then [i] else [])
  {
  }

  /** The loop of match() that filters the items into the three lists and
      splices them. */
  method Match(items: seq<seq<Byte>>, text: seq<Byte>, icase: bool) returns (m: seq<nat>)
    requires NoNul(text)
    requires forall k :: 0 <= k < |items| ==> NoNul(items[k])
    ensures m == MatchList(items, text, icase)
  {
    var tokv := Tokenize(text);
    TokensShape(text);
    var exact, prefix, substr := [], [], [];
    var i := 0;
    while i < |items|
      invariant 0 <= i <= |items|
      invariant exact == BandOf(items, text, icase, Exact, i)
      invariant prefix == BandOf(items, text, icase, Prefix, i)
      invariant substr == BandOf(items, text, icase, Substring, i)
    {
      var found := ContainsAll(items[i], tokv, icase);
      if found {
        var b := BandTest(items[i], text, tokv, icase);
        BandsExtend(items, text, icase, i, Some(b));
        match b
        case Exact => exact := exact + [i];
        case Prefix => prefix := prefix + [i];
        case Substring => substr := substr + [i];
      } else {
        BandsExtend(items, text, icase, i, None);
      }
      i := i + 1;
    }
    m := exact + prefix + substr;
  }

  /** Strictly increasing: in store order and without repeats. */
  predicate Increasing(s: seq<nat>) {
    forall x, y :: 0 <= x < y < |s| ==> s[x] < s[y]
  }

  /** Membership of a band: an index is in band b of the first n items
      exactly when it is one of them and classifies as b; the band is
      strictly increasing, so it keeps store order and has no repeats. */
  lemma {:induction false} BandOfSpec(items: seq<seq<Byte>>, query: seq<Byte>, icase: bool, b: Band, n: nat)
    requires n <= |items|
    ensures forall k: nat :: k in BandOf(items, query, icase, b, n) <==>
      k < n && Classify(items[k], query, icase) == Some(b)
    ensures Increasing(BandOf(items, query, icase, b, n))
  {
    if n > 0 {
      BandOfSpec(items, query, icase, b, n - 1);
      var s := BandOf(items, query, icase, b, n - 1);
      var t := BandOf(items, query, icase, b, n);
      forall x, y | 0 <= x < y < |t| ensures t[x] < t[y] {
        if y < |s| {
          assert t[x] == s[x] && t[y] == s[y];
        } else {
          assert Classify(items[n - 1], query, icase) == Some(b);
          assert t == s + [n - 1];
          assert t[x] == s[x] && s[x] in s;
        }
      }
    }
  }

  /** The rank of a band in the match list. */
  function Rank(b: Band): nat {
    match b
    case Exact => 0
    case Prefix => 1
    case Substring => 2
  }

  /** Filter soundness and completeness: the match list holds exactly the
      items that contain every token of the query. */
  lemma MatchListMembers(items: seq<seq<Byte>>, query: seq<Byte>, icase: bool)
    ensures forall k: nat :: k in MatchList(items, query, icase) <==>
      k < |items| && HasAllTokens(items[k], Tokens(query), icase)
  {
    BandOfSpec(items, query, icase, Exact, |items|);
    BandOfSpec(items, query, icase, Prefix, |items|);
    BandOfSpec(items, query, icase, Substring, |items|);
  }

  /** Every entry of the match list is the index of an item. */
  lemma MatchListBounded(items: seq<seq<Byte>>, query: seq<Byte>, icase: bool)
    ensures forall x :: 0 <= x < |MatchList(items, query, icase)| ==> MatchList(items, query, icase)[x] < |items|
  {
    var m := MatchList(items, query, icase);
    MatchListMembers(items, query, icase);
    forall x | 0 <= x < |m| ensures m[x] < |items| {
      assert m[x] in m;
    }
  }

  /** The ordering the match list keeps: every entry is a classified item;
      an entry of a lower band comes before one of a higher band, and
      within a band entries are in store order. */
  predicate BandOrdered(items: seq<seq<Byte>>, query: seq<Byte>, icase: bool, m: seq<nat>) {
    && (forall x :: 0 <= x < |m| ==> m[x] < |items| && Classify(items[m[x]], query, icase).Some?)
    && (forall x, y :: 0 <= x < y < |m| ==>
          var b1 := Classify(items[m[x]], query, icase).value;
          var b2 := Classify(items[m[y]], query, icase).value;
          Rank(b1) < Rank(b2) || (b1 == b2 && m[x] < m[y]))
  }

  lemma BandIsOrdered(items: seq<seq<Byte>>, query: seq<Byte>, icase: bool, b: Band)
    ensures BandOrdered(items, query, icase, BandOf(items, query, icase, b, |items|))
    ensures forall x :: 0 <= x < |BandOf(items, query, icase, b, |items|)| ==>
      BandOf(items, query, icase, b, |items|)[x] < |items| &&
      Classify(items[BandOf(items, query, icase, b, |items|)[x]], query, icase) == Some(b)
  {
    var s := BandOf(items, query, icase, b, |items|);
    BandOfSpec(items, query, icase, b, |items|);
    assert forall x :: 0 <= x < |s| ==> s[x] in s;
  }

  lemma ConcatOrdered(items: seq<seq<Byte>>, query: seq<Byte>, icase: bool, a: seq<nat>, c: seq<nat>)
    requires BandOrdered(items, query, icase, a) && BandOrdered(items, query, icase, c)
    requires forall x, y :: 0 <= x < |a| && 0 <= y < |c| ==>
      Rank(Classify(items[a[x]], query, icase).value) < Rank(Classify(items[c[y]], query, icase).value)
    ensures BandOrdered(items, query, icase, a + c)
  {
    var m := a + c;
    forall x, y | 0 <= x < y < |m|
      ensures var b1 := Classify(items[m[x]], query, icase).value;
              var b2 := Classify(items[m[y]], query, icase).value;
              Rank(b1) < Rank(b2) || (b1 == b2 && m[x] < m[y])
    {
      if y < |a| {
        assert m[x] == a[x] && m[y] == a[y];
      } else if x >= |a| {
        assert m[x] == c[x - |a|] && m[y] == c[y - |a|];
      } else {
        assert m[x] == a[x] && m[y] == c[y - |a|];
      }
    }
  }

  /** Band order: the match list is the exact band, then the prefix band,
      then the substring band, each in store order, and no item appears
      twice. */
  lemma MatchListOrder(items: seq<seq<Byte>>, query: seq<Byte>, icase: bool)
    ensures BandOrdered(items, query, icase, MatchList(items, query, icase))
    ensures var m := MatchList(items, query, icase);
      forall x, y :: 0 <= x < y < |m| ==> m[x] != m[y]
  {
    var e := BandOf(items, query, icase, Exact, |items|);
    var p := BandOf(items, query, icase, Prefix, |items|);
    var s := BandOf(items, query, icase, Substring, |items|);
    BandIsOrdered(items, query, icase, Exact);
    BandIsOrdered(items, query, icase, Prefix);
    BandIsOrdered(items, query, icase, Substring);
    ConcatOrdered(items, query, icase, e, p);
    assert forall x :: 0 <= x < |e + p| ==> (e + p)[x] in e || (e + p)[x] in p;
    ConcatOrdered(items, query, icase, e + p, s);
    assert e + p + s == MatchList(items, query, icase);
  }

  /** Without tokens every item is an exact match. */
  lemma ClassifyNoTokens(item: seq<Byte>, query: seq<Byte>, icase: bool)
    requires Tokens(query) == []
    ensures Classify(item, query, icase) == Some(Exact)
  {
  }

  /** A band that every one of the first n items falls into holds them all. */
  lemma {:induction false} AllInBand(items: seq<seq<Byte>>, query: seq<Byte>, icase: bool, b: Band, n: nat)
    requires n <= |items|
    requires forall k :: 0 <= k < n ==> Classify(items[k], query, icase) == Some(b)
    ensures BandOf(items, query, icase, b, n) == seq(n, k => k)
  {
    if n > 0 {
      AllInBand(items, query, icase, b, n - 1);
      assert seq(n, k => k) == seq(n - 1, k => k) + [n - 1];
    }
  }

  /** A band that none of the first n items falls into is empty. */
  lemma {:induction false} NoneInBand(items: seq<seq<Byte>>, query: seq<Byte>, icase: bool, b: Band, n: nat)
    requires n <= |items|
    requires forall k :: 0 <= k < n ==> Classify(items[k], query, icase) != Some(b)
    ensures BandOf(items, query, icase, b, n) == []
  {
    if n > 0 {
      NoneInBand(items, query, icase, b, n - 1);
    }
  }

  /** A query without tokens puts every item in the exact band. */
  lemma NoTokensAllExact(items: seq<seq<Byte>>, query: seq<Byte>, icase: bool, n: nat)
    requires Tokens(query) == []
    requires n <= |items|
    ensures BandOf(items, query, icase, Exact, n) == seq(n, k => k)
    ensures BandOf(items, query, icase, Prefix, n) == []
    ensures BandOf(items, query, icase, Substring, n) == []
  {
    forall k | 0 <= k < n ensures Classify(items[k], query, icase) == Some(Exact) {
      ClassifyNoTokens(items[k], query, icase);
    }
    AllInBand(items, query, icase, Exact, n);
    NoneInBand(items, query, icase, Prefix, n);
    NoneInBand(items, query, icase, Substring, n);
  }

  lemma EmptyQueryMatchesAll(items: seq<seq<Byte>>, query: seq<Byte>, icase: bool)
    requires forall k :: 0 <= k < |query| ==> query[k] == SPACE
    ensures MatchList(items, query, icase) == seq(|items|, k => k)
    ensures forall k :: 0 <= k < |items| ==> Classify(items[k], query, icase) == Some(Exact)
  {
    TokensEmpty(query);
    NoTokensAllExact(items, query, icase, |items|);
  }
}
