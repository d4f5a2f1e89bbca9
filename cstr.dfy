/** Byte strings as the menu's C code sees them, and the few C library
    routines it relies on.  A C string is modelled by the bytes stored
    before its terminating NUL, so a well-formed one holds no NUL. */
module CStr {

  /** An unsigned char. */
  newtype Byte = x: int | 0 <= x < 256

  const NUL: Byte := 0

  /** A byte converted to a bit-vector keeps its value. */
  lemma ToBv(c: Byte)
    ensures (c as bv8) as int == c as int
  {
    assert c as int % 256 == c as int;
  }

  /** BUFSIZ of the C library: the size of the query buffer `text`. */
  const BUFSIZ: nat := 8192

  datatype Option<T> = None | Some(value: T)

  /** The content of a C string: no byte before the terminator is NUL. */
  predicate NoNul(s: seq<Byte>) {
    forall k :: 0 <= k < |s| ==> s[k] != NUL
  }

  /** The byte at index i of a C string; the terminator reads as NUL. */
  function At(s: seq<Byte>, i: nat): Byte {
    if i < |s| then s[i] else NUL
  }

  /** `strlen` of a buffer: the index of its first NUL (the whole buffer
      when it holds none). */
  function StrLen(b: seq<Byte>): (n: nat)
    ensures n <= |b| && NoNul(b[..n]) && (n < |b| ==> b[n] == NUL)
    ensures forall k :: 0 <= k < n ==> b[k] != NUL
    decreases |b|
  {
    if b == [] || b[0] == NUL then 0
    else
      var m := StrLen(b[1..]);
      assert b[..m + 1] == [b[0]] + b[1..][..m];
      m + 1
  }

  /** The C string a buffer holds: its bytes before the first NUL. */
  function CString(b: seq<Byte>): (s: seq<Byte>)
    ensures NoNul(s) && s <= b
  {
    b[..StrLen(b)]
  }

  /** A buffer that holds s and then a NUL holds the C string s. */
  lemma CStringIs(b: seq<Byte>, s: seq<Byte>)
    requires NoNul(s) && |s| < |b| && b[..|s|] == s && b[|s|] == NUL
    ensures StrLen(b) == |s| && CString(b) == s
  {
    assert forall k :: 0 <= k < |s| ==> b[k] == s[k];
  }

  /** Storing a NUL at c cuts the C string at c, if it reached that far. */
  lemma CStringCut(b: seq<Byte>, c: nat)
    requires c < |b|
    ensures CString(b[c := NUL]) == if c < StrLen(b) then CString(b)[..c] else CString(b)
  {
    var b' := b[c := NUL];
    var n := StrLen(b);
    if c < n {
      assert b'[..c] == CString(b)[..c];
      CStringIs(b', CString(b)[..c]);
    } else if n < |b| {
      assert b'[..n] == CString(b);
      CStringIs(b', CString(b));
    } else {
      assert false;
    }
  }

  /** ASCII `tolower` (the C locale). */
  function ToLower(c: Byte): (r: Byte)
    ensures r == NUL <==> c == NUL
    ensures r != c ==> 0x41 <= c <= 0x5A && r == c + 0x20
    ensures !(0x41 <= r <= 0x5A)
  {
    if 0x41 <= c <= 0x5A then c + 0x20 else c
  }

  /** The byte as the active comparator sees it: folded to lower case in
      case-insensitive mode, unchanged otherwise. */
  function Fold(c: Byte, icase: bool): Byte {
    if icase then ToLower(c) else c
  }

  /** Equality of two byte strings under the comparator. */
  predicate FoldEq(a: seq<Byte>, b: seq<Byte>, icase: bool) {
    |a| == |b| && forall k :: 0 <= k < |a| ==> Fold(a[k], icase) == Fold(b[k], icase)
  }

  /** No terminator among the first k bytes of a. */
  predicate NulFreeBefore(a: seq<Byte>, k: nat) {
    forall j :: 0 <= j < k ==> At(a, j) != NUL
  }

  /** a and b agree under the comparator at every position below n that no
      terminator of a comes before. */
  predicate AgreeBefore(a: seq<Byte>, b: seq<Byte>, n: nat, icase: bool) {
    forall k :: 0 <= k < n && NulFreeBefore(a, k) ==> Fold(At(a, k), icase) == Fold(At(b, k), icase)
  }

  /** How AgreeBefore unfolds by the first byte: a difference there breaks
      it, a shared terminator there settles it, and otherwise it is the
      tails' agreement over one byte fewer. */
  lemma AgreeBeforeStep(a: seq<Byte>, b: seq<Byte>, n: nat, icase: bool)
    requires 0 < n
    ensures Fold(At(a, 0), icase) != Fold(At(b, 0), icase) ==> !AgreeBefore(a, b, n, icase)
    ensures Fold(At(a, 0), icase) == Fold(At(b, 0), icase) && At(a, 0) == NUL ==> AgreeBefore(a, b, n, icase)
    ensures Fold(At(a, 0), icase) == Fold(At(b, 0), icase) && At(a, 0) != NUL ==>
      (AgreeBefore(a, b, n, icase) <==> AgreeBefore(a[1..], b[1..], n - 1, icase))
  {
    if Fold(At(a, 0), icase) != Fold(At(b, 0), icase) {
      assert NulFreeBefore(a, 0);
    } else if At(a, 0) == NUL {
      assert forall k :: 1 <= k ==> !NulFreeBefore(a, k);
    } else {
      assert forall k: nat :: At(a[1..], k) == At(a, k + 1);
      assert forall k: nat :: k < n - 1 ==> At(b[1..], k) == At(b, k + 1);
      forall k | 1 <= k
        ensures NulFreeBefore(a, k) <==> NulFreeBefore(a[1..], k - 1)
      {
        if NulFreeBefore(a[1..], k - 1) {
          forall j | 0 <= j < k ensures At(a, j) != NUL {
            if j > 0 { assert At(a[1..], j - 1) != NUL; }
          }
        }
      }
      if AgreeBefore(a[1..], b[1..], n - 1, icase) {
        forall k | 0 <= k < n && NulFreeBefore(a, k)
          ensures Fold(At(a, k), icase) == Fold(At(b, k), icase)
        {
          if k > 0 { assert NulFreeBefore(a[1..], k - 1); }
        }
      }
      if AgreeBefore(a, b, n, icase) {
        forall k | 0 <= k < n - 1 && NulFreeBefore(a[1..], k)
          ensures Fold(At(a[1..], k), icase) == Fold(At(b[1..], k), icase)
        {
          assert NulFreeBefore(a, k + 1);
        }
      }
    }
  }

  /** `strncmp(a, b, n) == 0` (or `strncasecmp` when icase): the strings
      agree on their first n bytes, or up to a terminator they share. */
  function StrNEq(a: seq<Byte>, b: seq<Byte>, n: nat, icase: bool): (r: bool)
    ensures r <==> AgreeBefore(a, b, n, icase)
    decreases n
  {
    if n == 0 then true
    else
      AgreeBeforeStep(a, b, n, icase);
      if Fold(At(a, 0), icase) != Fold(At(b, 0), icase) then false
      else if At(a, 0) == NUL then true
      else StrNEq(a[1..], b[1..], n - 1, icase)
  }

  /** Comparing over the whole of `a` and its terminator, as match() does
      with `strlen(text) + 1`, is equality under the comparator. */
  lemma {:induction false} StrNEqWhole(a: seq<Byte>, b: seq<Byte>, icase: bool)
    requires NoNul(a) && NoNul(b)
    ensures StrNEq(a, b, |a| + 1, icase) <==> FoldEq(a, b, icase)
    decreases |a|
  {
    if a == [] {
      assert FoldEq(a, b, icase) <==> b == [];
    } else if b == [] {
      assert Fold(At(a, 0), icase) != NUL;
    } else if Fold(a[0], icase) == Fold(b[0], icase) {
      StrNEqWhole(a[1..], b[1..], icase);
      if FoldEq(a[1..], b[1..], icase) {
        forall k | 0 <= k < |a| ensures Fold(a[k], icase) == Fold(b[k], icase) {
          if k > 0 { assert a[k] == a[1..][k - 1] && b[k] == b[1..][k - 1]; }
        }
      }
      if FoldEq(a, b, icase) {
        forall k | 0 <= k < |a| - 1 ensures Fold(a[1..][k], icase) == Fold(b[1..][k], icase) {
          assert a[1..][k] == a[k + 1] && b[1..][k] == b[k + 1];
        }
      }
    }
  }

  /** Comparing over the length of `t`, as match() does with the first
      token, tests that `b` starts with `t` under the comparator. */
  lemma {:induction false} StrNEqPrefix(t: seq<Byte>, b: seq<Byte>, icase: bool)
    requires NoNul(t) && NoNul(b)
    ensures StrNEq(t, b, |t|, icase) <==> |t| <= |b| && FoldEq(t, b[..|t|], icase)
    decreases |t|
  {
    if t == [] {
    } else if b == [] {
      assert Fold(At(t, 0), icase) != NUL;
    } else if Fold(t[0], icase) == Fold(b[0], icase) {
      StrNEqPrefix(t[1..], b[1..], icase);
      if |t| <= |b| {
        if FoldEq(t[1..], b[1..][..|t| - 1], icase) {
          forall k | 0 <= k < |t| ensures Fold(t[k], icase) == Fold(b[..|t|][k], icase) {
            if k > 0 { assert t[k] == t[1..][k - 1] && b[k] == b[1..][..|t| - 1][k - 1]; }
          }
        }
        if FoldEq(t, b[..|t|], icase) {
          forall k | 0 <= k < |t| - 1
            ensures Fold(t[1..][k], icase) == Fold(b[1..][..|t| - 1][k], icase)
          {
            assert t[1..][k] == t[k + 1] && b[1..][..|t| - 1][k] == b[..|t|][k + 1];
          }
        }
      }
    } else {
      if |t| <= |b| { assert b[..|t|][0] == b[0]; }
    }
  }

  /** `n` occurs in `h` at offset p under the comparator. */
  predicate OccursAt(h: seq<Byte>, n: seq<Byte>, p: nat, icase: bool) {
    p + |n| <= |h| && forall k :: 0 <= k < |n| ==> Fold(h[p + k], icase) == Fold(n[k], icase)
  }

  /** `n` is a substring of `h` under the comparator. */
  predicate Occurs(h: seq<Byte>, n: seq<Byte>, icase: bool) {
    exists p: nat :: p <= |h| && OccursAt(h, n, p, icase)
  }

  /** r is what a substring search returns: the first offset at which `n`
      occurs, or None when it occurs nowhere. */
  predicate IsFirstOccurrence(h: seq<Byte>, n: seq<Byte>, icase: bool, r: Option<nat>) {
    match r
    case Some(p) => OccursAt(h, n, p, icase) && forall q: nat :: q < p ==> !OccursAt(h, n, q, icase)
    case None => forall q: nat :: q <= |h| ==> !OccursAt(h, n, q, icase)
  }

  lemma FirstOccurrenceFound(h: seq<Byte>, n: seq<Byte>, icase: bool, r: Option<nat>)
    requires IsFirstOccurrence(h, n, icase, r)
    ensures r.Some? <==> Occurs(h, n, icase)
  {
  }

  /** Case-sensitive occurrence is equality of the slice. */
  lemma OccursAtSlice(h: seq<Byte>, n: seq<Byte>, p: nat)
    requires p + |n| <= |h|
    ensures OccursAt(h, n, p, false) <==> h[p..p + |n|] == n
  {
    if OccursAt(h, n, p, false) {
      forall k | 0 <= k < |n| ensures h[p..p + |n|][k] == n[k] { assert h[p..p + |n|][k] == h[p + k]; }
    }
  }

  /** `strstr(h, n)` of the C library, as an offset into h. */
  function StrStr(h: seq<Byte>, n: seq<Byte>): (r: Option<nat>)
    ensures IsFirstOccurrence(h, n, false, r)
  {
    StrStrFrom(h, n, 0)
  }

  function StrStrFrom(h: seq<Byte>, n: seq<Byte>, p: nat): (r: Option<nat>)
    ensures (forall q: nat :: q < p ==> !OccursAt(h, n, q, false)) ==> IsFirstOccurrence(h, n, false, r)
    decreases |h| - p
  {
    if p + |n| > |h| then None
    else if (OccursAtSlice(h, n, p); h[p..p + |n|] == n) then Some(p)
    else
      StrStrFrom(h, n, p + 1)
  }
}
