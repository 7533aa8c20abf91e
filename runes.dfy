/** Cursor steps over UTF-8 text as nenu's `nextrune` takes them: a step
    skips the continuation bytes of a multi-byte sequence, and nothing else
    about the encoding is checked. */
module Runes {
  import opened Bytes

  /** A UTF-8 continuation byte, `10xxxxxx`. */
  predicate IsContinuation(b: byte) {
    0x80 <= b < 0xC0
  }

  /** The range test and the source's mask test `(b & 0xc0) == 0x80` agree. */
  lemma ContinuationIsMasked(b: byte)
    ensures IsContinuation(b) <==> (b as bv8) & 0xC0 == 0x80
  {
  }

  /** The first offset at or after `n` that is the end of the text or holds
      a byte that is not a continuation byte. */
  function BoundaryFrom(t: seq<byte>, n: nat): (r: nat)
    requires n <= |t|
    ensures n <= r <= |t| && (r == |t| || !IsContinuation(t[r]))
    ensures forall k :: n <= k < r ==> IsContinuation(t[k])
    decreases |t| - n
  {
    if n == |t| || !IsContinuation(t[n]) then n else BoundaryFrom(t, n + 1)
  }

  /** The last offset at or before `n` that is 0 or holds a byte that is
      not a continuation byte. */
  function BoundaryUpTo(t: seq<byte>, n: nat): (r: nat)
    requires n < |t|
    ensures r <= n && (r == 0 || !IsContinuation(t[r]))
    ensures forall k :: r < k <= n ==> IsContinuation(t[k])
  {
    if n == 0 || !IsContinuation(t[n]) then n else BoundaryUpTo(t, n - 1)
  }

  /** `nextrune(+1)` from cursor `c` in text `t`: the first offset after `c`
      that does not hold a continuation byte; the terminating NUL at `|t|`
      is not one, so the step stops there at the latest. */
  function NextRune(t: seq<byte>, c: nat): (r: nat)
    requires c < |t|
    ensures c < r <= |t| && (r == |t| || !IsContinuation(t[r]))
    ensures forall k :: c < k < r ==> IsContinuation(t[k])
  {
    BoundaryFrom(t, c + 1)
  }

  /** `nextrune(-1)` from cursor `c`: the last offset before `c` that is 0
      or does not hold a continuation byte. */
  function PrevRune(t: seq<byte>, c: nat): (r: nat)
    requires 0 < c <= |t|
    ensures r < c && (r == 0 || !IsContinuation(t[r]))
    ensures forall k :: r < k < c ==> IsContinuation(t[k])
  {
    BoundaryUpTo(t, c - 1)
  }

  /** `NextRune` is the first offset after `c` that ends the run of
      continuation bytes: any offset with that property is it. */
  lemma NextRuneIsFirst(t: seq<byte>, c: nat, m: nat)
    requires c < m <= |t| && (m == |t| || !IsContinuation(t[m]))
    requires forall k :: c < k < m ==> IsContinuation(t[k])
    ensures NextRune(t, c) == m
  {
  }

  /** `PrevRune` is the last offset before `c` that starts the run of
      continuation bytes (or is 0): any offset with that property is it. */
  lemma PrevRuneIsLast(t: seq<byte>, c: nat, m: nat)
    requires m < c <= |t| && (m == 0 || !IsContinuation(t[m]))
    requires forall k :: m < k < c ==> IsContinuation(t[k])
    ensures PrevRune(t, c) == m
  {
  }

  /** The text starts with a rune: it is empty or its first byte is not a
      continuation byte. */
  predicate StartsRune(t: seq<byte>) {
    t == [] || !IsContinuation(t[0])
  }

  /** The cursor sits between two runes: at either end of the text or on a
      byte that starts a rune. */
  predicate AtBoundary(t: seq<byte>, c: nat) {
    c == 0 || c == |t| || (c < |t| && !IsContinuation(t[c]))
  }

  /** From a boundary, stepping right and then left comes back. */
  lemma LeftUndoesRight(t: seq<byte>, c: nat)
    requires c < |t| && AtBoundary(t, c)
    ensures PrevRune(t, NextRune(t, c)) == c
  {
  }

  /** To a boundary, stepping left and then right comes back. */
  lemma RightUndoesLeft(t: seq<byte>, c: nat)
    requires 0 < c <= |t| && (c == |t| || !IsContinuation(t[c]))
    ensures NextRune(t, PrevRune(t, c)) == c
  {
  }

  /** The number of runes in `s`: the bytes that are not continuation bytes. */
  function RuneCount(s: seq<byte>): nat {
    if s == [] then 0
    else (if IsContinuation(s[0]) then 0 else 1) + RuneCount(s[1..])
  }

  lemma {:induction false} RuneCountAppend(a: seq<byte>, b: seq<byte>)
    ensures RuneCount(a + b) == RuneCount(a) + RuneCount(b)
  {
    if a != [] {
      assert (a + b)[1..] == a[1..] + b;
      RuneCountAppend(a[1..], b);
    } else {
      assert a + b == b;
    }
  }

  lemma {:induction false} NoRuneStarts(s: seq<byte>)
    requires forall k :: 0 <= k < |s| ==> IsContinuation(s[k])
    ensures RuneCount(s) == 0
  {
    if s != [] {
      NoRuneStarts(s[1..]);
    }
  }

  /** How many `nextrune(+1)` steps the End key takes from `c` to the end. */
  function StepsToEnd(t: seq<byte>, c: nat): nat
    requires c <= |t|
    decreases |t| - c
  {
    if c == |t| then 0 else 1 + StepsToEnd(t, NextRune(t, c))
  }

  /** Each step passes over exactly one rune start: from `c` the walk to the
      end takes one step plus one per rune that starts after `c`. */
  lemma {:induction false} StepsCountRunes(t: seq<byte>, c: nat)
    requires c < |t|
    ensures StepsToEnd(t, c) == 1 + RuneCount(t[c + 1..])
    decreases |t| - c
  {
    var r := NextRune(t, c);
    assert t[c + 1..] == t[c + 1..r] + t[r..];
    RuneCountAppend(t[c + 1..r], t[r..]);
    NoRuneStarts(t[c + 1..r]);
    if r < |t| {
      StepsCountRunes(t, r);
      assert t[r..] == [t[r]] + t[r + 1..];
    }
  }

  /** Walking from offset 0 over text that starts with a rune start reaches
      the end in exactly as many steps as the text has runes, and every step
      lands on a boundary (NextRune's contract). */
  lemma WalkFromStartCountsRunes(t: seq<byte>)
    requires StartsRune(t)
    ensures StepsToEnd(t, 0) == RuneCount(t)
  {
    if t != [] {
      StepsCountRunes(t, 0);
    }
  }
}
