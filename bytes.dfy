/** The C library's view of the editor's text: NUL-terminated strings inside
    a fixed-size byte buffer, moved around with memmove and memcpy and
    compared with strncmp. */
module Bytes {

  newtype byte = x: int | 0 <= x < 256

  /** The content of a C string: it holds no NUL byte. */
  predicate NulFree(s: seq<byte>) {
    0 !in s
  }

  lemma NulFreeSlices(t: seq<byte>, c: nat)
    requires NulFree(t) && c <= |t|
    ensures NulFree(t[..c]) && NulFree(t[c..])
  {
    assert t == t[..c] + t[c..];
  }

  /** `strlen`: the offset of the first NUL byte; the buffer must hold one. */
  function Strlen(s: seq<byte>): (n: nat)
    requires 0 in s
    ensures n < |s| && s[n] == 0 && NulFree(s[..n])
  {
    if s[0] == 0 then 0
    else
      assert s == [s[0]] + s[1..];
      var m := Strlen(s[1..]);
      assert s[..m + 1] == [s[0]] + s[1..][..m];
      m + 1
  }

  /** The text a NUL-terminated buffer holds (what `printf("%s")` prints). */
  function CString(s: seq<byte>): (t: seq<byte>)
    requires 0 in s
    ensures NulFree(t) && |t| < |s| && t == s[..|t|] && s[|t|] == 0
  {
    s[..Strlen(s)]
  }

  /** A buffer that starts with `t` and a NUL holds exactly the C string `t`. */
  lemma CStringOf(s: seq<byte>, t: seq<byte>)
    requires NulFree(t) && t + [0] <= s
    ensures 0 in s && CString(s) == t
  {
    assert s[|t|] == (t + [0])[|t|] == 0;
  }

  /** Byte `i` of the C string with content `t`, as the C library reads it:
      past the content it finds the terminating NUL. */
  function At(t: seq<byte>, i: nat): byte {
    if i < |t| then t[i] else 0
  }

  /** No terminator among the bytes `i` to `k - 1` of the C string `a`. */
  predicate NoNulBetween(a: seq<byte>, i: nat, k: nat) {
    forall j :: i <= j < k ==> At(a, j) != 0
  }

  /** `strncmp(a, b, n) == 0` restricted to the positions from `i` on, for
      the C strings with contents `a` and `b`: equal up to `n` bytes or up to
      a common terminator. */
  function StrncmpEqualFrom(a: seq<byte>, b: seq<byte>, n: nat, i: nat): (r: bool)
    ensures r <==> forall k :: i <= k < n && NoNulBetween(a, i, k) ==> At(a, k) == At(b, k)
    decreases n - i
  {
    if i >= n then true
    else if At(a, i) != At(b, i) then false
    else if At(a, i) == 0 then true
    else StrncmpEqualFrom(a, b, n, i + 1)
  }

  /** `strncmp(a, b, n) == 0`. */
  function StrncmpEqual(a: seq<byte>, b: seq<byte>, n: nat): bool {
    StrncmpEqualFrom(a, b, n, 0)
  }

  lemma {:induction false} StrncmpEqualFromAgrees(a: seq<byte>, b: seq<byte>, i: nat)
    requires NulFree(a) && i <= |a|
    ensures StrncmpEqualFrom(a, b, |a|, i) <==> forall k :: i <= k < |a| ==> a[k] == At(b, k)
    decreases |a| - i
  {
    if i < |a| {
      assert a[i] in a;
      StrncmpEqualFromAgrees(a, b, i + 1);
    }
  }

  /** Comparing the first `strlen(a)` bytes of two C strings with strncmp
      tests exactly whether `a` is a prefix of `b`. */
  lemma StrncmpIsPrefix(a: seq<byte>, b: seq<byte>)
    requires NulFree(a) && NulFree(b)
    ensures StrncmpEqual(a, b, |a|) <==> a <= b
  {
    StrncmpEqualFromAgrees(a, b, 0);
    if |b| < |a| {
      assert a[|b|] in a;
    }
  }

  /** `memmove(&s[dst], &s[src], count)`: the bytes are copied as if through
      a temporary buffer, so overlapping ranges are safe. */
  function Moved(s: seq<byte>, dst: nat, src: nat, count: nat): (r: seq<byte>)
    requires dst + count <= |s| && src + count <= |s|
    ensures |r| == |s|
  {
    s[..dst] + s[src..src + count] + s[dst + count..]
  }

  /** `memcpy(&s[dst], str, |str|)`. */
  function Copied(s: seq<byte>, dst: nat, str: seq<byte>): (r: seq<byte>)
    requires dst + |str| <= |s|
    ensures |r| == |s|
  {
    s[..dst] + str + s[dst + |str|..]
  }

  /** Byte by byte, memmove leaves byte `i` of the destination range holding
      what byte `src + (i - dst)` held before, and every other byte alone. */
  lemma MovedBytes(s: seq<byte>, dst: nat, src: nat, count: nat, i: nat)
    requires dst + count <= |s| && src + count <= |s| && i < |s|
    ensures Moved(s, dst, src, count)[i] == if dst <= i < dst + count then s[src + (i - dst)] else s[i]
  {
  }

  /** Byte by byte, memcpy writes `str` from `dst` on and leaves every other
      byte alone. */
  lemma CopiedBytes(s: seq<byte>, dst: nat, str: seq<byte>, i: nat)
    requires dst + |str| <= |s| && i < |s|
    ensures Copied(s, dst, str)[i] == if dst <= i < dst + |str| then str[i - dst] else s[i]
  {
  }

  /** The body of nenu's `insert(str, n)` once its capacity test has let it
      through: shift the buffer from cursor `c` by `n` bytes (to the right
      for an insertion, to the left for a deletion of `-n` bytes before the
      cursor) and, for an insertion, write `str` at the cursor. */
  function RawInsert(s: seq<byte>, c: nat, str: seq<byte>, n: int): (r: seq<byte>)
    requires c <= |s|
    requires n >= 0 ==> |str| == n && c + n <= |s|
    requires n < 0 ==> c + n >= 0
    ensures |r| == |s|
  {
    if n < 0 then Moved(s, c + n, c, |s| - c)
    else
      var m := Moved(s, c + n, c, |s| - c - n);
      if n > 0 then Copied(m, c, str) else m
  }

  /** The move of `insert` always ends at the end of the buffer (for a
      deletion) or at the buffer's last byte that stays (for an insertion):
      its length is `MAX_LEN - cursor - MAX(n, 0)`. */
  lemma RawInsertMoveLength(s: seq<byte>, c: nat, str: seq<byte>, n: int, count: nat, m: seq<byte>)
    requires c <= |s|
    requires n >= 0 ==> |str| == n && c + n <= |s|
    requires n < 0 ==> c + n >= 0
    requires count == |s| - c - if n > 0 then n else 0
    requires m == Moved(s, c + n, c, count)
    ensures RawInsert(s, c, str, n) == if n > 0 then Copied(m, c, str) else m
  {
  }

  /** Shifting right by `|str|` and writing `str` at `c` puts `str` between
      the bytes before `c` and the bytes from `c` on; the last `|str|` bytes
      of the buffer fall off its end. */
  lemma RawInsertShape(s: seq<byte>, c: nat, str: seq<byte>)
    requires c + |str| <= |s|
    ensures RawInsert(s, c, str, |str|) == s[..c] + str + s[c..|s| - |str|]
  {
    var n := |str|;
    var m := Moved(s, c + n, c, |s| - c - n);
    assert m == s[..c + n] + s[c..|s| - n] by {
      assert s[|s|..] == [];
    }
    if n > 0 {
      assert Copied(m, c, str) == m[..c] + str + m[c + n..];
      assert m[..c] == s[..c];
      assert m[c + n..] == s[c..|s| - n];
    } else {
      assert s[..c] + s[c..|s|] == s;
    }
  }

  /** Shifting left by `k` from `c` cuts out the `k` bytes before `c`; the
      last `k` bytes of the buffer stay where they were. */
  lemma RawDeleteShape(s: seq<byte>, c: nat, k: nat)
    requires k <= c <= |s|
    ensures RawInsert(s, c, [], -(k as int)) == s[..c - k] + s[c..] + s[|s| - k..]
  {
  }

  /** The capacity test as the source writes it: `strlen(text) + n > MAX_LEN`
      rejects the edit. */
  predicate RejectsAsWritten(len: nat, n: int, maxLen: nat) {
    len + n > maxLen
  }

  /** The capacity test the buffer needs: the text and its terminator must
      both fit, so an edit that would make the text `MAX_LEN` bytes long is
      rejected as well. */
  predicate Rejects(len: nat, n: int, maxLen: nat) {
    len + n >= maxLen
  }

  /** The buffer `s` holds the C string `t`. */
  lemma CStringPrefix(s: seq<byte>)
    requires 0 in s
    ensures CString(s) + [0] <= s
  {
    var t := CString(s);
    assert s[..|t| + 1] == t + [0];
  }

  /** An insertion that fills the buffer exactly leaves the spliced text and
      nothing else in it. */
  lemma FillShape(s: seq<byte>, t: seq<byte>, c: nat, str: seq<byte>)
    requires NulFree(t) && t + [0] <= s && c <= |t| && NulFree(str)
    requires |t| + |str| == |s|
    ensures RawInsert(s, c, str, |str|) == t[..c] + str + t[c..]
    ensures NulFree(t[..c] + str + t[c..])
  {
    RawInsertShape(s, c, str);
    assert s[..c] == t[..c] && s[c..|s| - |str|] == t[c..];
    NulFreeSlices(t, c);
  }

  /** An insertion that leaves room for the terminator keeps the spliced
      text followed by a NUL at the start of the buffer. */
  lemma SpliceShape(s: seq<byte>, t: seq<byte>, c: nat, str: seq<byte>)
    requires NulFree(t) && t + [0] <= s && c <= |t| && NulFree(str)
    requires |t| + |str| < |s|
    ensures (t[..c] + str + t[c..]) + [0] <= RawInsert(s, c, str, |str|)
    ensures NulFree(t[..c] + str + t[c..])
  {
    var n := |str|;
    var u := t[..c] + str + t[c..];
    RawInsertShape(s, c, str);
    var rest := s[|t| + 1..|s| - n];
    assert s[c..|s| - n] == t[c..] + [0] + rest by {
      assert s[c..|s| - n] == s[c..|t|] + s[|t|..|t| + 1] + rest;
      assert s[|t|] == (t + [0])[|t|];
    }
    assert s[..c] == t[..c];
    Regroup(t[..c] + str, t[c..], rest, []);
    NulFreeSlices(t, c);
  }

  /** A deletion keeps the cut text followed by a NUL at the start of the
      buffer. */
  lemma CutShape(s: seq<byte>, t: seq<byte>, c: nat, k: nat)
    requires NulFree(t) && t + [0] <= s && k <= c <= |t|
    ensures (t[..c - k] + t[c..]) + [0] <= RawInsert(s, c, [], -(k as int))
    ensures NulFree(t[..c - k] + t[c..])
  {
    var u := t[..c - k] + t[c..];
    RawDeleteShape(s, c, k);
    assert s[c..] == t[c..] + [0] + s[|t| + 1..] by {
      assert s[c..] == s[c..|t|] + s[|t|..|t| + 1] + s[|t| + 1..];
      assert s[|t|] == (t + [0])[|t|];
    }
    assert s[..c - k] == t[..c - k];
    Regroup(t[..c - k], t[c..], s[|t| + 1..], s[|s| - k..]);
    NulFreeSlices(t, c - k);
    NulFreeSlices(t, c);
  }

  /** Concatenation regrouped so that the deletion's text and its NUL come
      first. */
  lemma Regroup(a: seq<byte>, b: seq<byte>, d: seq<byte>, z: seq<byte>)
    ensures a + (b + [0] + d) + z == (a + b + [0]) + (d + z)
    ensures a + b + [0] <= (a + b + [0]) + (d + z)
  {
  }

  /** The source's test lets through an insertion that fills every byte of
      the buffer; the NUL terminator is then shifted out and the buffer no
      longer holds a C string. */
  lemma AsWrittenLosesTerminator(s: seq<byte>, c: nat, str: seq<byte>)
    requires 0 in s && c <= Strlen(s)
    requires NulFree(str) && |str| > 0
    requires !RejectsAsWritten(Strlen(s), |str|, |s|) && Rejects(Strlen(s), |str|, |s|)
    ensures 0 !in RawInsert(s, c, str, |str|)
  {
    CStringPrefix(s);
    FillShape(s, CString(s), c, str);
  }

  /** With the corrected test, an insertion of `str` at cursor `c` keeps the
      buffer a C string, whose text is the old text with `str` spliced in at
      the cursor. */
  lemma RawInsertSplices(s: seq<byte>, c: nat, str: seq<byte>)
    requires 0 in s && c <= Strlen(s)
    requires NulFree(str) && !Rejects(Strlen(s), |str|, |s|)
    ensures 0 in RawInsert(s, c, str, |str|)
    ensures CString(RawInsert(s, c, str, |str|)) == CString(s)[..c] + str + CString(s)[c..]
  {
    var t := CString(s);
    CStringPrefix(s);
    SpliceShape(s, t, c, str);
    CStringOf(RawInsert(s, c, str, |str|), t[..c] + str + t[c..]);
  }

  /** Whatever the capacity, a deletion of the `k` bytes before cursor `c`
      keeps the buffer a C string whose text has those bytes cut out. */
  lemma RawDeleteCuts(s: seq<byte>, c: nat, k: nat)
    requires 0 in s && k <= c <= Strlen(s)
    ensures 0 in RawInsert(s, c, [], -(k as int))
    ensures CString(RawInsert(s, c, [], -(k as int))) == CString(s)[..c - k] + CString(s)[c..]
  {
    var t := CString(s);
    CStringPrefix(s);
    CutShape(s, t, c, k);
    CStringOf(RawInsert(s, c, [], -(k as int)), t[..c - k] + t[c..]);
  }

  /** An edit the corrected test lets through keeps the buffer a C string
      whose text is the old one with the bytes before the cursor cut out
      (`n < 0`) or with `str` spliced in at the cursor (`n >= 0`); the
      cursor moved by `n` stays within the text. */
  lemma InsertEdits(s: seq<byte>, c: nat, str: seq<byte>, n: int)
    requires 0 in s && c <= Strlen(s)
    requires n >= 0 ==> |str| == n && NulFree(str)
    requires n < 0 ==> str == [] && c + n >= 0
    requires !Rejects(Strlen(s), n, |s|)
    ensures 0 in RawInsert(s, c, str, n)
    ensures CString(RawInsert(s, c, str, n)) == CString(s)[..c + if n < 0 then n else 0] + str + CString(s)[c..]
    ensures c + n <= |CString(RawInsert(s, c, str, n))|
  {
    var t := CString(s);
    if n < 0 {
      RawDeleteCuts(s, c, -n);
      assert t[..c + n] + str + t[c..] == t[..c + n] + t[c..];
    } else {
      RawInsertSplices(s, c, str);
    }
  }
}
