/** The prefix filter behind `update_valid_options`: the valid list holds,
    in the order the options were read, the position of every option that
    the typed text is a byte prefix of. Positions rather than texts keep
    duplicate options apart. */
module Filtering {
  import opened Bytes

  /** The positions of the options that `t` is a prefix of, in option order
      and each once. */
  function Filter(t: seq<byte>, opts: seq<seq<byte>>): (r: seq<nat>)
    ensures |r| <= |opts|
    ensures forall k :: 0 <= k < |r| ==> r[k] < |opts| && t <= opts[r[k]]
    ensures Increasing(r)
  {
    if opts == [] then []
    else
      var init := Filter(t, opts[..|opts| - 1]);
      if t <= opts[|opts| - 1] then init + [|opts| - 1] else init
  }

  /** Filtering the first `i + 1` options extends the list for the first `i`
      by option `i` exactly when it matches. */
  lemma FilterStep(t: seq<byte>, opts: seq<seq<byte>>, i: nat)
    requires i < |opts|
    ensures Filter(t, opts[..i + 1]) ==
      Filter(t, opts[..i]) + (if t <= opts[i] then [i] else [])
  {
    assert opts[..i + 1][..i] == opts[..i];
  }

  /** One more option read extends the list by its position exactly when
      it matches. */
  lemma FilterAppend(t: seq<byte>, opts: seq<seq<byte>>, o: seq<byte>)
    ensures Filter(t, opts + [o]) == Filter(t, opts) + (if t <= o then [|opts|] else [])
  {
    assert (opts + [o])[..|opts|] == opts;
  }

  /** The valid list is exactly the set of matching options. */
  lemma {:induction false} FilterExact(t: seq<byte>, opts: seq<seq<byte>>, i: nat)
    ensures i in Filter(t, opts) <==> i < |opts| && t <= opts[i]
    decreases |opts|
  {
    if opts != [] {
      var last := |opts| - 1;
      var front := opts[..last];
      FilterExact(t, front, i);
      if i < last {
        assert front[i] == opts[i];
      }
    }
  }

  /** Positions listed in the order the options were read, each once. */
  predicate Increasing(v: seq<nat>) {
    forall j, k :: 0 <= j < k < |v| ==> v[j] < v[k]
  }


  /** Typing more text can only narrow the valid list. */
  lemma FilterNarrows(t: seq<byte>, longer: seq<byte>, opts: seq<seq<byte>>, i: nat)
    requires t <= longer
    requires i in Filter(longer, opts)
    ensures i in Filter(t, opts)
  {
    FilterExact(longer, opts, i);
    FilterExact(t, opts, i);
  }

  /** Filtering by an option's own text keeps that option. */
  lemma FilterKeepsCompleted(opts: seq<seq<byte>>, i: nat)
    requires i < |opts|
    ensures i in Filter(opts[i], opts)
  {
    FilterExact(opts[i], opts, i);
  }

  /** With nothing typed every option is valid, in order. */
  lemma {:induction false} FilterEmptyText(opts: seq<seq<byte>>)
    ensures Filter([], opts) == seq(|opts|, k => k)
    decreases |opts|
  {
    if opts != [] {
      FilterEmptyText(opts[..|opts| - 1]);
    }
  }
}
