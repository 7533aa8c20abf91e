/** Moving the selection through the valid list, as the Up and Down keys and
    the scroll buttons do: the selection is a position in a list of `n`
    entries, and each move wraps around at either end. */
module Selection {

  /** Down (and scroll down): the next entry, or back to the first after the last. */
  function Advance(sel: nat, n: nat): (r: nat)
    requires sel < n
    ensures r < n && r == (sel + 1) % n
  {
    if sel + 1 < n then sel + 1 else 0
  }

  /** Up (and scroll up): the previous entry, or on to the last before the first. */
  function Retreat(sel: nat, n: nat): (r: nat)
    requires sel < n
    ensures r < n && (r + 1) % n == sel
  {
    if sel > 0 then sel - 1 else n - 1
  }

  /** Up undoes Down and Down undoes Up. */
  lemma RetreatUndoesAdvance(sel: nat, n: nat)
    requires sel < n
    ensures Retreat(Advance(sel, n), n) == sel
    ensures Advance(Retreat(sel, n), n) == sel
  {
  }

  /** The wrap-around cases: Down from the last entry selects the first,
      Up from the first selects the last, and with one entry both leave the
      selection where it is. */
  lemma Wraparound(n: nat)
    requires n > 0
    ensures Advance(n - 1, n) == 0 && Retreat(0, n) == n - 1
    ensures n == 1 ==> Advance(0, n) == 0 && Retreat(0, n) == 0
  {
  }

  /** `k` presses of Down from `sel`. */
  function AdvanceTimes(k: nat, sel: nat, n: nat): (r: nat)
    requires sel < n
    ensures r < n
  {
    if k == 0 then sel else AdvanceTimes(k - 1, Advance(sel, n), n)
  }

  lemma {:induction false} AdvanceTimesAdds(a: nat, b: nat, sel: nat, n: nat)
    requires sel < n
    ensures AdvanceTimes(a + b, sel, n) == AdvanceTimes(b, AdvanceTimes(a, sel, n), n)
    decreases a
  {
    if a > 0 {
      AdvanceTimesAdds(a - 1, b, Advance(sel, n), n);
    }
  }

  /** Below the end, `k` presses move the selection `k` entries down. */
  lemma {:induction false} AdvanceTimesBelowEnd(k: nat, sel: nat, n: nat)
    requires sel + k < n
    ensures AdvanceTimes(k, sel, n) == sel + k
    decreases k
  {
    if k > 0 {
      AdvanceTimesBelowEnd(k - 1, sel + 1, n);
    }
  }

  /** Pressing Down once per entry brings the selection back to where it was. */
  lemma FullCircle(sel: nat, n: nat)
    requires sel < n
    ensures AdvanceTimes(n, sel, n) == sel
  {
    var toLast := n - 1 - sel;
    AdvanceTimesBelowEnd(toLast, sel, n);
    AdvanceTimesAdds(toLast, 1, sel, n);
    AdvanceTimesAdds(toLast + 1, sel, sel, n);
    AdvanceTimesBelowEnd(sel, 0, n);
  }
}
