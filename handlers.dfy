/** What one input event does to nenu's editing state, stated on values: the
    typed text (without its terminating NUL), the cursor offset, the valid
    list (positions in the option list) and the selection (a position in
    the valid list; nenu keeps it as the `valid` pointer itself). The class
    in session.dfy runs the same steps on the byte buffer and is proved to
    agree with these functions. */
module Handlers {
  import opened Bytes
  import opened Runes
  import opened Filtering
  import opened Selection

  /** The key symbols handle_key tells apart. `Latin(c)` is the symbol of a
      lower-case letter key (`XK_a` ... `XK_z`); `OtherKey` stands for every
      other symbol. */
  datatype KeySym =
    | Home | End | Up | Down | Left | Right | Delete | BackSpace | Tab
    | Return | Escape
    | Latin(letter: char)
    | OtherKey(code: nat)

  /** An event of the main loop. For a key press: the key symbol, whether
      Control was held, the bytes the input method wrote (`chars`; their
      count is the length it returned) and `lead`, the first byte of the
      lookup buffer, which the iscntrl test reads. The buffer is a local
      array of handle_key, so when the lookup wrote nothing (arrow keys)
      `lead` is an uninitialised byte and may be any value. `KeyOverflow` is
      a key whose lookup overflowed the buffer; `Expose` asks for a redraw. */
  datatype Event =
    | Key(sym: KeySym, control: bool, chars: seq<byte>, lead: byte)
    | KeyOverflow
    | Button(number: nat)
    | Expose

  /** The settings fixed at start-up: the buffer size `MAX_LEN`, the `-a`
      (exit on one), `-c` (complete on exit) and `-n` (no input bar) flags,
      and the C library's `iscntrl`, whose table depends on the locale. */
  datatype Config = Config(
    maxLen: nat,
    exitOnOne: bool,
    completeOnExit: bool,
    inputBar: bool,
    isCntrl: byte -> bool)

  datatype Editor = Editor(text: seq<byte>, cursor: nat, valid: seq<nat>, sel: nat)

  /** How an event leaves the program: still running; `finish` printed
      `line` and a newline and exited with status 0; `exit(status)` without
      printing; or a NULL dereference. */
  datatype Outcome = Running | Printed(line: seq<byte>) | Exited(status: nat) | Crashed

  /** The options as nenu holds them: C strings that fit the text buffer,
      so that copying one into it with strcpy stays inside the buffer. */
  predicate OptionsFit(cfg: Config, opts: seq<seq<byte>>) {
    forall k :: 0 <= k < |opts| ==> NulFree(opts[k]) && |opts[k]| < cfg.maxLen
  }

  /** The state invariant: the text is a C string that fits the buffer with
      its terminator, the cursor lies within it, the valid list holds
      options that still start with the text, in option order and each
      once, and the selection is an entry of the list (the valid pointer is
      NULL exactly when the list is empty). iscntrl counts NUL as a control
      character, as it does in every locale. */
  predicate WF(cfg: Config, opts: seq<seq<byte>>, e: Editor) {
    && OptionsFit(cfg, opts) && cfg.isCntrl(0)
    && NulFree(e.text) && |e.text| < cfg.maxLen
    && e.cursor <= |e.text|
    && (forall k :: 0 <= k < |e.valid| ==> e.valid[k] < |opts| && e.text <= opts[e.valid[k]])
    && Increasing(e.valid)
    && (if e.valid == [] then e.sel == 0 else e.sel < |e.valid|)
  }

  /** What the input method can write for a key: the content of a C string,
      or the single NUL byte of Control-Space; `lead` is the first byte
      written when there is one. */
  predicate LookedUp(chars: seq<byte>, lead: byte) {
    (NulFree(chars) || chars == [0]) && (|chars| > 0 ==> lead == chars[0])
  }

  predicate KeyWF(ev: Event) {
    ev.Key? ==> LookedUp(ev.chars, ev.lead)
  }

  /** The state before the first event: nothing typed, every option valid,
      the first one selected. */
  function Initial(opts: seq<seq<byte>>): Editor {
    Editor([], 0, Filter([], opts), 0)
  }

  /** The `render()` that ends handle_key and handle_button, and the main
      loop's redraw, when the program is still running: render_options reads
      `valid->prev`, which dereferences NULL when the valid list is empty. */
  function Render(r: (Outcome, Editor)): (s: (Outcome, Editor))
    ensures s.1 == r.1
    ensures s.0 == Running ==> s.1.valid != []
    ensures r.0 != Running || r.1.valid != [] ==> s == r
  {
    if r.0 == Running && r.1.valid == [] then (Crashed, r.1) else r
  }

  /** `main` up to its event loop: the options are read and filtered with
      nothing typed, and the first `render()` runs. It crashes exactly when
      there are no options (with `-e`, or on empty input, where read_input
      already dereferences the NULL option list). */
  function Start(opts: seq<seq<byte>>): (r: (Outcome, Editor))
    ensures r.1 == Initial(opts)
    ensures r.0 == Crashed <==> |opts| == 0
    ensures r.0 == Running || r.0 == Crashed
  {
    FilterEmptyText(opts);
    Render((Running, Initial(opts)))
  }

  /** The Emacs bindings applied to a key pressed with Control. */
  function ControlRemap(sym: KeySym): (r: KeySym)
    ensures r != sym ==> sym.Latin? && sym.letter in "aepnfbd"
    ensures r in {sym, Home, End, Up, Down, Right, Left, Delete}
  {
    match sym
    case Latin(c) =>
      if c == 'a' then Home
      else if c == 'e' then End
      else if c == 'p' then Up
      else if c == 'n' then Down
      else if c == 'f' then Right
      else if c == 'b' then Left
      else if c == 'd' then Delete
      else sym
    case _ => sym
  }

  /** `update_valid_options`: recompute the valid list from the text and
      select its head. */
  function Refilter(opts: seq<seq<byte>>, e: Editor): Editor {
    e.(valid := Filter(e.text, opts), sel := 0)
  }

  /** `insert(buf, len)` for a key's bytes: spliced in at the cursor unless
      the text and its terminator would no longer fit. */
  function InsertChars(cfg: Config, e: Editor, chars: seq<byte>): (r: Editor)
    requires e.cursor <= |e.text|
    ensures r.valid == e.valid && r.sel == e.sel
    ensures Rejects(|e.text|, |chars|, cfg.maxLen) ==> r == e
    ensures !Rejects(|e.text|, |chars|, cfg.maxLen) ==>
      && |r.text| == |e.text| + |chars| && r.cursor == e.cursor + |chars|
      && r.text[..e.cursor] == e.text[..e.cursor]
      && r.text[e.cursor..r.cursor] == chars
      && r.text[r.cursor..] == e.text[e.cursor..]
  {
    if Rejects(|e.text|, |chars|, cfg.maxLen) then e
    else e.(text := e.text[..e.cursor] + chars + e.text[e.cursor..],
            cursor := e.cursor + |chars|)
  }

  /** The Backspace case: at offset 0 the program exits with status 0;
      otherwise the bytes from the previous rune boundary up to the cursor
      are cut out, the cursor moves back over them and the list is
      recomputed. */
  function Backspace(opts: seq<seq<byte>>, e: Editor): (r: (Outcome, Editor))
    requires e.cursor <= |e.text|
    ensures r.0 == Exited(0) <==> e.cursor == 0
    ensures e.cursor == 0 ==> r.1 == e
    ensures e.cursor > 0 ==>
      && r.0 == Running && r.1.cursor < e.cursor && r.1.cursor <= |r.1.text|
      && r.1.text[..r.1.cursor] == e.text[..r.1.cursor]
      && r.1.text[r.1.cursor..] == e.text[e.cursor..]
      && r.1.valid == Filter(r.1.text, opts) && r.1.sel == 0
  {
    if e.cursor == 0 then (Exited(0), e)
    else
      var p := PrevRune(e.text, e.cursor);
      (Running, Refilter(opts, e.(text := e.text[..p] + e.text[e.cursor..], cursor := p)))
  }

  /** `copy_first`: the selected option replaces the text, the cursor walks
      to its end and the list is recomputed; nothing happens when the list
      is empty. */
  function CopyFirst(cfg: Config, opts: seq<seq<byte>>, e: Editor): (r: Editor)
    requires WF(cfg, opts, e)
    ensures e.valid == [] ==> r == e
    ensures e.valid != [] ==>
      && r.text == opts[e.valid[e.sel]] && r.cursor == |r.text|
      && r.valid == Filter(r.text, opts) && r.sel == 0
      && e.valid[e.sel] in r.valid
  {
    if e.valid == [] then e
    else
      var chosen := opts[e.valid[e.sel]];
      FilterKeepsCompleted(opts, e.valid[e.sel]);
      Refilter(opts, Editor(chosen, |chosen|, e.valid, e.sel))
  }

  /** The switch handle_key runs when the input bar is shown. It ends the
      program only for Backspace at offset 0. */
  function EditKey(cfg: Config, opts: seq<seq<byte>>, e: Editor, sym: KeySym, chars: seq<byte>, lead: byte): (r: (Outcome, Editor))
    requires WF(cfg, opts, e)
    ensures r.0 == Running || r.0 == Exited(0)
    ensures r.0 == Exited(0) <==> sym == BackSpace && e.cursor == 0
    ensures r.0 == Exited(0) ==> r.1 == e
  {
    match sym
    case Delete =>
      if e.cursor == |e.text| then (Running, e)
      else Backspace(opts, e.(cursor := NextRune(e.text, e.cursor)))
    case BackSpace => Backspace(opts, e)
    case Tab => (Running, CopyFirst(cfg, opts, e))
    case Left => (Running, if e.cursor != 0 then e.(cursor := PrevRune(e.text, e.cursor)) else e)
    case Right => (Running, if e.cursor < |e.text| then e.(cursor := NextRune(e.text, e.cursor)) else e)
    case Home => (Running, e.(cursor := 0))
    case End => (Running, e.(cursor := |e.text|))
    case _ =>
      (Running, if cfg.isCntrl(lead) then e else Refilter(opts, InsertChars(cfg, e, chars)))
  }

  /** The line `finish` prints: the selected option under `-c` or `-a` when
      there is one, the typed text otherwise. Either way it is a C string
      that starts with the typed text. */
  function FinishLine(cfg: Config, opts: seq<seq<byte>>, e: Editor): (r: seq<byte>)
    requires WF(cfg, opts, e)
    ensures e.text <= r && NulFree(r) && |r| < cfg.maxLen
    ensures !cfg.completeOnExit && !cfg.exitOnOne ==> r == e.text
  {
    if (cfg.completeOnExit || cfg.exitOnOne) && e.valid != [] then opts[e.valid[e.sel]] else e.text
  }

  /** The number of list nodes from the selection to the end of the list. */
  function CountFromSelection(e: Editor): int {
    |e.valid| - e.sel
  }

  /** The `-a` check at the end of handle_key: it finishes exactly when the
      selection is the last entry of the list, and then prints that entry. */
  function AutoExit(cfg: Config, opts: seq<seq<byte>>, e: Editor): (r: (Outcome, Editor))
    requires WF(cfg, opts, e)
    ensures r.1 == e
    ensures r.0 != Running <==> cfg.exitOnOne && e.valid != [] && e.sel == |e.valid| - 1
    ensures r.0 != Running ==> r.0 == Printed(opts[e.valid[|e.valid| - 1]])
  {
    if cfg.exitOnOne && CountFromSelection(e) == 1 then (Printed(FinishLine(cfg, opts, e)), e)
    else (Running, e)
  }

  /** The switch handle_key runs whatever the input bar, then the `-a`
      check. It moves only the selection, and crashes exactly when Up or
      Down finds the list empty. */
  function NavigateKey(cfg: Config, opts: seq<seq<byte>>, e: Editor, sym: KeySym): (r: (Outcome, Editor))
    requires WF(cfg, opts, e)
    ensures r.1.text == e.text && r.1.cursor == e.cursor && r.1.valid == e.valid
    ensures r.0 == Crashed <==> (sym == Up || sym == Down) && e.valid == []
  {
    if sym == Up || sym == Down then
      if e.valid == [] then (Crashed, e)
      else
        var n := |e.valid|;
        AutoExit(cfg, opts, e.(sel := if sym == Up then Retreat(e.sel, n) else Advance(e.sel, n)))
    else if sym == Return then (Printed(FinishLine(cfg, opts, e)), e)
    else if sym == Escape then (Exited(1), e)
    else AutoExit(cfg, opts, e)
  }

  lemma PrefixTrans(a: seq<byte>, b: seq<byte>, c: seq<byte>)
    requires a <= b && b <= c
    ensures a <= c
  {
    assert c[..|a|] == c[..|b|][..|a|];
  }

  /** Control-k cuts the text at the cursor and leaves the list alone. */
  function ControlCut(cfg: Config, opts: seq<seq<byte>>, e: Editor): (r: Editor)
    requires WF(cfg, opts, e)
    ensures WF(cfg, opts, r)
  {
    var cut := e.(text := e.text[..e.cursor]);
    assert e.text[..e.cursor] <= e.text;
    NulFreeSlices(e.text, e.cursor);
    forall k | 0 <= k < |e.valid| ensures cut.text <= opts[e.valid[k]] {
      PrefixTrans(cut.text, e.text, opts[e.valid[k]]);
    }
    cut
  }

  /** The input-bar switch of handle_key followed, unless it already ended
      the program, by the navigation switch. */
  function EditThenNavigate(cfg: Config, opts: seq<seq<byte>>, e: Editor, sym: KeySym, chars: seq<byte>, lead: byte): (Outcome, Editor)
    requires WF(cfg, opts, e) && LookedUp(chars, lead)
  {
    var edited := EditKey(cfg, opts, e, sym, chars, lead);
    if edited.0 != Running then edited
    else
      EditKeyKeepsWF(cfg, opts, e, sym, chars, lead);
      NavigateKey(cfg, opts, edited.1, sym)
  }

  /** handle_key, for a lookup that did not overflow: the Control remap,
      the two switches and the `-a` check, then `render()`. A key that
      leaves the program running leaves it with a non-empty list. */
  function KeyStep(cfg: Config, opts: seq<seq<byte>>, e: Editor, ev: Event): (r: (Outcome, Editor))
    requires ev.Key? && KeyWF(ev) && WF(cfg, opts, e)
    ensures r.0 == Running ==> r.1.valid != []
  {
    var sym := if ev.control then ControlRemap(ev.sym) else ev.sym;
    var cut := if ev.control && ev.sym == Latin('k') then ControlCut(cfg, opts, e) else e;
    Render(if cfg.inputBar then EditThenNavigate(cfg, opts, cut, sym, ev.chars, ev.lead)
           else NavigateKey(cfg, opts, cut, sym))
  }

  /** handle_button: the scroll wheel moves the selection, buttons 1 to 3
      finish; there is no `-a` check, and `render()` follows. Only the
      selection moves. */
  function ButtonStep(cfg: Config, opts: seq<seq<byte>>, e: Editor, number: nat): (r: (Outcome, Editor))
    requires WF(cfg, opts, e)
    ensures r.1.text == e.text && r.1.cursor == e.cursor && r.1.valid == e.valid
    ensures r.0 == Running ==> r.1.valid != []
    ensures r.0.Printed? <==> 1 <= number <= 3
    ensures (number == 4 || number == 5) && e.valid != [] ==>
      r == (Running, e.(sel := if number == 4 then Retreat(e.sel, |e.valid|) else Advance(e.sel, |e.valid|)))
  {
    Render(
      if number == 4 || number == 5 then
        if e.valid == [] then (Crashed, e)
        else
          var n := |e.valid|;
          (Running, e.(sel := if number == 4 then Retreat(e.sel, n) else Advance(e.sel, n)))
      else if 1 <= number <= 3 then (Printed(FinishLine(cfg, opts, e)), e)
      else (Running, e))
  }

  /** One event of the main loop. A key whose lookup overflowed returns
      before `render()`; an Expose event only redraws. From a state with a
      non-empty list, no event leaves the program running with an empty
      one. */
  function Step(cfg: Config, opts: seq<seq<byte>>, e: Editor, ev: Event): (r: (Outcome, Editor))
    requires KeyWF(ev) && WF(cfg, opts, e)
    ensures ev == KeyOverflow || ev == Expose ==> r.1 == e
    ensures r.0 == Running && e.valid != [] ==> r.1.valid != []
  {
    match ev
    case KeyOverflow => (Running, e)
    case Key(_, _, _, _) => KeyStep(cfg, opts, e, ev)
    case Button(b) => ButtonStep(cfg, opts, e, b)
    case Expose => Render((Running, e))
  }

  // ---------------------------------------------------------------------
  // Properties of the steps

  /** A recomputed list satisfies the invariant for any text that fits. */
  lemma RefilterKeepsWF(cfg: Config, opts: seq<seq<byte>>, e: Editor)
    requires OptionsFit(cfg, opts) && cfg.isCntrl(0)
    requires NulFree(e.text) && |e.text| < cfg.maxLen && e.cursor <= |e.text|
    ensures WF(cfg, opts, Refilter(opts, e))
  {
  }

  /** Backspace keeps the invariant: the cut text is still a C string. */
  lemma BackspaceKeepsWF(cfg: Config, opts: seq<seq<byte>>, e: Editor)
    requires WF(cfg, opts, e)
    ensures WF(cfg, opts, Backspace(opts, e).1)
  {
    if e.cursor > 0 {
      var p := PrevRune(e.text, e.cursor);
      NulFreeSlices(e.text, p);
      NulFreeSlices(e.text, e.cursor);
      RefilterKeepsWF(cfg, opts, e.(text := e.text[..p] + e.text[e.cursor..], cursor := p));
    }
  }

  /** Typing keeps the invariant when the looked-up bytes hold no NUL. */
  lemma InsertKeepsWF(cfg: Config, opts: seq<seq<byte>>, e: Editor, chars: seq<byte>)
    requires WF(cfg, opts, e) && NulFree(chars)
    ensures WF(cfg, opts, Refilter(opts, InsertChars(cfg, e, chars)))
  {
    if !Rejects(|e.text|, |chars|, cfg.maxLen) {
      NulFreeSlices(e.text, e.cursor);
      assert NulFree(e.text[..e.cursor] + chars + e.text[e.cursor..]);
      RefilterKeepsWF(cfg, opts, InsertChars(cfg, e, chars));
    } else {
      RefilterKeepsWF(cfg, opts, e);
    }
  }

  /** Moving the cursor anywhere inside the text keeps the invariant. */
  lemma CursorKeepsWF(cfg: Config, opts: seq<seq<byte>>, e: Editor, c: nat)
    requires WF(cfg, opts, e) && c <= |e.text|
    ensures WF(cfg, opts, e.(cursor := c))
  {
  }

  /** Tab keeps the invariant: the chosen option is a C string that fits. */
  lemma CopyFirstKeepsWF(cfg: Config, opts: seq<seq<byte>>, e: Editor)
    requires WF(cfg, opts, e)
    ensures WF(cfg, opts, CopyFirst(cfg, opts, e))
  {
    if e.valid != [] {
      var chosen := opts[e.valid[e.sel]];
      RefilterKeepsWF(cfg, opts, Editor(chosen, |chosen|, e.valid, e.sel));
    }
  }

  /** Every edit key keeps the invariant; the NUL of Control-Space is a
      control character and inserts nothing. */
  lemma EditKeyKeepsWF(cfg: Config, opts: seq<seq<byte>>, e: Editor, sym: KeySym, chars: seq<byte>, lead: byte)
    requires WF(cfg, opts, e) && LookedUp(chars, lead)
    ensures WF(cfg, opts, EditKey(cfg, opts, e, sym, chars, lead).1)
  {
    var r := EditKey(cfg, opts, e, sym, chars, lead).1;
    match sym
    case Delete =>
      if e.cursor < |e.text| {
        BackspaceKeepsWF(cfg, opts, e.(cursor := NextRune(e.text, e.cursor)));
      }
    case BackSpace => BackspaceKeepsWF(cfg, opts, e);
    case Tab =>
      CopyFirstKeepsWF(cfg, opts, e);
    case Left =>
      CursorKeepsWF(cfg, opts, e, r.cursor);
    case Right =>
      CursorKeepsWF(cfg, opts, e, r.cursor);
    case Home =>
      CursorKeepsWF(cfg, opts, e, 0);
    case End =>
      CursorKeepsWF(cfg, opts, e, |e.text|);
    case _ =>
      if !cfg.isCntrl(lead) {
        InsertKeepsWF(cfg, opts, e, chars);
      }
  }

  /** The navigation switch and the `-a` check keep the invariant. */
  lemma NavigateKeepsWF(cfg: Config, opts: seq<seq<byte>>, e: Editor, sym: KeySym)
    requires WF(cfg, opts, e)
    ensures WF(cfg, opts, NavigateKey(cfg, opts, e, sym).1)
  {
  }

  /** Every event keeps the invariant: the text stays a C string that fits
      the buffer, the cursor stays inside it, and the valid list stays in
      option order and consistent with the text, with the selection on it. */
  lemma StepKeepsWF(cfg: Config, opts: seq<seq<byte>>, e: Editor, ev: Event)
    requires KeyWF(ev) && WF(cfg, opts, e)
    ensures WF(cfg, opts, Step(cfg, opts, e, ev).1)
  {
    if ev.Key? {
      var sym := if ev.control then ControlRemap(ev.sym) else ev.sym;
      var cut := if ev.control && ev.sym == Latin('k') then ControlCut(cfg, opts, e) else e;
      if cfg.inputBar {
        var edited := EditKey(cfg, opts, cut, sym, ev.chars, ev.lead);
        EditKeyKeepsWF(cfg, opts, cut, sym, ev.chars, ev.lead);
        if edited.0 == Running {
          NavigateKeepsWF(cfg, opts, edited.1, sym);
        }
      } else {
        NavigateKeepsWF(cfg, opts, cut, sym);
      }
    }
  }

  /** At start-up every option is valid, in the order read, and the first
      one is selected. */
  lemma InitialState(cfg: Config, opts: seq<seq<byte>>)
    requires OptionsFit(cfg, opts) && cfg.maxLen > 0 && cfg.isCntrl(0)
    ensures WF(cfg, opts, Initial(opts))
    ensures Initial(opts).valid == seq(|opts|, k => k)
  {
    FilterEmptyText(opts);
  }

  // ---------------------------------------------------------------------
  // The cursor stays between runes

  /** The text starts with a rune and the cursor sits between two runes. */
  predicate OnRune(e: Editor) {
    StartsRune(e.text) && AtBoundary(e.text, e.cursor)
  }

  predicate OptionsStartRunes(opts: seq<seq<byte>>) {
    forall k :: 0 <= k < |opts| ==> StartsRune(opts[k])
  }

  /** Typing bytes that start with a rune leaves the cursor after them,
      on the rune that followed it. */
  lemma InsertKeepsRunes(cfg: Config, e: Editor, chars: seq<byte>)
    requires e.cursor <= |e.text| && OnRune(e) && StartsRune(chars)
    ensures OnRune(InsertChars(cfg, e, chars))
  {
    var r := InsertChars(cfg, e, chars);
    if !Rejects(|e.text|, |chars|, cfg.maxLen) && r.cursor < |r.text| {
      assert r.text[r.cursor] == r.text[r.cursor..][0] == e.text[e.cursor];
      if e.cursor == 0 && chars == [] {
        assert r.text[0] == e.text[0];
      }
      if r.text != [] {
        assert r.text[0] == if e.cursor > 0 then e.text[0] else if chars != [] then chars[0] else e.text[0];
      }
    } else if !Rejects(|e.text|, |chars|, cfg.maxLen) && r.text != [] {
      assert r.text[0] == if e.cursor > 0 then e.text[0] else chars[0];
    }
  }

  /** Backspace from a cursor between runes cuts a whole rune and leaves
      the cursor between runes. */
  lemma BackspaceKeepsRunes(opts: seq<seq<byte>>, e: Editor)
    requires e.cursor <= |e.text| && OnRune(e)
    ensures OnRune(Backspace(opts, e).1)
  {
    if e.cursor > 0 {
      var p := PrevRune(e.text, e.cursor);
      var t := e.text[..p] + e.text[e.cursor..];
      if p < |t| {
        assert t[p] == e.text[e.cursor];
      }
      if t != [] {
        assert t[0] == if p > 0 then e.text[0] else e.text[e.cursor];
      }
    }
  }

  /** Delete from a cursor between runes cuts the rune after it. */
  lemma DeleteKeepsRunes(cfg: Config, opts: seq<seq<byte>>, e: Editor, chars: seq<byte>, lead: byte)
    requires WF(cfg, opts, e) && OnRune(e)
    ensures OnRune(EditKey(cfg, opts, e, Delete, chars, lead).1)
  {
    if e.cursor < |e.text| {
      var right := e.(cursor := NextRune(e.text, e.cursor));
      BackspaceKeepsRunes(opts, right);
      assert EditKey(cfg, opts, e, Delete, chars, lead) == Backspace(opts, right);
    }
  }

  /** A key of the default case inserts bytes that start with a rune, or
      nothing. */
  lemma TypeKeepsRunes(cfg: Config, opts: seq<seq<byte>>, e: Editor, sym: KeySym, chars: seq<byte>, lead: byte)
    requires WF(cfg, opts, e) && OnRune(e) && StartsRune(chars)
    requires sym.Latin? || sym.OtherKey? || sym == Up || sym == Down || sym == Return || sym == Escape
    ensures OnRune(EditKey(cfg, opts, e, sym, chars, lead).1)
  {
    if !cfg.isCntrl(lead) {
      var typed := InsertChars(cfg, e, chars);
      InsertKeepsRunes(cfg, e, chars);
      assert EditKey(cfg, opts, e, sym, chars, lead) == (Running, Refilter(opts, typed));
    }
  }

  /** Every edit key keeps the text starting with a rune and the cursor
      between runes, given options and typed bytes that start with runes. */
  lemma EditKeyKeepsRunes(cfg: Config, opts: seq<seq<byte>>, e: Editor, sym: KeySym, chars: seq<byte>, lead: byte)
    requires WF(cfg, opts, e) && OnRune(e)
    requires OptionsStartRunes(opts) && StartsRune(chars)
    ensures OnRune(EditKey(cfg, opts, e, sym, chars, lead).1)
  {
    match sym
    case Delete => DeleteKeepsRunes(cfg, opts, e, chars, lead);
    case BackSpace => BackspaceKeepsRunes(opts, e);
    case Tab =>
      if e.valid != [] {
        assert StartsRune(opts[e.valid[e.sel]]);
      }
    case Left =>
    case Right =>
    case Home =>
    case End =>
    case _ => TypeKeepsRunes(cfg, opts, e, sym, chars, lead);
  }

  /** Every event keeps the text starting with a rune and the cursor between
      runes, when the options and the typed bytes start with runes. */
  lemma StepKeepsRunes(cfg: Config, opts: seq<seq<byte>>, e: Editor, ev: Event)
    requires KeyWF(ev) && WF(cfg, opts, e) && OnRune(e)
    requires OptionsStartRunes(opts) && (ev.Key? ==> StartsRune(ev.chars))
    ensures OnRune(Step(cfg, opts, e, ev).1)
  {
    if ev.Key? {
      var sym := if ev.control then ControlRemap(ev.sym) else ev.sym;
      var cut := if ev.control && ev.sym == Latin('k') then ControlCut(cfg, opts, e) else e;
      if cut != e && cut.text != [] {
        assert cut.text[0] == e.text[0];
      }
      if cfg.inputBar {
        EditKeyKeepsRunes(cfg, opts, cut, sym, ev.chars, ev.lead);
      }
    }
  }

  // ---------------------------------------------------------------------
  // Single keys and buttons

  /** Backspace with the cursor at the start of the text ends the program
      with status 0 and prints nothing. */
  lemma BackspaceAtStartExits(cfg: Config, opts: seq<seq<byte>>, e: Editor, chars: seq<byte>, lead: byte)
    requires WF(cfg, opts, e) && KeyWF(Key(BackSpace, false, chars, lead))
    requires cfg.inputBar && e.cursor == 0
    ensures KeyStep(cfg, opts, e, Key(BackSpace, false, chars, lead)).0 == Exited(0)
  {
  }

  /** What a key that recomputed the list leaves: a crash in `render()` when
      the list came out empty, a finish with its only entry under `-a`, and
      otherwise a running program. */
  function AfterRefilter(cfg: Config, opts: seq<seq<byte>>, v: seq<nat>): Outcome
    requires forall k :: 0 <= k < |v| ==> v[k] < |opts|
  {
    if v == [] then Crashed
    else if cfg.exitOnOne && |v| == 1 then Printed(opts[v[0]])
    else Running
  }

  /** Backspace elsewhere cuts out the bytes from the previous rune start
      to the cursor (one lead byte and its continuation bytes), leaves the
      cursor where they began, recomputes the list and selects its head. */
  lemma BackspaceCutsRune(cfg: Config, opts: seq<seq<byte>>, e: Editor, chars: seq<byte>, lead: byte)
    requires WF(cfg, opts, e) && KeyWF(Key(BackSpace, false, chars, lead))
    requires cfg.inputBar && e.cursor > 0
    ensures var p := PrevRune(e.text, e.cursor);
      var r := KeyStep(cfg, opts, e, Key(BackSpace, false, chars, lead));
      && r.1.text == e.text[..p] + e.text[e.cursor..]
      && r.1.cursor == p
      && (forall k :: p < k < e.cursor ==> IsContinuation(e.text[k]))
      && r.1.valid == Filter(r.1.text, opts) && r.1.sel == 0
      && r.0 == AfterRefilter(cfg, opts, r.1.valid)
  {
    var p := PrevRune(e.text, e.cursor);
    var cut := Refilter(opts, e.(text := e.text[..p] + e.text[e.cursor..], cursor := p));
    BackspaceKeepsWF(cfg, opts, e);
    assert EditKey(cfg, opts, e, BackSpace, chars, lead) == (Running, cut);
  }

  /** Delete on a rune boundary inside the text cuts out the rune after the
      cursor and leaves the cursor where it was. */
  lemma DeleteCutsRune(cfg: Config, opts: seq<seq<byte>>, e: Editor, chars: seq<byte>, lead: byte)
    requires WF(cfg, opts, e) && KeyWF(Key(Delete, false, chars, lead))
    requires cfg.inputBar && e.cursor < |e.text| && AtBoundary(e.text, e.cursor)
    ensures var r := KeyStep(cfg, opts, e, Key(Delete, false, chars, lead));
      && r.1.text == e.text[..e.cursor] + e.text[NextRune(e.text, e.cursor)..]
      && r.1.cursor == e.cursor
      && r.1.valid == Filter(r.1.text, opts) && r.1.sel == 0
      && r.0 == AfterRefilter(cfg, opts, r.1.valid)
  {
    var right := e.(cursor := NextRune(e.text, e.cursor));
    LeftUndoesRight(e.text, e.cursor);
    BackspaceKeepsWF(cfg, opts, right);
    assert EditKey(cfg, opts, e, Delete, chars, lead) == Backspace(opts, right);
  }

  /** Delete at the end of the text changes nothing; only the `-a` check
      and `render()` run. */
  lemma DeleteAtEndKeepsState(cfg: Config, opts: seq<seq<byte>>, e: Editor, chars: seq<byte>, lead: byte)
    requires WF(cfg, opts, e) && KeyWF(Key(Delete, false, chars, lead))
    requires cfg.inputBar && e.cursor == |e.text|
    ensures KeyStep(cfg, opts, e, Key(Delete, false, chars, lead)) == Render(AutoExit(cfg, opts, e))
    ensures KeyStep(cfg, opts, e, Key(Delete, false, chars, lead)).1 == e
  {
  }

  /** Left, Right, Home and End move only the cursor, and from a rune
      boundary to a rune boundary. */
  lemma CursorKeysMoveOnlyCursor(cfg: Config, opts: seq<seq<byte>>, e: Editor, sym: KeySym, chars: seq<byte>, lead: byte)
    requires WF(cfg, opts, e) && KeyWF(Key(sym, false, chars, lead))
    requires cfg.inputBar && sym in {Left, Right, Home, End}
    ensures var r := KeyStep(cfg, opts, e, Key(sym, false, chars, lead));
      && r.1.text == e.text && r.1.valid == e.valid && r.1.sel == e.sel
      && (AtBoundary(e.text, e.cursor) ==> AtBoundary(r.1.text, r.1.cursor))
      && (sym == Home ==> r.1.cursor == 0)
      && (sym == End ==> r.1.cursor == |e.text|)
      && (sym == Left ==> r.1.cursor <= e.cursor && (e.cursor > 0 ==> r.1.cursor < e.cursor))
      && (sym == Right ==> r.1.cursor >= e.cursor && (e.cursor < |e.text| ==> r.1.cursor > e.cursor))
  {
  }

  /** From a rune boundary, Left undoes Right and Right undoes Left. */
  lemma LeftRightInverse(cfg: Config, opts: seq<seq<byte>>, e: Editor, chars: seq<byte>, lead: byte)
    requires WF(cfg, opts, e) && KeyWF(Key(Left, false, chars, lead)) && KeyWF(Key(Right, false, chars, lead))
    requires cfg.inputBar && AtBoundary(e.text, e.cursor)
    ensures e.cursor < |e.text| ==>
      var right := e.(cursor := NextRune(e.text, e.cursor));
      && KeyStep(cfg, opts, e, Key(Right, false, chars, lead)).1 == right
      && KeyStep(cfg, opts, right, Key(Left, false, chars, lead)).1 == e
    ensures e.cursor > 0 ==>
      var left := e.(cursor := PrevRune(e.text, e.cursor));
      && KeyStep(cfg, opts, e, Key(Left, false, chars, lead)).1 == left
      && KeyStep(cfg, opts, left, Key(Right, false, chars, lead)).1 == e
  {
    if e.cursor < |e.text| {
      LeftUndoesRight(e.text, e.cursor);
    }
    if e.cursor > 0 {
      RightUndoesLeft(e.text, e.cursor);
    }
  }

  /** Up and Down move only the selection, one entry back or forward with
      wrap-around, when the key's looked-up byte is a control character or
      the input bar is off; Down then Up, and Up then Down, come back. */
  lemma UpDownMoveSelection(cfg: Config, opts: seq<seq<byte>>, e: Editor, chars: seq<byte>, lead: byte)
    requires WF(cfg, opts, e) && KeyWF(Key(Up, false, chars, lead)) && e.valid != []
    requires !cfg.inputBar || cfg.isCntrl(lead)
    ensures var up := KeyStep(cfg, opts, e, Key(Up, false, chars, lead)).1;
      up == e.(sel := Retreat(e.sel, |e.valid|))
      && KeyStep(cfg, opts, up, Key(Down, false, chars, lead)).1 == e
    ensures var down := KeyStep(cfg, opts, e, Key(Down, false, chars, lead)).1;
      down == e.(sel := Advance(e.sel, |e.valid|))
      && KeyStep(cfg, opts, down, Key(Up, false, chars, lead)).1 == e
  {
    RetreatUndoesAdvance(e.sel, |e.valid|);
  }

  /** Up or Down with an empty valid list dereferences the NULL selection. */
  lemma NavigateEmptyListCrashes(cfg: Config, opts: seq<seq<byte>>, e: Editor, sym: KeySym, chars: seq<byte>, lead: byte)
    requires WF(cfg, opts, e) && KeyWF(Key(sym, false, chars, lead)) && e.valid == []
    requires sym == Up || sym == Down
    requires !cfg.inputBar || cfg.isCntrl(lead)
    ensures KeyStep(cfg, opts, e, Key(sym, false, chars, lead)).0 == Crashed
    ensures ButtonStep(cfg, opts, e, 4).0 == Crashed && ButtonStep(cfg, opts, e, 5).0 == Crashed
  {
  }

  /** Up and Down look up no bytes, so the iscntrl test reads whatever the
      lookup buffer happens to hold; when that is printable, the key first
      takes the insertion path: nothing is inserted, but the list is
      recomputed and its head selected before the selection moves. */
  lemma ArrowAfterPrintableRestartsSelection(cfg: Config, opts: seq<seq<byte>>, e: Editor, lead: byte)
    requires WF(cfg, opts, e) && cfg.inputBar && !cfg.isCntrl(lead)
    requires Filter(e.text, opts) != []
    ensures var r := KeyStep(cfg, opts, e, Key(Down, false, [], lead));
      && r.1.text == e.text && r.1.cursor == e.cursor
      && r.1.valid == Filter(e.text, opts)
      && r.1.sel == Advance(0, |r.1.valid|)
      && (!cfg.exitOnOne ==> r.0 == Running)
  {
    assert e.text[..e.cursor] + [] + e.text[e.cursor..] == e.text;
  }

  /** Tab puts the selected option in place of the text with the cursor at
      its end; that option stays in the recomputed list, whose head is
      selected, so `render()` finds a list. With an empty list Tab changes
      nothing, and `render()` then dereferences NULL. */
  lemma TabCompletes(cfg: Config, opts: seq<seq<byte>>, e: Editor, chars: seq<byte>, lead: byte)
    requires WF(cfg, opts, e) && KeyWF(Key(Tab, false, chars, lead)) && cfg.inputBar
    ensures var r := KeyStep(cfg, opts, e, Key(Tab, false, chars, lead));
      if e.valid == [] then r == (Crashed, e)
      else
        && r.1.text == opts[e.valid[e.sel]] && r.1.cursor == |r.1.text|
        && e.valid[e.sel] in r.1.valid && r.1.sel == 0
        && r.0 == AfterRefilter(cfg, opts, r.1.valid) && r.0 != Crashed
  {
    var completed := CopyFirst(cfg, opts, e);
    EditKeyKeepsWF(cfg, opts, e, Tab, chars, lead);
    assert EditKey(cfg, opts, e, Tab, chars, lead) == (Running, completed);
  }

  /** Typing a printable key splices its bytes in at the cursor and moves
      the cursor past them, unless the text and its terminator would no
      longer fit; either way the list is recomputed from the text and its
      head selected, and `render()` crashes when no option matches. Typing
      at the end of the text can only narrow the list. */
  lemma TypingInserts(cfg: Config, opts: seq<seq<byte>>, e: Editor, sym: KeySym, chars: seq<byte>, lead: byte)
    requires WF(cfg, opts, e) && KeyWF(Key(sym, false, chars, lead)) && cfg.inputBar
    requires sym.Latin? || sym.OtherKey?
    requires !cfg.isCntrl(lead)
    ensures var r := KeyStep(cfg, opts, e, Key(sym, false, chars, lead));
      && (if |e.text| + |chars| < cfg.maxLen
          then r.1.text == e.text[..e.cursor] + chars + e.text[e.cursor..] && r.1.cursor == e.cursor + |chars|
          else r.1.text == e.text && r.1.cursor == e.cursor)
      && r.1.valid == Filter(r.1.text, opts) && r.1.sel == 0
      && r.0 == AfterRefilter(cfg, opts, r.1.valid)
      && (e.cursor == |e.text| ==> forall i :: i in r.1.valid ==> i in Filter(e.text, opts))
  {
    var typed := Refilter(opts, InsertChars(cfg, e, chars));
    assert NulFree(chars);
    InsertKeepsWF(cfg, opts, e, chars);
    assert EditKey(cfg, opts, e, sym, chars, lead) == (Running, typed);
    var r := KeyStep(cfg, opts, e, Key(sym, false, chars, lead)).1;
    assert r == typed;
    if e.cursor == |e.text| {
      assert e.text <= r.text by {
        if |e.text| + |chars| < cfg.maxLen {
          assert r.text == e.text + chars + [];
        }
      }
      forall i | i in r.valid ensures i in Filter(e.text, opts) {
        FilterNarrows(e.text, r.text, opts, i);
      }
    }
  }

  /** Return prints the selected option under `-c` or `-a` when the list is
      not empty and the typed text otherwise, and exits with status 0;
      buttons 1 to 3 do the same. Escape exits with status 1 and prints
      nothing. */
  lemma ReturnAndEscape(cfg: Config, opts: seq<seq<byte>>, e: Editor, chars: seq<byte>, lead: byte)
    requires WF(cfg, opts, e) && KeyWF(Key(Return, false, chars, lead))
    requires !cfg.inputBar || cfg.isCntrl(lead)
    ensures var line := if (cfg.completeOnExit || cfg.exitOnOne) && e.valid != [] then opts[e.valid[e.sel]] else e.text;
      && KeyStep(cfg, opts, e, Key(Return, false, chars, lead)).0 == Printed(line)
      && (forall b :: 1 <= b <= 3 ==> ButtonStep(cfg, opts, e, b).0 == Printed(line))
    ensures KeyStep(cfg, opts, e, Key(Escape, false, chars, lead)).0 == Exited(1)
  {
  }

  /** With `-a`, a key never leaves the program running with exactly one
      entry from the selection to the end of the valid list. */
  lemma ExitOnOneAfterEveryKey(cfg: Config, opts: seq<seq<byte>>, e: Editor, ev: Event)
    requires WF(cfg, opts, e) && ev.Key? && KeyWF(ev) && cfg.exitOnOne
    ensures var r := KeyStep(cfg, opts, e, ev);
      r.0 == Running ==> CountFromSelection(r.1) != 1
  {
  }

  /** The `-a` check counts from the selection, not from the head: moving
      the selection down onto the last of several matches finishes with
      that match. */
  lemma DownOntoLastFinishes(cfg: Config, opts: seq<seq<byte>>, e: Editor, chars: seq<byte>, lead: byte)
    requires WF(cfg, opts, e) && KeyWF(Key(Down, false, chars, lead))
    requires cfg.exitOnOne && (!cfg.inputBar || cfg.isCntrl(lead))
    requires |e.valid| >= 2 && e.sel == |e.valid| - 2
    ensures KeyStep(cfg, opts, e, Key(Down, false, chars, lead)).0 == Printed(opts[e.valid[|e.valid| - 1]])
  {
  }

  /** The scroll wheel skips the `-a` check: scrolling onto the last of
      several matches leaves the program running. */
  lemma ScrollSkipsExitOnOne(cfg: Config, opts: seq<seq<byte>>, e: Editor)
    requires WF(cfg, opts, e) && cfg.exitOnOne
    requires |e.valid| >= 2 && e.sel == |e.valid| - 2
    ensures var r := ButtonStep(cfg, opts, e, 5);
      r.0 == Running && CountFromSelection(r.1) == 1
  {
  }

  /** Control with a, e, p, n, f, b or d acts exactly as Home, End, Up,
      Down, Right, Left or Delete. */
  lemma ControlBindings(cfg: Config, opts: seq<seq<byte>>, e: Editor, c: char, chars: seq<byte>, lead: byte)
    requires WF(cfg, opts, e) && KeyWF(Key(Latin(c), true, chars, lead))
    requires c in "aepnfbd"
    ensures var named := if c == 'a' then Home else if c == 'e' then End else if c == 'p' then Up
        else if c == 'n' then Down else if c == 'f' then Right else if c == 'b' then Left else Delete;
      KeyStep(cfg, opts, e, Key(Latin(c), true, chars, lead)) == KeyStep(cfg, opts, e, Key(named, false, chars, lead))
  {
  }

  /** Control-k cuts the text at the cursor; when the key looks up a
      control character the list is not recomputed, so it can miss options
      that the shorter text now matches. */
  lemma ControlKCuts(cfg: Config, opts: seq<seq<byte>>, e: Editor, chars: seq<byte>, lead: byte)
    requires WF(cfg, opts, e) && KeyWF(Key(Latin('k'), true, chars, lead))
    requires !cfg.inputBar || cfg.isCntrl(lead)
    ensures var r := KeyStep(cfg, opts, e, Key(Latin('k'), true, chars, lead)).1;
      r == e.(text := e.text[..e.cursor])
  {
  }

  /** Control-Space looks up the single byte NUL. It is a control
      character, so nothing is inserted and the list is not recomputed:
      the key acts as a key that types nothing. */
  lemma NulKeyInsertsNothing(cfg: Config, opts: seq<seq<byte>>, e: Editor, sym: KeySym)
    requires WF(cfg, opts, e) && (sym.Latin? || sym.OtherKey?)
    requires sym.Latin? ==> sym.letter !in "aepnfbdk"
    ensures KeyStep(cfg, opts, e, Key(sym, true, [0], 0)) == Render(AutoExit(cfg, opts, e))
  {
  }

  // ---------------------------------------------------------------------
  // Sessions with the options `apple`, `apply` and `banana`

  /** A key that types the single byte `b`. */
  function Typed(b: byte): Event {
    Key(OtherKey(0), false, [b], b)
  }

  function Fruits(): seq<seq<byte>> {
    [[97, 112, 112, 108, 101], [97, 112, 112, 108, 121], [98, 97, 110, 97, 110, 97]]
  }

  /** The valid list of one option, ... */
  lemma FilterOfOne(t: seq<byte>, a: seq<byte>)
    ensures Filter(t, [a]) == if t <= a then [0] else []
  {
    FilterAppend(t, [], a);
    assert [] + [a] == [a];
  }

  /** ... of two options, ... */
  lemma FilterOfTwo(t: seq<byte>, a: seq<byte>, b: seq<byte>)
    ensures Filter(t, [a, b]) == (if t <= a then [0] else []) + (if t <= b then [1] else [])
  {
    FilterOfOne(t, a);
    FilterAppend(t, [a], b);
    assert [a] + [b] == [a, b];
  }

  /** ... and of three options, one test at a time. */
  lemma FilterOfThree(t: seq<byte>, a: seq<byte>, b: seq<byte>, c: seq<byte>)
    ensures Filter(t, [a, b, c]) ==
      (if t <= a then [0] else []) + (if t <= b then [1] else []) + (if t <= c then [2] else [])
  {
    FilterOfTwo(t, a, b);
    FilterAppend(t, [a, b], c);
    assert [a, b] + [c] == [a, b, c];
  }

  /** Typing a printable byte at the end of the text appends it; with `-a`
      it finishes when a single option is left, and `render()` crashes when
      none is. */
  lemma TypeAtEnd(cfg: Config, opts: seq<seq<byte>>, e: Editor, b: byte)
    requires WF(cfg, opts, e) && cfg.inputBar && !cfg.isCntrl(b)
    requires e.cursor == |e.text| && |e.text| + 1 < cfg.maxLen
    ensures var r := Step(cfg, opts, e, Typed(b));
      var v := Filter(e.text + [b], opts);
      && r.1 == Editor(e.text + [b], |e.text| + 1, v, 0)
      && r.0 == AfterRefilter(cfg, opts, v)
  {
    assert e.text[..e.cursor] + [b] + e.text[e.cursor..] == e.text + [b];
    var typed := Refilter(opts, InsertChars(cfg, e, [b]));
    assert typed == Editor(e.text + [b], |e.text| + 1, Filter(e.text + [b], opts), 0);
    assert EditKey(cfg, opts, e, OtherKey(0), [b], b) == (Running, typed);
    EditKeyKeepsWF(cfg, opts, e, OtherKey(0), [b], b);
    assert KeyStep(cfg, opts, e, Typed(b)) == Render(NavigateKey(cfg, opts, typed, OtherKey(0)));
  }

  /** Typing the first `n` bytes of `apple` keeps `apple`, and `apply`
      too until the fifth byte. */
  lemma FruitFilter(n: nat)
    requires n <= 5
    ensures Filter(Fruits()[0][..n], Fruits()) == if n == 0 then [0, 1, 2] else if n < 5 then [0, 1] else [0]
  {
    var f := Fruits();
    var t := f[0][..n];
    FilterOfThree(t, f[0], f[1], f[2]);
    assert t <= f[0];
    if n < 5 {
      assert f[1][..n] == t;
    } else {
      assert t[4] != f[1][4];
    }
    if n > 0 {
      assert t[0] != f[2][0];
    }
  }

  lemma FruitsFit(cfg: Config)
    requires cfg.maxLen > 6
    ensures OptionsFit(cfg, Fruits())
  {
  }

  /** The state after typing the first `n` bytes of `apple` from the
      start (`TypedApple(0)` is the initial state). */
  function TypedApple(n: nat): (r: Editor)
    requires n <= 5
    ensures n == 0 ==> r == Initial(Fruits())
    ensures r.valid == if n == 0 then [0, 1, 2] else if n < 5 then [0, 1] else [0]
  {
    var t := Fruits()[0][..n];
    FruitFilter(n);
    assert n == 0 ==> t == [];
    Editor(t, n, Filter(t, Fruits()), 0)
  }

  lemma TypedAppleWF(cfg: Config, n: nat)
    requires n <= 5 && cfg.maxLen > 6 && cfg.isCntrl(0)
    ensures WF(cfg, Fruits(), TypedApple(n))
  {
    FruitsFit(cfg);
    FruitFilter(n);
  }

  /** The step TypeAtEnd describes, from a state whose list was computed
      from its text, to the state whose text is `u`. */
  lemma AppendStep(cfg: Config, opts: seq<seq<byte>>, t: seq<byte>, b: byte, u: seq<byte>)
    requires WF(cfg, opts, Editor(t, |t|, Filter(t, opts), 0))
    requires cfg.inputBar && !cfg.isCntrl(b) && |t| + 1 < cfg.maxLen && u == t + [b]
    ensures Step(cfg, opts, Editor(t, |t|, Filter(t, opts), 0), Typed(b)) ==
      (AfterRefilter(cfg, opts, Filter(u, opts)), Editor(u, |u|, Filter(u, opts), 0))
  {
    TypeAtEnd(cfg, opts, Editor(t, |t|, Filter(t, opts), 0), b);
  }

  /** The outcome of typing byte `n` of `apple`: only the fifth byte leaves
      a single option, so only it finishes, and only under `-a`. */
  lemma AppleOutcome(cfg: Config, n: nat)
    requires n < 5
    ensures AfterRefilter(cfg, Fruits(), TypedApple(n + 1).valid) ==
      if cfg.exitOnOne && n == 4 then Printed(Fruits()[0]) else Running
  {
    var v := TypedApple(n + 1).valid;
    assert v != [] && (|v| == 1 <==> n == 4) && v[0] == 0;
  }

  /** Typing `apple` byte by byte from the initial state: each byte is
      appended and `apple` and `apply` stay valid until the fifth, which
      leaves `apple` alone; under `-a` that byte finishes with `apple`, and
      no earlier byte does. */
  lemma ScenarioTypeApple(cfg: Config, n: nat)
    requires n < 5 && cfg.inputBar && cfg.maxLen > 6 && cfg.isCntrl(0) && !cfg.isCntrl(Fruits()[0][n])
    ensures WF(cfg, Fruits(), TypedApple(n))
    ensures Step(cfg, Fruits(), TypedApple(n), Typed(Fruits()[0][n])) ==
      (if cfg.exitOnOne && n == 4 then Printed(Fruits()[0]) else Running, TypedApple(n + 1))
  {
    var apple := Fruits()[0];
    TypedAppleWF(cfg, n);
    assert apple[..n] + [apple[n]] == apple[..n + 1];
    AppendStep(cfg, Fruits(), apple[..n], apple[n], apple[..n + 1]);
    AppleOutcome(cfg, n);
  }

  lemma TypedApp(cfg: Config)
    requires cfg.maxLen > 6 && cfg.isCntrl(0)
    ensures TypedApple(3) == Editor([97, 112, 112], 3, [0, 1], 0)
    ensures WF(cfg, Fruits(), TypedApple(3))
  {
    FruitFilter(3);
    assert Fruits()[0][..3] == [97, 112, 112];
    TypedAppleWF(cfg, 3);
  }

  /** After `app`, Down (whose lookup writes nothing; say the buffer still
      holds a printable byte) selects `apply`, ... */
  lemma ScenarioDownAfterApp(cfg: Config)
    requires cfg.inputBar && !cfg.exitOnOne && cfg.maxLen > 6 && cfg.isCntrl(0) && !cfg.isCntrl(112)
    ensures WF(cfg, Fruits(), TypedApple(3))
    ensures Step(cfg, Fruits(), TypedApple(3), Key(Down, false, [], 112)) ==
      (Running, Editor([97, 112, 112], 3, [0, 1], 1))
  {
    TypedApp(cfg);
    ArrowAfterPrintableRestartsSelection(cfg, Fruits(), TypedApple(3), 112);
  }

  /** ... and Return without `-c` or `-a` then prints the typed text `app`,
      not the selected `apply`. */
  lemma ScenarioReturnAfterApp(cfg: Config)
    requires cfg.inputBar && !cfg.exitOnOne && !cfg.completeOnExit && cfg.maxLen > 6 && cfg.isCntrl(0) && cfg.isCntrl(13)
    ensures WF(cfg, Fruits(), Editor([97, 112, 112], 3, [0, 1], 1))
    ensures Step(cfg, Fruits(), Editor([97, 112, 112], 3, [0, 1], 1), Key(Return, false, [13], 13)).0 ==
      Printed([97, 112, 112])
  {
    TypedApp(cfg);
    ReturnAndEscape(cfg, Fruits(), Editor([97, 112, 112], 3, [0, 1], 1), [13], 13);
  }

  /** Typing, into the empty text, a printable byte that starts no option
      (`z`, say) empties the valid list, and the `render()` that ends
      handle_key dereferences NULL: the program crashes. */
  lemma ScenarioNoMatchCrashes(cfg: Config, b: byte)
    requires cfg.inputBar && cfg.maxLen > 6 && cfg.isCntrl(0) && !cfg.isCntrl(b)
    requires b != 97 && b != 98
    ensures Step(cfg, Fruits(), Initial(Fruits()), Typed(b)) == (Crashed, Editor([b], 1, [], 0))
  {
    var empty: seq<byte> := [];
    TypedAppleWF(cfg, 0);
    FruitsMiss(b);
    AppendStep(cfg, Fruits(), empty, b, [b]);
  }

  /** A byte that is neither `a` nor `b` starts none of the options. */
  lemma FruitsMiss(b: byte)
    requires b != 97 && b != 98
    ensures Filter([b], Fruits()) == []
  {
    var f := Fruits();
    FilterOfThree([b], f[0], f[1], f[2]);
    assert [b][0] != f[0][0] && [b][0] != f[1][0] && [b][0] != f[2][0];
  }

  /** Without options (`-e`) the first `render()` already dereferences
      NULL, before any event. (Empty input crashes earlier still, in
      `read_input`.) */
  lemma ScenarioNoOptions(opts: seq<seq<byte>>)
    requires |opts| == 0
    ensures Start(opts) == (Crashed, Editor([], 0, [], 0))
  {
  }
}
