/** nenu's editing state as the program keeps it: a fixed-size byte buffer
    holding the typed text as a C string, the cursor offset into it, the
    valid list and the selection, changed in place by the key and button
    handlers. Every handler is proved to do what the functions of module
    Handlers say it does. */
module Nenu {
  import opened Bytes
  import Runes
  import opened Filtering
  import opened Selection
  import opened Handlers

  class Session {
    /** The start-up settings and the lines read from standard input. */
    const cfg: Config
    const options: seq<seq<byte>>
    /** `text[MAX_LEN]`. */
    const text: array<byte>
    var cursor: nat
    /** The valid list, as positions in `options`, and the selection, a
        position in `valid`; together they stand for the `valid` pointer. */
    var valid: seq<nat>
    var sel: nat

    /** The buffer has `MAX_LEN` bytes and holds a C string. */
    ghost predicate Terminated()
      reads text
    {
      text.Length == cfg.maxLen && 0 in text[..]
    }

    /** The typed text: the buffer up to its first NUL. */
    ghost function Content(): seq<byte>
      reads text
      requires Terminated()
    {
      CString(text[..])
    }

    /** ... and the cursor lies within the text. */
    ghost predicate BufferOk()
      reads this`cursor, text
    {
      Terminated() && cursor <= |Content()|
    }

    /** The state seen through the functions of module Handlers. */
    ghost function Model(): Editor
      reads this, text
      requires BufferOk()
    {
      Editor(Content(), cursor, valid, sel)
    }

    ghost predicate Valid()
      reads this, text
    {
      BufferOk() && WF(cfg, options, Model())
    }

    /** The zeroed buffer of a fresh process, then the list computed by
        `read_input`'s call to `update_valid_options`. */
    constructor (cfg: Config, options: seq<seq<byte>>)
      requires OptionsFit(cfg, options) && cfg.maxLen > 0 && cfg.isCntrl(0)
      ensures Valid() && Model() == Initial(options)
    {
      this.cfg := cfg;
      this.options := options;
      text := new byte[cfg.maxLen](_ => 0);
      cursor := 0;
      valid := [];
      sel := 0;
      new;
      assert [] + [0] <= text[..];
      CStringOf(text[..], []);
      UpdateValidOptions();
    }

    /** `strlen(text)`. */
    method TextLength() returns (n: nat)
      requires BufferOk()
      ensures n == |Content()|
    {
      n := 0;
      while text[n] != 0
        invariant n <= |Content()|
        decreases |Content()| - n
      {
        n := n + 1;
      }
    }

    /** `nextrune(inc)`: from the cursor, step once in direction `inc` and
        then on over continuation bytes, stopping at offset 0 going left. */
    method NextRune(inc: int) returns (n: int)
      requires BufferOk()
      requires inc == 1 || inc == -1
      requires inc == 1 ==> cursor < |Content()|
      requires inc == -1 ==> cursor > 0
      ensures inc == 1 ==> n == Runes.NextRune(Content(), cursor)
      ensures inc == -1 ==> n == Runes.PrevRune(Content(), cursor)
    {
      ghost var t := Content();
      n := cursor + inc;
      while n + inc >= 0 && (text[n] as bv8) & 0xC0 == 0x80
        invariant inc == 1 ==> cursor < n <= |t| && forall k :: cursor < k < n ==> Runes.IsContinuation(t[k])
        invariant inc == -1 ==> 0 <= n < cursor && forall k :: n < k < cursor ==> Runes.IsContinuation(t[k])
        decreases if inc == 1 then |t| - n else n
      {
        Runes.ContinuationIsMasked(text[n]);
        n := n + inc;
      }
      if inc == 1 {
        Runes.ContinuationIsMasked(text[n]);
        Runes.NextRuneIsFirst(t, cursor, n);
      } else {
        if n > 0 {
          Runes.ContinuationIsMasked(text[n]);
        }
        Runes.PrevRuneIsLast(t, cursor, n);
      }
    }

    /** `memmove(&text[dst], &text[src], count)`. */
    method MemMove(dst: nat, src: nat, count: nat)
      requires dst + count <= text.Length && src + count <= text.Length
      modifies text
      ensures text[..] == Moved(old(text[..]), dst, src, count)
    {
      forall i | dst <= i < dst + count {
        text[i] := text[src + (i - dst)];
      }
    }

    /** `memcpy(&text[dst], str, |str|)`. */
    method MemCopy(dst: nat, str: seq<byte>)
      requires dst + |str| <= text.Length
      modifies text
      ensures text[..] == Copied(old(text[..]), dst, str)
    {
      forall i | dst <= i < dst + |str| {
        text[i] := str[i - dst];
      }
      assert text[..] == text[..dst] + text[dst..dst + |str|] + text[dst + |str|..];
    }

    /** `insert(str, n)`: for `n >= 0` make room for the `n` bytes of `str`
        at the cursor and copy them there, for `n < 0` shift the text from
        the cursor left over the `-n` bytes before it; the cursor moves by
        `n`. The edit is refused when the text and its terminator would no
        longer fit in the buffer. `Shift` states every byte of the buffer
        after the edit; this contract states the text it then holds. */
    method Insert(str: seq<byte>, n: int)
      requires BufferOk()
      requires n >= 0 ==> |str| == n && NulFree(str)
      requires n < 0 ==> str == [] && cursor + n >= 0
      modifies text, this`cursor
      ensures BufferOk()
      ensures old(Rejects(|Content()|, n, cfg.maxLen)) ==> text[..] == old(text[..]) && cursor == old(cursor)
      ensures !old(Rejects(|Content()|, n, cfg.maxLen)) ==>
        && cursor == old(cursor) + n
        && Content() == old(Content()[..cursor + if n < 0 then n else 0] + str + Content()[cursor..])
    {
      var len := TextLength();
      if len + n >= cfg.maxLen {
        return;
      }
      ghost var s := text[..];
      Shift(str, n);
      InsertEdits(s, old(cursor), str, n);
    }

    /** The part of `insert` past its capacity test: the memmove from the
        cursor, the memcpy of `str` for an insertion, and the cursor update. */
    method Shift(str: seq<byte>, n: int)
      requires text.Length == cfg.maxLen && cursor <= cfg.maxLen
      requires n >= 0 ==> |str| == n && cursor + n <= cfg.maxLen
      requires n < 0 ==> cursor + n >= 0
      modifies text, this`cursor
      ensures text[..] == RawInsert(old(text[..]), old(cursor), str, n)
      ensures cursor == old(cursor) + n
    {
      ghost var s := text[..];
      var c := cursor;
      var count: nat := cfg.maxLen - c - if n > 0 then n else 0;
      MemMove(c + n, c, count);
      ghost var moved := text[..];
      if n > 0 {
        MemCopy(c, str);
      }
      cursor := c + n;
      RawInsertMoveLength(s, c, str, n, count, moved);
    }

    /** The loop of `update_valid_options`: walk the options in order and
        keep those whose first `strlen(text)` bytes equal the text. */
    method Matches() returns (matches: seq<nat>)
      requires BufferOk() && OptionsFit(cfg, options)
      ensures matches == Filter(Content(), options)
    {
      var len := TextLength();
      ghost var t := Content();
      assert text[..len] == t;
      matches := [];
      var i := 0;
      while i < |options|
        invariant i <= |options|
        invariant matches == Filter(t, options[..i])
      {
        FilterStep(t, options, i);
        StrncmpIsPrefix(t, options[i]);
        if StrncmpEqual(text[..len], options[i], len) {
          matches := matches + [i];
        }
        i := i + 1;
      }
      assert options[..i] == options;
    }

    /** `update_valid_options`: the new list, with its head selected. */
    method UpdateValidOptions()
      requires BufferOk() && OptionsFit(cfg, options) && cfg.isCntrl(0)
      modifies this`valid, this`sel
      ensures valid == Filter(Content(), options) && sel == 0
      ensures Valid()
    {
      ghost var e := Model();
      RefilterKeepsWF(cfg, options, e);
      valid := Matches();
      sel := 0;
      assert Model() == Refilter(options, e);
    }

    /** Up, and the scroll wheel up: the previous entry, or a walk to the
        last entry from the first. */
    method MoveUp()
      requires valid != [] && sel < |valid|
      modifies this`sel
      ensures sel == Retreat(old(sel), |valid|)
    {
      if sel > 0 {
        sel := sel - 1;
      } else {
        while sel + 1 < |valid|
          invariant sel < |valid|
          decreases |valid| - sel
        {
          sel := sel + 1;
        }
      }
    }

    /** Down, and the scroll wheel down: the next entry, or a walk back to
        the first entry from the last. */
    method MoveDown()
      requires valid != [] && sel < |valid|
      modifies this`sel
      ensures sel == Advance(old(sel), |valid|)
    {
      if sel + 1 < |valid| {
        sel := sel + 1;
      } else {
        while sel > 0
          decreases sel
        {
          sel := sel - 1;
        }
      }
    }

    /** End: step right rune by rune until the terminator. */
    method MoveToEnd()
      requires BufferOk()
      modifies this`cursor
      ensures BufferOk() && cursor == |Content()|
    {
      while text[cursor] != 0
        invariant BufferOk()
        decreases |Content()| - cursor
      {
        cursor := NextRune(1);
      }
    }

    /** `copy_first`: copy the selected option into the buffer with its
        terminator, step the cursor (which is not reset) to the end of the
        copy, but no further than `MAX_LEN - 1`, and recompute the list. */
    method CopyFirst()
      requires Valid()
      modifies this, text
      ensures Valid() && Model() == Handlers.CopyFirst(cfg, options, old(Model()))
    {
      if valid != [] {
        var chosen := options[valid[sel]];
        forall i | 0 <= i < |chosen| {
          text[i] := chosen[i];
        }
        text[|chosen|] := 0;
        assert chosen + [0] <= text[..];
        CStringOf(text[..], chosen);
        while text[cursor] != 0 && cursor < cfg.maxLen - 1
          invariant BufferOk() && Content() == chosen
          decreases |chosen| - cursor
        {
          cursor := NextRune(1);
        }
        UpdateValidOptions();
      }
    }

    /** The Backspace case: exit with status 0 at offset 0, otherwise cut
        the bytes from the previous rune start to the cursor and recompute
        the list. */
    method Backspace() returns (outcome: Outcome)
      requires Valid()
      modifies this, text
      ensures Valid() && (outcome, Model()) == Handlers.Backspace(options, old(Model()))
    {
      if cursor == 0 {
        return Exited(0);
      }
      ghost var e := Model();
      CutRune();
      UpdateValidOptions();
      outcome := Running;
      assert Model() == Refilter(options, e.(text := Content(), cursor := cursor));
    }

    /** The cut of the Backspace case: the bytes from the previous rune start
        up to the cursor leave the text, and the cursor moves back over them. */
    method CutRune()
      requires Valid() && cursor > 0
      modifies text, this`cursor
      ensures BufferOk()
      ensures cursor == Runes.PrevRune(old(Content()), old(cursor))
      ensures Content() == old(Content())[..cursor] + old(Content())[old(cursor)..]
    {
      ghost var t, c := Content(), cursor;
      var p := NextRune(-1);
      Insert([], p - cursor);
      assert Content() == t[..p] + [] + t[c..];
    }

    /** The Delete case: nothing happens at the terminator; elsewhere the
        cursor steps right over one rune and the Backspace case follows. */
    method DeleteForward() returns (outcome: Outcome)
      requires Valid()
      modifies this, text
      ensures Valid()
      ensures (outcome, Model()) ==
        if old(cursor) == |old(Content())| then (Running, old(Model()))
        else Handlers.Backspace(options, old(Model()).(cursor := Runes.NextRune(old(Content()), old(cursor))))
    {
      outcome := Running;
      if text[cursor] != 0 {
        cursor := NextRune(1);
        outcome := Backspace();
      }
    }

    /** The Left case. */
    method MoveLeft()
      requires Valid()
      modifies this`cursor
      ensures Valid()
      ensures cursor == if old(cursor) != 0 then Runes.PrevRune(Content(), old(cursor)) else old(cursor)
    {
      if cursor != 0 {
        cursor := NextRune(-1);
      }
    }

    /** The Right case. */
    method MoveRight()
      requires Valid()
      modifies this`cursor
      ensures Valid()
      ensures cursor == if old(cursor) < |Content()| then Runes.NextRune(Content(), old(cursor)) else old(cursor)
    {
      if text[cursor] != 0 {
        cursor := NextRune(1);
      }
    }

    /** The default case: a key whose first looked-up byte is not a control
        character inserts its bytes and recomputes the list. */
    method TypeKey(chars: seq<byte>, lead: byte)
      requires Valid() && LookedUp(chars, lead)
      modifies this, text
      ensures Valid()
      ensures Model() == if cfg.isCntrl(lead) then old(Model()) else Refilter(options, InsertChars(cfg, old(Model()), chars))
    {
      if !cfg.isCntrl(lead) {
        assert NulFree(chars);
        Insert(chars, |chars|);
        UpdateValidOptions();
      }
    }

    /** The switch handle_key runs when the input bar is shown. */
    method EditKey(sym: KeySym, chars: seq<byte>, lead: byte) returns (outcome: Outcome)
      requires Valid() && LookedUp(chars, lead)
      modifies this, text
      ensures Valid() && (outcome, Model()) == Handlers.EditKey(cfg, options, old(Model()), sym, chars, lead)
    {
      if sym in {Left, Right, Home, End} {
        MoveCursor(sym, chars, lead);
        outcome := Running;
      } else {
        outcome := EditText(sym, chars, lead);
      }
    }

    /** The cases of the input-bar switch that change the text: Delete,
        BackSpace, Tab and the insertion of whatever else was typed. */
    method EditText(sym: KeySym, chars: seq<byte>, lead: byte) returns (outcome: Outcome)
      requires Valid() && LookedUp(chars, lead) && sym !in {Left, Right, Home, End}
      modifies this, text
      ensures Valid() && (outcome, Model()) == Handlers.EditKey(cfg, options, old(Model()), sym, chars, lead)
    {
      EditKeyKeepsWF(cfg, options, Model(), sym, chars, lead);
      if sym == Delete {
        outcome := DeleteForward();
      } else if sym == BackSpace {
        outcome := Backspace();
      } else if sym == Tab {
        CopyFirst();
        outcome := Running;
      } else {
        TypeKey(chars, lead);
        outcome := Running;
      }
    }

    /** The cursor-motion cases of the input-bar switch: Left, Right, Home
        and End move the cursor and change nothing else. */
    method MoveCursor(sym: KeySym, chars: seq<byte>, lead: byte)
      requires Valid() && sym in {Left, Right, Home, End}
      modifies this`cursor
      ensures Valid() && (Running, Model()) == Handlers.EditKey(cfg, options, old(Model()), sym, chars, lead)
    {
      ghost var e := Model();
      match sym
      case Left =>
        MoveLeft();
      case Right =>
        MoveRight();
      case Home =>
        cursor := 0;
      case End =>
        MoveToEnd();
      assert Model() == e.(cursor := cursor);
    }

    /** The number of entries from the selection to the end of the list. */
    method CountMatchesFromSelection() returns (n: nat)
      requires Valid()
      ensures n == CountFromSelection(Model())
    {
      n := 0;
      var node := sel;
      while node < |valid|
        invariant sel <= node <= |valid| || (valid == [] && node == 0)
        invariant n == node - sel
        decreases |valid| - node
      {
        n := n + 1;
        node := node + 1;
      }
    }

    /** `finish`'s choice of the line to print. */
    method Finish() returns (outcome: Outcome)
      requires Valid()
      ensures outcome == Printed(FinishLine(cfg, options, Model()))
    {
      if (cfg.completeOnExit || cfg.exitOnOne) && valid != [] {
        outcome := Printed(options[valid[sel]]);
      } else {
        var len := TextLength();
        outcome := Printed(text[..len]);
      }
    }

    /** The `-a` check at the end of handle_key: count the entries from
        the selection to the end of the list and finish when there is
        exactly one. */
    method ExitOnOne() returns (outcome: Outcome)
      requires Valid()
      ensures (outcome, Model()) == AutoExit(cfg, options, Model())
    {
      outcome := Running;
      if cfg.exitOnOne {
        var n := CountMatchesFromSelection();
        if n == 1 {
          outcome := Finish();
        }
      }
    }

    /** The switch handle_key runs whatever the input bar, then the `-a`
        check. */
    method Navigate(sym: KeySym) returns (outcome: Outcome)
      requires Valid()
      modifies this`sel
      ensures Valid() && (outcome, Model()) == NavigateKey(cfg, options, old(Model()), sym)
    {
      ghost var e := Model();
      NavigateKeepsWF(cfg, options, e, sym);
      if sym == Up || sym == Down {
        if valid == [] {
          return Crashed;
        }
        if sym == Up {
          MoveUp();
        } else {
          MoveDown();
        }
        assert Model() == e.(sel := if sym == Up then Retreat(e.sel, |e.valid|) else Advance(e.sel, |e.valid|));
      } else if sym == Return {
        outcome := Finish();
        return;
      } else if sym == Escape {
        return Exited(1);
      }
      outcome := ExitOnOne();
    }

    /** `render()`, as far as the editing state goes: render_options reads
        `valid->prev`, which dereferences NULL when the list is empty. */
    method Render() returns (outcome: Outcome)
      requires Valid()
      ensures (outcome, Model()) == Handlers.Render((Running, Model()))
    {
      outcome := Running;
      if valid == [] {
        outcome := Crashed;
      }
    }

    /** Control-K: a terminator at the cursor drops the rest of the line. */
    method KillToEnd()
      requires Valid()
      modifies text
      ensures Valid() && Model() == ControlCut(cfg, options, old(Model()))
    {
      ghost var cut := Content()[..cursor];
      text[cursor] := 0;
      assert cut + [0] <= text[..];
      CStringOf(text[..], cut);
    }

    /** handle_key, for a lookup that did not overflow. */
    method HandleKey(ev: Event) returns (outcome: Outcome)
      requires Valid() && ev.Key? && KeyWF(ev)
      modifies this, text
      ensures Valid() && (outcome, Model()) == KeyStep(cfg, options, old(Model()), ev)
    {
      var sym := ev.sym;
      if ev.control {
        sym := ControlRemap(ev.sym);
        if ev.sym == Latin('k') {
          KillToEnd();
        }
      }
      if cfg.inputBar {
        outcome := EditKey(sym, ev.chars, ev.lead);
        if outcome != Running {
          return;
        }
      }
      outcome := Navigate(sym);
      if outcome == Running {
        outcome := Render();
      }
    }

    /** handle_button. */
    method HandleButton(number: nat) returns (outcome: Outcome)
      requires Valid()
      modifies this`sel
      ensures Valid() && (outcome, Model()) == ButtonStep(cfg, options, old(Model()), number)
    {
      outcome := Running;
      if number == 4 || number == 5 {
        if valid == [] {
          return Crashed;
        }
        if number == 4 {
          MoveUp();
        } else {
          MoveDown();
        }
      } else if 1 <= number <= 3 {
        outcome := Finish();
        return;
      }
      outcome := Render();
    }

    /** One event of the main loop; a key whose lookup overflowed the buffer
        is dropped, and an Expose event redraws. */
    method HandleEvent(ev: Event) returns (outcome: Outcome)
      requires Valid() && KeyWF(ev)
      modifies this, text
      ensures Valid() && (outcome, Model()) == Step(cfg, options, old(Model()), ev)
    {
      match ev
      case KeyOverflow =>
        outcome := Running;
      case Key(_, _, _, _) =>
        outcome := HandleKey(ev);
      case Button(b) =>
        outcome := HandleButton(b);
      case Expose =>
        outcome := Render();
    }
  }
}
