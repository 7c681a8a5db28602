/** The outbound pump (`SendMessages`): reads console lines one by one and
    either stops, skips, runs a local command or sends the line as one text
    frame.  The process-wide `reconnect` flag is read after every line and
    cleared by the `exit` command; the interrupt handler may clear it from
    outside, which each read records as an input. */
module Outbound {
  import opened Wrappers
  import opened Text

  /** One console read: the line (`None` for a null line, as at end of
      input) and whether the interrupt handler had cleared `reconnect` by
      the time the loop looks at it. */
  datatype Read = Read(line: Option<string>, cleared: bool)

  /** How the pump treats one line, by its checks in order. */
  datatype Command = Skip | Exit | ShowMenu | Transmit(text: string)

  /** What the pump does that can be seen outside: a frame sent, or the
      main menu invoked. */
  datatype Outgoing = Send(text: string) | MenuShown

  /** Why the loop ended. */
  datatype Stop = Interrupted | ExitTyped | InputExhausted

  /** The form of a line compared with `showmenu`: lower-cased, trimmed and
      with every space deleted. */
  function MenuForm(line: string): string
  {
    Replace(Trim(ToLower(line)), " ", "")
  }

  function Interpret(line: Option<string>): Command
  {
    match line
    case None => Skip
    case Some(l) =>
      if ToLower(l) == "exit" then Exit
      else if MenuForm(l) == "showmenu" then ShowMenu
      else Transmit(l)
  }

  function Effect(c: Command): seq<Outgoing>
  {
    match c
    case Transmit(t) => [Send(t)]
    case ShowMenu => [MenuShown]
    case _ => []
  }

  /** The effects of a run of reads none of which ends the loop. */
  function Effects(rs: seq<Read>): seq<Outgoing>
  {
    if rs == [] then [] else Effects(rs[..|rs| - 1]) + Effect(Interpret(rs[|rs| - 1].line))
  }

  /** A read after which the loop ends: `reconnect` is found false, or the
      line is `exit`. */
  predicate Halts(r: Read, reconnect: bool)
  {
    !reconnect || r.cleared || Interpret(r.line) == Exit
  }

  /** The position of the read that ends the loop, or the number of reads
      when none does. */
  function HaltIndex(rs: seq<Read>, reconnect: bool): (n: nat)
    ensures n <= |rs|
    ensures forall k :: 0 <= k < n ==> !Halts(rs[k], reconnect)
    ensures n < |rs| ==> Halts(rs[n], reconnect)
  {
    if rs == [] || Halts(rs[0], reconnect) then 0 else 1 + HaltIndex(rs[1..], reconnect)
  }

  /** What a run of the pump comes to: what it sent or invoked, the
      flag's final value, how many reads it consumed and why it stopped. */
  datatype Outcome = Outcome(out: seq<Outgoing>, reconnectAfter: bool, consumed: nat, stop: Stop)

  /** The run of `SendMessages` over the reads `rs`, entered with
      `reconnect`: the reads before the halting one take effect, the
      halting read is consumed unsent, and `reconnect` stays set only if
      input runs out first. */
  function Pump(rs: seq<Read>, reconnect: bool): Outcome
  {
    var h := HaltIndex(rs, reconnect);
    Outcome(Effects(rs[..h]),
            reconnect && h == |rs|,
            if h < |rs| then h + 1 else |rs|,
            if h == |rs| then InputExhausted
            else if !reconnect || rs[h].cleared then Interrupted
            else ExitTyped)
  }

  /** `SendMessages` over the reads `rs`, entered with `reconnect`. */
  method SendLoop(rs: seq<Read>, reconnect: bool)
      returns (out: seq<Outgoing>, reconnectAfter: bool, consumed: nat, stop: Stop)
    ensures Outcome(out, reconnectAfter, consumed, stop) == Pump(rs, reconnect)
  {
    out, reconnectAfter, stop := [], reconnect, InputExhausted;
    var i := 0;
    while i < |rs|
      invariant 0 <= i <= HaltIndex(rs, reconnect)
      invariant out == Effects(rs[..i])
      invariant reconnectAfter == reconnect
    {
      var r := rs[i];
      if r.cleared {
        reconnectAfter := false;
      }
      if !reconnectAfter {
        consumed, stop := i + 1, Interrupted;
        return;
      }
      assert rs[..i + 1][..i] == rs[..i];
      match Interpret(r.line) {
        case Skip =>
        case Exit =>
          reconnectAfter := false;
          consumed, stop := i + 1, ExitTyped;
          return;
        case ShowMenu =>
          out := out + [MenuShown];
        case Transmit(t) =>
          out := out + [Send(t)];
      }
      i := i + 1;
    }
    consumed := i;
  }

  // ---------------------------------------------------------------------
  // Properties of the pump
  // ---------------------------------------------------------------------

  /** Reads contribute their effects in input order. */
  lemma {:induction false} EffectsAppend(a: seq<Read>, b: seq<Read>)
    ensures Effects(a + b) == Effects(a) + Effects(b)
    decreases |b|
  {
    if b != [] {
      var b' := b[..|b| - 1];
      assert (a + b)[..|a + b| - 1] == a + b';
      EffectsAppend(a, b');
    } else {
      assert a + b == a;
    }
  }

  /** The frames among a list of outgoing effects. */
  function Frames(out: seq<Outgoing>): seq<string>
  {
    if out == [] then []
    else (if out[|out| - 1].Send? then Frames(out[..|out| - 1]) + [out[|out| - 1].text]
          else Frames(out[..|out| - 1]))
  }

  /** The lines among the reads that are sent, in input order. */
  function SendableLines(rs: seq<Read>): seq<string>
  {
    if rs == [] then []
    else
      var r := rs[|rs| - 1];
      SendableLines(rs[..|rs| - 1])
        + (if r.line.Some? && ToLower(r.line.value) != "exit" && MenuForm(r.line.value) != "showmenu"
           then [r.line.value] else [])
  }

  lemma {:induction false} FramesAppend(a: seq<Outgoing>, b: seq<Outgoing>)
    ensures Frames(a + b) == Frames(a) + Frames(b)
    decreases |b|
  {
    if b != [] {
      var b' := b[..|b| - 1];
      assert (a + b)[..|a + b| - 1] == a + b';
      FramesAppend(a, b');
    } else {
      assert a + b == a;
    }
  }

  /** Exactly the lines that are neither null nor a command are sent, each
      once and in input order; in particular the empty line is sent. */
  lemma {:induction false} FramesAreSendableLines(rs: seq<Read>)
    ensures Frames(Effects(rs)) == SendableLines(rs)
    decreases |rs|
  {
    if rs != [] {
      var init := rs[..|rs| - 1];
      FramesAreSendableLines(init);
      var e := Effect(Interpret(rs[|rs| - 1].line));
      FramesAppend(Effects(init), e);
      match Interpret(rs[|rs| - 1].line)
      case Transmit(t) =>
        assert Frames(e) == Frames([]) + [t];
      case ShowMenu =>
        assert Frames(e) == Frames([]);
      case _ =>
    }
  }

  /** No command is ever transmitted. */
  lemma {:induction false} NoCommandSent(rs: seq<Read>)
    ensures forall k :: 0 <= k < |Frames(Effects(rs))| ==>
      ToLower(Frames(Effects(rs))[k]) != "exit" && MenuForm(Frames(Effects(rs))[k]) != "showmenu"
  {
    FramesAreSendableLines(rs);
    SendableLinesAreNotCommands(rs);
  }

  lemma {:induction false} SendableLinesAreNotCommands(rs: seq<Read>)
    ensures forall k :: 0 <= k < |SendableLines(rs)| ==>
      ToLower(SendableLines(rs)[k]) != "exit" && MenuForm(SendableLines(rs)[k]) != "showmenu"
    decreases |rs|
  {
    if rs != [] {
      SendableLinesAreNotCommands(rs[..|rs| - 1]);
    }
  }

  /** The loop sends nothing for a read that ends it and reads nothing
      after it: what follows the halting read has no effect. */
  lemma HaltIgnoresRest(rs: seq<Read>, reconnect: bool, more: seq<Read>)
    requires HaltIndex(rs, reconnect) < |rs|
    ensures HaltIndex(rs + more, reconnect) == HaltIndex(rs, reconnect)
  {
    var h := HaltIndex(rs, reconnect);
    HaltIndexAt(rs + more, reconnect, h);
  }

  /** The halt index is the first halting position. */
  lemma {:induction false} HaltIndexAt(rs: seq<Read>, reconnect: bool, n: nat)
    requires n < |rs| && Halts(rs[n], reconnect)
    requires forall k :: 0 <= k < n ==> !Halts(rs[k], reconnect)
    ensures HaltIndex(rs, reconnect) == n
    decreases n
  {
    if n > 0 {
      HaltIndexAt(rs[1..], reconnect, n - 1);
    }
  }

  /** Sending `hello` while connected transmits exactly one frame with that
      text and keeps the loop going. */
  lemma HelloSentOnce(line: string)
    requires ToLower(line) != "exit" && MenuForm(line) != "showmenu"
    ensures HaltIndex([Read(Some(line), false)], true) == 1
    ensures Pump([Read(Some(line), false)], true) == Outcome([Send(line)], true, 1, InputExhausted)
  {
    var rs := [Read(Some(line), false)];
    assert rs[..0] == [];
    assert rs[1..] == [];
    assert rs[..1] == rs;
    assert Interpret(rs[0].line) == Transmit(line);
    assert Effects(rs) == Effects(rs[..0]) + [Send(line)];
  }

  /** Typing `exit`, in any letter case, ends the loop at once with
      `reconnect` cleared and nothing sent, whatever follows. */
  lemma ExitEndsLoop(line: string, rest: seq<Read>)
    requires ToLower(line) == "exit"
    ensures HaltIndex([Read(Some(line), false)] + rest, true) == 0
    ensures Pump([Read(Some(line), false)] + rest, true) == Outcome([], false, 1, ExitTyped)
  {
    assert ([Read(Some(line), false)] + rest)[..0] == [];
  }

  /** The empty line is not skipped: it is sent as an empty frame. */
  lemma EmptyLineSent()
    ensures Interpret(Some("")) == Transmit("")
  {
    assert ToLower("") == "";
    AllWhiteSpaceTrimsToEmpty("");
  }

  /** `exit` must match exactly once lower-cased: with a leading space it
      is sent as an ordinary line, because the menu test does trim. */
  lemma PaddedExitSent(word: string)
    requires ToLower(word) == "exit"
    ensures Interpret(Some(" " + word)) == Transmit(" " + word)
  {
    var l := " " + word;
    assert ToLower(l) == " " + "exit";
    assert ToLower(l) != "exit";
    assert AllWhiteSpace(" ");
    TrimOfPadded(" ", "exit", "");
    assert " " + "exit" + "" == " " + "exit";
    NotContainsMissingChar("exit", " ", ' ');
    ReplaceAbsent("exit", " ", "");
  }

  /** The menu test ignores letter case and deletes spaces, so
      `Show Menu` opens the menu. */
  lemma SpacedMenuWord(line: string)
    requires ToLower(line) == "show menu"
    ensures Interpret(Some(line)) == ShowMenu
  {
    SpacedMenuForm();
    assert MenuForm(line) == Replace(Trim("show menu"), " ", "");
    assert |ToLower(line)| != |"exit"|;
  }

  lemma SpacedMenuForm()
    ensures Replace(Trim("show menu"), " ", "") == "showmenu"
  {
    SpacedMenuTrimmed();
    SpacedMenuJoined();
  }

  lemma SpacedMenuTrimmed()
    ensures Trim("show menu") == "show menu"
  {
    var low := "show menu";
    assert Trimmed(low) by {
      assert low[0] == 's' && low[|low| - 1] == 'u';
    }
    TrimOfPadded("", low, "");
    assert "" + low + "" == low;
  }

  lemma SpacedMenuJoined()
    ensures Replace("show menu", " ", "") == "showmenu"
  {
    assert "show menu" == "show" + [' '] + "menu";
    ReplaceCharAt("show", ' ', "menu", "");
    NotContainsMissingChar("menu", " ", ' ');
    ReplaceAbsent("menu", " ", "");
    assert "show" + "" + "menu" == "showmenu";
  }
}
