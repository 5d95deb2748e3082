/** The line editor of drivers/keyboard/keyboard.c: key codes into a line buffer and onto the screen. */
module Keyboard {
  import opened CTypes
  import opened CStrings
  import opened Screen
  import Vga

  const BACKSPACE: uint8 := 0x0E
  const ENTER: uint8 := 0x1C
  const SC_MAX: uint8 := 57
  const BUFFER_SIZE := 256

  // The scan-code table, by keyboard rows; keys without a character give '?'.
  const ROW_DIGITS: seq<uint8> := [63, 63, 49, 50, 51, 52, 53, 54, 55, 56, 57, 48, 45, 61, 63]
  const ROW_Q: seq<uint8> := [63, 81, 87, 69, 82, 84, 89, 85, 73, 79, 80, 91, 93, 63]
  const ROW_A: seq<uint8> := [63, 65, 83, 68, 70, 71, 72, 74, 75, 76, 59, 39, 96]
  const ROW_Z: seq<uint8> := [63, 92, 90, 88, 67, 86, 66, 78, 77, 44, 46, 47, 63, 63, 63, 32]
  const SC_ASCII: seq<uint8> := ROW_DIGITS + ROW_Q + ROW_A + ROW_Z

  // The names of the keys, by the same rows.
  const NAMES_DIGITS: seq<string> :=
    ["ERROR", "Esc", "1", "2", "3", "4", "5", "6", "7", "8", "9", "0", "-", "=", "Backspace"]
  const NAMES_Q: seq<string> := ["Tab", "Q", "W", "E", "R", "T", "Y", "U", "I", "O", "P", "[", "]", "Enter"]
  const NAMES_A: seq<string> := ["Lctrl", "A", "S", "D", "F", "G", "H", "J", "K", "L", ";", "'", "`"]
  const NAMES_Z: seq<string> := ["LShift", "\\", "Z", "X", "C", "V", "B", "N", "M", ",", ".", "/", "RShift",
                                 "Keypad *", "LAlt", "Spacebar"]
  const SC_NAME: seq<string> := NAMES_DIGITS + NAMES_Q + NAMES_A + NAMES_Z

  /** "root@candleos > " */
  const PROMPT: seq<uint8> := [114, 111, 111, 116, 64, 99, 97, 110, 100, 108, 101, 111, 115, 32, 62, 32]

  // ---- the abstract line --------------------------------------------------------------------------

  predicate Types(key: uint8) {
    key <= SC_MAX && key != BACKSPACE && key != ENTER
  }

  /** What a key does to a line: push, pop, or nothing. */
  function Edit(line: seq<uint8>, key: uint8): seq<uint8> {
    if Types(key) then line + [SC_ASCII[key]]
    else if key == BACKSPACE && line != [] then line[..|line| - 1]
    else line
  }

  function Line(keys: seq<uint8>): seq<uint8> {
    if keys == [] then [] else Edit(Line(keys[..|keys| - 1]), keys[|keys| - 1])
  }

  /** The longest the line has been. */
  function Longest(keys: seq<uint8>): nat
    ensures |Line(keys)| <= Longest(keys)
  {
    if keys == [] then 0
    else
      var before := Longest(keys[..|keys| - 1]);
      if |Line(keys)| > before then |Line(keys)| else before
  }

  // ---- the command dispatch ------------------------------------------------------------------------

  /** What a submitted line makes the console do: print, and for CLEAR then clear the screen. */
  datatype Reply = Reply(text: seq<uint8>, clears: bool)

  /** The screen after a reply, and the prompt that follows it. */
  function Answered(v: View, reply: Reply): (w: View)
    requires v.Valid()
    ensures w.Valid()
  {
    var printed := PutAll(v, reply.text, ATTR_TEXT);
    PutAll(if reply.clears then Cleared(printed) else printed, PROMPT, ATTR_TEXT)
  }

  /** After CLEAR the screen shows the prompt in its top left corner and nothing else. */
  lemma ClearShowsPrompt(v: View, text: seq<uint8>)
    requires v.Valid()
    ensures Shows(Answered(v, Reply(text, true)), PROMPT, ATTR_TEXT)
  {
    assert forall i :: 0 <= i < |PROMPT| ==> PROMPT[i] >= SPACE;
    PagedText(PutAll(v, text, ATTR_TEXT), PROMPT, ATTR_TEXT);
  }

  lemma PromptText()
    ensures |PROMPT| == |"root@candleos > "|
    ensures forall i :: 0 <= i < |PROMPT| ==> PROMPT[i] == "root@candleos > "[i] as int
  {}

  /** Without CLEAR the reply and the prompt are written one after the other. */
  lemma ReplyThenPrompt(v: View, text: seq<uint8>)
    requires v.Valid()
    ensures Answered(v, Reply(text, false)) == PutAll(v, text + PROMPT, ATTR_TEXT)
  {
    PutAllThen(v, text, PROMPT, ATTR_TEXT);
  }

  // ---- the editor -----------------------------------------------------------------------------------

  class Editor {
    const buffer: array<uint8>
    const console: Vga.Console

    ghost predicate Valid()
      reads this, buffer, console
    {
      && buffer.Length == BUFFER_SIZE && 0 in buffer[..]
      && buffer != console.memory && console.Valid()
    }

    ghost function Text(): seq<uint8>
      reads this, buffer
    {
      CStr(buffer[..])
    }

    constructor (console: Vga.Console)
      requires console.Valid()
      ensures Valid() && fresh(buffer) && this.console == console && Text() == []
    {
      this.console := console;
      buffer := new uint8[BUFFER_SIZE](_ => 0);
      new;
      assert buffer[..][0] == 0;
    }

    /** The branch of the callback for Enter. */
    method Submit(reply: Reply) returns (line: seq<uint8>)
      requires Valid()
      modifies buffer, console, console.memory
      ensures Valid() && line == old(Text()) && Text() == []
      ensures var v := old(console.View());
              console.View() == Answered(v.(ptr := NextLine(v.ptr)), reply)
    {
      console.Newline();
      line := CStr(buffer[..]);
      console.Write(reply.text);
      if reply.clears {
        console.Clear();
      }
      buffer[0] := 0;
      assert buffer[..][0] == 0;
      console.Write(PROMPT);
    }

    /** __kstd_keyboard_callback. `reply` is what the console's command dispatch does; `submitted` is the
        line it is given. */
    method Callback(scode: uint8, reply: Reply) returns (submitted: Option<seq<uint8>>)
      requires Valid()
      requires Types(scode) ==> |Text()| + 1 < BUFFER_SIZE
      requires scode == BACKSPACE && Text() != [] ==> 2 <= console.ptr <= APERTURE
      modifies buffer, console, console.memory
      ensures Valid()
      ensures scode != ENTER ==> submitted == None && Text() == Edit(old(Text()), scode)
      ensures Types(scode) ==> console.View() == Put(old(console.View()), SC_ASCII[scode], ATTR_TEXT)
      ensures scode == BACKSPACE ==>
                console.View() == if old(Text()) == [] then old(console.View()) else Backspaced(old(console.View()))
      ensures scode > SC_MAX ==> console.View() == old(console.View())
      ensures scode == ENTER ==> submitted == Some(old(Text())) && Text() == []
      ensures scode == ENTER ==>
                var v := old(console.View());
                console.View() == Answered(v.(ptr := NextLine(v.ptr)), reply)
    {
      submitted := None;
      if scode > SC_MAX {
        return;
      }
      if scode == BACKSPACE {
        var valid := IsBackspaceValid(buffer);
        if valid {
          console.Backspace();
        }
      } else if scode == ENTER {
        var line := Submit(reply);
        submitted := Some(line);
      } else {
        var ch := SC_ASCII[scode];
        TableIsPrintable(scode);
        Append(buffer, ch);
        console.PutChar(ch, ATTR_TEXT);
      }
    }

    /** One key of a run, `keys` having been typed since the screen was `v0`. */
    method TypeKey(ghost v0: View, ghost keys: seq<uint8>, key: uint8)
      requires Valid() && v0.Valid() && key != ENTER && Fits(v0.ptr, keys) && Fits(v0.ptr, keys + [key])
      requires Text() == Line(keys) && console.View() == Echo(v0, Line(keys), Longest(keys))
      modifies buffer, console, console.memory
      ensures Valid() && Text() == Line(keys + [key])
      ensures console.View() == Echo(v0, Line(keys + [key]), Longest(keys + [key]))
    {
      hide Echo, Line, Longest, Put, Backspaced;
      LineStep(keys, key);
      EchoStep(v0, keys, key);
      var _ := Callback(key, Reply([], false));
    }

    /** A run of keys without Enter from an empty line: the buffer is the abstract line and the screen
        shows it from where the prompt ended. */
    method TypeKeys(keys: seq<uint8>)
      requires Valid() && Text() == [] && Roomy(console.ptr, keys)
      modifies buffer, console, console.memory
      ensures Valid() && Text() == Line(keys)
      ensures console.View() == Echo(old(console.View()), Line(keys), Longest(keys))
      decreases |keys|
    {
      if keys == [] {
        EchoNothing(console.View());
      } else {
        var n := |keys| - 1;
        hide Echo, Line, Longest;
        TypeKeys(keys[..n]);
        assert keys[..n] + [keys[n]] == keys;
        TypeKey(old(console.View()), keys[..n], keys[n]);
      }
    }
  }

  lemma TableIsPrintable(key: uint8)
    requires key <= SC_MAX
    ensures |SC_ASCII| == SC_MAX + 1 && Printable([SC_ASCII[key]])
  {
    assert forall i :: 0 <= i < |ROW_DIGITS| ==> ROW_DIGITS[i] >= SPACE;
    assert forall i :: 0 <= i < |ROW_Q| ==> ROW_Q[i] >= SPACE;
    assert forall i :: 0 <= i < |ROW_A| ==> ROW_A[i] >= SPACE;
    assert forall i :: 0 <= i < |ROW_Z| ==> ROW_Z[i] >= SPACE;
    assert [SC_ASCII[key]][0] == SC_ASCII[key];
  }

  /** The character a key of that name types: its name if that is one character, a space for the space
      bar, and '?' otherwise. */
  function CharOfName(name: string): int {
    if |name| == 1 then name[0] as int else if name == "Spacebar" then 32 else 63
  }

  ghost predicate RowAgrees(chars: seq<uint8>, names: seq<string>) {
    |chars| == |names| && forall i :: 0 <= i < |chars| ==> chars[i] == CharOfName(names[i])
  }

  lemma RowsAgree()
    ensures RowAgrees(ROW_DIGITS, NAMES_DIGITS) && RowAgrees(ROW_Q, NAMES_Q)
    ensures RowAgrees(ROW_A, NAMES_A) && RowAgrees(ROW_Z, NAMES_Z)
  {}

  lemma RowsJoin(a: seq<uint8>, m: seq<string>, b: seq<uint8>, n: seq<string>)
    requires RowAgrees(a, m) && RowAgrees(b, n)
    ensures RowAgrees(a + b, m + n)
  {}

  /** The two tables of the driver agree: every key types the character it is named after. */
  lemma TablesAgree(key: uint8)
    requires key <= SC_MAX
    ensures |SC_ASCII| == |SC_NAME| == SC_MAX + 1
    ensures SC_ASCII[key] == CharOfName(SC_NAME[key])
  {
    RowsAgree();
    RowsJoin(ROW_DIGITS, NAMES_DIGITS, ROW_Q, NAMES_Q);
    RowsJoin(ROW_DIGITS + ROW_Q, NAMES_DIGITS + NAMES_Q, ROW_A, NAMES_A);
    RowsJoin(ROW_DIGITS + ROW_Q + ROW_A, NAMES_DIGITS + NAMES_Q + NAMES_A, ROW_Z, NAMES_Z);
  }

  /** The line is what was typed: a key with a character adds it, backspace (14) takes the last one back
      and does nothing on an empty line, and codes above 57 do nothing. */
  lemma LineExact(keys: seq<uint8>, key: uint8)
    ensures Line([]) == []
    ensures key <= 57 && key != 14 && key != 28 ==>
              Line(keys + [key]) == Line(keys) + [SC_ASCII[key]] && Line(keys + [key] + [14]) == Line(keys)
    ensures key > 57 || key == 28 ==> Line(keys + [key]) == Line(keys)
    ensures Line(keys) == [] ==> Line(keys + [14]) == []
  {
    LineStep(keys, key);
    LineStep(keys, 14);
    LineStep(keys + [key], 14);
  }

  // ---- editor and screen agree ----------------------------------------------------------------------

  /** The line and its NUL fit the buffer, and its cells fit the page. */
  predicate Fits(p0: int, keys: seq<uint8>) {
    |Line(keys)| < BUFFER_SIZE && p0 + 2 * |Line(keys)| <= SCREEN_SIZE
  }

  /** No Enter, and the line fits at every moment. */
  predicate Roomy(p0: int, keys: seq<uint8>)
    decreases |keys|
  {
    && Fits(p0, keys)
    && (keys != [] ==> keys[|keys| - 1] != ENTER && Roomy(p0, keys[..|keys| - 1]))
  }

  /** The screen `v0` with `line` echoed from its pointer on; cells the line has given up, up to its
      greatest length, are blank. */
  function Echo(v0: View, line: seq<uint8>, longest: nat): View {
    View(seq(|v0.memory|, j requires 0 <= j < |v0.memory| =>
           if v0.ptr <= j < v0.ptr + 2 * |line| then
             if (j - v0.ptr) % 2 == 0 then line[(j - v0.ptr) / 2] else ATTR_TEXT
           else if v0.ptr + 2 * |line| <= j < v0.ptr + 2 * longest then
             if (j - v0.ptr) % 2 == 0 then SPACE else ATTR_BLANK
           else v0.memory[j]),
         v0.ptr + 2 * |line|)
  }

  lemma LineStep(keys: seq<uint8>, key: uint8)
    ensures Line(keys + [key]) == Edit(Line(keys), key)
  {
    assert (keys + [key])[..|keys|] == keys;
  }

  lemma EchoNothing(v0: View)
    ensures Echo(v0, [], 0) == v0
  {}

  lemma EchoPush(v0: View, line: seq<uint8>, longest: nat, c: uint8)
    requires v0.Valid() && |line| <= longest && v0.ptr + 2 * |line| + 2 <= SCREEN_SIZE && Printable([c])
    ensures Put(Echo(v0, line, longest), c, ATTR_TEXT)
            == Echo(v0, line + [c], if |line| + 1 > longest then |line| + 1 else longest)
  {
    assert [c][0] == c;
    var e := Echo(v0, line, longest);
    var longer := if |line| + 1 > longest then |line| + 1 else longest;
    assert Cell(e, c, ATTR_TEXT).memory == Echo(v0, line + [c], longer).memory;
  }

  lemma EchoPop(v0: View, line: seq<uint8>, longest: nat)
    requires v0.Valid() && line != [] && |line| <= longest && v0.ptr + 2 * |line| <= SCREEN_SIZE
    ensures Backspaced(Echo(v0, line, longest)) == Echo(v0, line[..|line| - 1], longest)
  {}

  /** One key does to the echoed screen what it does to the line. */
  lemma EchoStep(v0: View, keys: seq<uint8>, key: uint8)
    requires v0.Valid() && Fits(v0.ptr, keys) && Fits(v0.ptr, keys + [key])
    ensures var (e, after) := (Echo(v0, Line(keys), Longest(keys)), Echo(v0, Line(keys + [key]), Longest(keys + [key])));
            && (Types(key) ==> Put(e, SC_ASCII[key], ATTR_TEXT) == after)
            && 0 <= e.ptr <= SCREEN_SIZE
            && (key == BACKSPACE && Line(keys) != [] ==> e.ptr >= 2 && Backspaced(e) == after)
            && (!Types(key) && !(key == BACKSPACE && Line(keys) != []) ==> e == after)
  {
    var next := keys + [key];
    assert next[..|keys|] == keys;
    if Types(key) {
      TableIsPrintable(key);
      EchoPush(v0, Line(keys), Longest(keys), SC_ASCII[key]);
    } else if key == BACKSPACE && Line(keys) != [] {
      EchoPop(v0, Line(keys), Longest(keys));
    }
  }

  /** What the echo means: the cells from the prompt on show the line, what the line has given up is
      blank, and nothing before or behind has changed. */
  lemma EchoShows(v0: View, line: seq<uint8>, longest: nat)
    requires v0.Valid() && v0.ptr + 2 * |line| <= SCREEN_SIZE
    ensures var e := Echo(v0, line, longest);
            && e.ptr == v0.ptr + 2 * |line|
            && e.memory[..v0.ptr] == v0.memory[..v0.ptr]
            && forall i :: 0 <= i < |line| ==>
                 e.memory[v0.ptr + 2 * i] == line[i] && e.memory[v0.ptr + 2 * i + 1] == ATTR_TEXT
    ensures var e := Echo(v0, line, longest);
            forall j :: e.ptr <= j < APERTURE ==>
              e.memory[j] == if j >= v0.ptr + 2 * longest then v0.memory[j] else if (j - v0.ptr) % 2 == 0 then 32 else 0
  {}
}
