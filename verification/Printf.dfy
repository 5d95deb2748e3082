/** printf of drivers/vga/vga.c on the screen. */
module Printf {
  import opened CTypes
  import opened Numbers
  import opened Format
  import opened Screen
  import Vga

  function Repeat(c: uint8, n: nat): (r: seq<uint8>)
    ensures |r| == n && forall i :: 0 <= i < n ==> r[i] == c
  {
    seq(n, _ => c)
  }

  /** The padding loop: from the text's end to the width. */
  method PutPadding(console: Vga.Console, pad: uint8, length: nat, width: nat)
    requires console.Valid()
    modifies console, console.memory
    ensures console.Valid()
    ensures console.View()
            == PutAll(old(console.View()), Repeat(pad, if width > length then width - length else 0), ATTR_TEXT)
  {
    var p2 := length;
    while p2 < width
      invariant console.Valid() && length <= p2 <= (if width > length then width else length)
      invariant console.View() == PutAll(old(console.View()), Repeat(pad, p2 - length), ATTR_TEXT)
    {
      console.PutChar(pad, ATTR_TEXT);
      assert Repeat(pad, p2 + 1 - length)[..p2 - length] == Repeat(pad, p2 - length);
      p2 := p2 + 1;
    }
  }

  /** The padding and the text of one field. */
  method PutField(console: Vga.Console, text: seq<uint8>, zero: bool, width: nat)
    requires console.Valid()
    modifies console, console.memory
    ensures console.Valid()
    ensures console.View() == PutAll(old(console.View()), Field(text, zero, width), ATTR_TEXT)
  {
    var pad := if zero then ZERO else BLANK;
    PutPadding(console, pad, |text|, width);
    console.Write(text);
    ghost var padding := Repeat(pad, if width > |text| then width - |text| else 0);
    PutAllThen(old(console.View()), padding, text, ATTR_TEXT);
    assert padding + text == Field(text, zero, width);
  }

  /** A string argument is what a C string can be: without a NUL before its end. */
  predicate Terminated(a: Arg) {
    a.Str? && a.text.Some? ==> 0 !in a.text.value
  }

  /** One directive and the argument it consumes; numbers go through a 32-byte buffer. */
  method PutDirective(console: Vga.Console, d: Piece, a: Arg, buf: array<uint8>)
    requires console.Valid() && d.Directive? && Matches(d, a) && Terminated(a)
    requires buf.Length == 32 && buf != console.memory
    modifies console, console.memory, buf
    ensures console.Valid()
    ensures console.View() == PutAll(old(console.View()), RenderOne(d, a), ATTR_TEXT)
  {
    match a
    case Str(text) =>
      PutField(console, if text.Some? then text.value else NULL_TEXT, d.zero, d.width);
    case Int(v) =>
      if Prints(d.conversion) {
        TextShape(d.conversion, v);
        Itoa(buf, d.conversion, v);
        var n := |Text(d.conversion, v)|;
        assert buf[..n] == Text(d.conversion, v);
        PutField(console, buf[..n], d.zero, d.width);
      } else {
        console.PutChar(AsUnsigned(v) % 0x100, ATTR_TEXT);
        assert PutAll(old(console.View()), [], ATTR_TEXT) == old(console.View());
      }
  }

  /** The characters after a `%`, read one by one: an optional 0, at most one digit, a conversion. */
  method ScanDirective(format: seq<uint8>, start: nat) returns (d: Piece, end: nat)
    requires start <= |format| && Scan(format[start..]).Some?
    ensures start < end <= |format| && Scan(format[start..]) == Some((d, format[end..]))
  {
    var pad0, pad := false, 0;
    end := start;
    var c := format[end];
    end := end + 1;
    if c == ZERO {
      pad0 := true;
      c := format[end];
      end := end + 1;
    }
    if IsDigit(c) {
      pad := c - ZERO;
      c := format[end];
      end := end + 1;
    }
    d := Directive(pad0, pad, c);
  }

  /** printf: what reaches the screen is the rendered format. Format and string arguments are C strings. */
  method Printf(console: Vga.Console, format: seq<uint8>, args: seq<Arg>)
    requires console.Valid()
    requires WellFormed(format, args) && 0 !in format
    requires forall i :: 0 <= i < |args| ==> Terminated(args[i])
    modifies console, console.memory
    ensures console.Valid()
    ensures console.View() == PutAll(old(console.View()), Rendered(format, args), ATTR_TEXT)
  {
    var buf := new uint8[32];
    var i, arg := 0, 0;
    OutputRenders(format, args);
    ghost var sent, todo, all: seq<uint8> := [], Rendered(format, args), Rendered(format, args);
    assert format[0..] == format && args[0..] == args;
    while i < |format|
      invariant 0 <= i <= |format| && 0 <= arg <= |args| && console.Valid()
      invariant Output(format[i..], args[arg..]) == Some(todo)
      invariant sent + todo == all
      invariant console.View() == PutAll(old(console.View()), sent, ATTR_TEXT)
      decreases |format| - i
    {
      ghost var more;
      i, arg, more, todo := PrintNext(console, format, i, args, arg, buf);
      PutAllThen(old(console.View()), sent, more, ATTR_TEXT);
      Regroup(sent, more, todo);
      sent := sent + more;
    }
    assert format[i..] == [] && todo == [];
    assert sent + todo == sent;
  }

  /** One turn of printf's loop. */
  method PrintNext(console: Vga.Console, format: seq<uint8>, start: nat, args: seq<Arg>, arg: nat, buf: array<uint8>)
    returns (i: nat, next: nat, ghost more: seq<uint8>, ghost rest: seq<uint8>)
    requires console.Valid() && buf.Length == 32 && buf != console.memory
    requires start < |format| && arg <= |args| && Output(format[start..], args[arg..]).Some?
    requires forall i :: 0 <= i < |args| ==> Terminated(args[i])
    modifies console, console.memory, buf
    ensures start < i <= |format| && next <= |args| && console.Valid()
    ensures Output(format[start..], args[arg..]) == Some(more + rest)
    ensures Output(format[i..], args[next..]) == Some(rest)
    ensures console.View() == PutAll(old(console.View()), more, ATTR_TEXT)
  {
    ghost var (f, a) := (format[start..], args[arg..]);
    var c := format[start];
    i, next := start + 1, arg;
    assert f[0] == c && f[1..] == format[i..];
    if c != PERCENT {
      more := [c];
      assert PutAll(console.View(), [], ATTR_TEXT) == console.View() && more[..0] == [];
      console.PutChar(c, ATTR_TEXT);
    } else {
      var d;
      d, i := ScanDirective(format, i);
      more := RenderOne(d, args[arg]);
      next := arg + 1;
      assert a[0] == args[arg] && a[1..] == args[next..];
      PutDirective(console, d, args[arg], buf);
    }
    rest := Output(format[i..], args[next..]).value;
  }

  /** The bytes still to come at a place in the format: the loop's view of Render after Parse, which
      OutputRenders shows it to be. */
  function Output(f: seq<uint8>, args: seq<Arg>): Option<seq<uint8>>
    decreases |f|
  {
    if f == [] then Some([])
    else if f[0] != PERCENT then
      var rest := Output(f[1..], args);
      if rest.None? then None else Some([f[0]] + rest.value)
    else
      var scanned := Scan(f[1..]);
      if scanned.None? || !Supplies(scanned.value.0, args) then None
      else
        var rest := Output(scanned.value.1, args[1..]);
        if rest.None? then None else Some(RenderOne(scanned.value.0, args[0]) + rest.value)
  }

  /** A format that parses, with arguments of the right kinds. */
  predicate WellFormed(f: seq<uint8>, args: seq<Arg>) {
    Parse(f).Some? && Supplied(Parse(f).value, args)
  }

  function Rendered(f: seq<uint8>, args: seq<Arg>): seq<uint8>
    requires WellFormed(f, args)
  {
    Render(Parse(f).value, args)
  }

  lemma {:induction false} OutputRenders(f: seq<uint8>, args: seq<Arg>)
    requires WellFormed(f, args)
    ensures Output(f, args) == Some(Rendered(f, args))
    decreases |f|
  {
    if f != [] {
      var pieces := Parse(f).value;
      if f[0] != PERCENT {
        assert pieces[1..] == Parse(f[1..]).value;
        OutputRenders(f[1..], args);
      } else {
        var (d, f') := Scan(f[1..]).value;
        assert pieces[1..] == Parse(f').value;
        OutputRenders(f', args[1..]);
      }
    }
  }
}
