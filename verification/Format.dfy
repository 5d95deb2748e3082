/** printf's format language: parsing and rendering. */
module Format {
  import opened CTypes
  import opened Numbers

  const PERCENT: uint8 := 37      // '%'
  const BLANK: uint8 := 32        // ' '
  const STRING: uint8 := 115      // 's'
  const NULL_TEXT: seq<uint8> := [40, 110, 117, 108, 108, 41]   // "(null)"

  /** One `%` directive, or one character standing for itself. */
  datatype Piece =
    | Literal(c: uint8)
    | Directive(zero: bool, width: nat, conversion: uint8)

  /** An argument word: an int, or a string pointer that may be null. */
  datatype Arg = Int(value: sint32) | Str(text: Option<seq<uint8>>)

  predicate IsDigit(c: uint8) {
    ZERO <= c < ZERO + 10
  }

  predicate Prints(conversion: uint8) {
    conversion == SIGNED || conversion == 117 || conversion == HEX
  }

  // ---- parsing ------------------------------------------------------------------------------------

  /** The scan of one directive after its `%`: an optional 0, at most one digit, a conversion. None
      when the format ends first. */
  function Scan(f: seq<uint8>): (r: Option<(Piece, seq<uint8>)>)
    ensures r.Some? ==> r.value.0.Directive? && |r.value.1| < |f|
  {
    var zero := f != [] && f[0] == ZERO;
    var f1 := if zero then f[1..] else f;
    var sized := f1 != [] && IsDigit(f1[0]);
    var f2 := if sized then f1[1..] else f1;
    if f2 == [] then None
    else Some((Directive(zero, if sized then f1[0] - ZERO else 0, f2[0]), f2[1..]))
  }

  function Parse(f: seq<uint8>): Option<seq<Piece>>
    decreases |f|
  {
    if f == [] then Some([])
    else if f[0] != PERCENT then
      match Parse(f[1..])
      case None => None
      case Some(rest) => Some([Literal(f[0])] + rest)
    else
      match Scan(f[1..])
      case None => None
      case Some((d, f')) =>
        match Parse(f')
        case None => None
        case Some(rest) => Some([d] + rest)
  }

  /** A piece as written in a format. */
  function Spell(p: Piece): seq<uint8>
    requires Spellable(p)
  {
    match p
    case Literal(c) => [c]
    case Directive(zero, width, conversion) =>
      [PERCENT] + (if zero then [ZERO] else []) + (if width > 0 then [width + ZERO] else []) + [conversion]
  }

  function SpellAll(pieces: seq<Piece>): seq<uint8>
    requires forall i :: 0 <= i < |pieces| ==> Spellable(pieces[i])
  {
    if pieces == [] then [] else Spell(pieces[0]) + SpellAll(pieces[1..])
  }

  /** Pieces a format can mean: a literal is not `%`, a width is one digit, a conversion is no digit. */
  predicate Spellable(p: Piece) {
    match p
    case Literal(c) => c != PERCENT
    case Directive(_, width, conversion) => width < 10 && !IsDigit(conversion)
  }

  lemma ScanSpelled(p: Piece, rest: seq<uint8>)
    requires p.Directive? && Spellable(p)
    ensures Scan((Spell(p) + rest)[1..]) == Some((p, rest))
  {}

  lemma ScanSized(width: uint8, conversion: uint8, rest: seq<uint8>)
    requires width < 10
    ensures Scan([48, width + 48, conversion] + rest) == Some((Directive(true, width, conversion), rest))
    ensures width > 0 ==> Scan([width + 48, conversion] + rest) == Some((Directive(false, width, conversion), rest))
  {
    var f := [48, width + 48, conversion] + rest;
    assert f[1..] == [width + 48, conversion] + rest;
    assert f[1..][1..] == [conversion] + rest;
  }

  lemma ScanBare(conversion: uint8, rest: seq<uint8>)
    requires !IsDigit(conversion)
    ensures Scan([48, conversion] + rest) == Some((Directive(true, 0, conversion), rest))
    ensures Scan([conversion] + rest) == Some((Directive(false, 0, conversion), rest))
  {
    assert ([48, conversion] + rest)[1..] == [conversion] + rest;
  }

  /** After the `%`: a 0 is the flag, one more digit is the width, and the next character, a digit or
      not, is the conversion. */
  lemma ScanExact(zero: bool, width: Option<uint8>, conversion: uint8, rest: seq<uint8>)
    requires if width.None? then !IsDigit(conversion) else width.value < 10 && (width.value == 0 ==> zero)
    ensures var digits := (if zero then [48] else []) + (if width.Some? then [width.value + 48] else []);
            Scan(digits + [conversion] + rest)
            == Some((Directive(zero, if width.Some? then width.value else 0, conversion), rest))
  {
    hide Scan;
    var digits: seq<uint8> := (if zero then [48] else []) + (if width.Some? then [width.value + 48] else []);
    if width.Some? {
      ScanSized(width.value, conversion, rest);
      assert digits + [conversion] == if zero then [48, width.value + 48, conversion] else [width.value + 48, conversion];
    } else {
      ScanBare(conversion, rest);
      assert digits + [conversion] == if zero then [48, conversion] else [conversion];
    }
  }

  /** Parsing gives back the pieces a format was written from. */
  lemma {:induction false} ParseSpelled(pieces: seq<Piece>)
    requires forall i :: 0 <= i < |pieces| ==> Spellable(pieces[i])
    ensures Parse(SpellAll(pieces)) == Some(pieces)
  {
    if pieces != [] {
      var p, rest := pieces[0], SpellAll(pieces[1..]);
      ParseSpelled(pieces[1..]);
      var f := SpellAll(pieces);
      assert f == Spell(p) + rest && f[0] == Spell(p)[0] && pieces == [p] + pieces[1..];
      if p.Directive? {
        ScanSpelled(p, rest);
      } else {
        assert f[1..] == rest;
      }
    }
  }

  // ---- rendering ----------------------------------------------------------------------------------

  predicate Matches(p: Piece, a: Arg) {
    p.Directive? ==> (a.Str? <==> p.conversion == STRING)
  }

  /** Every directive finds an argument of its kind. */
  predicate Supplied(pieces: seq<Piece>, args: seq<Arg>) {
    pieces == [] ||
    (Supplies(pieces[0], args) && Supplied(pieces[1..], Remaining(pieces[0], args)))
  }

  predicate Supplies(p: Piece, args: seq<Arg>) {
    p.Directive? ==> args != [] && Matches(p, args[0])
  }

  /** The arguments left after a piece. */
  function Remaining(p: Piece, args: seq<Arg>): seq<Arg>
    requires Supplies(p, args)
  {
    if p.Directive? then args[1..] else args
  }

  /** Text right-aligned to a width. */
  function Field(text: seq<uint8>, zero: bool, width: nat): seq<uint8> {
    seq(if width > |text| then width - |text| else 0, _ => if zero then ZERO else BLANK) + text
  }

  /** The text of an argument: a number, a string, or for any other conversion its low byte. */
  function ArgText(conversion: uint8, a: Arg): seq<uint8> {
    match a
    case Int(v) => if Prints(conversion) then Text(conversion, v) else [AsUnsigned(v) % 0x100]
    case Str(None) => NULL_TEXT
    case Str(Some(s)) => s
  }

  predicate Padded(conversion: uint8) {
    Prints(conversion) || conversion == STRING
  }

  function RenderOne(p: Piece, a: Arg): seq<uint8>
    requires p.Directive?
  {
    if Padded(p.conversion) then Field(ArgText(p.conversion, a), p.zero, p.width) else ArgText(p.conversion, a)
  }

  function RenderFirst(p: Piece, args: seq<Arg>): seq<uint8>
    requires Supplies(p, args)
  {
    if p.Directive? then RenderOne(p, args[0]) else [p.c]
  }

  function Render(pieces: seq<Piece>, args: seq<Arg>): seq<uint8>
    requires Supplied(pieces, args)
  {
    if pieces == [] then []
    else RenderFirst(pieces[0], args) + Render(pieces[1..], Remaining(pieces[0], args))
  }

  /** How many directives there are. */
  function Directives(pieces: seq<Piece>): nat {
    if pieces == [] then 0 else (if pieces[0].Directive? then 1 else 0) + Directives(pieces[1..])
  }

  /** A padded field is as long as its text or its width, whichever is more, and ends in the text. */
  lemma FieldLength(text: seq<uint8>, zero: bool, width: nat)
    ensures |Field(text, zero, width)| == if |text| > width then |text| else width
    ensures Field(text, zero, width)[|Field(text, zero, width)| - |text|..] == text
  {}

  /** `out` is `text` with as many pad characters in front as the width asks for: '0' with the flag,
      a blank without it. */
  ghost predicate IsPadded(out: seq<uint8>, text: seq<uint8>, zero: bool, width: nat) {
    && |out| == (if |text| > width then |text| else width)
    && out[|out| - |text|..] == text
    && forall i :: 0 <= i < |out| - |text| ==> out[i] == if zero then 48 else 32
  }

  lemma FieldPadded(text: seq<uint8>, zero: bool, width: nat)
    ensures IsPadded(Field(text, zero, width), text, zero, width)
  {
    FieldLength(text, zero, width);
  }

  /** What a directive puts, by its conversion. For 'd' (100), 'u' (117) and 'x' (120): the padded
      numeral, without leading zeros, that reads as the argument, signed for 'd' and unsigned otherwise. */
  lemma NumberPut(p: Piece, v: sint32)
    requires p.Directive? && p.conversion in {100, 117, 120}
    ensures exists text :: IsPadded(RenderOne(p, Int(v)), text, p.zero, p.width)
                           && Plainest(p.conversion, text)
                           && ParseNumber(p.conversion, text) == Some(if p.conversion == 100 then v else AsUnsigned(v))
  {
    var text := Text(p.conversion, v);
    FieldPadded(text, p.zero, p.width);
    TextUnique(p.conversion, v, text);
    assert RenderOne(p, Int(v)) == Field(text, p.zero, p.width);
  }

  /** For 's' (115): the padded string, or "(null)" for a null pointer. */
  lemma StringPut(p: Piece, text: Option<seq<uint8>>)
    requires p.Directive? && p.conversion == 115
    ensures IsPadded(RenderOne(p, Str(text)), if text.Some? then text.value else [40, 110, 117, 108, 108, 41], p.zero, p.width)
  {
    FieldPadded(if text.Some? then text.value else NULL_TEXT, p.zero, p.width);
  }

  /** For every other character: the argument's low byte alone, whatever the width. */
  lemma BytePut(p: Piece, v: sint32)
    requires p.Directive? && p.conversion !in {100, 115, 117, 120}
    ensures RenderOne(p, Int(v)) == [(v as int) % 256]
  {}

  /** A literal character stands for itself, and a directive for what it puts of the next argument. */
  lemma RenderStep(p: Piece, rest: seq<Piece>, args: seq<Arg>)
    requires Supplied([p] + rest, args)
    ensures p.Literal? ==> Supplied(rest, args) && Render([p] + rest, args) == [p.c] + Render(rest, args)
    ensures p.Directive? ==> args != [] && Supplied(rest, args[1..])
                             && Render([p] + rest, args) == RenderOne(p, args[0]) + Render(rest, args[1..])
    ensures Render([], args) == []
  {
    assert ([p] + rest)[1..] == rest;
  }

  lemma {:induction false} SuppliedSplits(p: seq<Piece>, q: seq<Piece>, args: seq<Arg>)
    requires Supplied(p + q, args)
    ensures Directives(p) <= |args| && Supplied(p, args) && Supplied(q, args[Directives(p)..])
  {
    if p == [] {
      assert p + q == q && args[0..] == args;
    } else {
      assert (p + q)[0] == p[0] && (p + q)[1..] == p[1..] + q;
      var rest := Remaining(p[0], args);
      SuppliedSplits(p[1..], q, rest);
      assert rest[Directives(p[1..])..] == args[Directives(p)..];
    }
  }

  /** Each directive consumes one argument: the front part of a format takes as many arguments as it
      has directives, and the rest starts at the next one. */
  lemma {:induction false} RenderSplits(p: seq<Piece>, q: seq<Piece>, args: seq<Arg>)
    requires Supplied(p + q, args)
    ensures Directives(p) <= |args| && Supplied(p, args) && Supplied(q, args[Directives(p)..])
    ensures Render(p + q, args) == Render(p, args) + Render(q, args[Directives(p)..])
  {
    SuppliedSplits(p, q, args);
    if p == [] {
      assert p + q == q && args[0..] == args;
    } else {
      var rest := Remaining(p[0], args);
      assert (p + q)[0] == p[0] && (p + q)[1..] == p[1..] + q;
      RenderSplits(p[1..], q, rest);
      assert rest[Directives(p[1..])..] == args[Directives(p)..];
      Regroup(RenderFirst(p[0], args), Render(p[1..], rest), Render(q, args[Directives(p)..]));
    }
  }
}
