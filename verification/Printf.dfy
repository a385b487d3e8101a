/** The two format interpreters: the state machine of alt_log_private_printf and the small one of
    alt_printf.  Output is the text sent to the device.  A C string is the sequence of its
    characters before the terminator. */
module Printf {
  import opened Common
  import opened IntegerPrint

  /** Variable arguments; one of the wrong kind, or a missing one, is undefined in C and reads as
      zero or an empty string here. */
  datatype Arg = Num(raw: nat) | Str(text: string)

  function NumAt(args: seq<Arg>, k: nat): (raw: nat)
    ensures raw < WRAP
  {
    if k < |args| && args[k].Num? then args[k].raw % WRAP else 0
  }

  function StrAt(args: seq<Arg>, k: nat): string {
    if k < |args| && args[k].Str? then args[k].text else ""
  }

  /** The character a %c argument sends. */
  function CharAt(args: seq<Arg>, k: nat): char {
    (NumAt(args, k) % 256) as char
  }

  predicate IsDigit(c: char) { '0' <= c <= '9' }

  predicate IsModifier(c: char) { IsDigit(c) || c == '.' || c == 'l' }

  // ---------------------------------------------------------------- the full interpreter's meaning

  /** What follows a directive's flag: the field width, or -1 if there is none, from the digits
      in front of the first point; and whether there was a point. */
  function FieldWidth(mods: string): (r: (int, bool))
    ensures r.0 >= -1
  {
    if mods == "" then (-1, false)
    else
      var (width, point) := FieldWidth(mods[..|mods| - 1]);
      var c := mods[|mods| - 1];
      if c == '.' then (width, true)
      else if IsDigit(c) && !point then
        (if width < 0 then (c - '0') as int else width * 10 + (c - '0') as int, point)
      else (width, point)
  }

  /** The end of the run of modifiers that starts at i. */
  function AfterModifiers(fmt: string, i: nat): (j: nat)
    requires i <= |fmt|
    ensures i <= j <= |fmt|
    ensures forall k :: i <= k < j ==> IsModifier(fmt[k])
    ensures j < |fmt| ==> !IsModifier(fmt[j])
    decreases |fmt| - i
  {
    if i == |fmt| || !IsModifier(fmt[i]) then i else AfterModifiers(fmt, i + 1)
  }

  /** The text of one conversion and the number of arguments it takes. */
  function Conversion(c: char, zero: bool, width: int, args: seq<Arg>, k: nat): (string, nat) {
    if c == 'd' || c == 'i' then (Converted(NumAt(args, k), true, 10, false, zero, width), 1)
    else if c == 'u' then (Converted(NumAt(args, k), false, 10, false, zero, width), 1)
    else if c == 'o' then (Converted(NumAt(args, k), false, 8, false, zero, width), 1)
    else if c == 'x' then (Converted(NumAt(args, k), false, 16, false, zero, width), 1)
    else if c == 'X' then (Converted(NumAt(args, k), false, 16, true, zero, width), 1)
    else if c == 'c' then (Repeat(' ', width - 1) + [CharAt(args, k)], 1)
    else if c == 's' then (Repeat(' ', width - |StrAt(args, k)|) + StrAt(args, k), 1)
    else ("", 0)
  }

  /** The text of a format from index i on, with k arguments taken. */
  function Rendered(fmt: string, i: nat, args: seq<Arg>, k: nat): string
    requires i <= |fmt|
    decreases |fmt| - i, 1
  {
    if i == |fmt| then ""
    else if fmt[i] != '%' then [fmt[i]] + Rendered(fmt, i + 1, args, k)
    else RenderedDirective(fmt, i + 1, args, k)
  }

  /** The text from just after a percent sign on. */
  function RenderedDirective(fmt: string, i: nat, args: seq<Arg>, k: nat): string
    requires i <= |fmt|
    decreases |fmt| - i, 2
  {
    if i == |fmt| then ""
    else if fmt[i] == '%' then "%" + Rendered(fmt, i + 1, args, k)
    else if fmt[i] == '0' then RenderedField(fmt, i + 1, true, args, k)
    else RenderedField(fmt, i, false, args, k)
  }

  /** The text from just after a directive's flag on: its modifiers, its letter, and the rest. */
  function RenderedField(fmt: string, i: nat, zero: bool, args: seq<Arg>, k: nat): string
    requires i <= |fmt|
    decreases |fmt| - i, 0
  {
    var j := AfterModifiers(fmt, i);
    if j == |fmt| then ""
    else
      var (text, taken) := Conversion(fmt[j], zero, FieldWidth(fmt[i..j]).0, args, k);
      text + Rendered(fmt, j + 1, args, k + taken)
  }

  // ---------------------------------------------------------------- alt_log_private_printf

  datatype FormatState = Chars | FirstFmtChar | OtherFmtChar

  /** The letter that ends a directive. */
  method PrintConversion(c: char, zero: bool, width: int, args: seq<Arg>, k0: nat, out0: string) returns (out: string, k: nat)
    ensures out == out0 + Conversion(c, zero, width, args, k0).0
    ensures k == k0 + Conversion(c, zero, width, args, k0).1
  {
    hide Converted, Repeat;
    out, k := out0, k0;
    var signed, base, upper := true, 10, false;
    if c in ['d', 'i', 'u', 'o', 'x', 'X'] {
      if c == 'u' {
        signed := false;
      } else if c == 'o' {
        signed, base := false, 8;
      } else if c == 'x' {
        signed, base := false, 16;
      } else if c == 'X' {
        signed, base, upper := false, 16, true;
      }
      out := PrintInteger(NumAt(args, k), signed, base, upper, zero, width, out);
      k := k + 1;
    } else if c == 'c' {
      out := RepChar(' ', width - 1, out);
      out := out + [CharAt(args, k)];
      k := k + 1;
    } else if c == 's' {
      var s := StrAt(args, k);
      out := RepChar(' ', width - |s|, out);
      out := out + s;
      k := k + 1;
    }
  }

  /** Sending x leaves less to render. */
  lemma Sent(out: string, x: string, rest: string, all: string)
    requires out + (x + rest) == all
    ensures (out + x) + rest == all
  {
  }

  // How each kind of character moves through the meaning of a format.

  lemma AtLetter(fmt: string, start: nat, w: nat, zero: bool, width: int, point: bool, args: seq<Arg>, k: nat)
    requires start <= w < |fmt| && AfterModifiers(fmt, start) == AfterModifiers(fmt, w) && !IsModifier(fmt[w])
    requires FieldWidth(fmt[start..w]) == (width, point)
    ensures RenderedField(fmt, start, zero, args, k) ==
            Conversion(fmt[w], zero, width, args, k).0 + Rendered(fmt, w + 1, args, k + Conversion(fmt[w], zero, width, args, k).1)
  {
    hide Conversion;
  }

  lemma AtModifier(fmt: string, start: nat, w: nat)
    requires start <= w < |fmt| && AfterModifiers(fmt, start) == AfterModifiers(fmt, w) && IsModifier(fmt[w])
    ensures AfterModifiers(fmt, start) == AfterModifiers(fmt, w + 1)
    ensures var (width, point) := FieldWidth(fmt[start..w]);
            var c := fmt[w];
            FieldWidth(fmt[start..w + 1]) ==
              if c == '.' then (width, true)
              else if IsDigit(c) && !point then
                (if width < 0 then (c - '0') as int else width * 10 + (c - '0') as int, point)
              else (width, point)
  {
    assert fmt[start..w + 1][..w - start] == fmt[start..w];
  }

  lemma AtEnd(fmt: string, start: nat)
    requires start <= |fmt| && AfterModifiers(fmt, start) == AfterModifiers(fmt, |fmt|)
    ensures forall zero, args, k :: RenderedField(fmt, start, zero, args, k) == ""
  {
  }

  method LogPrintf(fmt: string, args: seq<Arg>) returns (out: string)
    ensures out == Rendered(fmt, 0, args, 0)
    ensures forall ps, tail :: Makes(ps, tail, fmt) && AllFit(ps, args, 0) ==> SaysAll(ps, args, 0, out)
  {
    hide FieldWidth, AfterModifiers, Conversion, RenderedField, Makes, AllFit, SaysAll;
    out := "";
    ghost var all := Rendered(fmt, 0, args, 0);
    var state := Chars;
    var leadingZero := false;
    var beforeDecimal, afterDecimal := 0, 0;
    var k: nat := 0;
    ghost var start: nat := 0;
    for w := 0 to |fmt|
      invariant state.Chars? ==> out + Rendered(fmt, w, args, k) == all
      invariant state.FirstFmtChar? ==> out + RenderedDirective(fmt, w, args, k) == all
      invariant state.FirstFmtChar? ==> !leadingZero && beforeDecimal == -1 && afterDecimal == -1
      invariant state.OtherFmtChar? ==>
                  && start <= w && out + RenderedField(fmt, start, leadingZero, args, k) == all
                  && AfterModifiers(fmt, start) == AfterModifiers(fmt, w)
                  && FieldWidth(fmt[start..w]) == (beforeDecimal, afterDecimal >= 0)
    {
      var c := fmt[w];
      if state == Chars {
        if c == '%' {
          leadingZero := false;
          beforeDecimal := -1;
          afterDecimal := -1;
          state := FirstFmtChar;
        } else {
          Sent(out, [c], Rendered(fmt, w + 1, args, k), all);
          out := out + [c];
        }
      } else if state == FirstFmtChar && c == '0' {
        leadingZero := true;
        state := OtherFmtChar;
        start := w + 1;
        NoModifiers(fmt, w + 1);
      } else if state == FirstFmtChar && c == '%' {
        Sent(out, "%", Rendered(fmt, w + 1, args, k), all);
        out := out + [c];
        state := Chars;
      } else {
        if state == FirstFmtChar {
          state := OtherFmtChar;
          start := w;
          NoModifiers(fmt, w);
        }
        state, beforeDecimal, afterDecimal, out, k :=
          OtherChar(fmt, start, w, leadingZero, beforeDecimal, afterDecimal, args, k, out, all);
      }
    }
    if state == OtherFmtChar {
      AtEnd(fmt, start);
    }
    forall ps, tail | Makes(ps, tail, fmt) && AllFit(ps, args, 0)
      ensures SaysAll(ps, args, 0, all)
    {
      FormatMeans(fmt, ps, tail, args);
    }
  }

  lemma NoModifiers(fmt: string, i: nat)
    requires i <= |fmt|
    ensures FieldWidth(fmt[i..i]) == (-1, false)
  {
  }

  /** One character after a directive's flag: a modifier, or the letter that ends it. */
  method OtherChar(fmt: string, ghost start: nat, w: nat, leadingZero: bool, before0: int, after0: int,
                   args: seq<Arg>, k0: nat, out0: string, ghost all: string)
    returns (state: FormatState, beforeDecimal: int, afterDecimal: int, out: string, k: nat)
    requires start <= w < |fmt| && out0 + RenderedField(fmt, start, leadingZero, args, k0) == all
    requires AfterModifiers(fmt, start) == AfterModifiers(fmt, w)
    requires FieldWidth(fmt[start..w]) == (before0, after0 >= 0)
    ensures state == if IsModifier(fmt[w]) then OtherFmtChar else Chars
    ensures state.Chars? ==> out + Rendered(fmt, w + 1, args, k) == all
    ensures state.OtherFmtChar? ==>
              && out + RenderedField(fmt, start, leadingZero, args, k) == all
              && AfterModifiers(fmt, start) == AfterModifiers(fmt, w + 1)
              && FieldWidth(fmt[start..w + 1]) == (beforeDecimal, afterDecimal >= 0)
  {
    hide FieldWidth, AfterModifiers, Conversion, RenderedField, Rendered;
    var c := fmt[w];
    state, beforeDecimal, afterDecimal, out, k := OtherFmtChar, before0, after0, out0, k0;
    if IsModifier(c) {
      AtModifier(fmt, start, w);
    }
    if c == '.' {
      afterDecimal := 0;
    } else if IsDigit(c) {
      var d := (c - '0') as int;
      if afterDecimal < 0 {
        beforeDecimal := (if beforeDecimal < 0 then 0 else beforeDecimal * 10) + d;
      } else {
        afterDecimal := afterDecimal * 10 + d;
      }
    } else if c != 'l' {
      AtLetter(fmt, start, w, leadingZero, beforeDecimal, afterDecimal >= 0, args, k);
      out, k := PrintConversion(c, leadingZero, beforeDecimal, args, k, out);
      Sent(out0, Conversion(c, leadingZero, before0, args, k0).0, Rendered(fmt, w + 1, args, k), all);
      state := Chars;
    }
  }

  // ---------------------------------------------------------------- what a caller may expect

  /** A piece of a format: a character that is sent as it is, "%%", or a directive. */
  datatype Piece = Plain(c: char) | Percent | Directive(zero: bool, mods: string, letter: char)

  predicate AllModifiers(mods: string) {
    forall i :: 0 <= i < |mods| ==> IsModifier(mods[i])
  }

  predicate IsPiece(p: Piece) {
    match p
    case Plain(c) => c != '%'
    case Percent => true
    case Directive(zero, mods, letter) =>
      AllModifiers(mods) && !IsModifier(letter) && (!zero ==> (mods + [letter])[0] !in ['0', '%'])
  }

  predicate ArePieces(ps: seq<Piece>) {
    forall i :: 0 <= i < |ps| ==> IsPiece(ps[i])
  }

  function Spelled(p: Piece): (s: string)
    ensures s != ""
  {
    match p
    case Plain(c) => [c]
    case Percent => "%%"
    case Directive(zero, mods, letter) => "%" + (if zero then "0" else "") + mods + [letter]
  }

  function Format(ps: seq<Piece>): string {
    if ps == [] then "" else Spelled(ps[0]) + Format(ps[1..])
  }

  /** Nothing, or a directive that the end of the format cuts off before its letter. */
  predicate Unfinished(tail: string) {
    tail == "" || (tail[0] == '%' && AllModifiers(tail[1..]))
  }

  /** The digits in front of the first point. */
  function WidthDigits(mods: string): string {
    if mods == "" || mods[0] == '.' then ""
    else (if IsDigit(mods[0]) then [mods[0]] else "") + WidthDigits(mods[1..])
  }

  function Width(mods: string): int {
    if WidthDigits(mods) == "" then -1 else ScanDigits(WidthDigits(mods), 10)
  }

  /** s at the right end of a field of spaces, which it may exceed. */
  predicate AtRight(text: string, s: string, width: int) {
    && |text| == (if width > |s| then width else |s|)
    && text[|text| - |s|..] == s
    && forall i :: 0 <= i < |text| - |s| ==> text[i] == ' '
  }

  predicate TakesArgument(p: Piece) {
    p.Directive? && p.letter in ['d', 'i', 'u', 'o', 'x', 'X', 'c', 's']
  }

  /** The piece's argument is there and of its kind; anything else is undefined in C. */
  predicate Fits(p: Piece, args: seq<Arg>, k: nat) {
    TakesArgument(p) ==> k < |args| && if p.letter == 's' then args[k].Str? else args[k].Num? && args[k].raw < WRAP
  }

  /** The text is what the piece stands for, its argument being the k-th. */
  predicate Says(p: Piece, args: seq<Arg>, k: nat, text: string)
    requires Fits(p, args, k)
  {
    match p
    case Plain(c) => text == [c]
    case Percent => text == "%"
    case Directive(zero, mods, letter) =>
      if letter == 's' then AtRight(text, args[k].text, Width(mods))
      else if letter == 'c' then AtRight(text, [(args[k].raw % 256) as char], Width(mods))
      else if letter == 'd' || letter == 'i' then
        Spells(text, if args[k].raw < 0x8000_0000 then args[k].raw else args[k].raw - 0x1_0000_0000, 10, false, zero, Width(mods))
      else if letter == 'u' then Spells(text, args[k].raw, 10, false, zero, Width(mods))
      else if letter == 'o' then Spells(text, args[k].raw, 8, false, zero, Width(mods))
      else if letter == 'x' || letter == 'X' then Spells(text, args[k].raw, 16, letter == 'X', zero, Width(mods))
      else text == ""
  }

  function Taken(p: Piece): nat {
    if TakesArgument(p) then 1 else 0
  }

  predicate AllFit(ps: seq<Piece>, args: seq<Arg>, k: nat) {
    ps == [] || (Fits(ps[0], args, k) && AllFit(ps[1..], args, k + Taken(ps[0])))
  }

  /** The output says one piece after the other; each directive takes the next argument. */
  predicate SaysAll(ps: seq<Piece>, args: seq<Arg>, k: nat, out: string)
    requires AllFit(ps, args, k)
  {
    if ps == [] then out == ""
    else exists n :: 0 <= n <= |out| && Says(ps[0], args, k, out[..n]) && SaysAll(ps[1..], args, k + Taken(ps[0]), out[n..])
  }

  /** The field width the code accumulates is the decimal number in front of the first point. */
  lemma {:induction false} WidthIsDecimal(mods: string)
    ensures FieldWidth(mods) == (Width(mods), '.' in mods)
    decreases |mods|
  {
    hide Width;
    if mods == "" {
      NoWidth();
    } else {
      var (init, c) := (mods[..|mods| - 1], mods[|mods| - 1]);
      assert mods == init + [c];
      WidthIsDecimal(init);
      WidthStep(init, c);
    }
  }

  lemma NoWidth()
    ensures Width("") == -1
  {
  }

  lemma WidthStep(mods: string, c: char)
    ensures Width(mods + [c]) ==
              if '.' in mods || !IsDigit(c) then Width(mods)
              else if Width(mods) < 0 then (c - '0') as int
              else Width(mods) * 10 + (c - '0') as int
  {
    hide WidthDigits, ScanDigits;
    WidthAppend(mods, c);
    ScanAppend(WidthDigits(mods), c, 10);
    ScanAppend("", c, 10);
    ScanNothing();
    var digits := WidthDigits(mods);
    assert digits + "" == digits && (digits == "" ==> digits + [c] == "" + [c]);
  }

  lemma ScanNothing()
    ensures ScanDigits("", 10) == 0
  {
  }

  lemma {:induction false} WidthAppend(mods: string, c: char)
    ensures WidthDigits(mods + [c]) == WidthDigits(mods) + if '.' in mods || !IsDigit(c) then "" else [c]
    decreases |mods|
  {
    if mods == "" {
      assert WidthDigits([c][1..]) == "";
    } else {
      assert (mods + [c])[1..] == mods[1..] + [c];
      assert mods == [mods[0]] + mods[1..];
      WidthAppend(mods[1..], c);
    }
  }

  /** The text the code sends for a piece. */
  function PieceText(p: Piece, args: seq<Arg>, k: nat): string {
    match p
    case Plain(c) => [c]
    case Percent => "%"
    case Directive(zero, mods, letter) => Conversion(letter, zero, FieldWidth(mods).0, args, k).0
  }

  lemma PieceSays(p: Piece, args: seq<Arg>, k: nat)
    requires IsPiece(p) && Fits(p, args, k)
    ensures Says(p, args, k, PieceText(p, args, k))
  {
    hide Spells, FieldWidth, Converted, Width, Repeat;
    if TakesArgument(p) {
      WidthIsDecimal(p.mods);
      if p.letter !in ['c', 's'] {
        LetterSays(p.letter, p.zero, Width(p.mods), args[k].raw);
      }
    }
  }

  lemma LetterSays(c: char, zero: bool, width: int, raw: nat)
    requires raw < WRAP
    ensures Spells(Converted(raw, true, 10, false, zero, width), if raw < 0x8000_0000 then raw else raw - 0x1_0000_0000, 10, false, zero, width)
    ensures Spells(Converted(raw, false, 10, false, zero, width), raw, 10, false, zero, width)
    ensures Spells(Converted(raw, false, 8, false, zero, width), raw, 8, false, zero, width)
    ensures Spells(Converted(raw, false, 16, c == 'X', zero, width), raw, 16, c == 'X', zero, width)
  {
    hide Spells, Converted;
    ConversionRoundTrip(raw, true, 10, false, zero, width);
    ConversionRoundTrip(raw, false, 10, false, zero, width);
    ConversionRoundTrip(raw, false, 8, false, zero, width);
    ConversionRoundTrip(raw, false, 16, c == 'X', zero, width);
  }

  lemma {:induction false} ModifiersEnd(fmt: string, i: nat, j: nat)
    requires i <= j <= |fmt| && (forall w :: i <= w < j ==> IsModifier(fmt[w])) && (j < |fmt| ==> !IsModifier(fmt[j]))
    ensures AfterModifiers(fmt, i) == j
    decreases j - i
  {
    if i < j {
      ModifiersEnd(fmt, i + 1, j);
    }
  }

  predicate StandsAt(fmt: string, i: nat, s: string) {
    i + |s| <= |fmt| && fmt[i..i + |s|] == s
  }

  /** A piece anywhere in a format: its text, and then what follows it. */
  lemma PieceRendered(fmt: string, i: nat, p: Piece, args: seq<Arg>, k: nat)
    requires IsPiece(p) && StandsAt(fmt, i, Spelled(p))
    ensures Rendered(fmt, i, args, k) == PieceText(p, args, k) + Rendered(fmt, i + |Spelled(p)|, args, k + Taken(p))
  {
    hide Conversion, FieldWidth, AfterModifiers, RenderedDirective, DirectiveAt;
    assert fmt[i..i + |Spelled(p)|][0] == fmt[i];
    match p
    case Plain(_) =>
    case Percent =>
      assert fmt[i..i + 2][1] == fmt[i + 1];
      PercentAt(fmt, i + 1, args, k);
    case Directive(_, _, _) =>
      SpelledParts(p);
      PieceAt(fmt, i, p);
      FieldRendered(fmt, i + 1, p, args, k);
  }

  lemma PercentAt(fmt: string, i: nat, args: seq<Arg>, k: nat)
    requires i < |fmt| && fmt[i] == '%'
    ensures RenderedDirective(fmt, i, args, k) == "%" + Rendered(fmt, i + 1, args, k)
  {
  }

  lemma SpelledParts(p: Piece)
    requires IsPiece(p) && p.Directive?
    ensures var s := Spelled(p);
            var start := if p.zero then 2 else 1;
            && |s| == start + |p.mods| + 1 && s[0] == '%' && s[start..|s| - 1] == p.mods && s[|s| - 1] == p.letter
            && if p.zero then s[1] == '0' else s[1] !in ['0', '%']
  {
  }

  /** The directive p stands in the format, index i being just after its percent sign. */
  predicate DirectiveAt(fmt: string, i: nat, p: Piece)
    requires p.Directive?
  {
    var start := if p.zero then i + 1 else i;
    var j := start + |p.mods|;
    && j < |fmt| && AfterModifiers(fmt, start) == j && fmt[start..j] == p.mods && fmt[j] == p.letter
    && if p.zero then fmt[i] == '0' else fmt[i] !in ['0', '%']
  }

  lemma SliceAt(fmt: string, i: nat, s: string, a: nat, b: nat)
    requires StandsAt(fmt, i, s) && a <= b <= |s|
    ensures fmt[i + a..i + b] == s[a..b]
    ensures forall n :: 0 <= n < |s| ==> fmt[i + n] == s[n]
  {
    assert forall n :: 0 <= n < |s| ==> s[n] == fmt[i + n];
  }

  lemma PieceAt(fmt: string, i: nat, p: Piece)
    requires IsPiece(p) && p.Directive? && StandsAt(fmt, i, Spelled(p))
    ensures DirectiveAt(fmt, i + 1, p)
  {
    hide AfterModifiers, IsModifier, Spelled;
    var s := Spelled(p);
    SpelledParts(p);
    var start := if p.zero then 2 else 1;
    SliceAt(fmt, i, s, start, |s| - 1);
    forall w | i + start <= w < i + |s| - 1 ensures IsModifier(fmt[w]) {
      assert fmt[w] == p.mods[w - i - start];
    }
    ModifiersEnd(fmt, i + start, i + |s| - 1);
  }

  lemma FieldRendered(fmt: string, i: nat, p: Piece, args: seq<Arg>, k: nat)
    requires p.Directive? && DirectiveAt(fmt, i, p)
    ensures RenderedDirective(fmt, i, args, k) ==
            PieceText(p, args, k) + Rendered(fmt, i + |p.mods| + (if p.zero then 2 else 1), args, k + Taken(p))
  {
    hide Conversion, FieldWidth, AfterModifiers, Rendered, RenderedField, IsModifier, Taken;
    var start := if p.zero then i + 1 else i;
    LetterTakes(p, args, k);
    AtField(fmt, start, start + |p.mods|, p.zero, args, k);
  }

  lemma AtField(fmt: string, start: nat, j: nat, zero: bool, args: seq<Arg>, k: nat)
    requires start <= j < |fmt| && AfterModifiers(fmt, start) == j
    ensures var (text, taken) := Conversion(fmt[j], zero, FieldWidth(fmt[start..j]).0, args, k);
            RenderedField(fmt, start, zero, args, k) == text + Rendered(fmt, j + 1, args, k + taken)
  {
    hide Conversion, FieldWidth, AfterModifiers, Rendered;
  }

  lemma LetterTakes(p: Piece, args: seq<Arg>, k: nat)
    requires p.Directive?
    ensures Conversion(p.letter, p.zero, FieldWidth(p.mods).0, args, k).1 == Taken(p)
  {
  }

  lemma TailRendered(fmt: string, i: nat, args: seq<Arg>, k: nat)
    requires i <= |fmt| && Unfinished(fmt[i..])
    ensures Rendered(fmt, i, args, k) == ""
  {
    hide IsModifier, AfterModifiers, RenderedField;
    if i + 1 < |fmt| {
      forall w | i + 1 <= w < |fmt| ensures IsModifier(fmt[w]) {
        assert fmt[w] == fmt[i..][1..][w - i - 1];
      }
      PercentIsNone();
      CutOff(fmt, i + 1, args, k);
      CutOff(fmt, i + 2, args, k);
      assert RenderedDirective(fmt, i + 1, args, k) == "";
    }
  }

  lemma CutOff(fmt: string, i: nat, args: seq<Arg>, k: nat)
    requires i <= |fmt| && forall w :: i <= w < |fmt| ==> IsModifier(fmt[w])
    ensures forall zero :: RenderedField(fmt, i, zero, args, k) == ""
  {
    hide IsModifier, AfterModifiers;
    ModifiersEnd(fmt, i, |fmt|);
  }

  lemma PercentIsNone()
    ensures !IsModifier('%')
  {
  }

  /** The format is these pieces and then a directive that is cut off, or nothing. */
  predicate Makes(ps: seq<Piece>, tail: string, fmt: string) {
    ArePieces(ps) && Unfinished(tail) && fmt == Format(ps) + tail
  }

  /** The output of a format says its pieces, in order and each with its own argument. */
  lemma FormatMeans(fmt: string, ps: seq<Piece>, tail: string, args: seq<Arg>)
    requires Makes(ps, tail, fmt) && AllFit(ps, args, 0)
    ensures SaysAll(ps, args, 0, Rendered(fmt, 0, args, 0))
  {
    assert fmt[0..] == fmt;
    PiecesMean(fmt, 0, ps, tail, args, 0);
  }

  lemma {:induction false} PiecesMean(fmt: string, i: nat, ps: seq<Piece>, tail: string, args: seq<Arg>, k: nat)
    requires i <= |fmt| && fmt[i..] == Format(ps) + tail
    requires ArePieces(ps) && Unfinished(tail) && AllFit(ps, args, k)
    ensures SaysAll(ps, args, k, Rendered(fmt, i, args, k))
    decreases |ps|
  {
    hide Says, Spelled, IsPiece, Unfinished, Fits, TakesArgument, PieceText, Rendered;
    if ps == [] {
      assert fmt[i..] == tail;
      TailRendered(fmt, i, args, k);
    } else {
      var p := ps[0];
      var (text, next) := (PieceText(p, args, k), i + |Spelled(p)|);
      PieceSays(p, args, k);
      SplitOff(fmt, i, Spelled(p), Format(ps[1..]) + tail);
      PieceRendered(fmt, i, p, args, k);
      PiecesMean(fmt, next, ps[1..], tail, args, k + Taken(p));
      Append(text, Rendered(fmt, next, args, k + Taken(p)));
    }
  }

  lemma SplitOff(fmt: string, i: nat, s: string, rest: string)
    requires i <= |fmt| && fmt[i..] == s + rest
    ensures StandsAt(fmt, i, s) && fmt[i + |s|..] == rest
  {
    assert fmt[i..i + |s|] == fmt[i..][..|s|] && fmt[i + |s|..] == fmt[i..][|s|..];
  }

  lemma Append(s: string, t: string)
    ensures (s + t)[..|s|] == s && (s + t)[|s|..] == t
  {
  }

  /** Every format is made of pieces, with a directive cut off at its end or not. */
  lemma {:induction false} EveryFormat(fmt: string) returns (ps: seq<Piece>, tail: string)
    ensures Makes(ps, tail, fmt)
    decreases |fmt|
  {
    hide Spelled, IsPiece, Unfinished;
    var first := FirstPiece(fmt);
    if first.None? {
      return [], fmt;
    }
    var n := |Spelled(first.value)|;
    var rest;
    rest, tail := EveryFormat(fmt[n..]);
    ps := [first.value] + rest;
    assert fmt == fmt[..n] + fmt[n..] && ps[1..] == rest;
  }

  /** The piece a format begins with, unless it is all unfinished. */
  lemma FirstPiece(fmt: string) returns (first: Option<Piece>)
    ensures first.None? ==> Unfinished(fmt)
    ensures first.Some? ==> IsPiece(first.value) && Spelled(first.value) <= fmt
  {
    hide IsModifier, AfterModifiers;
    if fmt == "" {
      return None;
    } else if fmt[0] != '%' {
      return Some(Plain(fmt[0]));
    } else if |fmt| > 1 && fmt[1] == '%' {
      return Some(Percent);
    }
    first := FirstDirective(fmt);
  }

  lemma FirstDirective(fmt: string) returns (first: Option<Piece>)
    requires fmt != "" && fmt[0] == '%' && (|fmt| > 1 ==> fmt[1] != '%')
    ensures first.None? ==> Unfinished(fmt)
    ensures first.Some? ==> IsPiece(first.value) && Spelled(first.value) <= fmt
  {
    hide IsModifier, AfterModifiers;
    ZeroIsOne();
    var zero := |fmt| > 1 && fmt[1] == '0';
    var start := if zero then 2 else 1;
    var j := AfterModifiers(fmt, start);
    if j == |fmt| {
      forall i | 0 <= i < |fmt| - 1 ensures IsModifier(fmt[1..][i]) {
        assert fmt[1..][i] == fmt[i + 1];
      }
      return None;
    }
    var mods := fmt[start..j];
    forall i | 0 <= i < |mods| ensures IsModifier(mods[i]) {
      assert mods[i] == fmt[start + i];
    }
    assert (mods + [fmt[j]])[0] == fmt[start];
    assert fmt[..j + 1] == "%" + (if zero then "0" else "") + mods + [fmt[j]];
    return Some(Directive(zero, mods, fmt[j]));
  }

  lemma ZeroIsOne()
    ensures IsModifier('0')
  {
  }

  lemma AtRightOnce(s: string, t: string, r: string, width: int)
    requires AtRight(s, r, width) && AtRight(t, r, width)
    ensures s == t
  {
    var n := |s| - |r|;
    assert s[..n] == t[..n];
    assert s == s[..n] + s[n..] && t == t[..n] + t[n..];
  }

  lemma SaysOnce(p: Piece, args: seq<Arg>, k: nat, s: string, t: string)
    requires Fits(p, args, k) && Says(p, args, k, s) && Says(p, args, k, t)
    ensures s == t
  {
    hide Spells, AtRight, Width;
    if TakesArgument(p) {
      var width := Width(p.mods);
      if p.letter == 's' {
        AtRightOnce(s, t, args[k].text, width);
      } else {
        var raw: int := args[k].raw;
        match p.letter
        case 'c' => AtRightOnce(s, t, [(raw % 256) as char], width);
        case 'u' => SpellsOnce(s, t, raw, 10, false, p.zero, width);
        case 'o' => SpellsOnce(s, t, raw, 8, false, p.zero, width);
        case 'x' => SpellsOnce(s, t, raw, 16, false, p.zero, width);
        case 'X' => SpellsOnce(s, t, raw, 16, true, p.zero, width);
        case _ =>
          var v: int := if raw < 0x8000_0000 then raw else raw - 0x1_0000_0000;
          SpellsOnce(s, t, v, 10, false, p.zero, width);
      }
    }
  }

  /** What is expected of a format leaves a single output. */
  lemma {:induction false} OneOutput(ps: seq<Piece>, args: seq<Arg>, k: nat, s: string, t: string)
    requires AllFit(ps, args, k) && SaysAll(ps, args, k, s) && SaysAll(ps, args, k, t)
    ensures s == t
    decreases |ps|
  {
    hide Says, Fits, TakesArgument;
    if ps != [] {
      var m :| 0 <= m <= |s| && Says(ps[0], args, k, s[..m]) && SaysAll(ps[1..], args, k + Taken(ps[0]), s[m..]);
      var n :| 0 <= n <= |t| && Says(ps[0], args, k, t[..n]) && SaysAll(ps[1..], args, k + Taken(ps[0]), t[n..]);
      SaysOnce(ps[0], args, k, s[..m], t[..n]);
      OneOutput(ps[1..], args, k + Taken(ps[0]), s[m..], t[n..]);
      assert s == s[..m] + s[m..] && t == t[..n] + t[n..];
    }
  }

  // ---------------------------------------------------------------- alt_printf

  /** The text of a directive of alt_printf and the number of arguments it takes. */
  function Small(c: char, args: seq<Arg>, k: nat): (string, nat) {
    if c == '%' then ("%", 0)
    else if c == 'c' then ([CharAt(args, k)], 1)
    else if c == 'x' then (Text(Numeral(NumAt(args, k), 16), false), 1)
    else if c == 's' then (StrAt(args, k), 1)
    else ("", 0)
  }

  /** The text alt_printf gives for a format from index i on. */
  function RenderedSmall(fmt: string, i: nat, args: seq<Arg>, k: nat): string
    requires i <= |fmt|
    decreases |fmt| - i
  {
    if i == |fmt| then ""
    else if fmt[i] != '%' then [fmt[i]] + RenderedSmall(fmt, i + 1, args, k)
    else if i + 1 == |fmt| then ""
    else
      var (text, taken) := Small(fmt[i + 1], args, k);
      text + RenderedSmall(fmt, i + 2, args, k + taken)
  }

  method AltPrintf(fmt: string, args: seq<Arg>) returns (out: string)
    ensures out == RenderedSmall(fmt, 0, args, 0)
  {
    hide Text, Numeral, CharAt, NumAt, StrAt;
    out := "";
    ghost var all := RenderedSmall(fmt, 0, args, 0);
    var w: nat, k: nat := 0, 0;
    while w < |fmt|
      invariant w <= |fmt| && out + RenderedSmall(fmt, w, args, k) == all
    {
      ghost var (out0, w0, k0) := (out, w, k);
      var c := fmt[w];
      w := w + 1;
      if c != '%' {
        out := out + [c];
        Sent(out0, [c], RenderedSmall(fmt, w, args, k), all);
      } else if w < |fmt| {
        c := fmt[w];
        w := w + 1;
        out, k := SmallDirective(c, args, k, out);
        Sent(out0, Small(c, args, k0).0, RenderedSmall(fmt, w, args, k), all);
      } else {
        break;
      }
    }
  }

  /** The letter of a directive. */
  method SmallDirective(c: char, args: seq<Arg>, k0: nat, out0: string) returns (out: string, k: nat)
    ensures out == out0 + Small(c, args, k0).0 && k == k0 + Small(c, args, k0).1
  {
    hide Text, Numeral;
    out, k := out0, k0;
    if c == '%' {
      out := out + [c];
    } else if c == 'c' {
      out := out + [CharAt(args, k)];
      k := k + 1;
    } else if c == 'x' {
      out := PrintHex(NumAt(args, k), out);
      k := k + 1;
    } else if c == 's' {
      out := out + StrAt(args, k);
      k := k + 1;
    }
  }

  // ---------------------------------------------------------------- the common subset

  /** No directive from index i on has a flag, a modifier, or an integer letter other than x. */
  predicate PlainFormat(fmt: string, i: nat)
    requires i <= |fmt|
    decreases |fmt| - i
  {
    if i == |fmt| then true
    else if fmt[i] != '%' then PlainFormat(fmt, i + 1)
    else if i + 1 == |fmt| then true
    else !IsModifier(fmt[i + 1]) && fmt[i + 1] !in ['d', 'i', 'u', 'o', 'X'] && PlainFormat(fmt, i + 2)
  }

  /** A letter that alt_printf does not know sends nothing and takes no argument. */
  lemma UnknownLetter(fmt: string, i: nat, args: seq<Arg>, k: nat)
    requires i + 1 < |fmt| && fmt[i] == '%' && fmt[i + 1] !in ['%', 'c', 'x', 's']
    ensures RenderedSmall(fmt, i, args, k) == RenderedSmall(fmt, i + 2, args, k)
  {
  }

  lemma PlainConversion(c: char, args: seq<Arg>, k: nat)
    requires c != '%' && !IsModifier(c) && c !in ['d', 'i', 'u', 'o', 'X']
    ensures Conversion(c, false, -1, args, k) == Small(c, args, k)
  {
    hide Converted, Text, Numeral, Repeat, NumAt, CharAt, StrAt;
    HexIsConversion(NumAt(args, k));
    NoPadding(-2, [CharAt(args, k)]);
    NoPadding(-1 - |StrAt(args, k)|, StrAt(args, k));
  }

  lemma NoPadding(n: int, s: string)
    requires n <= 0
    ensures Repeat(' ', n) + s == s
  {
  }

  lemma PlainDirective(fmt: string, i: nat, args: seq<Arg>, k: nat)
    requires i < |fmt| && fmt[i] != '%' && !IsModifier(fmt[i])
    ensures var (text, taken) := Conversion(fmt[i], false, -1, args, k);
            RenderedDirective(fmt, i, args, k) == text + Rendered(fmt, i + 1, args, k + taken)
  {
    hide Conversion;
    NoModifiers(fmt, i);
    AtLetter(fmt, i, i, false, FieldWidth(fmt[i..i]).0, FieldWidth(fmt[i..i]).1, args, k);
  }

  lemma AgreedDirective(fmt: string, i: nat, args: seq<Arg>, k: nat)
    requires i < |fmt| && !IsModifier(fmt[i]) && fmt[i] !in ['d', 'i', 'u', 'o', 'X']
    ensures var (text, taken) := Small(fmt[i], args, k);
            RenderedDirective(fmt, i, args, k) == text + Rendered(fmt, i + 1, args, k + taken)
  {
    hide Conversion, Small, Rendered;
    if fmt[i] == '%' {
      SmallPercent(args, k);
    } else {
      PlainConversion(fmt[i], args, k);
      PlainDirective(fmt, i, args, k);
    }
  }

  /** On the formats both interpreters support they send exactly the same text, whatever the
      arguments. */
  lemma {:induction false} CommonFormatsAgree(fmt: string, i: nat, args: seq<Arg>, k: nat)
    requires i <= |fmt| && PlainFormat(fmt, i)
    ensures Rendered(fmt, i, args, k) == RenderedSmall(fmt, i, args, k)
    decreases |fmt| - i
  {
    hide Conversion, Small, IsModifier;
    if i == |fmt| {
    } else if fmt[i] != '%' {
      CommonFormatsAgree(fmt, i + 1, args, k);
    } else if i + 1 < |fmt| {
      CommonFormatsAgree(fmt, i + 2, args, k + Small(fmt[i + 1], args, k).1);
      AgreedDirective(fmt, i + 1, args, k);
    }
  }

  lemma SmallPercent(args: seq<Arg>, k: nat)
    ensures Small('%', args, k) == ("%", 0)
  {
  }

  /** While it is read, a width never exceeds its final value: the code's int overflows in no step
      if and only if the width itself fits in it. */
  lemma {:induction false} WidthOverflowsLast(mods: string)
    ensures FieldWidth(mods).0 <= INT_MAX <==> forall i :: 0 <= i <= |mods| ==> FieldWidth(mods[..i]).0 <= INT_MAX
    decreases |mods|
  {
    var n := |mods|;
    assert mods[..n] == mods;
    if n > 0 {
      var init := mods[..n - 1];
      WidthOverflowsLast(init);
      assert FieldWidth(init).0 <= FieldWidth(mods).0;
      forall i | 0 <= i < n && FieldWidth(mods).0 <= INT_MAX
        ensures FieldWidth(mods[..i]).0 <= INT_MAX
      {
        assert init[..i] == mods[..i];
      }
    }
  }

  /** Both interpreters on the same common format. */
  method PrintBothWays(fmt: string, args: seq<Arg>) returns (a: string, b: string)
    requires PlainFormat(fmt, 0)
    ensures a == b
  {
    a := LogPrintf(fmt, args);
    b := AltPrintf(fmt, args);
    CommonFormatsAgree(fmt, 0, args, 0);
  }
}
