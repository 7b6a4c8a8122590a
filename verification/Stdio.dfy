/** `vprintf` of the repository's libc, which prints to the screen (libc/src/stdio.c). */
module Stdio {
  import opened Ascii
  import opened Machine
  import opened LibcString
  import opened Format
  import Terminal
  import Vga

  /** What is printed shows as the last 25 rows of the terminal that never scrolls. */
  lemma PrintedShows(s: Terminal.Screen, t: Terminal.Tape, format: seq<bv8>, args: seq<Arg>)
    requires Terminal.Shows(s, t) && IsCString(format) && Fits(Text(format), args)
    ensures var printed := Output(TextScreen, Text(format), args);
            Terminal.Shows(Terminal.PutAll(s, printed), Terminal.TapeAll(t, Terminal.Bytes(printed)))
  {
    var printed := Output(TextScreen, Text(format), args);
    Terminal.PutAllIsDoAll(s, printed);
    Terminal.StreamRefines(s, t, Terminal.Bytes(printed));
  }

  /** The switch on a directive. */
  method WriteArg(screen: Vga.TextMode, directive: bv8, arg: Arg)
    requires screen.Valid() && ArgFits(directive, arg)
    modifies screen, screen.memory
    ensures screen.Valid() && (old(screen.CursorShown()) ==> screen.CursorShown())
    ensures screen.View() == Terminal.PutAll(old(screen.View()), ArgOutput(TextScreen, directive, arg))
  {
    if directive == LETTER_S {
      screen.WriteStr(arg.str);
    } else if directive == LETTER_D {
      screen.WriteNbSigned(arg.n, 10);
    } else if directive == LETTER_U {
      screen.WriteNb(arg.u, 10);
    } else {
      screen.WriteNb(arg.u, 16);
    }
  }

  method Vprintf(screen: Vga.TextMode, format: seq<bv8>, args: seq<Arg>) returns (ret: int32, consumed: nat)
    requires screen.Valid()
    requires IsCString(format) && |format| <= TWO_TO_THE_32
    requires Fits(Text(format), args)
    modifies screen, screen.memory
    ensures screen.Valid() && (old(screen.CursorShown()) ==> screen.CursorShown())
    ensures screen.View() == Terminal.PutAll(old(screen.View()), Output(TextScreen, Text(format), args))
    ensures StrLen(format) < 0x8000_0000 ==> ret == StrLen(format)
    ensures (ret - StrLen(format)) % 0x1_0000_0000 == 0
    ensures consumed == |Directives(Text(format))|
  {
    ghost var start := screen.View();
    ghost var printed: seq<bv8> := [];
    MidwayStart(TextScreen, format, args);
    var ite: nat := 0;
    consumed := 0;
    while format[ite] != 0
      invariant Midway(TextScreen, format, args, ite, consumed, printed)
      invariant screen.Valid() && (old(screen.CursorShown()) ==> screen.CursorShown())
      invariant screen.View() == Terminal.PutAll(start, printed)
      decreases StrLen(format) - ite
    {
      ghost var piece: seq<bv8>;
      assert ite + 1 <= StrLen(format);
      if format[ite] == PERCENT && format[ite + 1] != 0 {
        MidwayDirective(TextScreen, format, args, ite, consumed, printed);
        ite := ite + 1;
        piece := ArgOutput(TextScreen, format[ite], args[consumed]);
        WriteArg(screen, format[ite], args[consumed]);
        consumed := consumed + 1;
      } else {
        MidwayLiteral(TextScreen, format, args, ite, consumed, printed);
        piece := [format[ite]];
        Terminal.PutOne(screen.View(), format[ite]);
        screen.Put(format[ite]);
      }
      Terminal.PutAllConcat(start, printed, piece);
      printed := printed + piece;
      ite := ite + 1;
    }
    MidwayNul(TextScreen, format, args, ite, consumed, printed);
    ret := ToInt32(ite);
  }
}
