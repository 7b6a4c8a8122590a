/** What the two format interpreters emit: `serial_vprintf`
    (kernel/src/drivers/serial.c) and its twin `vprintf` (libc/src/stdio.c). */
module Format {
  import opened Ascii
  import opened Machine
  import opened LibcString
  import opened Numerals

  lemma ConcatAssociative<T>(a: seq<T>, b: seq<T>, c: seq<T>)
    ensures a + (b + c) == (a + b) + c
  {
  }

  // Line feeds on the serial line

  function ExpandByte(b: bv8): seq<bv8> {
    if b == LF then [LF, CR] else [b]
  }

  /** `text` with a CR after each LF. */
  function Expand(text: seq<bv8>): seq<bv8> {
    if text == [] then [] else Expand(text[..|text| - 1]) + ExpandByte(text[|text| - 1])
  }

  lemma ExpandAppended(text: seq<bv8>, b: bv8)
    ensures Expand(text + [b]) == Expand(text) + ExpandByte(b)
  {
    assert (text + [b])[..|text|] == text;
  }

  /** `sent` without the CR that follows each LF. */
  function DropCr(sent: seq<bv8>): seq<bv8> {
    if |sent| >= 2 && sent[0] == LF && sent[1] == CR then [LF] + DropCr(sent[2..])
    else if sent == [] then []
    else [sent[0]] + DropCr(sent[1..])
  }

  function LineFeeds(text: seq<bv8>): nat {
    if text == [] then 0 else LineFeeds(text[..|text| - 1]) + if text[|text| - 1] == LF then 1 else 0
  }

  lemma {:induction false} ExpandFirst(text: seq<bv8>)
    requires text != []
    ensures Expand(text) == ExpandByte(text[0]) + Expand(text[1..])
    decreases |text|
  {
    if |text| == 1 {
      assert text[..0] == [] && text[1..] == [];
    } else {
      var front, last := text[..|text| - 1], text[|text| - 1];
      ExpandFirst(front);
      assert text[1..][..|text| - 2] == front[1..];
      assert Expand(text[1..]) == Expand(front[1..]) + ExpandByte(last);
      assert Expand(text) == (ExpandByte(text[0]) + Expand(front[1..])) + ExpandByte(last);
    }
  }

  /** 0x0A becomes 0x0A, 0x0D and every other byte stays. */
  lemma ExpandOne(c: bv8)
    ensures Expand([c]) == if c == 0x0A then [0x0A, 0x0D] else [c]
  {
    assert [c][..0] == [];
  }

  /** Expansion goes byte by byte. */
  lemma {:induction false} ExpandConcat(a: seq<bv8>, b: seq<bv8>)
    ensures Expand(a + b) == Expand(a) + Expand(b)
    decreases |b|
  {
    if b == [] {
      assert a + b == a;
    } else {
      var front, last := b[..|b| - 1], b[|b| - 1];
      ExpandConcat(a, front);
      ExpandAppended(a + front, last);
      assert b == front + [last];
      ConcatAssociative(a, front, [last]);
      ConcatAssociative(Expand(a), Expand(front), ExpandByte(last));
    }
  }

  /** Dropping the CR after every LF of what was sent recovers the string, so
      different strings are sent differently. */
  lemma {:induction false} DropCrExpand(text: seq<bv8>)
    ensures DropCr(Expand(text)) == text
    decreases |text|
  {
    if text != [] {
      ExpandFirst(text);
      DropCrExpand(text[1..]);
      var rest := Expand(text[1..]);
      if text[0] == LF {
        assert Expand(text)[2..] == rest;
      } else {
        assert Expand(text)[1..] == rest;
      }
    }
  }

  lemma ExpandInjective(a: seq<bv8>, b: seq<bv8>)
    requires Expand(a) == Expand(b)
    ensures a == b
  {
    DropCrExpand(a);
    DropCrExpand(b);
  }

  /** One byte more is sent for each LF, so the string goes out as it is exactly
      when it holds none. */
  lemma {:induction false} ExpandLength(text: seq<bv8>)
    ensures |Expand(text)| == |text| + LineFeeds(text)
    ensures LineFeeds(text) == 0 <==> LF !in text
    ensures Expand(text) == text <==> LF !in text
    decreases |text|
  {
    if text != [] {
      var front := text[..|text| - 1];
      assert text == front + [text[|text| - 1]];
      ExpandLength(front);
    }
  }

  lemma {:induction false} ExpandKeepsNulFree(text: seq<bv8>)
    requires 0 !in text
    ensures 0 !in Expand(text)
    decreases |text|
  {
    if text != [] {
      ExpandKeepsNulFree(text[..|text| - 1]);
    }
  }

  // Formats and arguments

  /** One entry of the argument list. */
  datatype Arg = StrArg(str: seq<bv8>) | IntArg(n: int32) | UintArg(u: uint32)

  /** The argument has the type the directive takes. */
  predicate ArgFits(directive: bv8, a: Arg) {
    if directive == LETTER_S then a.StrArg? && IsCString(a.str)
    else if directive == LETTER_D then a.IntArg? && a.n != INT32_MIN
    else (directive == LETTER_U || directive == LETTER_X) && a.UintArg?
  }

  /** A directive begins here: a percent sign that is not the last byte. */
  predicate AtDirective(format: seq<bv8>) {
    |format| >= 2 && format[0] == PERCENT
  }

  /** The directive letters of a format, in order. */
  function Directives(format: seq<bv8>): seq<bv8>
    decreases |format|
  {
    if format == [] then []
    else if AtDirective(format) then [format[1]] + Directives(format[2..])
    else Directives(format[1..])
  }

  /** Supported directives only, with an argument of the right type for each. */
  predicate Fits(format: seq<bv8>, args: seq<Arg>) {
    && |Directives(format)| <= |args|
    && forall i :: 0 <= i < |Directives(format)| ==> ArgFits(Directives(format)[i], args[i])
  }

  lemma FitsRest(format: seq<bv8>, args: seq<Arg>)
    requires format != [] && Fits(format, args)
    ensures AtDirective(format) ==>
              args != [] && ArgFits(format[1], args[0]) && Fits(format[2..], args[1..])
    ensures !AtDirective(format) ==> Fits(format[1..], args)
  {
    if AtDirective(format) {
      assert Directives(format)[0] == format[1];
      forall i | 0 <= i < |Directives(format[2..])| ensures ArgFits(Directives(format[2..])[i], args[1..][i]) {
        assert Directives(format)[i + 1] == Directives(format[2..])[i];
      }
    }
  }

  datatype Device = SerialLine | TextScreen

  /** What one argument is printed as. */
  function ArgOutput(device: Device, directive: bv8, a: Arg): seq<bv8>
    requires ArgFits(directive, a)
  {
    match a
    case StrArg(str) => if device == SerialLine then Expand(Text(str)) else Text(str)
    case IntArg(n) => SignedDigits(n)
    case UintArg(u) => Digits(u, if directive == LETTER_U then 10 else 16)
  }

  /** What a whole format is printed as. */
  function Output(device: Device, format: seq<bv8>, args: seq<Arg>): seq<bv8>
    requires Fits(format, args)
    decreases |format|
  {
    if format == [] then [] else
    FitsRest(format, args);
    if AtDirective(format) then
      ArgOutput(device, format[1], args[0]) + Output(device, format[2..], args[1..])
    else [format[0]] + Output(device, format[1..], args)
  }

  /** A format of one byte, even a percent sign, prints that byte. */
  lemma LoneByte(b: bv8, device: Device)
    ensures Fits([b], []) && Output(device, [b], []) == [b]
  {
    assert [b][1..] == [];
    assert Directives([b]) == [];
  }

  /** A format of a percent sign (0x25) and one letter: which letters are supported,
      with which arguments, and what they print. */
  lemma LoneDirective(letter: bv8, a: Arg, device: Device)
    ensures Fits([0x25, letter], [a])
       <==> || (letter == 0x73 && a.StrArg? && 0 in a.str)
            || (letter == 0x64 && a.IntArg? && a.n != -0x8000_0000)
            || ((letter == 0x75 || letter == 0x78) && a.UintArg?)
    ensures letter == 0x73 && a.StrArg? && 0 in a.str ==>
              Output(device, [0x25, letter], [a]) == if device.TextScreen? then Text(a.str) else Expand(Text(a.str))
    ensures letter == 0x64 && a.IntArg? && a.n != -0x8000_0000 ==>
              Output(device, [0x25, letter], [a]) == SignedDigits(a.n)
    ensures letter == 0x75 && a.UintArg? ==> Output(device, [0x25, letter], [a]) == Digits(a.u, 10)
    ensures letter == 0x78 && a.UintArg? ==> Output(device, [0x25, letter], [a]) == Digits(a.u, 16)
  {
    var format, args := [0x25, letter], [a];
    assert format[2..] == [] && args[1..] == [];
    assert Directives(format) == [letter];
    if Fits(format, args) {
      assert ArgFits(Directives(format)[0], args[0]);
      assert Output(device, format, args) == ArgOutput(device, letter, a);
    }
  }

  /** `%u` prints a number in base 10 and `%x` in base 16, and `%d` a signed number in
      base 10: each decodes to its argument exactly when the number printer does so. */
  lemma NumberDirectivesDecode(u: uint32, n: int32, device: Device)
    requires n != -0x8000_0000
    ensures Fits([0x25, 0x75], [UintArg(u)]) && Fits([0x25, 0x78], [UintArg(u)]) && Fits([0x25, 0x64], [IntArg(n)])
    ensures Value(Output(device, [0x25, 0x75], [UintArg(u)]), 10) == u
       <==> forall k: nat :: !StopsEarlyAt(u, 10, k)
    ensures Value(Output(device, [0x25, 0x78], [UintArg(u)]), 16) == u
       <==> forall k: nat :: !StopsEarlyAt(u, 16, k)
    ensures var magnitude := if n < 0 then 0 - n else n;
            && (SignedValue(Output(device, [0x25, 0x64], [IntArg(n)])) == n
                <==> forall k: nat :: !StopsEarlyAt(magnitude, 10, k))
  {
    LoneDirective(0x75, UintArg(u), device);
    LoneDirective(0x78, UintArg(u), device);
    LoneDirective(0x64, IntArg(n), device);
    DigitsDecodeIff(u, 10);
    DigitsDecodeIff(u, 16);
    SignedDigitsDecodeIff(n);
  }

  // How the two devices differ

  /** The argument with a CR put after each LF of a string; numbers are as they were. */
  function ExpandArg(a: Arg): Arg {
    if a.StrArg? && IsCString(a.str) then StrArg(Expand(Text(a.str)) + [0]) else a
  }

  function ExpandArgs(args: seq<Arg>): (r: seq<Arg>)
    ensures |r| == |args|
  {
    seq(|args|, i requires 0 <= i < |args| => ExpandArg(args[i]))
  }

  lemma ArgDifference(directive: bv8, a: Arg)
    requires ArgFits(directive, a)
    ensures ArgFits(directive, ExpandArg(a))
    ensures ArgOutput(SerialLine, directive, a) == ArgOutput(TextScreen, directive, ExpandArg(a))
  {
    if a.StrArg? {
      ExpandKeepsNulFree(Text(a.str));
      TextTerminated(Expand(Text(a.str)), []);
      assert Expand(Text(a.str)) + [0] + [] == Expand(Text(a.str)) + [0];
    }
  }

  lemma ExpandArgsFit(format: seq<bv8>, args: seq<Arg>)
    requires Fits(format, args)
    ensures Fits(format, ExpandArgs(args))
  {
    forall i | 0 <= i < |Directives(format)| ensures ArgFits(Directives(format)[i], ExpandArgs(args)[i]) {
      ArgDifference(Directives(format)[i], args[i]);
    }
  }

  /** The serial line gets what the screen would get if a CR stood after each LF of
      the string arguments: none is added to a LF of the format itself. */
  lemma {:induction false} SerialIsScreenOfExpanded(format: seq<bv8>, args: seq<Arg>)
    requires Fits(format, args)
    ensures Fits(format, ExpandArgs(args))
    ensures Output(SerialLine, format, args) == Output(TextScreen, format, ExpandArgs(args))
    decreases |format|
  {
    ExpandArgsFit(format, args);
    if format != [] {
      FitsRest(format, args);
      if AtDirective(format) {
        ArgDifference(format[1], args[0]);
        SerialIsScreenOfExpanded(format[2..], args[1..]);
        assert ExpandArgs(args)[1..] == ExpandArgs(args[1..]);
      } else {
        SerialIsScreenOfExpanded(format[1..], args);
      }
    }
  }

  /** Line feeds in the string arguments a format uses. */
  function ArgLineFeeds(format: seq<bv8>, args: seq<Arg>): nat
    requires Fits(format, args)
    decreases |format|
  {
    if format == [] then 0 else
    FitsRest(format, args);
    if AtDirective(format) then
      (if args[0].StrArg? then LineFeeds(Text(args[0].str)) else 0) + ArgLineFeeds(format[2..], args[1..])
    else ArgLineFeeds(format[1..], args)
  }

  /** The serial line gets one byte more for each LF of the string arguments used, and
      the very bytes of the screen exactly when there is none. */
  lemma {:induction false} SameOutputIff(format: seq<bv8>, args: seq<Arg>)
    requires Fits(format, args)
    ensures |Output(SerialLine, format, args)| == |Output(TextScreen, format, args)| + ArgLineFeeds(format, args)
    ensures Output(SerialLine, format, args) == Output(TextScreen, format, args) <==> ArgLineFeeds(format, args) == 0
    decreases |format|
  {
    if format != [] {
      if AtDirective(format) {
        SameOutputIff(format[2..], args[1..]);
        if args[0].StrArg? {
          ExpandLength(Text(args[0].str));
        }
      } else {
        SameOutputIff(format[1..], args);
      }
    }
  }

  /** The arguments are used one per directive, from the left; what follows them in
      the list is not looked at. */
  lemma {:induction false} OneArgumentPerDirective(format: seq<bv8>, args: seq<Arg>, more: seq<Arg>, device: Device)
    requires Fits(format, args) && |Directives(format)| == |args|
    ensures Fits(format, args + more)
    ensures Output(device, format, args + more) == Output(device, format, args)
    decreases |format|
  {
    if format != [] {
      if AtDirective(format) {
        OneArgumentPerDirective(format[2..], args[1..], more, device);
        assert (args + more)[1..] == args[1..] + more;
      } else {
        OneArgumentPerDirective(format[1..], args, more, device);
      }
    }
  }

  /** The last byte of the format is a percent sign that begins no directive. */
  predicate EndsInLonePercent(format: seq<bv8>)
    decreases |format|
  {
    if |format| < 2 then format == [PERCENT]
    else if AtDirective(format) then EndsInLonePercent(format[2..])
    else EndsInLonePercent(format[1..])
  }

  lemma SplitFirst<T>(a: seq<T>, n: nat)
    requires n <= |a|
    ensures a == a[..n] + a[n..]
  {
  }

  lemma OutputDirective(directive: bv8, rest: seq<bv8>, a: Arg, args: seq<Arg>, device: Device)
    requires ArgFits(directive, a) && Fits(rest, args)
    ensures Fits([PERCENT, directive] + rest, [a] + args)
    ensures Output(device, [PERCENT, directive] + rest, [a] + args)
         == ArgOutput(device, directive, a) + Output(device, rest, args)
  {
    assert ([PERCENT, directive] + rest)[2..] == rest && ([a] + args)[1..] == args;
  }

  lemma OutputLiteral(b: bv8, rest: seq<bv8>, args: seq<Arg>, device: Device)
    requires (b != PERCENT || rest == []) && Fits(rest, args)
    ensures Fits([b] + rest, args)
    ensures Output(device, [b] + rest, args) == [b] + Output(device, rest, args)
  {
    assert ([b] + rest)[1..] == rest;
  }

  /** The output of `f` followed by `g` is that of the two. */
  ghost predicate Concatenates(f: seq<bv8>, args: seq<Arg>, g: seq<bv8>, more: seq<Arg>, device: Device) {
    && Fits(f, args) && Fits(g, more) && Fits(f + g, args + more)
    && Output(device, f + g, args + more) == Output(device, f, args) + Output(device, g, more)
  }

  lemma ConcatenatesDirective(directive: bv8, rest: seq<bv8>, a: Arg, args: seq<Arg>,
                              g: seq<bv8>, more: seq<Arg>, device: Device)
    requires ArgFits(directive, a) && Concatenates(rest, args, g, more, device)
    ensures Concatenates([PERCENT, directive] + rest, [a] + args, g, more, device)
  {
    var first := [PERCENT, directive];
    OutputDirective(directive, rest, a, args, device);
    OutputDirective(directive, rest + g, a, args + more, device);
    ConcatAssociative(first, rest, g);
    ConcatAssociative([a], args, more);
    ConcatAssociative(ArgOutput(device, directive, a), Output(device, rest, args), Output(device, g, more));
  }

  lemma ConcatenatesLiteral(b: bv8, rest: seq<bv8>, args: seq<Arg>, g: seq<bv8>, more: seq<Arg>, device: Device)
    requires b != PERCENT && Concatenates(rest, args, g, more, device)
    ensures Concatenates([b] + rest, args, g, more, device)
  {
    OutputLiteral(b, rest, args, device);
    OutputLiteral(b, rest + g, args + more, device);
    ConcatAssociative([b], rest, g);
    ConcatAssociative([b], Output(device, rest, args), Output(device, g, more));
  }

  /** A format that does not end in a lone percent sign, followed by another, prints what
      the two print one after the other, with the arguments of the first before those
      of the second. */
  lemma {:induction false} OutputConcat(f: seq<bv8>, args: seq<Arg>, g: seq<bv8>, more: seq<Arg>, device: Device)
    requires Fits(f, args) && |Directives(f)| == |args| && !EndsInLonePercent(f)
    requires Fits(g, more)
    ensures Concatenates(f, args, g, more, device)
    decreases |f|
  {
    if f == [] {
      assert f + g == g && args + more == more;
    } else if AtDirective(f) {
      OutputConcat(f[2..], args[1..], g, more, device);
      SplitFirst(f, 2);
      SplitFirst(args, 1);
      assert f[..2] == [PERCENT, f[1]] && args[..1] == [args[0]];
      ConcatenatesDirective(f[1], f[2..], args[0], args[1..], g, more, device);
    } else {
      assert |f| == 1 ==> f[1..] == [];
      OutputConcat(f[1..], args, g, more, device);
      SplitFirst(f, 1);
      assert f[..1] == [f[0]];
      ConcatenatesLiteral(f[0], f[1..], args, g, more, device);
    }
  }

  /** A lone percent sign takes the first byte of what follows for a directive. */
  lemma {:induction false} LonePercentTakesByte(f: seq<bv8>, g: seq<bv8>)
    requires EndsInLonePercent(f) && g != []
    ensures Directives(f + g) == Directives(f) + [g[0]] + Directives(g[1..])
    decreases |f|
  {
    if |f| < 2 {
      assert (f + g)[2..] == g[1..] && f[1..] == [];
    } else if AtDirective(f) {
      LonePercentTakesByte(f[2..], g);
      assert (f + g)[2..] == f[2..] + g;
    } else {
      LonePercentTakesByte(f[1..], g);
      assert (f + g)[1..] == f[1..] + g;
    }
  }

  /** With exactly the arguments of the second format, that leaves one directive too
      many or makes a percent sign a directive. */
  lemma LonePercentDoesNotFit(f: seq<bv8>, args: seq<Arg>, g: seq<bv8>, more: seq<Arg>)
    requires EndsInLonePercent(f) && g != []
    requires |Directives(f)| == |args| && |Directives(g)| == |more|
    ensures !Fits(f + g, args + more)
  {
    LonePercentTakesByte(f, g);
    if AtDirective(g) {
      assert Directives(f + g)[|args|] == PERCENT;
    } else {
      assert Directives(g) == Directives(g[1..]);
    }
  }

  /** Two formats in one, each with exactly its arguments, print what the two print one
      after the other if and only if the first does not end in a lone percent sign or
      the second is empty. */
  lemma OutputConcatIff(f: seq<bv8>, args: seq<Arg>, g: seq<bv8>, more: seq<Arg>, device: Device)
    requires Fits(f, args) && |Directives(f)| == |args|
    requires Fits(g, more) && |Directives(g)| == |more|
    ensures Concatenates(f, args, g, more, device) <==> !EndsInLonePercent(f) || g == []
  {
    if !EndsInLonePercent(f) {
      OutputConcat(f, args, g, more, device);
    } else if g == [] {
      assert f + g == f && args + more == args;
    } else {
      LonePercentDoesNotFit(f, args, g, more);
    }
  }

  /** "%" and then "d" print "%d"; "%d" in one takes an argument and prints a number. */
  lemma PercentThenD(device: Device)
    ensures var f, g := [PERCENT], [LETTER_D];
            && Fits(f, []) && Fits(g, []) && Output(device, f, []) + Output(device, g, []) == [PERCENT, LETTER_D]
            && !Fits(f + g, [])
            && Fits(f + g, [IntArg(7)]) && Output(device, f + g, [IntArg(7)]) == [0x37]
  {
    var f, g := [PERCENT], [LETTER_D];
    assert f[1..] == [] && g[1..] == [] && (f + g)[2..] == [];
    assert Directives(f + g) == [LETTER_D];
    assert Digits(7, 10) == [DIGITS[7]];
    assert [IntArg(7)][1..] == [];
  }

  /** A percent sign at the end of a format is printed as itself. */
  lemma TrailingPercent(format: seq<bv8>, args: seq<Arg>, device: Device)
    requires Fits(format, args) && |Directives(format)| == |args| && !EndsInLonePercent(format)
    ensures Fits(format + [PERCENT], args)
    ensures Output(device, format + [PERCENT], args) == Output(device, format, args) + [PERCENT]
  {
    assert [PERCENT][1..] == [];
    assert Output(device, [PERCENT], []) == [PERCENT];
    OutputConcat(format, args, [PERCENT], [], device);
    assert args + [] == args;
  }

  // The interpreter's loop

  /** The interpreter has read `ite` bytes of the format and `consumed` arguments, and
      has printed `printed`. */
  ghost predicate Midway(device: Device, format: seq<bv8>, args: seq<Arg>, ite: nat, consumed: nat, printed: seq<bv8>)
    requires IsCString(format) && Fits(Text(format), args)
  {
    && ite <= StrLen(format) && consumed <= |args|
    && Fits(Text(format)[ite..], args[consumed..])
    && printed + Output(device, Text(format)[ite..], args[consumed..]) == Output(device, Text(format), args)
    && consumed + |Directives(Text(format)[ite..])| == |Directives(Text(format))|
  }

  lemma MidwayStart(device: Device, format: seq<bv8>, args: seq<Arg>)
    requires IsCString(format) && Fits(Text(format), args)
    ensures Midway(device, format, args, 0, 0, [])
  {
    assert Text(format)[0..] == Text(format) && args[0..] == args;
  }

  lemma MidwayNul(device: Device, format: seq<bv8>, args: seq<Arg>, ite: nat, consumed: nat, printed: seq<bv8>)
    requires IsCString(format) && Fits(Text(format), args)
    requires Midway(device, format, args, ite, consumed, printed) && format[ite] == 0
    ensures ite == StrLen(format) && consumed == |Directives(Text(format))|
    ensures printed == Output(device, Text(format), args)
  {
    assert Text(format)[StrLen(format)..] == [];
  }

  lemma MidwayDirective(device: Device, format: seq<bv8>, args: seq<Arg>, ite: nat, consumed: nat, printed: seq<bv8>)
    requires IsCString(format) && Fits(Text(format), args)
    requires Midway(device, format, args, ite, consumed, printed)
    requires format[ite] == PERCENT && format[ite + 1] != 0
    ensures consumed < |args| && ArgFits(format[ite + 1], args[consumed])
    ensures Midway(device, format, args, ite + 2, consumed + 1,
                   printed + ArgOutput(device, format[ite + 1], args[consumed]))
  {
    var rest, remaining := Text(format)[ite..], args[consumed..];
    assert AtDirective(rest);
    assert rest[1] == format[ite + 1] && remaining[0] == args[consumed];
    assert rest[2..] == Text(format)[ite + 2..] && remaining[1..] == args[consumed + 1..];
    ConcatAssociative(printed, ArgOutput(device, rest[1], remaining[0]), Output(device, rest[2..], remaining[1..]));
  }

  lemma MidwayLiteral(device: Device, format: seq<bv8>, args: seq<Arg>, ite: nat, consumed: nat, printed: seq<bv8>)
    requires IsCString(format) && Fits(Text(format), args)
    requires Midway(device, format, args, ite, consumed, printed)
    requires format[ite] != 0 && !(format[ite] == PERCENT && format[ite + 1] != 0)
    ensures Midway(device, format, args, ite + 1, consumed, printed + [format[ite]])
  {
    var rest := Text(format)[ite..];
    assert !AtDirective(rest) && rest[0] == format[ite];
    assert rest[1..] == Text(format)[ite + 1..];
    ConcatAssociative(printed, [format[ite]], Output(device, rest[1..], args[consumed..]));
  }
}
