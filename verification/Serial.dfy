/** The serial driver's output side: a port is the sequence of bytes sent on it
    (kernel/src/drivers/serial.c). */
module Serial {
  import opened Arithmetic
  import opened Ascii
  import opened Machine
  import opened LibcString
  import opened Numerals
  import opened Format

  class Port {
    var sent: seq<bv8>

    constructor ()
      ensures sent == []
    {
      sent := [];
    }

    method Put(a: bv8)
      modifies this
      ensures sent == old(sent) + [a]
    {
      sent := sent + [a];
    }

    method WriteNb(nb: uint32, base: uint8)
      requires CanPrint(nb, base)
      modifies this
      ensures sent == old(sent) + Digits(nb, base)
      decreases nb
    {
      if nb > base {
        DivSmaller(nb, base);
        WriteNb(nb / base, base);
      }
      Put(DIGITS[nb % base]);
    }

    method WriteNbSigned(nb: int32, base: uint8)
      requires base == 10
      requires nb != INT32_MIN  // the negation overflows there
      modifies this
      ensures sent == old(sent) + SignedDigits(nb)
    {
      var magnitude: int := nb;
      if nb < 0 {
        Put(MINUS);
        magnitude := magnitude * -1;
      }
      WriteNb(magnitude, base);
    }

    method WriteStr(str: seq<bv8>)
      requires IsCString(str)
      modifies this
      ensures sent == old(sent) + Expand(Text(str))
    {
      ghost var start := sent;
      var i := 0;
      while str[i] != 0
        invariant 0 <= i <= StrLen(str)
        invariant sent == start + Expand(str[..i])
        decreases StrLen(str) - i
      {
        ghost var before := sent;
        ExpandAppended(str[..i], str[i]);
        ConcatAssociative(start, Expand(str[..i]), ExpandByte(str[i]));
        Put(str[i]);
        if str[i] == LF {
          Put(CR);
        }
        assert sent == before + ExpandByte(str[i]);
        assert str[..i + 1] == str[..i] + [str[i]];
        i := i + 1;
      }
    }

    /** The switch on a directive. */
    method WriteArg(directive: bv8, arg: Arg)
      requires ArgFits(directive, arg)
      modifies this
      ensures sent == old(sent) + ArgOutput(SerialLine, directive, arg)
    {
      if directive == LETTER_S {
        WriteStr(arg.str);
      } else if directive == LETTER_D {
        WriteNbSigned(arg.n, 10);
      } else if directive == LETTER_U {
        WriteNb(arg.u, 10);
      } else {
        WriteNb(arg.u, 16);
      }
    }

    /** `consumed` is how far the argument list has been advanced. */
    method Vprintf(format: seq<bv8>, args: seq<Arg>) returns (ret: int32, consumed: nat)
      requires IsCString(format) && |format| <= TWO_TO_THE_32
      requires Fits(Text(format), args)
      modifies this
      ensures sent == old(sent) + Output(SerialLine, Text(format), args)
      ensures StrLen(format) < 0x8000_0000 ==> ret == StrLen(format)
      ensures (ret - StrLen(format)) % 0x1_0000_0000 == 0
      ensures consumed == |Directives(Text(format))|
    {
      ghost var printed: seq<bv8> := [];
      MidwayStart(SerialLine, format, args);
      var ite: nat := 0;
      consumed := 0;
      while format[ite] != 0
        invariant Midway(SerialLine, format, args, ite, consumed, printed)
        invariant sent == old(sent) + printed
        decreases StrLen(format) - ite
      {
        assert ite + 1 <= StrLen(format);
        if format[ite] == PERCENT && format[ite + 1] != 0 {
          MidwayDirective(SerialLine, format, args, ite, consumed, printed);
          ite := ite + 1;
          printed := printed + ArgOutput(SerialLine, format[ite], args[consumed]);
          WriteArg(format[ite], args[consumed]);
          consumed := consumed + 1;
        } else {
          MidwayLiteral(SerialLine, format, args, ite, consumed, printed);
          printed := printed + [format[ite]];
          Put(format[ite]);
        }
        ite := ite + 1;
      }
      MidwayNul(SerialLine, format, args, ite, consumed, printed);
      ret := ToInt32(ite);
    }
  }
}
