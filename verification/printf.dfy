/**
 * The kernel's `printf`: a single left-to-right pass over the format that
 * copies ordinary characters, and on '%' looks at the next character to
 * pick a conversion ('c', 's', 'd', 'x') that consumes the next variadic
 * argument.  Any other character after '%' is echoed together with the
 * '%' and consumes nothing.
 *
 * The output is the sequence of calls `printf` makes to the C library's
 * `putchar` and `puts`.  The body of `puts` is not part of this model, so
 * a `puts` call is recorded with the characters of the string it was
 * handed rather than expanded.  The variadic arguments are a sequence of
 * `Arg` values, one per consuming conversion, in order.
 */
module Printf {

  import opened Itoa

  /** One variadic argument, in the type its conversion reads it as. */
  datatype Arg =
    | CharArg(c: char)       // %c: an int passed on to putchar
    | StrArg(s: seq<char>)   // %s: a NUL-terminated string, without its NUL
    | IntArg(i: int)         // %d: a signed 32-bit int
    | UIntArg(u: int)        // %x: an unsigned 32-bit int

  /** One call `printf` makes to write output. */
  datatype Output = PutChar(c: char) | Puts(s: seq<char>)

  /** A format string, read as a list of directives. */
  datatype Directive = Literal(c: char) | Conversion(spec: char)

  /** The conversions that consume an argument; every other one only echoes. */
  predicate Consumes(spec: char)
  {
    spec == 'c' || spec == 's' || spec == 'd' || spec == 'x'
  }

  /**
   * A format the C loop can walk without stepping past its terminator: the
   * `c++` after a '%' must land on a character, so a format may not end in
   * a '%' that opens a conversion.  The format holds the characters before
   * the terminating NUL.
   */
  predicate WellTerminated(fmt: seq<char>)
    decreases |fmt|
  {
    if fmt == [] then true
    else if fmt[0] == '\0' then false
    else if fmt[0] != '%' then WellTerminated(fmt[1..])
    else 2 <= |fmt| && fmt[1] != '\0' && WellTerminated(fmt[2..])
  }

  function Parse(fmt: seq<char>): seq<Directive>
    requires WellTerminated(fmt)
    decreases |fmt|
  {
    if fmt == [] then []
    else if fmt[0] != '%' then [Literal(fmt[0])] + Parse(fmt[1..])
    else [Conversion(fmt[1])] + Parse(fmt[2..])
  }

  function Unparse(ds: seq<Directive>): seq<char>
  {
    if ds == [] then []
    else match ds[0]
      case Literal(c) => [c] + Unparse(ds[1..])
      case Conversion(spec) => ['%', spec] + Unparse(ds[1..])
  }

  /** How many arguments a directive list consumes. */
  function ArgCount(ds: seq<Directive>): nat
  {
    if ds == [] then 0
    else (if ds[0].Conversion? && Consumes(ds[0].spec) then 1 else 0) + ArgCount(ds[1..])
  }

  /** The argument a conversion reads has the type it reads it as, and `itoa` can convert it. */
  predicate ArgFits(spec: char, a: Arg)
  {
    if spec == 'c' then a.CharArg?
    else if spec == 's' then a.StrArg?
    else if spec == 'd' then a.IntArg? && IsInt32(a.i) && a.i != INT_MIN
    else if spec == 'x' then a.UIntArg? && IsUint32(a.u)
    else true
  }

  /** There is a fitting argument for every consuming conversion, in order; extra ones are ignored. */
  predicate ArgsFit(ds: seq<Directive>, args: seq<Arg>)
  {
    if ds == [] then true
    else if ds[0].Conversion? && Consumes(ds[0].spec) then
      |args| > 0 && ArgFits(ds[0].spec, args[0]) && ArgsFit(ds[1..], args[1..])
    else ArgsFit(ds[1..], args)
  }

  /** The characters one consuming conversion emits. */
  function Emit(spec: char, a: Arg): seq<Output>
    requires Consumes(spec) && ArgFits(spec, a)
  {
    if spec == 'c' then [PutChar(a.c)]
    else if spec == 's' then [Puts(a.s)]
    else if spec == 'd' then [Puts(SignedText(a.i, 10))]
    else [Puts(UnsignedText(a.u, 16))]
  }

  /** The output of a directive list: the reference the C loop is measured against. */
  function Render(ds: seq<Directive>, args: seq<Arg>): seq<Output>
    requires ArgsFit(ds, args)
  {
    if ds == [] then []
    else match ds[0]
      case Literal(c) => [PutChar(c)] + Render(ds[1..], args)
      case Conversion(spec) =>
        if Consumes(spec) then Emit(spec, args[0]) + Render(ds[1..], args[1..])
        else [PutChar('%'), PutChar(spec)] + Render(ds[1..], args)
  }

  /**
   * `printf(format, ...)`, loop for loop: `i` walks the format, `k` the
   * arguments, and the 32-byte buffer is filled by `itoa` or `itoal`
   * before it is handed to `puts`.
   */
  method Printf(fmt: seq<char>, args: seq<Arg>) returns (out: seq<Output>)
    requires WellTerminated(fmt)
    requires ArgsFit(Parse(fmt), args)
    ensures out == Render(Parse(fmt), args)
  {
    out := [];
    var i := 0;
    var k := 0;
    while i < |fmt|
      invariant 0 <= i <= |fmt| && 0 <= k <= |args|
      invariant WellTerminated(fmt[i..])
      invariant ArgsFit(Parse(fmt[i..]), args[k..])
      invariant Render(Parse(fmt), args) == out + Render(Parse(fmt[i..]), args[k..])
      decreases |fmt| - i
    {
      out, i, k := Step(fmt, args, out, i, k);
    }
  }

  /** One pass of the loop body: an ordinary character, or '%' and its conversion. */
  method Step(fmt: seq<char>, args: seq<Arg>, out: seq<Output>, i: nat, k: nat)
    returns (out': seq<Output>, i': nat, k': nat)
    requires i < |fmt| && k <= |args|
    requires WellTerminated(fmt[i..]) && ArgsFit(Parse(fmt[i..]), args[k..])
    ensures i < i' <= |fmt| && k <= k' <= |args|
    ensures WellTerminated(fmt[i'..]) && ArgsFit(Parse(fmt[i'..]), args[k'..])
    ensures out + Render(Parse(fmt[i..]), args[k..]) == out' + Render(Parse(fmt[i'..]), args[k'..])
  {
    if fmt[i] != '%' {
      LiteralStep(fmt, i, args, k);
      out', i', k' := out + [PutChar(fmt[i])], i + 1, k;
    } else {
      // `c++` onto the conversion character, then the loop's own `c++`.
      ConversionStep(fmt, i, args, k);
      var piece;
      piece, k' := Convert(fmt[i + 1], args, k);
      out', i' := out + piece, i + 2;
    }
  }

  /** The `switch` on the character after '%': what it emits and where the argument cursor ends. */
  method Convert(spec: char, args: seq<Arg>, k: nat) returns (piece: seq<Output>, k': nat)
    requires Consumes(spec) ==> k < |args| && ArgFits(spec, args[k])
    ensures Consumes(spec) ==> k' == k + 1 && piece == Emit(spec, args[k])
    ensures !Consumes(spec) ==> k' == k && piece == [PutChar('%'), PutChar(spec)]
  {
    k' := k + 1;
    if spec == 'c' {
      piece := [PutChar(args[k].c)];
    } else if spec == 's' {
      piece := [Puts(args[k].s)];
    } else if spec == 'd' {
      var buffer := Itoa.Itoa(args[k].i, 10);
      piece := [Puts(buffer[..|buffer| - 1])];
    } else if spec == 'x' {
      var buffer := Itoa.Itoal(args[k].u, 16);
      piece := [Puts(buffer[..|buffer| - 1])];
    } else {
      piece := [PutChar('%'), PutChar(spec)];
      k' := k;
    }
  }

  /** One step of the C loop over an ordinary character. */
  lemma LiteralStep(fmt: seq<char>, i: nat, args: seq<Arg>, k: nat)
    requires i < |fmt| && k <= |args| && fmt[i] != '%'
    requires WellTerminated(fmt[i..]) && ArgsFit(Parse(fmt[i..]), args[k..])
    ensures WellTerminated(fmt[i + 1..]) && ArgsFit(Parse(fmt[i + 1..]), args[k..])
    ensures Render(Parse(fmt[i..]), args[k..]) == [PutChar(fmt[i])] + Render(Parse(fmt[i + 1..]), args[k..])
  {
    assert fmt[i..][1..] == fmt[i + 1..];
  }

  /** One step of the C loop over a '%' and the character after it. */
  lemma ConversionStep(fmt: seq<char>, i: nat, args: seq<Arg>, k: nat)
    requires i < |fmt| && k <= |args| && fmt[i] == '%'
    requires WellTerminated(fmt[i..]) && ArgsFit(Parse(fmt[i..]), args[k..])
    ensures i + 1 < |fmt| && WellTerminated(fmt[i + 2..])
    ensures Consumes(fmt[i + 1]) ==>
      && k < |args| && ArgFits(fmt[i + 1], args[k])
      && ArgsFit(Parse(fmt[i + 2..]), args[k + 1..])
      && Render(Parse(fmt[i..]), args[k..]) == Emit(fmt[i + 1], args[k]) + Render(Parse(fmt[i + 2..]), args[k + 1..])
    ensures !Consumes(fmt[i + 1]) ==>
      && ArgsFit(Parse(fmt[i + 2..]), args[k..])
      && Render(Parse(fmt[i..]), args[k..]) == [PutChar('%'), PutChar(fmt[i + 1])] + Render(Parse(fmt[i + 2..]), args[k..])
  {
    assert fmt[i..][2..] == fmt[i + 2..];
    if k < |args| {
      assert args[k..][1..] == args[k + 1..];
    }
  }

  // ---------------------------------------------------------------------
  // Properties.

  /** Parsing loses nothing: the directives spell the format again. */
  lemma {:induction false} ParseUnparse(fmt: seq<char>)
    requires WellTerminated(fmt)
    ensures Unparse(Parse(fmt)) == fmt
    decreases |fmt|
  {
    if fmt != [] {
      if fmt[0] != '%' {
        ParseUnparse(fmt[1..]);
      } else {
        ParseUnparse(fmt[2..]);
        assert fmt == ['%', fmt[1]] + fmt[2..];
      }
    }
  }

  /** `putchar` of every character of `s`, in order. */
  function PutChars(s: seq<char>): (out: seq<Output>)
    ensures |out| == |s|
  {
    seq(|s|, i requires 0 <= i < |s| => PutChar(s[i]))
  }

  /** A format without '%' is printed verbatim, whatever the arguments. */
  lemma {:induction false} LiteralsVerbatim(fmt: seq<char>, args: seq<Arg>)
    requires WellTerminated(fmt) && '%' !in fmt
    ensures ArgCount(Parse(fmt)) == 0
    ensures ArgsFit(Parse(fmt), args)
    ensures Render(Parse(fmt), args) == PutChars(fmt)
    decreases |fmt|
  {
    if fmt != [] {
      assert '%' !in fmt[1..];
      LiteralsVerbatim(fmt[1..], args);
      assert PutChars(fmt) == [PutChar(fmt[0])] + PutChars(fmt[1..]);
    }
  }

  /** The first part of a format reads from the front of the arguments, the rest from what follows. */
  lemma {:induction false} ArgsFitAppend(ds1: seq<Directive>, ds2: seq<Directive>, args: seq<Arg>)
    requires ArgsFit(ds1 + ds2, args)
    ensures ArgCount(ds1) <= |args|
    ensures ArgsFit(ds1, args) && ArgsFit(ds2, args[ArgCount(ds1)..])
    decreases |ds1|
  {
    if ds1 == [] {
      assert ds1 + ds2 == ds2;
    } else {
      var d := ds1[0];
      assert (ds1 + ds2)[0] == d && (ds1 + ds2)[1..] == ds1[1..] + ds2;
      if d.Conversion? && Consumes(d.spec) {
        ArgsFitAppend(ds1[1..], ds2, args[1..]);
        assert args[1..][ArgCount(ds1[1..])..] == args[ArgCount(ds1)..];
      } else {
        ArgsFitAppend(ds1[1..], ds2, args);
      }
    }
  }

  /**
   * Arguments are consumed in order: the output of two formats in a row is
   * the first one's output followed by the second one's, read from the
   * arguments after the `ArgCount` ones the first part consumed.
   */
  lemma RenderAppend(ds1: seq<Directive>, ds2: seq<Directive>, args: seq<Arg>)
    requires ArgsFit(ds1 + ds2, args)
    ensures ArgCount(ds1) <= |args|
    ensures ArgsFit(ds1, args) && ArgsFit(ds2, args[ArgCount(ds1)..])
    ensures Render(ds1 + ds2, args) == Render(ds1, args) + Render(ds2, args[ArgCount(ds1)..])
  {
    ArgsFitAppend(ds1, ds2, args);
    RenderAppendFit(ds1, ds2, args);
  }

  /** `RenderAppend` once the arguments are known to fit both parts. */
  lemma {:induction false} RenderAppendFit(ds1: seq<Directive>, ds2: seq<Directive>, args: seq<Arg>)
    requires ArgsFit(ds1 + ds2, args) && ArgsFit(ds1, args)
    requires ArgCount(ds1) <= |args| && ArgsFit(ds2, args[ArgCount(ds1)..])
    ensures Render(ds1 + ds2, args) == Render(ds1, args) + Render(ds2, args[ArgCount(ds1)..])
    decreases |ds1|
  {
    var rest := args[ArgCount(ds1)..];
    if ds1 == [] {
      assert ds1 + ds2 == ds2 && rest == args;
      assert Render(ds1, args) + Render(ds2, args) == Render(ds2, args);
    } else {
      var d := ds1[0];
      var u := Used(d);
      assert (ds1 + ds2)[0] == d && (ds1 + ds2)[1..] == ds1[1..] + ds2;
      RenderHead(ds1 + ds2, args);
      RenderHead(ds1, args);
      assert args[u..][ArgCount(ds1[1..])..] == rest;
      RenderAppendFit(ds1[1..], ds2, args[u..]);
      AppendAssociative(Out(d, args), Render(ds1[1..], args[u..]), Render(ds2, rest));
    }
  }


  /** How many arguments one directive consumes. */
  function Used(d: Directive): nat
  {
    if d.Conversion? && Consumes(d.spec) then 1 else 0
  }

  /** What one directive prints, reading its argument, if any, from the front of `args`. */
  function Out(d: Directive, args: seq<Arg>): seq<Output>
    requires Used(d) <= |args|
    requires Used(d) == 1 ==> ArgFits(d.spec, args[0])
  {
    match d
      case Literal(c) => [PutChar(c)]
      case Conversion(spec) =>
        if Consumes(spec) then Emit(spec, args[0]) else [PutChar('%'), PutChar(spec)]
  }

  /** The output of a directive list is its first directive's followed by the rest's. */
  lemma RenderHead(ds: seq<Directive>, args: seq<Arg>)
    requires ds != [] && ArgsFit(ds, args)
    ensures Used(ds[0]) <= |args| && (Used(ds[0]) == 1 ==> ArgFits(ds[0].spec, args[0]))
    ensures ArgCount(ds) == Used(ds[0]) + ArgCount(ds[1..])
    ensures ArgsFit(ds[1..], args[Used(ds[0])..])
    ensures Render(ds, args) == Out(ds[0], args) + Render(ds[1..], args[Used(ds[0])..])
  {
  }




  /** "%c" hands its argument to `putchar`, "%s" hands its string to `puts`, both unchanged. */
  lemma CharAndStringConversions(c: char, s: seq<char>)
    ensures Render(Parse("%c"), [CharArg(c)]) == [PutChar(c)]
    ensures Render(Parse("%s"), [StrArg(s)]) == [Puts(s)]
  {
    assert "%c"[2..] == [];
    assert "%s"[2..] == [];
  }

  /**
   * "%x" of any 32-bit value makes one `puts` call with exactly "0x" and eight upper-case
   * hexadecimal digits that read back as the value.
   */
  lemma HexConversion(u: int)
    requires IsUint32(u)
    ensures Render(Parse("%x"), [UIntArg(u)]) == [Puts(UnsignedText(u, 16))]
    ensures |UnsignedText(u, 16)| == 10 && Value(UnsignedText(u, 16)[2..], 16) == u
  {
    assert "%x"[2..] == [];
    HexIsTenCharacters(u);
  }

  /** "%d" hands `puts` the decimal text `itoa` leaves in the 32-byte buffer, sign first. */
  lemma DecimalConversion(i: int)
    requires IsInt32(i) && i != INT_MIN
    ensures Render(Parse("%d"), [IntArg(i)]) == [Puts(SignedText(i, 10))]
    ensures |SignedText(i, 10)| + 1 <= 32
    ensures SignedText(i, 10)[0] == '-' <==> i < 0
  {
    assert "%d"[2..] == [];
    DecimalFitsBuffer(i);
    if i >= 0 {
      assert IsDigitOf(Digits(i, 10)[0], 10);
    }
  }

  /** An unknown conversion echoes '%' and its character and leaves the argument for later. */
  lemma UnknownConversion(spec: char, rest: seq<char>, args: seq<Arg>)
    requires !Consumes(spec) && spec != '\0' && WellTerminated(rest)
    requires ArgsFit(Parse(rest), args)
    ensures WellTerminated(['%', spec] + rest)
    ensures Render(Parse(['%', spec] + rest), args) == [PutChar('%'), PutChar(spec)] + Render(Parse(rest), args)
  {
    var fmt := ['%', spec] + rest;
    assert fmt[2..] == rest;
  }
}
