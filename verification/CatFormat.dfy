/**
 What the directives of `sdscatfmt` print, said with their own letters: texts as they are, numbers as decimal
 numerals, and any other byte behind a percent sign as itself.
 */
module CatFormat {
  import opened ByteStrings
  import opened RedisCommand
  import opened RespWire
  import SdsNumbers

  /** One step of a format, with the argument that it prints. The letter is that of the format. */
  datatype Directive =
    | Literal(c: Byte)
    | OfText(letter: Byte, text: Bytes)
    | OfSigned(letter: Byte, num: int)
    | OfUnsigned(letter: Byte, unum: nat)
    | Other(c: Byte)

  const TEXT_LETTERS: Bytes := ['s' as int, 'S' as int]
  const SIGNED_LETTERS: Bytes := ['i' as int, 'I' as int]
  const UNSIGNED_LETTERS: Bytes := ['u' as int, 'U' as int, 'T' as int]

  predicate Proper(d: Directive) {
    match d
    case Literal(c) => c != '%' as int && c != 0
    case OfText(letter, text) => letter in TEXT_LETTERS && (letter == 's' as int ==> 0 !in text)
    case OfSigned(letter, num) => letter in SIGNED_LETTERS && -SdsNumbers.TWO_63 < num < SdsNumbers.TWO_63
    case OfUnsigned(letter, unum) => letter in UNSIGNED_LETTERS && unum < SdsNumbers.TWO_64
    case Other(c) => c !in TEXT_LETTERS + SIGNED_LETTERS + UNSIGNED_LETTERS && c != 0
  }

  function FormatOf(d: Directive): Bytes {
    match d
    case Literal(c) => [c]
    case OfText(letter, _) => ['%' as int, letter]
    case OfSigned(letter, _) => ['%' as int, letter]
    case OfUnsigned(letter, _) => ['%' as int, letter]
    case Other(c) => ['%' as int, c]
  }

  function ArgsOf(d: Directive): seq<FmtArg> {
    match d
    case OfText(_, text) => [Text(text)]
    case OfSigned(_, num) => [Signed(num)]
    case OfUnsigned(_, unum) => [Unsigned(unum)]
    case _ => []
  }

  function Printed(d: Directive): Bytes {
    match d
    case Literal(c) => [c]
    case OfText(_, text) => text
    case OfSigned(_, num) => SignedNumeral(num)
    case OfUnsigned(_, unum) => Numeral(unum)
    case Other(c) => [c]
  }

  function FormatOfAll(ds: seq<Directive>): Bytes {
    if ds == [] then [] else FormatOf(ds[0]) + FormatOfAll(ds[1..])
  }

  function ArgsOfAll(ds: seq<Directive>): seq<FmtArg> {
    if ds == [] then [] else ArgsOf(ds[0]) + ArgsOfAll(ds[1..])
  }

  function PrintedAll(ds: seq<Directive>): Bytes {
    if ds == [] then [] else Printed(ds[0]) + PrintedAll(ds[1..])
  }

  /** One directive in front of a format. */
  lemma OneDirective(d: Directive, fmt: Bytes, args: seq<FmtArg>)
    requires Proper(d) && Matches(fmt, args)
    ensures Matches(FormatOf(d) + fmt, ArgsOf(d) + args)
    ensures Formatted(FormatOf(d) + fmt, ArgsOf(d) + args) == Printed(d) + Formatted(fmt, args)
  {
    var s, more := FormatOf(d) + fmt, ArgsOf(d) + args;
    assert s[|FormatOf(d)|..] == fmt && more[|ArgsOf(d)|..] == args;
    match d
    case OfSigned(_, num) => SignedNumeralIsDecimal(num);
    case OfUnsigned(_, unum) => NumeralIsDecimal(unum);
    case _ =>
  }

  /** Every format prints its directives one after the other. */
  lemma {:induction false} FormatPrints(ds: seq<Directive>)
    requires forall d | d in ds :: Proper(d)
    ensures Matches(FormatOfAll(ds), ArgsOfAll(ds))
    ensures Formatted(FormatOfAll(ds), ArgsOfAll(ds)) == PrintedAll(ds)
    decreases |ds|
  {
    hide Proper, FormatOf, ArgsOf, Printed;
    if ds != [] {
      FormatPrints(ds[1..]);
      OneDirective(ds[0], FormatOfAll(ds[1..]), ArgsOfAll(ds[1..]));
    }
  }

  lemma FirstDirective(fmt: Bytes, args: seq<FmtArg>) returns (d: Directive, fmt': Bytes, args': seq<FmtArg>)
    requires fmt != [] && Matches(fmt, args)
    ensures Proper(d) && fmt == FormatOf(d) + fmt' && args == ArgsOf(d) + args' && Matches(fmt', args') && |fmt'| < |fmt|
  {
    if fmt[0] != PERCENT {
      d, fmt', args' := Literal(fmt[0]), fmt[1..], args;
    } else if TakesText(fmt[1]) {
      d, fmt', args' := OfText(fmt[1], args[0].text), fmt[2..], args[1..];
    } else if TakesSigned(fmt[1]) {
      d, fmt', args' := OfSigned(fmt[1], args[0].num), fmt[2..], args[1..];
    } else if TakesUnsigned(fmt[1]) {
      d, fmt', args' := OfUnsigned(fmt[1], args[0].unum), fmt[2..], args[1..];
    } else {
      d, fmt', args' := Other(fmt[1]), fmt[2..], args;
    }
  }

  /** Every format with the arguments that it asks for is a list of directives. */
  lemma {:induction false} Directives(fmt: Bytes, args: seq<FmtArg>) returns (ds: seq<Directive>)
    requires Matches(fmt, args)
    ensures (forall d | d in ds :: Proper(d)) && fmt == FormatOfAll(ds) && args == ArgsOfAll(ds)
    ensures Formatted(fmt, args) == PrintedAll(ds)
    decreases |fmt|
  {
    hide Proper, FormatOf, ArgsOf, Printed, Formatted;
    if fmt == [] {
      ds := [];
    } else {
      var d, fmt', args' := FirstDirective(fmt, args);
      var others := Directives(fmt', args');
      ds := [d] + others;
      assert ds[1..] == others;
    }
    FormatPrints(ds);
  }

  function BulksOf(argv: seq<Bytes>): seq<Wire> {
    if argv == [] then [] else [RespWire.Bulk(argv[0])] + BulksOf(argv[1..])
  }

  lemma BulkIsWire(arg: Bytes)
    ensures RedisCommand.Bulk(arg) == Print(RespWire.Bulk(arg))
  {
    hide Numeral, SdsNumbers.Decimal;
    NumeralIsDecimal(|arg|);
    var head := ['$' as int] + Numeral(|arg|) + LINE_END;
    assert head + arg + LINE_END == head + (arg + LINE_END);
    assert head == ['$' as int] + (Numeral(|arg|) + LINE_END);
  }

  lemma {:induction false} BulksAreWire(argv: seq<Bytes>)
    ensures Bulks(argv) == PrintAll(BulksOf(argv)) && |BulksOf(argv)| == |argv|
  {
    hide RedisCommand.Bulk, Print;
    if argv != [] {
      BulkIsWire(argv[0]);
      BulksAreWire(argv[1..]);
      assert BulksOf(argv)[1..] == BulksOf(argv[1..]);
    }
  }

  /** A command is sent as an array of bulk strings. */
  lemma CommandIsWire(argv: seq<Bytes>)
    ensures Command(argv) == Print(Items(BulksOf(argv)))
  {
    hide Bulks, PrintAll, BulksOf, Numeral;
    NumeralIsDecimal(|argv|);
    BulksAreWire(argv);
    var head := ['*' as int] + Numeral(|argv|) + LINE_END;
    assert head == ['*' as int] + (Numeral(|argv|) + LINE_END);
  }
}
