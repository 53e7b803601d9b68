/**
  The text `dumpMemoryMap` writes: one `[offset, size]` item per encoded
  hole, joined by ` - `, with the numbers in decimal as `std::to_string`
  prints them. Opening, writing and closing the file are not modelled.
 */
module Report {
  import opened Wrappers
  import opened HoleList

  predicate IsDigit(c: char) {
    '0' <= c <= '9'
  }

  function DigitChar(d: nat): (c: char)
    requires d < 10
    ensures IsDigit(c)
  {
    ('0' as int + d) as char
  }

  function DigitValue(c: char): nat
    requires IsDigit(c)
  {
    c as int - '0' as int
  }

  /** Decimal digits of n, most significant first, without leading zeros. */
  function Decimal(n: nat): (s: string)
    ensures |s| > 0 && forall i :: 0 <= i < |s| ==> IsDigit(s[i])
    ensures |s| > 1 ==> s[0] != '0'
  {
    if n < 10 then [DigitChar(n)] else Decimal(n / 10) + [DigitChar(n % 10)]
  }

  /** The number a string of digits denotes. */
  function DigitsValue(s: string): nat
    requires forall i :: 0 <= i < |s| ==> IsDigit(s[i])
  {
    if s == [] then 0 else 10 * DigitsValue(s[..|s| - 1]) + DigitValue(s[|s| - 1])
  }

  /** Reading the decimal text back gives the number. */
  lemma {:induction false} DecimalValue(n: nat)
    ensures DigitsValue(Decimal(n)) == n
  {
    var s := Decimal(n);
    if n >= 10 {
      assert s[..|s| - 1] == Decimal(n / 10);
      DecimalValue(n / 10);
    }
  }

  /** Length of the run of digits at the front of s. */
  function SpanDigits(s: string): (k: nat)
    ensures k <= |s|
    ensures forall i :: 0 <= i < k ==> IsDigit(s[i])
  {
    if s == [] || !IsDigit(s[0]) then 0 else 1 + SpanDigits(s[1..])
  }

  lemma {:induction false} SpanDigitsOf(d: string, rest: string)
    requires forall i :: 0 <= i < |d| ==> IsDigit(d[i])
    requires rest == [] || !IsDigit(rest[0])
    ensures SpanDigits(d + rest) == |d|
  {
    if d != [] {
      assert (d + rest)[1..] == d[1..] + rest;
      SpanDigitsOf(d[1..], rest);
    }
  }

  // ---------------------------------------------------------------------------
  // Rendering

  /** One hole: `[offset, size]`. */
  function Item(off: nat, size: nat): string {
    "[" + Decimal(off) + ", " + Decimal(size) + "]"
  }

  /** The items from encoded hole k on, each followed by ` - ` unless it is the last. */
  function RenderFrom(list: seq<nat>, k: nat): string
    requires WellFormedList(list) && k <= list[0]
    decreases list[0] - k
  {
    if k == list[0] then ""
    else if k + 1 == list[0] then Item(OffsetAt(list, k), SizeAt(list, k))
    else Item(OffsetAt(list, k), SizeAt(list, k)) + " - " + RenderFrom(list, k + 1)
  }

  /**
    The text of the memory map for an encoded hole list. It lists exactly
    the encoded holes, in order, and can be read back; an empty list gives
    the empty text.
   */
  function Render(list: seq<nat>): (s: string)
    requires WellFormedList(list)
    ensures ParseDump(s) == Some(PairsFrom(list, 0))
  {
    if list[0] == 0 then
      ""
    else
      ParseRenderFrom(list, 0);
      assert RenderFrom(list, 0) != [];
      RenderFrom(list, 0)
  }

  // ---------------------------------------------------------------------------
  // Reading the text back

  /** The (offset, size) pairs of an encoded hole list from hole k on. */
  function PairsFrom(list: seq<nat>, k: nat): (r: seq<(nat, nat)>)
    requires WellFormedList(list) && k <= list[0]
    ensures |r| == list[0] - k
    decreases list[0] - k
  {
    if k == list[0] then [] else [(OffsetAt(list, k), SizeAt(list, k))] + PairsFrom(list, k + 1)
  }

  /** Reads a decimal number without leading zeros off the front of s. */
  function ParseNumber(s: string): (r: Option<(nat, string)>)
    ensures r.Some? ==> |r.value.1| < |s|
  {
    var k := SpanDigits(s);
    if k == 0 || (k > 1 && s[0] == '0') then None else Some((DigitsValue(s[..k]), s[k..]))
  }

  /** Strips the literal lit off the front of s. */
  function Expect(s: string, lit: string): (r: Option<string>)
    ensures r.Some? ==> s == lit + r.value
  {
    if |lit| <= |s| && s[..|lit|] == lit then
      assert s == s[..|lit|] + s[|lit|..];
      Some(s[|lit|..])
    else
      None
  }

  /** Reads `[offset, size]` off the front of s. */
  function ParseItem(s: string): (r: Option<(nat, nat, string)>)
    ensures r.Some? ==> |r.value.2| < |s|
  {
    match Expect(s, "[")
    case None => None
    case Some(s1) =>
      match ParseNumber(s1)
      case None => None
      case Some((off, s2)) =>
        match Expect(s2, ", ")
        case None => None
        case Some(s3) =>
          match ParseNumber(s3)
          case None => None
          case Some((size, s4)) =>
            match Expect(s4, "]")
            case None => None
            case Some(s5) => Some((off, size, s5))
  }

  /** Reads one or more items separated by ` - `, up to the end of the text. */
  function ParseItems(s: string): (r: Option<seq<(nat, nat)>>)
    ensures r.Some? ==> |r.value| > 0
    decreases |s|
  {
    match ParseItem(s)
    case None => None
    case Some((off, size, rest)) =>
      if rest == [] then Some([(off, size)])
      else match Expect(rest, " - ")
        case None => None
        case Some(tail) =>
          match ParseItems(tail)
          case None => None
          case Some(more) => Some([(off, size)] + more)
  }

  /** Reads a whole memory map; the empty text is the empty map. */
  function ParseDump(s: string): Option<seq<(nat, nat)>> {
    if s == [] then Some([]) else ParseItems(s)
  }

  lemma ParseNumberDecimal(n: nat, rest: string)
    requires rest == [] || !IsDigit(rest[0])
    ensures ParseNumber(Decimal(n) + rest) == Some((n, rest))
  {
    var d := Decimal(n);
    SpanDigitsOf(d, rest);
    assert (d + rest)[..|d|] == d;
    assert (d + rest)[|d|..] == rest;
    DecimalValue(n);
  }

  lemma ExpectLiteral(lit: string, rest: string)
    ensures Expect(lit + rest, lit) == Some(rest)
  {
    assert (lit + rest)[..|lit|] == lit;
    assert (lit + rest)[|lit|..] == rest;
  }

  lemma ParseItemOf(off: nat, size: nat, rest: string)
    ensures ParseItem(Item(off, size) + rest) == Some((off, size, rest))
  {
    var a, b := Decimal(off), Decimal(size);
    var s4 := "]" + rest;
    var s3 := b + s4;
    var s2 := ", " + s3;
    var s1 := a + s2;
    assert Item(off, size) + rest == "[" + s1;
    ExpectLiteral("[", s1);
    ParseNumberDecimal(off, s2);
    ExpectLiteral(", ", s3);
    ParseNumberDecimal(size, s4);
    ExpectLiteral("]", rest);
  }

  lemma ParseItemsLast(off: nat, size: nat)
    ensures ParseItems(Item(off, size)) == Some([(off, size)])
  {
    ParseItemOf(off, size, "");
    assert Item(off, size) + "" == Item(off, size);
  }

  lemma ParseItemsMore(off: nat, size: nat, tail: string, rest: seq<(nat, nat)>)
    requires ParseItems(tail) == Some(rest)
    ensures ParseItems(Item(off, size) + " - " + tail) == Some([(off, size)] + rest)
  {
    var sep := " - " + tail;
    assert Item(off, size) + " - " + tail == Item(off, size) + sep;
    ParseItemOf(off, size, sep);
    ExpectLiteral(" - ", tail);
    ParseItemsCons(Item(off, size) + sep, off, size, sep, tail, rest);
  }

  /** An item, the separator and more items read back as the item before the others. */
  lemma ParseItemsCons(text: string, off: nat, size: nat, sep: string, tail: string, rest: seq<(nat, nat)>)
    requires ParseItem(text) == Some((off, size, sep))
    requires Expect(sep, " - ") == Some(tail) && ParseItems(tail) == Some(rest)
    ensures ParseItems(text) == Some([(off, size)] + rest)
  {
    assert sep == " - " + tail;
  }

  // ---------------------------------------------------------------------------
  // Only canonical text reads back

  /** A digit string that starts with a non-zero digit denotes a positive number. */
  lemma {:induction false} DigitsValuePositive(d: string)
    requires |d| > 0 && (forall i :: 0 <= i < |d| ==> IsDigit(d[i])) && d[0] != '0'
    ensures DigitsValue(d) > 0
  {
    if |d| > 1 {
      DigitsValuePositive(d[..|d| - 1]);
    }
  }

  /** A digit string without leading zeros is the decimal text of the number it denotes. */
  lemma {:induction false} DecimalOfDigits(d: string)
    requires |d| > 0 && (forall i :: 0 <= i < |d| ==> IsDigit(d[i]))
    requires |d| > 1 ==> d[0] != '0'
    ensures Decimal(DigitsValue(d)) == d
  {
    var v := DigitsValue(d);
    var last := d[|d| - 1];
    assert DigitChar(DigitValue(last)) == last;
    if |d| == 1 {
      assert d == [last];
      assert DigitsValue(d[..0]) == 0;
    } else {
      var front := d[..|d| - 1];
      DigitsValuePositive(front);
      DecimalOfDigits(front);
      assert v / 10 == DigitsValue(front) && v % 10 == DigitValue(last);
      assert d == front + [last];
    }
  }

  /** Whatever `ParseNumber` accepts is the number's decimal text followed by the rest. */
  lemma ParseNumberCanonical(s: string)
    requires ParseNumber(s).Some?
    ensures s == Decimal(ParseNumber(s).value.0) + ParseNumber(s).value.1
  {
    var k := SpanDigits(s);
    DecimalOfDigits(s[..k]);
    assert s == s[..k] + s[k..];
  }

  /** Reassembles the text of an item from its five pieces. */
  lemma ItemPieces(off: nat, size: nat, s: string, s1: string, s2: string, s3: string, s4: string, s5: string)
    requires s == "[" + s1 && s1 == Decimal(off) + s2 && s2 == ", " + s3
    requires s3 == Decimal(size) + s4 && s4 == "]" + s5
    ensures s == Item(off, size) + s5
  {
  }

  /** Whatever `ParseItem` accepts is the item's text followed by the rest. */
  lemma ParseItemCanonical(s: string)
    requires ParseItem(s).Some?
    ensures var (off, size, rest) := ParseItem(s).value; s == Item(off, size) + rest
  {
    var s1 := Expect(s, "[").value;
    ParseNumberCanonical(s1);
    var off, s2 := ParseNumber(s1).value.0, ParseNumber(s1).value.1;
    var s3 := Expect(s2, ", ").value;
    ParseNumberCanonical(s3);
    var size, s4 := ParseNumber(s3).value.0, ParseNumber(s3).value.1;
    var s5 := Expect(s4, "]").value;
    assert ParseItem(s) == Some((off, size, s5));
    ItemPieces(off, size, s, s1, s2, s3, s4, s5);
  }

  /** One step of `ParseItems`: the first item's text, then either the end or ` - ` and the rest. */
  lemma ParseItemsStep(s: string)
    requires ParseItems(s).Some?
    ensures ParseItem(s).Some?
    ensures var (off, size, rest) := ParseItem(s).value;
      var items := ParseItems(s).value;
      && s == Item(off, size) + rest
      && items[0] == (off, size)
      && (rest == [] <==> |items| == 1)
      && (rest != [] ==>
            && Expect(rest, " - ").Some?
            && ParseItems(Expect(rest, " - ").value) == Some(items[1..]))
  {
    ParseItemCanonical(s);
  }

  /** Two texts that read back as the same items are the same text. */
  lemma {:induction false} ParseItemsInjective(s: string, t: string)
    requires ParseItems(s).Some? && ParseItems(s) == ParseItems(t)
    ensures s == t
    decreases |s|
  {
    ParseItemsStep(s);
    ParseItemsStep(t);
    var rest := ParseItem(s).value.2;
    var rest' := ParseItem(t).value.2;
    if rest != [] {
      var tail, tail' := Expect(rest, " - ").value, Expect(rest', " - ").value;
      ParseItemsInjective(tail, tail');
    }
  }

  /** `Render`'s text is the only text that reads back as the list's holes. */
  lemma RenderIsTheOnlyText(list: seq<nat>, s: string)
    requires WellFormedList(list) && ParseDump(s) == Some(PairsFrom(list, 0))
    ensures s == Render(list)
  {
    var t := Render(list);
    if s != [] && t != [] {
      ParseItemsInjective(s, t);
    }
  }

  /** A padded number is not memory-map text. */
  lemma LeadingZeroRejected()
    ensures ParseDump("[04, 4]") == None
  {
    var s := "[04, 4]";
    ExpectLiteral("[", "04, 4]");
    var d := "04, 4]";
    assert s == "[" + d;
    assert d[1..] == "4, 4]" && d[1..][1..] == ", 4]";
    assert SpanDigits(d[1..][1..]) == 0;
    assert SpanDigits(d) == 2;
  }

  /** The last item reads back on its own. */
  lemma ParseRenderLast(list: seq<nat>, k: nat)
    requires WellFormedList(list) && k + 1 == list[0]
    ensures ParseItems(RenderFrom(list, k)) == Some(PairsFrom(list, k))
  {
    var off, size := OffsetAt(list, k), SizeAt(list, k);
    assert RenderFrom(list, k) == Item(off, size);
    assert PairsFrom(list, k) == [(off, size)];
    ParseItemsLast(off, size);
  }

  /** An item followed by ` - ` and the rest reads back as that item before the rest. */
  lemma {:induction false} ParseRenderMore(list: seq<nat>, k: nat)
    requires WellFormedList(list) && k + 1 < list[0]
    ensures ParseItems(RenderFrom(list, k)) == Some(PairsFrom(list, k))
    decreases list[0] - k, 0
  {
    var off, size := OffsetAt(list, k), SizeAt(list, k);
    var tail := RenderFrom(list, k + 1);
    ParseRenderFrom(list, k + 1);
    assert RenderFrom(list, k) == Item(off, size) + " - " + tail;
    assert PairsFrom(list, k) == [(off, size)] + PairsFrom(list, k + 1);
    ParseItemsMore(off, size, tail, PairsFrom(list, k + 1));
  }

  /** The items from hole k on read back as the pairs from hole k on. */
  lemma {:induction false} ParseRenderFrom(list: seq<nat>, k: nat)
    requires WellFormedList(list) && k < list[0]
    ensures ParseItems(RenderFrom(list, k)) == Some(PairsFrom(list, k))
    decreases list[0] - k, 1
  {
    if k + 1 < list[0] {
      ParseRenderMore(list, k);
    } else {
      ParseRenderLast(list, k);
    }
  }

  /** The items of two encoded holes, joined by the separator. */
  lemma RenderFromExample(list: seq<nat>)
    requires list == [2, 0, 4, 8, 4]
    ensures RenderFrom(list, 0) == "[0, 4] - [8, 4]"
  {
    assert Decimal(0) == "0" && Decimal(4) == "4" && Decimal(8) == "8";
    assert RenderFrom(list, 1) == Item(8, 4) == "[8, 4]";
    assert RenderFrom(list, 0) == Item(0, 4) + " - " + RenderFrom(list, 1);
    assert Item(0, 4) == "[0, 4]";
  }

  /** Two holes render as `[0, 4] - [8, 4]`. */
  lemma RenderExample()
    ensures Render(GetList([Hole(0, 4), Hole(8, 4)])) == "[0, 4] - [8, 4]"
  {
    var list := GetList([Hole(0, 4), Hole(8, 4)]);
    assert list == [2, 0, 4, 8, 4];
    RenderFromExample(list);
  }
}
