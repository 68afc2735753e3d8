/** RGBA colors: four 8-bit channels, the twenty named colors, parsing a
    color from a name or from "r,g,b,a", equality, and printing a color as
    its name or as its channels. */
module Color {
  import opened Errors
  import opened Sequences
  import opened Numerals

  type UInt8 = x: int | 0 <= x < 256

  /** The four channels of a color. */
  datatype Channels = Channels(red: UInt8, green: UInt8, blue: UInt8, alpha: UInt8)

  /** The number of predefined colors. */
  const COUNT := 20

  /** The name of the k-th predefined color, in the order the names are
      compared. */
  function Name(k: nat): (s: string)
    requires k < COUNT
  {
    match k
    case 0 => "black"   case 1 => "white"   case 2 => "red"      case 3 => "green"
    case 4 => "blue"    case 5 => "magenta" case 6 => "cyan"     case 7 => "yellow"
    case 8 => "orange"  case 9 => "brown"   case 10 => "purple"  case 11 => "gray10"
    case 12 => "gray20" case 13 => "gray30" case 14 => "gray40"  case 15 => "gray50"
    case 16 => "gray60" case 17 => "gray70" case 18 => "gray80"  case _ => "gray90"
  }

  /** The first predefined color from k on named s, or COUNT. */
  function NameIndex(s: string, k: nat := 0): (i: nat)
    requires k <= COUNT
    ensures k <= i <= COUNT
    ensures forall j :: k <= j < i ==> Name(j) != s
    ensures i < COUNT ==> Name(i) == s
    decreases COUNT - k
  {
    if k == COUNT then COUNT else if Name(k) == s then k else NameIndex(s, k + 1)
  }

  /** The channels of the predefined colors, one per name. */
  type Palette = p: seq<Channels> | |p| == COUNT witness seq(20, _ => Channels(0, 0, 0, 255))

  /** The field-by-field comparison: true exactly for equal colors. */
  predicate Equal(a: Channels, b: Channels)
    ensures Equal(a, b) <==> a == b
  {
    a.red == b.red && a.green == b.green && a.blue == b.blue && a.alpha == b.alpha
  }

  /** The field-by-field difference: the negation of Equal. */
  predicate Differ(a: Channels, b: Channels)
    ensures Differ(a, b) <==> !Equal(a, b)
  {
    a.red != b.red || a.green != b.green || a.blue != b.blue || a.alpha != b.alpha
  }

  lemma NamesDistinct(m: nat, n: nat)
    requires m < n < COUNT
    ensures Name(m) != Name(n)
  {
  }

  lemma NoCommaInNames(k: nat)
    requires k < COUNT
    ensures ',' !in Name(k)
  {
  }

  /** A predefined name is found at its own index. */
  lemma NameIndexOfName(k: nat)
    requires k < COUNT
    ensures NameIndex(Name(k)) == k
  {
    var i := NameIndex(Name(k));
    if i < k {
      NamesDistinct(i, k);
    }
  }

  /** A string with a comma names no predefined color. */
  lemma NameIndexWithComma(s: string)
    requires ',' in s
    ensures NameIndex(s) == COUNT
  {
    var i := NameIndex(s);
    if i < COUNT {
      NoCommaInNames(i);
    }
  }

  /** s cut at every occurrence of d, as repeated getline with delimiter d
      reads it. */
  function Split(s: string, d: char): (r: seq<string>)
    ensures |r| >= 1
    decreases |s|
  {
    if |s| == 0 then [""]
    else
      var rest := Split(s[1..], d);
      if s[0] == d then [""] + rest else [[s[0]] + rest[0]] + rest[1..]
  }

  lemma {:induction false} SplitOne(a: string, d: char)
    requires d !in a
    ensures Split(a, d) == [a]
    decreases |a|
  {
    if |a| > 0 {
      SplitOne(a[1..], d);
      assert [a[0]] + a[1..] == a;
    }
  }

  lemma {:induction false} SplitJoin(a: string, d: char, b: string)
    requires d !in a
    ensures Split(a + [d] + b, d) == [a] + Split(b, d)
    decreases |a|
  {
    var s := a + [d] + b;
    if |a| == 0 {
      assert s[1..] == b;
    } else {
      assert s[1..] == a[1..] + [d] + b;
      SplitJoin(a[1..], d, b);
      assert [a[0]] + a[1..] == a;
    }
  }

  /** A non-empty string of decimal digits. */
  predicate IsNumber(f: string) {
    |f| > 0 && IsDigits(f)
  }

  /** Four comma-separated decimal fields, each fitting 16 bits. */
  function ParseValues(s: string): (r: Result<seq<nat>>)
    ensures r.Ok? ==> |r.value| == 4
  {
    var f := Split(s, ',');
    if |f| != 4 then Fail("Wrong number of values")
    else if !(IsNumber(f[0]) && IsNumber(f[1]) && IsNumber(f[2]) && IsNumber(f[3])) then Fail("Not a number")
    else
      var v := [DecimalValue(f[0]), DecimalValue(f[1]), DecimalValue(f[2]), DecimalValue(f[3])];
      if !(v[0] < 65536 && v[1] < 65536 && v[2] < 65536 && v[3] < 65536) then Fail("Value out of range")
      else Ok(v)
  }

  /** Set from a string: a predefined name gives its color; otherwise four
      values, each at most 255, give the four channels; anything else is
      an error. */
  function Parse(palette: Palette, s: string): (r: Result<Channels>)
  {
    var j := NameIndex(s);
    if j < COUNT then Ok(palette[j])
    else
      match ParseValues(s)
      case Fail(_) => Fail("Error while parsing color input string")
      case Ok(v) => FromValues(v[0], v[1], v[2], v[3])
  }

  /** Four parsed values as channels, refused when one exceeds 255. */
  function FromValues(r: nat, g: nat, b: nat, a: nat): (c: Result<Channels>)
    ensures c.Ok? <==> r <= 255 && g <= 255 && b <= 255 && a <= 255
    ensures c.Ok? ==> c.value.red == r && c.value.green == g && c.value.blue == b && c.value.alpha == a
  {
    if r > 255 || g > 255 || b > 255 || a > 255 then Fail("Error while parsing color input string")
    else Ok(Channels(r, g, b, a))
  }

  /** The output operator: the name of the first predefined color equal
      to c, or its channels in decimal separated by commas. */
  function Print(palette: Palette, c: Channels): (s: string)
  {
    var j := IndexOf(palette, c);
    if j < COUNT then Name(j)
    else Decimal(c.red) + "," + (Decimal(c.green) + "," + (Decimal(c.blue) + "," + Decimal(c.alpha)))
  }

  /** The output operator as written: each channel is an unsigned char,
      which a stream writes as the character with that code. */
  function PrintAsWritten(palette: Palette, c: Channels): (s: string)
  {
    var j := IndexOf(palette, c);
    if j < COUNT then Name(j)
    else [c.red as char] + "," + ([c.green as char] + "," + ([c.blue as char] + "," + [c.alpha as char]))
  }

  /** Four comma-free fields joined with commas split back into them. */
  lemma SplitFour(r: string, g: string, b: string, a: string)
    requires ',' !in r && ',' !in g && ',' !in b && ',' !in a
    ensures Split(r + "," + (g + "," + (b + "," + a)), ',') == [r, g, b, a]
  {
    SplitOne(a, ',');
    SplitJoin(b, ',', a);
    SplitJoin(g, ',', b + "," + a);
    SplitJoin(r, ',', g + "," + (b + "," + a));
  }

  /** Four 16-bit values printed in decimal parse back as themselves. */
  lemma ParseValuesOfDecimals(r: nat, g: nat, b: nat, a: nat)
    requires r < 65536 && g < 65536 && b < 65536 && a < 65536
    ensures ParseValues(Decimal(r) + "," + (Decimal(g) + "," + (Decimal(b) + "," + Decimal(a)))) == Ok([r, g, b, a])
  {
    var f := [Decimal(r), Decimal(g), Decimal(b), Decimal(a)];
    SplitFour(f[0], f[1], f[2], f[3]);
    assert IsNumber(f[0]) && IsNumber(f[1]) && IsNumber(f[2]) && IsNumber(f[3]);
    DecimalRoundTrip(r);
    DecimalRoundTrip(g);
    DecimalRoundTrip(b);
    DecimalRoundTrip(a);
  }

  /** Every color reads back as itself from what is printed for it. */
  lemma PrintParseRoundTrip(palette: Palette, c: Channels)
    ensures Parse(palette, Print(palette, c)) == Ok(c)
  {
    if IndexOf(palette, c) < |palette| {
      NamedRoundTrip(palette, c);
    } else {
      NumericRoundTrip(palette, c);
    }
  }

  lemma NamedRoundTrip(palette: Palette, c: Channels)
    requires IndexOf(palette, c) < |palette|
    ensures Parse(palette, Print(palette, c)) == Ok(c)
  {
    var j := IndexOf(palette, c);
    assert Print(palette, c) == Name(j);
    NameIndexOfName(j);
  }

  lemma NumericRoundTrip(palette: Palette, c: Channels)
    requires IndexOf(palette, c) == |palette|
    ensures Parse(palette, Print(palette, c)) == Ok(c)
  {
    var s := Print(palette, c);
    ParseValuesOfDecimals(c.red, c.green, c.blue, c.alpha);
    assert ParseValues(s) == Ok([c.red, c.green, c.blue, c.alpha]);
    assert s[|Decimal(c.red)|] == ',';
    NameIndexWithComma(s);
    var r := FromValues(c.red, c.green, c.blue, c.alpha);
    assert Parse(palette, s) == r;
    assert r.Ok? && r.value == c;
  }

  /** The color (65, 66, 67, 68), named by no predefined color, is written
      as "A,B,C,D", which does not read back as a color. */
  lemma PrintAsWrittenDoesNotReadBack(palette: Palette)
    requires Channels(65, 66, 67, 68) !in palette
    ensures PrintAsWritten(palette, Channels(65, 66, 67, 68)) == "A,B,C,D"
    ensures Parse(palette, PrintAsWritten(palette, Channels(65, 66, 67, 68))).Fail?
  {
    var s := "A,B,C,D";
    SplitFour("A", "B", "C", "D");
    assert "A" + "," + ("B" + "," + ("C" + "," + "D")) == s;
    assert !IsNumber("A");
    assert s[1] == ',';
    NameIndexWithComma(s);
  }

  /** A color whose channels are set in place. */
  class Color {
    var channels: Channels

    /** The default color: black, fully opaque. */
    constructor()
      ensures channels == Channels(0, 0, 0, 255)
    {
      channels := Channels(0, 0, 0, 255);
    }

    constructor FromChannels(red: UInt8, green: UInt8, blue: UInt8, alpha: UInt8 := 255)
      ensures channels == Channels(red, green, blue, alpha)
    {
      channels := Channels(red, green, blue, alpha);
    }

    /** Sets the four channels; alpha is 255 unless given. */
    method Set(red: UInt8, green: UInt8, blue: UInt8, alpha: UInt8 := 255)
      modifies this
      ensures channels == Channels(red, green, blue, alpha)
    {
      channels := Channels(red, green, blue, alpha);
    }

    /** Sets the color from a name or from "r,g,b,a"; throws, leaving the
        color as it was, when the text is neither. */
    method SetFromString(palette: Palette, s: string) returns (st: Status)
      modifies this
      ensures st.Done? <==> Parse(palette, s).Ok?
      ensures st.Done? ==> channels == Parse(palette, s).value
      ensures st.Thrown? ==> channels == old(channels)
    {
      var j := NameIndex(s);
      if j < COUNT {
        channels := palette[j];
        return Done;
      }
      var parsed := ParseValues(s);
      if parsed.Fail? {
        return Thrown("Error while parsing color input string");
      }
      var v := parsed.value;
      for i := 0 to 4
        invariant forall k :: 0 <= k < i ==> v[k] <= 255
      {
        if v[i] > 255 {
          return Thrown("Error while parsing color input string");
        }
      }
      Set(v[0], v[1], v[2], v[3]);
      return Done;
    }
  }
}
