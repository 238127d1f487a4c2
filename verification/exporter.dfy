/**
  The PPM exporter: a header, then every channel of every pixel as a decimal
  value in 0..255, each value followed by one separator. A counter of the
  values on the current line decides the separator: a newline when the
  counter reaches a multiple of the row's value count 3 * width or the
  line limit of 70 values, a space otherwise. The writer becomes the string
  that is written.
 */
module Exporter {
  import opened Base
  import Colors
  import Canvases

  /** `MAX_PPM_LINE_LENGTH`; the exporter compares it with a count of values, not of characters. */
  const MaxLineLength: nat := 70

  // Channel values

  /** Rounding to the nearest integer with halves rounded up, `f64::round` on the positive values it meets here. */
  function Round(x: real): int
  {
    (x + 0.5).Floor
  }

  /**
    `get_out_val`: values at or below 0 become 0, at or above 1 become 255,
    and the rest are scaled by 255 and rounded.
   */
  function OutVal(px: real): (v: nat)
    ensures v <= 255
    ensures px <= 0.0 ==> v == 0
    ensures px >= 1.0 ==> v == 255
    ensures 0.0 < px < 1.0 ==> (v as real) - 0.5 <= px * 255.0 < (v as real) + 0.5
  {
    if px <= 0.0 then 0
    else if px >= 1.0 then 255
    else Round(px * 255.0)
  }

  /** A brighter channel never encodes to a smaller value. */
  lemma OutValMonotone(a: real, b: real)
    requires a <= b
    ensures OutVal(a) <= OutVal(b)
  {
    if 0.0 < a && b < 1.0 {
      assert a * 255.0 <= b * 255.0;
    }
  }

  /** The source's examples: 1.5 clamps to 255, 0.5 rounds up to 128, -0.5 clamps to 0. */
  lemma OutValExamples()
    ensures OutVal(1.5) == 255 && OutVal(0.5) == 128 && OutVal(-0.5) == 0 && OutVal(0.0) == 0 && OutVal(1.0) == 255
  {
    assert Round(0.5 * 255.0) == 128;
  }

  // Decimal digits, as `itoa` writes them

  predicate IsDigit(ch: char)
  {
    '0' <= ch <= '9'
  }

  predicate AllDigits(s: string)
  {
    forall i :: 0 <= i < |s| ==> IsDigit(s[i])
  }

  function DigitChar(d: nat): (ch: char)
    requires d < 10
    ensures IsDigit(ch)
  {
    ('0' as int + d) as char
  }

  function DigitValue(ch: char): (d: nat)
    requires IsDigit(ch)
    ensures d < 10 && DigitChar(d) == ch
  {
    ch as int - '0' as int
  }

  /** The decimal representation of n: digits only, most significant first, no leading zero. */
  function Decimal(n: nat): (s: string)
    ensures |s| > 0 && AllDigits(s)
    ensures n > 0 ==> s[0] != '0'
    ensures n < 10 <==> |s| == 1
  {
    if n < 10 then [DigitChar(n)] else Decimal(n / 10) + [DigitChar(n % 10)]
  }

  /** Reads a string of digits as a decimal number. */
  function ParseDecimal(s: string): nat
    requires AllDigits(s)
  {
    if |s| == 0 then 0 else ParseDecimal(s[..|s| - 1]) * 10 + DigitValue(s[|s| - 1])
  }

  /** Reading back the decimal representation of n gives n. */
  lemma {:induction false} DecimalRoundTrip(n: nat)
    ensures ParseDecimal(Decimal(n)) == n
  {
    var s := Decimal(n);
    if n >= 10 {
      assert s[..|s| - 1] == Decimal(n / 10);
      DecimalRoundTrip(n / 10);
    }
  }

  /** The length of the longest prefix of s made of digits. */
  function DigitRun(s: string): (k: nat)
    ensures k <= |s| && AllDigits(s[..k])
    ensures k < |s| ==> !IsDigit(s[k])
  {
    if |s| == 0 || !IsDigit(s[0]) then 0
    else
      var k := 1 + DigitRun(s[1..]);
      assert forall i :: 1 <= i < k ==> s[..k][i] == s[1..][..k - 1][i - 1];
      k
  }

  /** A digit string followed by a non-digit is read up to that character. */
  lemma {:induction false} DigitRunOf(d: string, rest: string)
    requires AllDigits(d)
    requires |rest| > 0 && !IsDigit(rest[0])
    ensures DigitRun(d + rest) == |d|
    ensures (d + rest)[..|d|] == d && (d + rest)[|d|..] == rest
  {
    if |d| > 0 {
      assert (d + rest)[1..] == d[1..] + rest;
      DigitRunOf(d[1..], rest);
    }
  }

  // The header

  /** `"P3\n{width} {height}\n255\n"`. */
  function Header(width: nat, height: nat): string
  {
    "P3\n" + Decimal(width) + " " + Decimal(height) + "\n255\n"
  }

  /** Reads a header back: the magic line, the two dimensions, the maximum value line, and what follows. */
  function ReadHeader(s: string): Option<(nat, nat, string)>
  {
    if |s| < 3 || s[..3] != "P3\n" then None
    else
      var a := s[3..];
      var k := DigitRun(a);
      if k == 0 || k == |a| || a[k] != ' ' then None
      else
        var b := a[k + 1..];
        var l := DigitRun(b);
        if l == 0 || |b| < l + 5 || b[l..l + 5] != "\n255\n" then None
        else Some((ParseDecimal(a[..k]), ParseDecimal(b[..l]), b[l + 5..]))
  }

  /** The header names the canvas's width and height and ends where the body starts. */
  lemma ReadHeaderRoundTrip(width: nat, height: nat, body: string)
    ensures ReadHeader(Header(width, height) + body) == Some((width, height, body))
  {
    var s := Header(width, height) + body;
    var dw, dh := Decimal(width), Decimal(height);
    assert s[..3] == "P3\n";
    var a := s[3..];
    assert a == dw + (" " + dh + "\n255\n" + body);
    DigitRunOf(dw, " " + dh + "\n255\n" + body);
    var b := a[|dw| + 1..];
    assert b == dh + ("\n255\n" + body);
    DigitRunOf(dh, "\n255\n" + body);
    assert b[|dh|..|dh| + 5] == "\n255\n";
    assert b[|dh| + 5..] == body;
    DecimalRoundTrip(width);
    DecimalRoundTrip(height);
  }

  /** The header of the source's 5 by 3 example. */
  lemma HeaderExample()
    ensures Header(5, 3) == "P3\n5 3\n255\n"
  {
    assert Decimal(5) == "5" && Decimal(3) == "3";
  }

  // The line-wrapping counter

  /** Whether the value written at counter `counter` is followed by a newline; `rowLength` is 3 * width. */
  predicate Breaks(counter: nat, rowLength: nat)
    requires rowLength > 0
  {
    (counter + 1) % rowLength == 0 || counter + 1 >= MaxLineLength
  }

  /** The counter after one more value: reset on a newline, one more otherwise. */
  function Next(counter: nat, rowLength: nat): nat
    requires rowLength > 0
  {
    if Breaks(counter, rowLength) then 0 else counter + 1
  }

  /** The counter after n values, starting from 0. */
  function Counter(n: nat, rowLength: nat): (c: nat)
    requires n > 0 ==> rowLength > 0
    ensures c < MaxLineLength
  {
    if n == 0 then 0 else Next(Counter(n - 1, rowLength), rowLength)
  }

  /** A value and the separator written after it. */
  datatype Token = Token(value: nat, newline: bool)

  /** The values paired with their separators, as the counter decides them. */
  function Tokens(vs: seq<nat>, rowLength: nat): (ts: seq<Token>)
    requires |vs| > 0 ==> rowLength > 0
    ensures |ts| == |vs|
  {
    if |vs| == 0 then [] else Tokens(vs[..|vs| - 1], rowLength) + [Token(vs[|vs| - 1], Breaks(Counter(|vs| - 1, rowLength), rowLength))]
  }

  /** Token k carries value k, and a newline exactly when the counter after k values breaks the line. */
  lemma {:induction false} TokensAt(vs: seq<nat>, rowLength: nat, k: nat)
    requires rowLength > 0 && k < |vs|
    ensures Tokens(vs, rowLength)[k] == Token(vs[k], Breaks(Counter(k, rowLength), rowLength))
  {
    var n := |vs|;
    var front := vs[..n - 1];
    var last := Token(vs[n - 1], Breaks(Counter(n - 1, rowLength), rowLength));
    assert Tokens(vs, rowLength) == Tokens(front, rowLength) + [last];
    if k < n - 1 {
      TokensAt(front, rowLength, k);
    }
  }

  /** One value and its separator as text. */
  function Piece(t: Token): (s: string)
    ensures |s| == |Decimal(t.value)| + 1
  {
    Decimal(t.value) + (if t.newline then "\n" else " ")
  }

  /** The body text: every piece in order. */
  function Render(ts: seq<Token>): string
  {
    if |ts| == 0 then "" else Render(ts[..|ts| - 1]) + Piece(ts[|ts| - 1])
  }

  /** Rendering a sequence is rendering its first token, then the rest. */
  lemma {:induction false} RenderFirst(ts: seq<Token>)
    requires |ts| > 0
    ensures Render(ts) == Piece(ts[0]) + Render(ts[1..])
  {
    if |ts| > 1 {
      var n := |ts|;
      assert ts[..n - 1][1..] == ts[1..][..n - 2];
      RenderFirst(ts[..n - 1]);
    }
  }

  /** Splits a body back into values and separators; stops at the first malformed piece. */
  function Decode(s: string): seq<Token>
  {
    if |s| == 0 then []
    else
      var k := DigitRun(s);
      if k == 0 || k == |s| || (s[k] != ' ' && s[k] != '\n') then []
      else [Token(ParseDecimal(s[..k]), s[k] == '\n')] + Decode(s[k + 1..])
  }

  /** Decoding a rendered body recovers every value and every separator: each value is followed by exactly one. */
  lemma {:induction false} DecodeRender(ts: seq<Token>)
    ensures Decode(Render(ts)) == ts
  {
    if |ts| > 0 {
      RenderFirst(ts);
      var d := Decimal(ts[0].value);
      var sep := if ts[0].newline then "\n" else " ";
      var rest := Render(ts[1..]);
      assert Render(ts) == d + (sep + rest);
      DigitRunOf(d, sep + rest);
      DecimalRoundTrip(ts[0].value);
      assert Render(ts)[|d| + 1..] == rest;
      DecodeRender(ts[1..]);
    }
  }

  // What the counter guarantees

  /** The counter counts the values written since the last newline. */
  lemma {:induction false} CounterCountsRun(i: nat, j: nat, rowLength: nat)
    requires i <= j && rowLength > 0
    requires forall k :: i <= k < j ==> !Breaks(Counter(k, rowLength), rowLength)
    ensures Counter(j, rowLength) == Counter(i, rowLength) + (j - i)
  {
    if i < j {
      CounterCountsRun(i, j - 1, rowLength);
    }
  }

  /** No line holds more than 70 values: among tokens i..j-1 without a newline there are fewer than 70. */
  lemma LineHoldsAtMostMax(vs: seq<nat>, rowLength: nat, i: nat, j: nat)
    requires rowLength > 0
    requires i <= j <= |vs|
    requires forall k :: i <= k < j ==> !Tokens(vs, rowLength)[k].newline
    ensures j - i < MaxLineLength
  {
    var ts := Tokens(vs, rowLength);
    forall k | i <= k < j
      ensures !Breaks(Counter(k, rowLength), rowLength)
    {
      TokensAt(vs, rowLength, k);
    }
    CounterCountsRun(i, j, rowLength);
  }

  /** How n % m follows from (n - 1) % m: one more, or back to zero at the end of a block of m. */
  lemma ModStep(n: nat, m: nat)
    requires m > 0 && n > 0
    ensures (n - 1) % m + 1 == m ==> n % m == 0
    ensures (n - 1) % m + 1 < m ==> n % m == (n - 1) % m + 1
  {
    var q, r := (n - 1) / m, (n - 1) % m;
    assert n - 1 == q * m + r;
    if r + 1 == m {
      NextRow(q, m);
      FlatIndexDivMod(q + 1, 0, m);
    } else {
      FlatIndexDivMod(q, r + 1, m);
    }
  }

  lemma SmallMod(a: nat, m: nat)
    requires a < m
    ensures a % m == a
  {
    FlatIndexDivMod(0, a, m);
    assert 0 * m + a == a;
  }

  lemma SelfMod(m: nat)
    requires m > 0
    ensures m % m == 0
  {
    FlatIndexDivMod(1, 0, m);
    assert 1 * m + 0 == m;
  }

  /** Before the end of a row only the line limit can break the line. */
  lemma BreaksInRow(c: nat, rowLength: nat)
    requires c + 1 < rowLength
    ensures Breaks(c, rowLength) <==> c + 1 >= MaxLineLength
  {
    SmallMod(c + 1, rowLength);
  }

  /** The last value of a row is followed by a newline. */
  lemma BreaksAtRowEnd(c: nat, rowLength: nat)
    requires rowLength > 0 && c + 1 == rowLength
    ensures Breaks(c, rowLength)
  {
    SelfMod(rowLength);
  }

  /** When a row holds at most 70 values, the counter is the position within the row. */
  lemma {:induction false} CounterAligned(n: nat, rowLength: nat)
    requires 0 < rowLength <= MaxLineLength
    ensures Counter(n, rowLength) == n % rowLength
  {
    if n > 0 {
      CounterAligned(n - 1, rowLength);
      var c := Counter(n - 1, rowLength);
      assert Counter(n, rowLength) == Next(c, rowLength);
      ModStep(n, rowLength);
      if c + 1 == rowLength {
        BreaksAtRowEnd(c, rowLength);
      } else {
        BreaksInRow(c, rowLength);
      }
    }
  }

  /** When a row holds more than 70 values, the counter ignores rows and counts modulo 70. */
  lemma {:induction false} CounterWide(n: nat, rowLength: nat)
    requires rowLength > MaxLineLength
    ensures Counter(n, rowLength) == n % MaxLineLength
  {
    if n > 0 {
      CounterWide(n - 1, rowLength);
      var c := Counter(n - 1, rowLength);
      assert Counter(n, rowLength) == Next(c, rowLength);
      BreaksInRow(c, rowLength);
      ModStep(n, MaxLineLength);
    }
  }

  /** Rows of at most 70 values: a newline follows exactly the last value of every row. */
  lemma BreaksAligned(vs: seq<nat>, rowLength: nat, k: nat)
    requires 0 < rowLength <= MaxLineLength && k < |vs|
    ensures Tokens(vs, rowLength)[k].newline <==> (k + 1) % rowLength == 0
  {
    var c := Counter(k, rowLength);
    TokensAt(vs, rowLength, k);
    CounterAligned(k, rowLength);
    ModStep(k + 1, rowLength);
    if c + 1 == rowLength {
      BreaksAtRowEnd(c, rowLength);
    } else {
      BreaksInRow(c, rowLength);
    }
  }

  /** Rows of more than 70 values: a newline follows every 70th value, wherever the rows end. */
  lemma BreaksWide(vs: seq<nat>, rowLength: nat, k: nat)
    requires rowLength > MaxLineLength && k < |vs|
    ensures Tokens(vs, rowLength)[k].newline <==> (k + 1) % MaxLineLength == 0
  {
    var c := Counter(k, rowLength);
    TokensAt(vs, rowLength, k);
    CounterWide(k, rowLength);
    ModStep(k + 1, MaxLineLength);
    BreaksInRow(c, rowLength);
  }

  /** The rendered body ends with the separator of its last token. */
  lemma RenderLast(ts: seq<Token>)
    requires |ts| > 0
    ensures |Render(ts)| > 0
    ensures Render(ts)[|Render(ts)| - 1] == if ts[|ts| - 1].newline then '\n' else ' '
  {
  }

  // The whole export

  /** The channel values of one pixel, red, green, blue. */
  function PixelValues(p: Colors.Color): seq<nat>
  {
    [OutVal(Colors.Red(p)), OutVal(Colors.Green(p)), OutVal(Colors.Blue(p))]
  }

  /** The channel values of the pixels in storage order. */
  function Values(pixels: seq<Colors.Color>): (vs: seq<nat>)
    ensures |vs| == 3 * |pixels|
  {
    if |pixels| == 0 then [] else Values(pixels[..|pixels| - 1]) + PixelValues(pixels[|pixels| - 1])
  }

  /** Pixel i contributes values 3i, 3i + 1 and 3i + 2: its red, green and blue channels encoded. */
  lemma {:induction false} ValuesAt(pixels: seq<Colors.Color>, i: nat)
    requires i < |pixels|
    ensures Values(pixels)[3 * i] == OutVal(Colors.Red(pixels[i]))
    ensures Values(pixels)[3 * i + 1] == OutVal(Colors.Green(pixels[i]))
    ensures Values(pixels)[3 * i + 2] == OutVal(Colors.Blue(pixels[i]))
  {
    var n := |pixels|;
    var front := pixels[..n - 1];
    assert Values(pixels) == Values(front) + PixelValues(pixels[n - 1]);
    if i < n - 1 {
      ValuesAt(front, i);
      assert front[i] == pixels[i];
    }
  }

  /** The pixels up to i + 1 contribute the values up to i, then the three of pixel i. */
  lemma ValuesExtend(pixels: seq<Colors.Color>, i: nat)
    requires i < |pixels|
    ensures Values(pixels[..i + 1]) == Values(pixels[..i]) + PixelValues(pixels[i])
  {
    assert pixels[..i + 1][..i] == pixels[..i];
  }

  /** One more value appends its piece, with the separator the counter picks, and advances the counter. */
  lemma TokensExtend(vs: seq<nat>, v: nat, rowLength: nat)
    requires rowLength > 0
    ensures Render(Tokens(vs + [v], rowLength)) ==
      Render(Tokens(vs, rowLength)) + Piece(Token(v, Breaks(Counter(|vs|, rowLength), rowLength)))
    ensures Counter(|vs| + 1, rowLength) == Next(Counter(|vs|, rowLength), rowLength)
  {
    var ws := vs + [v];
    assert ws[..|ws| - 1] == vs;
    var ts := Tokens(vs, rowLength);
    var t := Token(v, Breaks(Counter(|vs|, rowLength), rowLength));
    var r := ts + [t];
    assert Tokens(ws, rowLength) == r;
    assert r[..|r| - 1] == ts && r[|r| - 1] == t;
    assert Render(r) == Render(r[..|r| - 1]) + Piece(r[|r| - 1]);
  }

  /** The text `export` writes for a canvas: the header, then the body. */
  function ExportText(c: Canvases.Canvas): string
    requires Canvases.Valid(c)
  {
    assert |c.pixels| > 0 ==> c.width > 0;
    Header(c.width, c.height) + Render(Tokens(Values(c.pixels), 3 * c.width))
  }

  /** One step of the loop: a value's digits and the separator the counter picks, and the counter after it. */
  method WriteValue(v: nat, counter: nat, rowLength: nat) returns (piece: string, next: nat)
    requires rowLength > 0
    ensures piece == Piece(Token(v, Breaks(counter, rowLength)))
    ensures next == Next(counter, rowLength)
    ensures next == 0 || next == counter + 1
    ensures Decode(piece) == [Token(v, next == 0)]
    ensures next < MaxLineLength
  {
    piece := Decimal(v);
    if (counter + 1) % rowLength == 0 || counter + 1 >= MaxLineLength {
      piece := piece + "\n";
      next := 0;
    } else {
      piece := piece + " ";
      next := counter + 1;
    }
    PieceDecodes(Token(v, next == 0));
  }

  /** A single piece decodes to its own token. */
  lemma PieceDecodes(t: Token)
    ensures Decode(Piece(t)) == [t]
  {
    assert [t][..0] == [];
    assert Render([t]) == Piece(t);
    DecodeRender([t]);
  }

  /** Writing one more value extends the body and the counter by that value. */
  method AppendValue(v: nat, ghost vs: seq<nat>, body: string, counter: nat, rowLength: nat)
    returns (body': string, counter': nat)
    requires rowLength > 0
    requires body == Render(Tokens(vs, rowLength)) && counter == Counter(|vs|, rowLength)
    ensures body' == Render(Tokens(vs + [v], rowLength)) && counter' == Counter(|vs| + 1, rowLength)
  {
    TokensExtend(vs, v, rowLength);
    var piece, next := WriteValue(v, counter, rowLength);
    body', counter' := body + piece, next;
  }

  /** The inner loop of `PPMExporter::export`: writes the values of one pixel after the values `done` already written. */
  method WriteChannels(colors: seq<nat>, ghost done: seq<nat>, body: string, counter: nat, rowLength: nat)
    returns (body': string, counter': nat)
    requires rowLength > 0
    requires body == Render(Tokens(done, rowLength)) && counter == Counter(|done|, rowLength)
    ensures body' == Render(Tokens(done + colors, rowLength)) && counter' == Counter(|done + colors|, rowLength)
  {
    body', counter' := body, counter;
    ghost var vs := done;
    var j := 0;
    while j < |colors|
      invariant 0 <= j <= |colors| && |vs| == |done| + j
      invariant vs == done + colors[..j]
      invariant body' == Render(Tokens(vs, rowLength)) && counter' == Counter(|vs|, rowLength)
    {
      PrefixStep(done, colors, j);
      body', counter' := AppendValue(colors[j], vs, body', counter', rowLength);
      vs := vs + [colors[j]];
      j := j + 1;
    }
    PrefixStep(done, colors, j);
  }

  /** The prefixes `WriteChannels` walks through: empty at 0, one value longer per step, everything at the end. */
  lemma PrefixStep(done: seq<nat>, colors: seq<nat>, j: nat)
    requires j <= |colors|
    ensures j == 0 ==> done + colors[..j] == done
    ensures j < |colors| ==> done + colors[..j + 1] == (done + colors[..j]) + [colors[j]]
    ensures j == |colors| ==> done + colors[..j] == done + colors && |done + colors| == |done| + j
  {
    if j < |colors| {
      assert colors[..j + 1] == colors[..j] + [colors[j]];
    }
    if j == |colors| {
      assert colors[..j] == colors;
    }
  }

  /**
    The loop of `PPMExporter::export`: one pass over the pixels, writing the
    three channel values of each with the separators the running line
    counter picks.
   */
  method WriteBody(pixels: seq<Colors.Color>, rowLength: nat) returns (body: string)
    requires |pixels| > 0 ==> rowLength > 0
    ensures body == Render(Tokens(Values(pixels), rowLength))
  {
    body := "";
    var counter := 0;
    var i := 0;
    while i < |pixels|
      invariant 0 <= i <= |pixels|
      invariant body == Render(Tokens(Values(pixels[..i]), rowLength))
      invariant counter == Counter(|Values(pixels[..i])|, rowLength)
    {
      ValuesExtend(pixels, i);
      body, counter := WriteChannels(PixelValues(pixels[i]), Values(pixels[..i]), body, counter, rowLength);
      i := i + 1;
    }
    assert pixels[..i] == pixels;
  }

  /**
    `PPMExporter::export`: the header, then the body. The text starts with
    the header naming the canvas's dimensions, the body decodes back to the
    channel values in storage order, and, when a row fits on a line, the
    text ends with a newline.
   */
  method Export(c: Canvases.Canvas) returns (out: string)
    requires Canvases.Valid(c)
    ensures out == ExportText(c)
    ensures ReadHeader(out) == Some((c.width, c.height, out[|Header(c.width, c.height)|..]))
    ensures |Header(c.width, c.height)| <= |out|
    ensures
      var ts := Decode(out[|Header(c.width, c.height)|..]);
      |ts| == 3 * |c.pixels| && forall k :: 0 <= k < |ts| ==> ts[k].value == Values(c.pixels)[k]
    ensures 3 * c.width <= MaxLineLength && |c.pixels| > 0 ==> out[|out| - 1] == '\n'
  {
    assert |c.pixels| > 0 ==> c.width > 0;
    var body := WriteBody(c.pixels, 3 * c.width);
    out := Header(c.width, c.height) + body;
    ExportMeaning(c, out);
  }

  /** A body whose rows fit on a line ends with a newline once it holds whole rows. */
  lemma AlignedEndsWithNewline(vs: seq<nat>, rowLength: nat, rows: nat)
    requires 0 < rowLength <= MaxLineLength
    requires rows > 0 && |vs| == rowLength * rows
    ensures |Render(Tokens(vs, rowLength))| > 0
    ensures Render(Tokens(vs, rowLength))[|Render(Tokens(vs, rowLength))| - 1] == '\n'
  {
    var ts := Tokens(vs, rowLength);
    BreaksAligned(vs, rowLength, |vs| - 1);
    FlatIndexDivMod(rows, 0, rowLength);
    assert rows * rowLength + 0 == |vs|;
    RenderLast(ts);
  }

  /** The body of a nonempty canvas whose rows fit on a line ends with a newline. */
  lemma CanvasBodyEndsWithNewline(c: Canvases.Canvas)
    requires Canvases.Valid(c) && 0 < |c.pixels| && 3 * c.width <= MaxLineLength
    ensures c.width > 0
    ensures |Render(Tokens(Values(c.pixels), 3 * c.width))| > 0
    ensures Render(Tokens(Values(c.pixels), 3 * c.width))[|Render(Tokens(Values(c.pixels), 3 * c.width))| - 1] == '\n'
  {
    assert c.width > 0 && c.height > 0;
    var vs := Values(c.pixels);
    assert |vs| == 3 * (c.width * c.height);
    assert 3 * (c.width * c.height) == (3 * c.width) * c.height;
    AlignedEndsWithNewline(vs, 3 * c.width, c.height);
  }

  /** The body decodes to the channel values in storage order. */
  lemma BodyDecodes(vs: seq<nat>, rowLength: nat)
    requires |vs| > 0 ==> rowLength > 0
    ensures var ts := Decode(Render(Tokens(vs, rowLength)));
      |ts| == |vs| && forall k :: 0 <= k < |ts| ==> ts[k].value == vs[k]
  {
    DecodeRender(Tokens(vs, rowLength));
    forall k | 0 <= k < |vs|
      ensures Tokens(vs, rowLength)[k].value == vs[k]
    {
      TokensAt(vs, rowLength, k);
    }
  }

  /** What the exported text means: header first, then the channel values back, and a final newline when rows fit on a line. */
  lemma ExportMeaning(c: Canvases.Canvas, out: string)
    requires Canvases.Valid(c) && out == ExportText(c)
    ensures ReadHeader(out) == Some((c.width, c.height, out[|Header(c.width, c.height)|..]))
    ensures |Header(c.width, c.height)| <= |out|
    ensures
      var ts := Decode(out[|Header(c.width, c.height)|..]);
      |ts| == 3 * |c.pixels| && forall k :: 0 <= k < |ts| ==> ts[k].value == Values(c.pixels)[k]
    ensures 3 * c.width <= MaxLineLength && |c.pixels| > 0 ==> out[|out| - 1] == '\n'
  {
    var h := Header(c.width, c.height);
    var vs := Values(c.pixels);
    assert |vs| > 0 ==> c.width > 0;
    var body := Render(Tokens(vs, 3 * c.width));
    assert out == h + body && out[|h|..] == body;
    ReadHeaderRoundTrip(c.width, c.height, body);
    BodyDecodes(vs, 3 * c.width);
    if 3 * c.width <= MaxLineLength && |c.pixels| > 0 {
      CanvasBodyEndsWithNewline(c);
      assert out[|out| - 1] == body[|body| - 1];
    }
  }

  // The layout of single-digit bodies, and the source's wide-row example

  /** When every value has one digit, value k sits at character 2k and its separator at 2k + 1. */
  lemma {:induction false} SingleDigitLayout(ts: seq<Token>)
    requires forall k :: 0 <= k < |ts| ==> ts[k].value < 10
    ensures |Render(ts)| == 2 * |ts|
    ensures forall k :: 0 <= k < |ts| ==>
      Render(ts)[2 * k] == DigitChar(ts[k].value) && Render(ts)[2 * k + 1] == (if ts[k].newline then '\n' else ' ')
  {
    if |ts| > 0 {
      var n := |ts|;
      var front := ts[..n - 1];
      SingleDigitLayout(front);
      var t := ts[n - 1];
      assert Decimal(t.value) == [DigitChar(t.value)];
      assert Render(ts) == Render(front) + Piece(t);
      forall k | 0 <= k < n
        ensures Render(ts)[2 * k] == DigitChar(ts[k].value) && Render(ts)[2 * k + 1] == (if ts[k].newline then '\n' else ' ')
      {
        if k < n - 1 {
          assert front[k] == ts[k];
        }
      }
    }
  }

  /** A canvas of black pixels encodes to zeros only. */
  lemma {:induction false} BlackValues(pixels: seq<Colors.Color>)
    requires forall i :: 0 <= i < |pixels| ==> pixels[i] == Colors.Black
    ensures forall k :: 0 <= k < |Values(pixels)| ==> Values(pixels)[k] == 0
  {
    if |pixels| > 0 {
      var n := |pixels|;
      BlackValues(pixels[..n - 1]);
      Colors.BlackIsDefault();
      assert PixelValues(pixels[n - 1]) == [0, 0, 0];
    }
  }

  /** The canvas of the source's line-splitting example: one row of 24 pixels, 72 values, more than a line holds. */
  const WideCanvas: Canvases.Canvas := Canvases.New(MaxLineLength / 3 + 1, 1)

  /** 72 zeros on rows longer than a line: every token is a zero, and only token 69 is followed by a newline. */
  lemma WideZeroTokens(vs: seq<nat>, rowLength: nat)
    requires rowLength > MaxLineLength && |vs| == 72
    requires forall k :: 0 <= k < |vs| ==> vs[k] == 0
    ensures forall k :: 0 <= k < 72 ==> Tokens(vs, rowLength)[k].value == 0 && (Tokens(vs, rowLength)[k].newline <==> k == 69)
  {
    var ts := Tokens(vs, rowLength);
    forall k | 0 <= k < 72
      ensures ts[k].value == 0 && (ts[k].newline <==> k == 69)
    {
      TokensAt(vs, rowLength, k);
      BreaksWide(vs, rowLength, k);
      if k < 69 {
        SmallMod(k + 1, MaxLineLength);
      } else if k > 69 {
        FlatIndexDivMod(1, k + 1 - MaxLineLength, MaxLineLength);
        assert 1 * MaxLineLength + (k + 1 - MaxLineLength) == k + 1;
      }
    }
  }

  /** The text of those 72 zeros: a first line of 139 characters, then "0 0 " with no final newline. */
  lemma WideZeroLayout(ts: seq<Token>)
    requires |ts| == 72
    requires forall k :: 0 <= k < 72 ==> ts[k].value == 0 && (ts[k].newline <==> k == 69)
    ensures var body := Render(ts);
      && |body| == 144
      && body[139] == '\n'
      && (forall i :: 0 <= i < 139 ==> body[i] != '\n')
      && body[140..] == "0 0 "
  {
    SingleDigitLayout(ts);
    var body := Render(ts);
    forall i | 0 <= i < 139
      ensures body[i] != '\n'
    {
      var k := i / 2;
      var t := ts[k];
      if i % 2 == 0 {
        assert i == 2 * k;
      } else {
        assert i == 2 * k + 1 && k < 69 && !t.newline;
      }
    }
    var t69, t70, t71 := ts[69], ts[70], ts[71];
    assert t69.newline && !t70.newline && !t71.newline;
    assert body[139] == body[2 * 69 + 1];
    assert body[140] == body[2 * 70] && body[141] == body[2 * 70 + 1];
    assert body[142] == body[2 * 71] && body[143] == body[2 * 71 + 1];
  }

  /**
    The body of the wide example: its first line holds 70 values in 139
    characters, the second line the last two values, "0 0 ", with no
    newline at the end of the output.
   */
  lemma WideRowExample()
    ensures WideCanvas.width == 24 && 3 * WideCanvas.width > MaxLineLength
    ensures var body := Render(Tokens(Values(WideCanvas.pixels), 72));
      && |body| == 144
      && body[139] == '\n'
      && (forall i :: 0 <= i < 139 ==> body[i] != '\n')
      && body[140..] == "0 0 "
  {
    var vs := Values(WideCanvas.pixels);
    assert |vs| == 72;
    BlackValues(WideCanvas.pixels);
    WideZeroTokens(vs, 72);
    var ts := Tokens(vs, 72);
    assert forall k :: 0 <= k < 72 ==> ts[k].value == 0 && (ts[k].newline <==> k == 69);
    WideZeroLayout(ts);
  }

  // The source's 5 by 3 data example

  const C1: Colors.Color := Colors.NewColor(1.5, 0.0, 0.0)
  const C2: Colors.Color := Colors.NewColor(0.0, 0.5, 0.0)
  const C3: Colors.Color := Colors.NewColor(-0.5, 0.0, 1.0)
  const Blank: Canvases.Canvas := Canvases.New(5, 3)

  /** The example canvas: three colors written at (0, 0), (2, 1) and (4, 2) of a black 5 by 3 canvas. */
  const DataCanvas: Canvases.Canvas :=
    Canvases.WritePixel(Canvases.WritePixel(Canvases.WritePixel(Blank, 0, 0, C1), 2, 1, C2), 4, 2, C3)

  /** Where the example's three colors land in the buffer. */
  lemma DataPixels()
    ensures |DataCanvas.pixels| == 15
    ensures DataCanvas.pixels[0] == C1 && DataCanvas.pixels[7] == C2 && DataCanvas.pixels[14] == C3
  {
  }

  /** Its channel values: 1.5 clamps to 255 at value 0, 0.5 rounds to 128 at value 22, 1.0 gives 255 at value 44. */
  lemma DataValuesOf(p: seq<Colors.Color>)
    requires |p| == 15 && p[0] == C1 && p[7] == C2 && p[14] == C3
    ensures |Values(p)| == 45
    ensures Values(p)[0] == 255 && Values(p)[22] == 128 && Values(p)[44] == 255
  {
    OutValExamples();
    ValuesAt(p, 0);
    ValuesAt(p, 7);
    ValuesAt(p, 14);
  }

  lemma DataValues()
    ensures |Values(DataCanvas.pixels)| == 45
    ensures Values(DataCanvas.pixels)[0] == 255 && Values(DataCanvas.pixels)[22] == 128
    ensures Values(DataCanvas.pixels)[44] == 255
  {
    DataPixels();
    DataValuesOf(DataCanvas.pixels);
  }

  /** With rows of 15 values, as in the example, exactly values 14, 29 and 44 of 45 end their lines. */
  lemma DataLines(vs: seq<nat>)
    requires |vs| == 45
    ensures forall k :: 0 <= k < 45 ==> (Tokens(vs, 15)[k].newline <==> k == 14 || k == 29 || k == 44)
  {
    forall k | 0 <= k < 45
      ensures Tokens(vs, 15)[k].newline <==> k == 14 || k == 29 || k == 44
    {
      BreaksAligned(vs, 15, k);
    }
  }
}
