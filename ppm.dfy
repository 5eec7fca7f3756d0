/**
  The compositor's output: the sorted pixels written as a plain PPM ("P3")
  text image, one line of colour triplets per image row.
 */
module Ppm {
  import opened Pixels

  predicate IsDigit(c: char)
  {
    '0' <= c <= '9'
  }

  predicate AllDigits(s: string)
  {
    forall k :: 0 <= k < |s| ==> IsDigit(s[k])
  }

  /** A decimal numeral as a stream prints a non-negative int: digits, no leading zero. */
  predicate Canonical(s: string)
  {
    |s| >= 1 && AllDigits(s) && (|s| > 1 ==> s[0] != '0')
  }

  function DigitChar(d: nat): (c: char)
    requires d < 10
    ensures IsDigit(c) && c as int - '0' as int == d
  {
    (d + '0' as int) as char
  }

  function DigitValue(c: char): (d: nat)
    requires IsDigit(c)
    ensures d < 10 && DigitChar(d) == c
  {
    c as int - '0' as int
  }

  /** The decimal numeral of `n`, most significant digit first. */
  function NatToString(n: nat): (s: string)
    ensures Canonical(s)
  {
    if n < 10 then [DigitChar(n)]
    else NatToString(n / 10) + [DigitChar(n % 10)]
  }

  /** The value of a string of decimal digits. */
  function ParseNat(s: string): nat
    requires AllDigits(s)
  {
    if s == [] then 0
    else ParseNat(s[..|s| - 1]) * 10 + DigitValue(s[|s| - 1])
  }

  /** Reading back a printed number gives the number. */
  lemma {:induction false} ParseNatToString(n: nat)
    ensures ParseNat(NatToString(n)) == n
  {
    var s := NatToString(n);
    if n >= 10 {
      ParseNatToString(n / 10);
      assert s[..|s| - 1] == NatToString(n / 10);
    } else {
      assert s[..|s| - 1] == [];
    }
  }

  lemma {:induction false} ParseNatPositive(s: string)
    requires |s| >= 1 && AllDigits(s) && s[0] != '0'
    ensures ParseNat(s) >= 1
  {
    if |s| > 1 {
      ParseNatPositive(s[..|s| - 1]);
    } else {
      assert s[..|s| - 1] == [];
    }
  }

  /** Every canonical numeral is the one printed for its value: printing is onto the canonical numerals. */
  lemma {:induction false} NatToStringParseNat(s: string)
    requires Canonical(s)
    ensures NatToString(ParseNat(s)) == s
  {
    var p := s[..|s| - 1];
    var d := DigitValue(s[|s| - 1]);
    if |s| == 1 {
      assert p == [];
      assert s == [s[0]];
    } else {
      ParseNatPositive(p);
      NatToStringParseNat(p);
      var n := ParseNat(s);
      assert n == ParseNat(p) * 10 + d;
      assert n / 10 == ParseNat(p) && n % 10 == d;
      assert s == p + [s[|s| - 1]];
    }
  }

  /** How a stream prints an int: a minus sign before the magnitude of a negative value. */
  function IntToString(i: int): (s: string)
    ensures |s| >= 1
    ensures i < 0 <==> s[0] == '-'
    ensures forall k :: 0 <= k < |s| ==> s[k] == '-' || IsDigit(s[k])
  {
    if i < 0 then "-" + NatToString(-i) else NatToString(i)
  }

  function ParseInt(s: string): int
    requires |s| >= 1
    requires s[0] == '-' ==> AllDigits(s[1..])
    requires s[0] != '-' ==> AllDigits(s)
  {
    if s[0] == '-' then -(ParseNat(s[1..]) as int) else ParseNat(s)
  }

  lemma ParseIntToString(i: int)
    ensures ParseInt(IntToString(i)) == i
  {
    if i < 0 {
      assert IntToString(i)[1..] == NatToString(-i);
      ParseNatToString(-i);
    } else {
      ParseNatToString(i);
    }
  }

  /** The number of occurrences of `c` in `s`. */
  function Count(s: string, c: char): nat
  {
    if s == [] then 0
    else Count(s[..|s| - 1], c) + (if s[|s| - 1] == c then 1 else 0)
  }

  lemma {:induction false} CountAppend(a: string, b: string, c: char)
    ensures Count(a + b, c) == Count(a, c) + Count(b, c)
    decreases |b|
  {
    if b != [] {
      assert (a + b)[..|a + b| - 1] == a + b[..|b| - 1];
      assert (a + b)[|a + b| - 1] == b[|b| - 1];
      CountAppend(a, b[..|b| - 1], c);
    } else {
      assert a + b == a;
    }
  }

  lemma {:induction false} CountAbsent(s: string, c: char)
    requires forall k :: 0 <= k < |s| ==> s[k] != c
    ensures Count(s, c) == 0
  {
    if s != [] {
      CountAbsent(s[..|s| - 1], c);
    }
  }

  /** One pixel's colour: red, green and blue, each followed by a space. */
  function Triplet(p: DrawPixel): string
  {
    IntToString(p.red) + " " + IntToString(p.green) + " " + IntToString(p.blue) + " "
  }

  /** A pixel contributes three space-terminated numbers and no line break. */
  lemma TripletSeparators(p: DrawPixel)
    ensures Count(Triplet(p), ' ') == 3
    ensures Count(Triplet(p), '\n') == 0
  {
    var r, g, b := IntToString(p.red), IntToString(p.green), IntToString(p.blue);
    CountAbsent(r, ' '); CountAbsent(g, ' '); CountAbsent(b, ' ');
    CountAbsent(r, '\n'); CountAbsent(g, '\n'); CountAbsent(b, '\n');
    CountAppend(r + " " + g + " " + b, " ", ' ');
    CountAppend(r + " " + g + " ", b, ' ');
    CountAppend(r + " " + g, " ", ' ');
    CountAppend(r + " ", g, ' ');
    CountAppend(r, " ", ' ');
    CountAppend(r + " " + g + " " + b, " ", '\n');
    CountAppend(r + " " + g + " ", b, '\n');
    CountAppend(r + " " + g, " ", '\n');
    CountAppend(r + " ", g, '\n');
    CountAppend(r, " ", '\n');
  }

  /** The triplets of the pixels, one after another, with no line breaks. */
  function Triplets(ps: seq<DrawPixel>): string
  {
    if ps == [] then [] else Triplet(ps[0]) + Triplets(ps[1..])
  }

  /** Whether the output loop breaks the line after the first pixel: when the next pixel is on another row. */
  function BreakAfterFirst(ps: seq<DrawPixel>): string
    requires ps != []
  {
    if |ps| > 1 && ps[0].y != ps[1].y then "\n" else ""
  }

  /** The pixel lines: each pixel's triplet, then a line break if the next pixel lies on another row. */
  function Body(ps: seq<DrawPixel>): string
  {
    if ps == [] then [] else Triplet(ps[0]) + BreakAfterFirst(ps) + Body(ps[1..])
  }

  /** The number of consecutive pixel pairs on different rows. */
  function RowChanges(ps: seq<DrawPixel>): nat
  {
    if |ps| < 2 then 0
    else (if ps[0].y != ps[1].y then 1 else 0) + RowChanges(ps[1..])
  }

  /** Width, height and the declared maximum colour value, each header item on its own line. */
  function Header(width: int, height: int): string
  {
    "P3\n" + IntToString(width) + " " + IntToString(height) + "\n" + "256\n"
  }

  /** The whole image file: the header, the pixel lines and a final line break. */
  function PpmText(width: int, height: int, ps: seq<DrawPixel>): string
  {
    Header(width, height) + Body(ps) + "\n"
  }

  /**
    The pixel lines hold exactly three space-terminated numbers per pixel and
    a line break exactly where consecutive pixels change row.
   */
  lemma {:induction false} BodySeparators(ps: seq<DrawPixel>)
    ensures Count(Body(ps), ' ') == 3 * |ps|
    ensures Count(Body(ps), '\n') == RowChanges(ps)
  {
    if ps != [] {
      BodySeparators(ps[1..]);
      TripletSeparators(ps[0]);
      BreakSeparators(ps);
      var brk := BreakAfterFirst(ps);
      CountAppend(Triplet(ps[0]) + brk, Body(ps[1..]), ' ');
      CountAppend(Triplet(ps[0]), brk, ' ');
      CountAppend(Triplet(ps[0]) + brk, Body(ps[1..]), '\n');
      CountAppend(Triplet(ps[0]), brk, '\n');
    }
  }

  lemma BreakSeparators(ps: seq<DrawPixel>)
    requires ps != []
    ensures Count(BreakAfterFirst(ps), ' ') == 0
    ensures Count(BreakAfterFirst(ps), '\n') == if |ps| > 1 && ps[0].y != ps[1].y then 1 else 0
  {
    var brk := BreakAfterFirst(ps);
    if brk != [] {
      assert brk[..0] == [];
    }
  }


  /** Pixels all on one row are written as one line of triplets. */
  lemma {:induction false} BodyOfOneRow(ps: seq<DrawPixel>)
    requires forall k :: 0 <= k < |ps| ==> ps[k].y == ps[0].y
    ensures Body(ps) == Triplets(ps)
  {
    if ps != [] {
      BodyOfOneRow(ps[1..]);
    }
  }

  /** The line break between two runs of pixels written one after the other: only across a row change. */
  function Junction(a: seq<DrawPixel>, b: seq<DrawPixel>): string
  {
    if a != [] && b != [] && a[|a| - 1].y != b[0].y then "\n" else ""
  }

  /**
    Writing two runs of pixels one after the other: the first run's lines,
    a line break if the runs meet across a row change, the second run's lines.
   */
  lemma {:induction false} BodyAppend(a: seq<DrawPixel>, b: seq<DrawPixel>)
    ensures Body(a + b) == Body(a) + Junction(a, b) + Body(b)
  {
    if a == [] {
      assert a + b == b;
    } else {
      var ab := a + b;
      assert ab[0] == a[0];
      assert ab[1..] == a[1..] + b;
      BodyAppend(a[1..], b);
      if |a| == 1 {
        assert a[1..] == [];
        assert Body(a) == Triplet(a[0]);
        assert BreakAfterFirst(ab) == Junction(a, b);
      } else {
        assert ab[1] == a[1];
        assert BreakAfterFirst(ab) == BreakAfterFirst(a);
        assert Junction(a[1..], b) == Junction(a, b);
      }
      Regroup(Triplet(a[0]), BreakAfterFirst(ab), Body(a[1..]), Junction(a, b), Body(b));
    }
  }

  lemma Regroup(p: string, q: string, x: string, j: string, y: string)
    ensures p + q + (x + j + y) == (p + q + x) + j + y
  {
  }

  /**
    Following written pixels by a run of pixels all on one other row starts
    a new line holding that run's triplets.
   */
  lemma BodyOfNextRow(prev: seq<DrawPixel>, row: seq<DrawPixel>, y: int)
    requires prev != [] && row != []
    requires forall k :: 0 <= k < |row| ==> row[k].y == y
    requires prev[|prev| - 1].y != y
    ensures Body(prev + row) + "\n" == Body(prev) + "\n" + Triplets(row) + "\n"
  {
    BodyAppend(prev, row);
    BodyOfOneRow(row);
  }

  /** The header is the three lines "P3", "width height" and "256". */
  lemma HeaderLines(width: int, height: int)
    ensures Header(width, height)[..3] == "P3\n"
    ensures Count(Header(width, height), '\n') == 3
    ensures Header(width, height)[|Header(width, height)| - 4..] == "256\n"
  {
    HeaderEnds(width, height);
    HeaderBreaks(width, height);
  }

  lemma HeaderEnds(width: int, height: int)
    ensures Header(width, height)[..3] == "P3\n"
    ensures Header(width, height)[|Header(width, height)| - 4..] == "256\n"
  {
    var body := IntToString(width) + " " + IntToString(height) + "\n";
    assert Header(width, height) == "P3\n" + body + "256\n";
  }

  lemma HeaderBreaks(width: int, height: int)
    ensures Count(Header(width, height), '\n') == 3
  {
    var w, h := IntToString(width), IntToString(height);
    CountAbsent(w, '\n'); CountAbsent(h, '\n');
    LiteralBreaks();
    CountAppend("P3\n" + w + " " + h + "\n", "256\n", '\n');
    CountAppend("P3\n" + w + " " + h, "\n", '\n');
    CountAppend("P3\n" + w + " ", h, '\n');
    CountAppend("P3\n" + w, " ", '\n');
    CountAppend("P3\n", w, '\n');
  }

  lemma CountOne(c: char, d: char)
    ensures Count([c], d) == if c == d then 1 else 0
  {
    assert [c][..0] == [];
  }

  /** The line breaks of the header's fixed parts. */
  lemma LiteralBreaks()
    ensures Count("P3\n", '\n') == 1 && Count("256\n", '\n') == 1
    ensures Count(" ", '\n') == 0 && Count("\n", '\n') == 1
  {
    CountOne('P', '\n'); CountOne('3', '\n'); CountOne('\n', '\n'); CountOne(' ', '\n');
    CountOne('2', '\n'); CountOne('5', '\n'); CountOne('6', '\n');
    assert "P3\n" == ['P'] + ['3'] + ['\n'];
    CountAppend(['P'] + ['3'], ['\n'], '\n');
    CountAppend(['P'], ['3'], '\n');
    assert "256\n" == ['2'] + ['5'] + ['6'] + ['\n'];
    CountAppend(['2'] + ['5'] + ['6'], ['\n'], '\n');
    CountAppend(['2'] + ['5'], ['6'], '\n');
    CountAppend(['2'], ['5'], '\n');
    assert " " == [' '] && "\n" == ['\n'];
  }


  /**
    The file holds the header's three line breaks, one per row change of the
    pixels and the final one.
   */
  lemma PpmLineBreaks(width: int, height: int, ps: seq<DrawPixel>)
    ensures Count(PpmText(width, height, ps), '\n') == 3 + RowChanges(ps) + 1
    ensures Count(PpmText(width, height, ps), ' ') == Count(Header(width, height), ' ') + 3 * |ps|
  {
    HeaderLines(width, height);
    BodySeparators(ps);
    CountAppend(Header(width, height) + Body(ps), "\n", '\n');
    CountAppend(Header(width, height), Body(ps), '\n');
    CountAppend(Header(width, height) + Body(ps), "\n", ' ');
    CountAppend(Header(width, height), Body(ps), ' ');
    assert Count("\n", '\n') == 1 && Count("\n", ' ') == 0 by {
      assert "\n"[..0] == "";
    }
  }
}
