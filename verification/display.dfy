/**
 The digit layout of display_pi (pininfinity.py:68-93): the text that the
 function prints for a given string form of pi, from "Pi = " to the
 truncation note. Clearing the screen and the header and footer rules are not
 part of it.

 Layout is the specification: the first two characters, then each further
 shown character preceded by its separator, then the note. Grouped is an
 independent description by blocks of ten characters, five blocks per line.
 */
module Display {

  /** What `print("Pi =", s[:2], end="")` writes before the two characters. */
  const Label: string := "Pi = "
  /** What `print("\n    ", end="")` writes before each new line of 50. */
  const Indent: string := "\n    "
  /** The default of display_pi's max_display. */
  const DefaultMaxDisplay: int := 1000
  const GroupSize: nat := 10
  const LineSize: nat := 50

  function Min(a: int, b: int): int
  {
    if a < b then a else b
  }

  /** display_length = min(max_display + 2, len(pi_str)). */
  function DisplayLength(s: string, maxDisplay: int): int
  {
    Min(maxDisplay + 2, |s|)
  }

  /** What is printed before the character at index j + 2 of the string. */
  function Separator(j: nat): string
  {
    (if j % GroupSize == 0 then " " else "") + (if j % LineSize == 0 && j > 0 then Indent else "")
  }

  /** The loop's output for characters d, the first of which sits at offset j
      past the first two characters of the string. */
  function Emit(d: string, j: nat): string
  {
    if d == [] then [] else Separator(j) + [d[0]] + Emit(d[1..], j + 1)
  }

  /** The characters at indices 2 .. display_length - 1. */
  function Shown(s: string, maxDisplay: int): string
  {
    var n := DisplayLength(s, maxDisplay);
    if n > 2 then s[2..n] else []
  }

  function DigitChar(d: nat): char
    requires d < 10
  {
    ('0' as int + d) as char
  }

  predicate IsDigit(c: char)
  {
    '0' <= c <= '9'
  }

  function DigitValue(c: char): nat
    requires IsDigit(c)
  {
    c as int - '0' as int
  }

  /** str() of a non-negative Python int. */
  function NatToString(n: nat): (r: string)
    ensures |r| >= 1
    ensures forall i :: 0 <= i < |r| ==> IsDigit(r[i])
  {
    if n < 10 then [DigitChar(n)] else NatToString(n / 10) + [DigitChar(n % 10)]
  }

  /** Reads a string of decimal digits back as a number. */
  function ParseNat(t: string): nat
    requires forall i :: 0 <= i < |t| ==> IsDigit(t[i])
  {
    if t == [] then 0 else ParseNat(t[..|t| - 1]) * 10 + DigitValue(t[|t| - 1])
  }

  lemma {:induction false} ParseNatToString(n: nat)
    ensures ParseNat(NatToString(n)) == n
  {
    var t := NatToString(n);
    if n >= 10 {
      ParseNatToString(n / 10);
      assert t[..|t| - 1] == NatToString(n / 10);
    }
  }

  /** The note printed when the string is longer than what was shown. */
  function Note(s: string, maxDisplay: int): string
  {
    var n := DisplayLength(s, maxDisplay);
    if |s| > n then "\n... (additional " + NatToString(|s| - n) + " digits being calculated)\n" else ""
  }

  /** Everything display_pi prints from "Pi = " to the truncation note. */
  function Layout(s: string, maxDisplay: int := DefaultMaxDisplay): string
  {
    Label + s[..Min(2, |s|)] + Emit(Shown(s, maxDisplay), 0) + Note(s, maxDisplay)
  }

  /** display_pi's printing, one print call at a time. */
  method DisplayPi(s: string, maxDisplay: int := DefaultMaxDisplay) returns (text: string)
    ensures text == Layout(s, maxDisplay)
  {
    text := Label + (if |s| < 2 then s else s[..2]);
    assert text == Label + s[..Min(2, |s|)];
    var displayLength := if maxDisplay + 2 < |s| then maxDisplay + 2 else |s|;
    assert displayLength == DisplayLength(s, maxDisplay);
    var digits := PrintDigits(s, displayLength);
    text := text + digits;
    ghost var printed := text;
    if |s| > displayLength {
      text := text + "\n... (additional " + NatToString(|s| - displayLength) + " digits being calculated)\n";
      assert text == printed + Note(s, maxDisplay);
    } else {
      assert Note(s, maxDisplay) == [];
      assert text == printed + Note(s, maxDisplay);
    }
  }

  /** The loop of display_pi over indices 2 .. displayLength - 1: each
      character, preceded by a space at the start of each block of ten and by
      a line break and indent at the start of each further line of fifty. */
  method PrintDigits(s: string, displayLength: int) returns (digits: string)
    requires displayLength <= |s|
    ensures digits == Emit(if displayLength > 2 then s[2..displayLength] else [], 0)
  {
    ghost var shown := if displayLength > 2 then s[2..displayLength] else [];
    digits := "";
    var i := 2;
    while i < displayLength
      invariant 2 <= i && i - 2 <= |shown|
      invariant digits == Emit(shown[..i - 2], 0)
    {
      ghost var before := digits;
      if (i - 2) % GroupSize == 0 {
        digits := digits + " ";
      }
      if (i - 2) % LineSize == 0 && i > 2 {
        digits := digits + Indent;
      }
      assert digits == before + Separator(i - 2);
      assert s[i] == shown[i - 2];
      digits := digits + [s[i]];
      EmitAppend(shown[..i - 2], s[i], 0);
      assert shown[..i - 2] + [s[i]] == shown[..i - 1];
      i := i + 1;
    }
    assert shown[..i - 2] == shown;
  }

  lemma {:induction false} EmitAppend(d: string, c: char, j: nat)
    ensures Emit(d + [c], j) == Emit(d, j) + Separator(j + |d|) + [c]
  {
    if d == [] {
      assert d + [c] == [c];
    } else {
      assert (d + [c])[1..] == d[1..] + [c];
      EmitAppend(d[1..], c, j + 1);
    }
  }
  /** What precedes block g (from 0) of ten characters: a space, and from the
      sixth block on, a line break with indent before every fifth block. */
  function BlockLead(g: nat): string
  {
    if g > 0 && g % 5 == 0 then " " + Indent else " "
  }

  /** The shown characters cut into blocks of ten, block g first. */
  function Grouped(d: string, g: nat): string
    decreases |d|
  {
    if d == [] then []
    else
      var m := Min(GroupSize, |d|);
      BlockLead(g) + d[..m] + Grouped(d[m..], g + 1)
  }

  /** Offsets after the start of a block and before its end print no
      separator. */
  lemma InsideBlock(j: nat, t: nat)
    requires 1 <= t && j % GroupSize + t < GroupSize
    ensures Separator(j + t) == ""
  {
    var q, r := j / 10, j % 10;
    var p, u := q / 5, q % 5;
    assert j + t == 10 * q + (r + t);
    assert j + t == 50 * p + (10 * u + r + t);
    RemainderOf(j + t, 10, q, r + t);
    RemainderOf(j + t, 50, p, 10 * u + r + t);
  }

  /** The remainder is the r of any a = b q + r with 0 <= r < b. */
  lemma RemainderOf(a: int, b: int, q: int, r: int)
    requires 0 <= r < b && a == b * q + r
    ensures a % b == r
  {
    var q', r' := a / b, a % b;
    assert b * (q - q') == r' - r;
    Sandwich(b, q - q');
  }

  /** A multiple of b strictly between -b and b is zero. */
  lemma Sandwich(b: int, c: int)
    requires b > 0 && -b < b * c < b
    ensures c == 0
  {
  }

  lemma Assoc(a: string, b: string, c: string)
    ensures a + (b + c) == a + b + c
  {
  }

  /** A run of k characters that stays within one block: only the first
      character's separator is printed. */
  lemma {:induction false} EmitBlock(d: string, j: nat, k: nat)
    requires 1 <= k <= |d|
    requires j % GroupSize + k <= GroupSize
    ensures Emit(d, j) == Separator(j) + d[..k] + Emit(d[k..], j + k)
  {
    if k == 1 {
      assert d[..1] == [d[0]];
    } else {
      EmitBlock(d, j, k - 1);
      InsideBlock(j, k - 1);
      var e := d[k - 1..];
      assert e[0] == d[k - 1] && e[1..] == d[k..];
      assert Emit(e, j + k - 1) == [d[k - 1]] + Emit(d[k..], j + k);
      Assoc(Separator(j) + d[..k - 1], [d[k - 1]], Emit(d[k..], j + k));
      assert d[..k - 1] + [d[k - 1]] == d[..k];
      Assoc(Separator(j), d[..k - 1], [d[k - 1]]);
    }
  }

  /** Offset 10g starts block g. */
  lemma BlockStart(g: nat)
    ensures Separator(GroupSize * g) == BlockLead(g)
    ensures (GroupSize * g) % GroupSize == 0
  {
    var q, r := g / 5, g % 5;
    assert g == 5 * q + r;
    assert 10 * g == 50 * q + 10 * r;
    assert (10 * g) % 10 == 0;
    assert (10 * g) % 50 == 10 * r;
  }

  /** The loop's character-by-character output is the block-by-block layout. */
  lemma {:induction false} EmitIsGrouped(d: string, g: nat)
    ensures Emit(d, GroupSize * g) == Grouped(d, g)
    decreases |d|
  {
    if d != [] {
      var m := Min(GroupSize, |d|);
      BlockStart(g);
      EmitBlock(d, GroupSize * g, m);
      EmitIsGrouped(d[m..], g + 1);
      if m < GroupSize {
        assert d[m..] == [];
      } else {
        assert GroupSize * g + m == GroupSize * (g + 1);
      }
    }
  }

  /** The text with the layout characters (space and line break) removed. */
  function Strip(t: string): string
  {
    if t == [] then []
    else (if t[0] == ' ' || t[0] == '\n' then [] else [t[0]]) + Strip(t[1..])
  }

  lemma {:induction false} StripConcat(a: string, b: string)
    ensures Strip(a + b) == Strip(a) + Strip(b)
  {
    if a == [] {
      assert a + b == b;
    } else {
      assert (a + b)[1..] == a[1..] + b;
      StripConcat(a[1..], b);
    }
  }

  /** The loop adds only layout characters: removing them gives back the
      characters it was given, in order. */
  lemma {:induction false} EmitKeepsCharacters(d: string, j: nat)
    ensures Strip(Emit(d, j)) == Strip(d)
  {
    if d != [] {
      EmitKeepsCharacters(d[1..], j + 1);
      StripConcat(Separator(j) + [d[0]], Emit(d[1..], j + 1));
      StripConcat(Separator(j), [d[0]]);
      StripSeparator(j);
      assert d == [d[0]] + d[1..];
      StripConcat([d[0]], d[1..]);
    }
  }

  lemma StripSeparator(j: nat)
    ensures Strip(Separator(j)) == []
  {
    assert Strip(" ") == [];
    assert Strip(Indent) == [] by {
      assert Indent == "\n" + "    ";
      assert Strip("  ") == [] by {
        assert "  " == " " + " ";
        StripConcat(" ", " ");
      }
      assert "    " == "  " + "  ";
      StripConcat("  ", "  ");
      StripConcat("\n", "    ");
    }
    StripConcat(" ", Indent);
    StripConcat(" ", "");
    StripConcat("", Indent);
    StripConcat("", "");
  }

  lemma StripPlain(t: string)
    requires forall i :: 0 <= i < |t| ==> t[i] != ' ' && t[i] != '\n'
    ensures Strip(t) == t
  {
  }

  /** After "Pi = " and the first two characters, the characters printed
      other than layout are exactly those at indices 2 .. min(max_display + 2,
      len) - 1, given that the string itself contains no spaces or line breaks. */
  lemma LayoutShowsCharacters(s: string, maxDisplay: int)
    requires forall i :: 0 <= i < |s| ==> s[i] != ' ' && s[i] != '\n'
    ensures Strip(Emit(Shown(s, maxDisplay), 0)) == Shown(s, maxDisplay)
    ensures |Shown(s, maxDisplay)| == if DisplayLength(s, maxDisplay) > 2 then DisplayLength(s, maxDisplay) - 2 else 0
    ensures forall k :: 0 <= k < |Shown(s, maxDisplay)| ==> Shown(s, maxDisplay)[k] == s[k + 2]
  {
    EmitKeepsCharacters(Shown(s, maxDisplay), 0);
    StripPlain(Shown(s, maxDisplay));
  }

  /** Number of separators: one space per started block of ten, and one
      five-character line break per started line of fifty after the first. */
  lemma {:induction false} EmitLength(d: string)
    ensures |Emit(d, 0)| == |d| + (|d| + 9) / 10 + 5 * (if d == [] then 0 else (|d| - 1) / 50)
    decreases |d|
  {
    if d != [] {
      var n := |d| - 1;
      var d' := d[..n];
      EmitLength(d');
      EmitAppend(d', d[n], 0);
      assert d' + [d[n]] == d;
      assert |Separator(n)| == (if n % 10 == 0 then 1 else 0) + (if n % 50 == 0 && n > 0 then 5 else 0);
      assert (n + 10) / 10 == (n + 9) / 10 + (if n % 10 == 0 then 1 else 0);
      if n > 0 {
        assert n / 50 == (n - 1) / 50 + (if n % 50 == 0 then 1 else 0);
      }
    }
  }

  /** The note appears exactly when the string is longer than max_display + 2,
      and then it gives the number of characters not shown, len - display_length. */
  lemma NoteWhenTruncated(s: string, maxDisplay: int)
    ensures Note(s, maxDisplay) != "" <==> |s| > maxDisplay + 2
    ensures |s| > maxDisplay + 2 ==>
      && DisplayLength(s, maxDisplay) == maxDisplay + 2
      && Note(s, maxDisplay) == "\n... (additional " + NatToString(|s| - maxDisplay - 2) + " digits being calculated)\n"
      && ParseNat(NatToString(|s| - maxDisplay - 2)) == |s| - DisplayLength(s, maxDisplay)
  {
    if |s| > maxDisplay + 2 {
      assert DisplayLength(s, maxDisplay) == maxDisplay + 2;
      ParseNatToString(|s| - maxDisplay - 2);
    } else {
      assert DisplayLength(s, maxDisplay) == |s|;
      assert Note(s, maxDisplay) == "";
    }
  }
}
