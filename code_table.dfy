/**
 The fixed code table of libpipecolors: a two-digit marker code is read as a
 decimal number and mapped to an ANSI "Select Graphic Rendition" escape
 sequence (ECMA-48 section 8.3.117), or to the sentinel "nocode".
 */
module CodeTable {

  /** The escape character that opens every control sequence. */
  const Esc: char := '\U{1B}'

  /** The sentinel the table returns for an unassigned code. */
  const NoCode: string := "nocode"

  predicate IsDigit(c: char) {
    '0' <= c <= '9'
  }

  function DigitValue(c: char): (d: nat)
    requires IsDigit(c)
    ensures d < 10
  {
    c as int - '0' as int
  }

  function DigitChar(d: nat): (c: char)
    requires d < 10
    ensures IsDigit(c) && DigitValue(c) == d
  {
    "0123456789"[d]
  }

  /** The number two decimal digit characters spell, as `atoi` reads them. */
  function CodeOf(d1: char, d2: char): (n: nat)
    requires IsDigit(d1) && IsDigit(d2)
    ensures n < 100
    ensures n / 10 == DigitValue(d1) && n % 10 == DigitValue(d2)
  {
    10 * DigitValue(d1) + DigitValue(d2)
  }

  /** The shape every escape sequence of the table has. */
  predicate IsSgrSequence(r: string) {
    4 <= |r| <= 7 && r[0] == Esc && r[1] == '[' && r[|r| - 1] == 'm' && '|' !in r
  }

  /** The codes the table assigns: 0-15, 16-23, 30, 31 and 39. */
  predicate IsAssigned(pc: int) {
    0 <= pc < 24 || pc == 30 || pc == 31 || pc == 39
  }

  /**
   The `switch` of `ansi`: total over every integer, "nocode" for every code
   it does not list. LookupShape and TableContents state what it holds.
   */
  function Lookup(pc: int): string
  {
    match pc
    case 0 => "\U{1B}[0;30m"   // black
    case 1 => "\U{1B}[0;34m"   // blue
    case 2 => "\U{1B}[0;32m"   // green
    case 3 => "\U{1B}[0;36m"   // cyan
    case 4 => "\U{1B}[0;31m"   // red
    case 5 => "\U{1B}[0;35m"   // magenta
    case 6 => "\U{1B}[0;33m"   // yellow
    case 7 => "\U{1B}[0;37m"   // gray
    case 8 => "\U{1B}[0;90m"   // dark gray
    case 9 => "\U{1B}[0;94m"   // light blue
    case 10 => "\U{1B}[0;92m"  // light green
    case 11 => "\U{1B}[0;96m"  // light cyan
    case 12 => "\U{1B}[0;91m"  // light red
    case 13 => "\U{1B}[0;95m"  // light magenta
    case 14 => "\U{1B}[0;93m"  // light yellow
    case 15 => "\U{1B}[0;97m"  // white
    case 16 => "\U{1B}[1;40m"  // background default
    case 17 => "\U{1B}[1;44m"  // background blue
    case 18 => "\U{1B}[1;42m"  // background green
    case 19 => "\U{1B}[1;46m"  // background cyan
    case 20 => "\U{1B}[1;41m"  // background red
    case 21 => "\U{1B}[1;45m"  // background magenta
    case 22 => "\U{1B}[1;43m"  // background yellow
    case 23 => "\U{1B}[1;47m"  // background white
    case 30 => "\U{1B}[1m"     // bold on
    case 31 => "\U{1B}[0m"     // bold off
    case 39 => "\U{1B}[0;39m"  // default foreground
    case _ => NoCode
  }

  /**
   `ansi(code)`: reads characters 1 and 2 of the marker text as a decimal
   number and looks it up. Character 0 (the bar) is never looked at.
   */
  function Ansi(code: string): (r: string)
    requires |code| == 3 && IsDigit(code[1]) && IsDigit(code[2])
    ensures r == NoCode <==> !IsAssigned(CodeOf(code[1], code[2]))
    ensures r != NoCode ==> IsSgrSequence(r)
  {
    Lookup(CodeOf(code[1], code[2]))
  }

  // An independent description of the table. The table lists colours in
  // PC (CGA) order, where bit 0 is blue, bit 1 green, bit 2 red and bit 3
  // intensity; ANSI numbers them with bit 0 red, bit 1 green, bit 2 blue.

  /** The ANSI colour number of the PC colour `k` (0-7). */
  function AnsiColour(k: nat): (a: nat)
    requires k < 8
    ensures a < 8
  {
    4 * (k % 2) + 2 * (k / 2 % 2) + k / 4
  }

  /** Foreground colour `k`: "0;3x" normal, "0;9x" bright. */
  function Foreground(bright: bool, k: nat): string
    requires k < 8
  {
    [Esc, '[', '0', ';', if bright then '9' else '3', DigitChar(AnsiColour(k)), 'm']
  }

  /** Background 4x for PC colours 0-7. */
  function Background(k: nat): string
    requires k < 8
  {
    [Esc, '[', '1', ';', '4', DigitChar(AnsiColour(k)), 'm']
  }

  lemma {:induction false} NormalForegroundCodes(k: nat)
    requires k < 8
    ensures Lookup(k) == Foreground(false, k)
  {
    if k == 0 { assert Lookup(k) == Foreground(false, k) by { assert Foreground(false, 0) == "\U{1B}[0;30m"; } }
    else if k == 1 { assert Lookup(k) == Foreground(false, k) by { assert Foreground(false, 1) == "\U{1B}[0;34m"; } }
    else if k == 2 { assert Lookup(k) == Foreground(false, k) by { assert Foreground(false, 2) == "\U{1B}[0;32m"; } }
    else if k == 3 { assert Lookup(k) == Foreground(false, k) by { assert Foreground(false, 3) == "\U{1B}[0;36m"; } }
    else if k == 4 { assert Lookup(k) == Foreground(false, k) by { assert Foreground(false, 4) == "\U{1B}[0;31m"; } }
    else if k == 5 { assert Lookup(k) == Foreground(false, k) by { assert Foreground(false, 5) == "\U{1B}[0;35m"; } }
    else if k == 6 { assert Lookup(k) == Foreground(false, k) by { assert Foreground(false, 6) == "\U{1B}[0;33m"; } }
    else { assert Lookup(k) == Foreground(false, k) by { assert Foreground(false, 7) == "\U{1B}[0;37m"; } }
  }

  lemma {:induction false} BrightForegroundCodes(k: nat)
    requires k < 8
    ensures Lookup(8 + k) == Foreground(true, k)
  {
    if k == 0 { assert Lookup(8 + k) == Foreground(true, k) by { assert Foreground(true, 0) == "\U{1B}[0;90m"; } }
    else if k == 1 { assert Lookup(8 + k) == Foreground(true, k) by { assert Foreground(true, 1) == "\U{1B}[0;94m"; } }
    else if k == 2 { assert Lookup(8 + k) == Foreground(true, k) by { assert Foreground(true, 2) == "\U{1B}[0;92m"; } }
    else if k == 3 { assert Lookup(8 + k) == Foreground(true, k) by { assert Foreground(true, 3) == "\U{1B}[0;96m"; } }
    else if k == 4 { assert Lookup(8 + k) == Foreground(true, k) by { assert Foreground(true, 4) == "\U{1B}[0;91m"; } }
    else if k == 5 { assert Lookup(8 + k) == Foreground(true, k) by { assert Foreground(true, 5) == "\U{1B}[0;95m"; } }
    else if k == 6 { assert Lookup(8 + k) == Foreground(true, k) by { assert Foreground(true, 6) == "\U{1B}[0;93m"; } }
    else { assert Lookup(8 + k) == Foreground(true, k) by { assert Foreground(true, 7) == "\U{1B}[0;97m"; } }
  }

  lemma {:induction false} BackgroundCodes(k: nat)
    requires k < 8
    ensures Lookup(16 + k) == Background(k)
  {
    if k == 0 { assert Lookup(16 + k) == Background(k) by { assert Background(0) == "\U{1B}[1;40m"; } }
    else if k == 1 { assert Lookup(16 + k) == Background(k) by { assert Background(1) == "\U{1B}[1;44m"; } }
    else if k == 2 { assert Lookup(16 + k) == Background(k) by { assert Background(2) == "\U{1B}[1;42m"; } }
    else if k == 3 { assert Lookup(16 + k) == Background(k) by { assert Background(3) == "\U{1B}[1;46m"; } }
    else if k == 4 { assert Lookup(16 + k) == Background(k) by { assert Background(4) == "\U{1B}[1;41m"; } }
    else if k == 5 { assert Lookup(16 + k) == Background(k) by { assert Background(5) == "\U{1B}[1;45m"; } }
    else if k == 6 { assert Lookup(16 + k) == Background(k) by { assert Background(6) == "\U{1B}[1;43m"; } }
    else { assert Lookup(16 + k) == Background(k) by { assert Background(7) == "\U{1B}[1;47m"; } }
  }

  /**
   Exactly the assigned codes give an escape sequence, and every escape
   sequence of the table has the SGR shape.
   */
  lemma LookupShape(pc: int)
    ensures Lookup(pc) == NoCode <==> !IsAssigned(pc)
    ensures Lookup(pc) != NoCode ==> IsSgrSequence(Lookup(pc))
  {
  }

  /** The whole table over the codes two digits can spell. */
  lemma TableContents(pc: nat)
    requires pc < 100
    ensures pc < 8 ==> Lookup(pc) == Foreground(false, pc)
    ensures 8 <= pc < 16 ==> Lookup(pc) == Foreground(true, pc - 8)
    ensures 16 <= pc < 24 ==> Lookup(pc) == Background(pc - 16)
    ensures pc == 30 ==> Lookup(pc) == "\U{1B}[1m"
    ensures pc == 31 ==> Lookup(pc) == "\U{1B}[0m"
    ensures pc == 39 ==> Lookup(pc) == "\U{1B}[0;39m"
    ensures 24 <= pc && pc != 30 && pc != 31 && pc != 39 ==> Lookup(pc) == NoCode
  {
    if pc < 8 {
      NormalForegroundCodes(pc);
    } else if pc < 16 {
      BrightForegroundCodes(pc - 8);
    } else if pc < 24 {
      BackgroundCodes(pc - 16);
    } else {
      LookupShape(pc);
    }
  }
}
