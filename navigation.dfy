/** Navigation simulator (day2/src/main.rs): parse movement commands and fold
    them over a (horizontal, depth) position starting at (0, 0). */
module Navigation {
  import opened Wrappers

  datatype Direction = Forward | Up | Down | Unknown

  datatype Command = Command(direction: Direction, distance: int)

  datatype Position = Position(horizontal: int, depth: int)

  /** `parse_direction`: total; every unrecognised token becomes Unknown. */
  function ParseDirection(token: string): (d: Direction)
    ensures d == Forward <==> token == "forward"
    ensures d == Up <==> token == "up"
    ensures d == Down <==> token == "down"
    ensures d == Unknown <==> token !in {"forward", "up", "down"}
  {
    match token
    case "forward" => Forward
    case "up" => Up
    case "down" => Down
    case _ => Unknown
  }

  /** The token that names a known direction. */
  function DirectionName(d: Direction): string
    requires d != Unknown
  {
    match d
    case Forward => "forward"
    case Up => "up"
    case Down => "down"
  }

  lemma ParseDirectionName(d: Direction)
    requires d != Unknown
    ensures ParseDirection(DirectionName(d)) == d
  {
  }

  // ---- Decimal integers -------------------------------------------------

  predicate IsDigit(c: char)
  {
    '0' <= c <= '9'
  }

  predicate AllDigits(s: string)
  {
    forall i :: 0 <= i < |s| ==> IsDigit(s[i])
  }

  function DigitValue(c: char): nat
    requires IsDigit(c)
  {
    c as int - '0' as int
  }

  function DigitChar(d: nat): char
    requires d < 10
  {
    ('0' as int + d) as char
  }

  /** The value of a nonempty string of decimal digits, most significant first. */
  function ParseNat(s: string): (r: Option<nat>)
    ensures r.Some? <==> s != [] && AllDigits(s)
    decreases |s|
  {
    if s == [] || !IsDigit(s[|s| - 1]) then None
    else if |s| == 1 then Some(DigitValue(s[0]))
    else
      match ParseNat(s[..|s| - 1])
      case None => None
      case Some(v) => Some(10 * v + DigitValue(s[|s| - 1]))
  }

  function Pow10(n: nat): nat
  {
    if n == 0 then 1 else 10 * Pow10(n - 1)
  }

  /** Positional value of a digit string: each digit weighted by its power of ten. */
  function DigitsValue(s: string): nat
    requires AllDigits(s)
  {
    if s == [] then 0 else DigitValue(s[0]) * Pow10(|s| - 1) + DigitsValue(s[1..])
  }

  lemma ScaleWeight(d: nat, p: nat)
    ensures 10 * (d * p) == d * (10 * p)
  {
  }

  lemma {:induction false} DigitsValueSplitLast(s: string)
    requires s != [] && AllDigits(s)
    ensures DigitsValue(s) == 10 * DigitsValue(s[..|s| - 1]) + DigitValue(s[|s| - 1])
    decreases |s|
  {
    if |s| > 1 {
      var n := |s|;
      var d := DigitValue(s[0]);
      DigitsValueSplitLast(s[1..]);
      assert s[..n - 1][1..] == s[1..][..n - 2];
      var p := Pow10(n - 2);
      assert DigitsValue(s[..n - 1]) == d * p + DigitsValue(s[1..][..n - 2]);
      assert Pow10(n - 1) == 10 * p;
      ScaleWeight(d, p);
    }
  }

  /** Any nonempty digit string, leading zeros included, parses to its positional value. */
  lemma {:induction false} ParseNatIsPositional(s: string)
    requires s != [] && AllDigits(s)
    ensures ParseNat(s) == Some(DigitsValue(s))
    decreases |s|
  {
    DigitsValueSplitLast(s);
    if |s| > 1 {
      ParseNatIsPositional(s[..|s| - 1]);
    }
  }

  /** Leading zeros do not change the parsed value. */
  lemma LeadingZero(s: string)
    requires s != [] && AllDigits(s)
    ensures ParseNat("0" + s) == ParseNat(s)
  {
    var z := "0" + s;
    assert z[0] == '0' && z[1..] == s;
    assert AllDigits(z) by {
      forall i | 0 <= i < |z| ensures IsDigit(z[i]) {
        if i > 0 {
          assert z[i] == s[i - 1];
        }
      }
    }
    assert DigitsValue(z) == DigitsValue(s);
    ParseNatIsPositional(s);
    ParseNatIsPositional(z);
  }

  /** The grammar of a signed decimal integer: an optional sign, then one or more digits. */
  predicate IsDecimal(s: string)
  {
    var digits := if |s| > 0 && (s[0] == '+' || s[0] == '-') then s[1..] else s;
    digits != [] && AllDigits(digits)
  }

  /** The integer parse of a command's distance (`str::parse::<isize>`). */
  function ParseInt(s: string): (r: Option<int>)
    ensures r.Some? <==> IsDecimal(s)
  {
    if |s| > 0 && (s[0] == '+' || s[0] == '-') then
      match ParseNat(s[1..])
      case None => None
      case Some(v) =>
        var n: int := if s[0] == '-' then -(v as int) else v;
        Some(n)
    else
      match ParseNat(s)
      case None => None
      case Some(v) => Some(v)
  }

  /** Decimal text of a natural number: the inverse of ParseNat. */
  function FormatNat(n: nat): (s: string)
    ensures s != [] && AllDigits(s)
  {
    if n < 10 then [DigitChar(n)] else FormatNat(n / 10) + [DigitChar(n % 10)]
  }

  function FormatInt(n: int): string
  {
    if n < 0 then "-" + FormatNat(-n) else FormatNat(n)
  }

  lemma {:induction false} ParseFormatNat(n: nat)
    ensures ParseNat(FormatNat(n)) == Some(n)
  {
    if n >= 10 {
      var s := FormatNat(n);
      assert s[..|s| - 1] == FormatNat(n / 10);
      ParseFormatNat(n / 10);
    }
  }

  lemma ParseFormatInt(n: int)
    ensures ParseInt(FormatInt(n)) == Some(n)
  {
    if n < 0 {
      var digits := FormatNat(-n);
      assert FormatInt(n) == "-" + digits;
      assert ("-" + digits)[1..] == digits;
      ParseFormatNat(-n);
    } else {
      var digits := FormatNat(n);
      assert FormatInt(n) == digits;
      assert IsDigit(digits[0]);
      ParseFormatNat(n);
    }
  }

  lemma NonCanonicalDigitsExample()
    ensures ParseNat("007") == Some(7)
    ensures ParseInt("+010") == Some(10) && ParseInt("-0") == Some(0)
  {
    assert "007"[..2] == "00" && "00"[..1] == "0";
    assert "+010"[1..] == "010" && "010"[..2] == "01" && "01"[..1] == "0";
    assert "-0"[1..] == "0";
  }

  // ---- Commands ---------------------------------------------------------

  /** Index of the first space in s, if there is one. */
  function FindSpace(s: string): (r: Option<nat>)
    ensures r.Some? ==> r.value < |s| && s[r.value] == ' ' && ' ' !in s[..r.value]
    ensures r.None? ==> ' ' !in s
  {
    if s == [] then None
    else if s[0] == ' ' then Some(0)
    else
      match FindSpace(s[1..])
      case None => None
      case Some(k) =>
        assert s[..k + 1] == [s[0]] + s[1..][..k];
        Some(k + 1)
  }

  /** `parse_command`: `splitn(2, " ")` cuts the line at its first space; the
      text before it names the direction and the rest must parse as an integer.
      A line without a space, or with a remainder that is not an integer, makes
      the source panic: None here. */
  function ParseCommand(line: string): (r: Option<Command>)
    ensures ' ' !in line ==> r == None
    ensures forall k :: 0 <= k < |line| && line[k] == ' ' && ' ' !in line[..k] ==>
      r == (if IsDecimal(line[k + 1..])
            then Some(Command(ParseDirection(line[..k]), ParseInt(line[k + 1..]).value))
            else None)
  {
    match FindSpace(line)
    case None => None
    case Some(k) =>
      match ParseInt(line[k + 1..])
      case None => None
      case Some(distance) => Some(Command(ParseDirection(line[..k]), distance))
  }

  /** The text of a command with a known direction. */
  function FormatCommand(c: Command): string
    requires c.direction != Unknown
  {
    DirectionName(c.direction) + " " + FormatInt(c.distance)
  }

  /** Parsing the text of a command gives the command back. */
  lemma ParseFormatCommand(c: Command)
    requires c.direction != Unknown
    ensures ParseCommand(FormatCommand(c)) == Some(c)
  {
    var name := DirectionName(c.direction);
    var rest := FormatInt(c.distance);
    var line := FormatCommand(c);
    var k := |name|;
    assert line[k] == ' ' && line[..k] == name && line[k + 1..] == rest;
    assert ' ' !in name by {
      match c.direction
      case Forward =>
      case Down =>
      case Up =>
    }
    assert ParseInt(rest) == Some(c.distance) && IsDecimal(rest) by {
      ParseFormatInt(c.distance);
    }
    assert ParseDirection(name) == c.direction by {
      ParseDirectionName(c.direction);
    }
  }

  // ---- Moving -----------------------------------------------------------

  /** `apply_command`: one step of the submarine. Each direction changes one
      coordinate and leaves the other alone; Unknown changes nothing. */
  function ApplyCommand(p: Position, c: Command): (q: Position)
    ensures c.direction == Forward ==> q.horizontal == p.horizontal + c.distance && q.depth == p.depth
    ensures c.direction == Down ==> q.depth == p.depth + c.distance && q.horizontal == p.horizontal
    ensures c.direction == Up ==> q.depth == p.depth - c.distance && q.horizontal == p.horizontal
    ensures c.direction == Unknown ==> q == p
  {
    match c.direction
    case Forward => p.(horizontal := p.horizontal + c.distance)
    case Down => p.(depth := p.depth + c.distance)
    case Up => p.(depth := p.depth - c.distance)
    case Unknown => p
  }

  /** The sum of the distances of the commands that go in direction d. */
  function Total(commands: seq<Command>, d: Direction): int
  {
    if commands == [] then 0
    else
      var last := commands[|commands| - 1];
      Total(commands[..|commands| - 1], d) + (if last.direction == d then last.distance else 0)
  }

  /** The fold in `main`: apply every command in order, starting at (0, 0).
      Horizontal ends as the total forward distance, depth as the total down
      distance minus the total up distance. */
  method FollowCourse(commands: seq<Command>) returns (position: Position)
    ensures position.horizontal == Total(commands, Forward)
    ensures position.depth == Total(commands, Down) - Total(commands, Up)
  {
    position := Position(0, 0);
    for i := 0 to |commands|
      invariant position.horizontal == Total(commands[..i], Forward)
      invariant position.depth == Total(commands[..i], Down) - Total(commands[..i], Up)
    {
      assert commands[..i + 1][..i] == commands[..i];
      position := ApplyCommand(position, commands[i]);
    }
    assert commands[..|commands|] == commands;
  }

  lemma ParseDirectionExample()
    ensures ParseDirection("up") == Up
  {
  }

  lemma ParseCommandExample()
    ensures ParseCommand("forward 10") == Some(Command(Forward, 10))
  {
    ParseFormatCommand(Command(Forward, 10));
    assert FormatCommand(Command(Forward, 10)) == "forward 10";
  }

  lemma ApplyCommandExample()
    ensures ApplyCommand(Position(0, 0), Command(Down, 10)) == Position(0, 10)
    ensures ApplyCommand(Position(0, 0), Command(Up, 10)) == Position(0, -10)
  {
  }
}
