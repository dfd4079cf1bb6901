/**
 The text a refusal names a place by, and when two places come out under one text.
 */
module BodyTexts {
  import opened BodyFaults
  import opened BodyRefusals
  import opened BodyTypes
  import opened Options

  // ---------------------------------------------------------------- numbers and quoted keys

  function Digit(i: nat): (c: char)
    requires i < 16
    ensures c != '.' && c != '[' && c != ']' && c != '\'' && c != '"'
  {
    if i < 10 then '0' + i as char else 'a' + (i - 10) as char
  }

  function Decimal(n: nat): (r: string)
    ensures r != [] && forall c :: c in r ==> c != '.' && c != '[' && c != ']' && c != '\'' && c != '"'
  {
    if n < 10 then [Digit(n)] else Decimal(n / 10) + [Digit(n % 10)]
  }

  function Hex2(n: nat): string
    requires n < 0x100
  {
    [Digit(n / 16), Digit(n % 16)]
  }

  function Hex4(n: nat): string
    requires n < 0x10000
  {
    Hex2(n / 0x100) + Hex2(n % 0x100)
  }

  /** How a character that is not shown is written after the backslash. */
  function CodeOf(c: char): string {
    var n := c as int;
    if n < 0x100 then ['x'] + Hex2(n)
    else if n < 0x10000 then ['u'] + Hex4(n)
    else ['U'] + Hex4(n / 0x10000) + Hex4(n % 0x10000)
  }

  /** One character of a quoted key. `shown` is the table of characters written as they are. */
  function Escaped(c: char, quote: char, shown: char -> bool): string {
    if c == quote || c == '\\' then ['\\', c]
    else if c == '\n' then ['\\', 'n']
    else if c == '\r' then ['\\', 'r']
    else if c == '\t' then ['\\', 't']
    else if shown(c) then [c]
    else ['\\'] + CodeOf(c)
  }

  function EscapedAll(s: string, quote: char, shown: char -> bool): string {
    if s == [] then [] else Escaped(s[0], quote, shown) + EscapedAll(s[1..], quote, shown)
  }

  /** A key in quotes: single ones unless it holds a single and no double one. */
  function Quoted(s: string, shown: char -> bool): string {
    var quote := if '\'' in s && '"' !in s then '"' else '\'';
    [quote] + EscapedAll(s, quote, shown) + [quote]
  }

  lemma {:induction false} DecimalTells(m: nat, n: nat)
    ensures Decimal(m) == Decimal(n) ==> m == n
  {
    var a, b := Decimal(m), Decimal(n);
    if a == b {
      assert a[|a| - 1] == Digit(m % 10) && b[|b| - 1] == Digit(n % 10);
      DigitTells(m % 10, n % 10);
      assert m >= 10 <==> |a| >= 2;
      assert n >= 10 <==> |b| >= 2;
      if m >= 10 {
        assert a[..|a| - 1] == Decimal(m / 10) && b[..|b| - 1] == Decimal(n / 10);
        DecimalTells(m / 10, n / 10);
      }
    }
  }

  lemma Hex2Tells(m: nat, n: nat)
    requires m < 0x100 && n < 0x100
    ensures Hex2(m) == Hex2(n) ==> m == n
  {
    var a, b, c, d := m / 16, n / 16, m % 16, n % 16;
    assert Hex2(m)[0] == Digit(a) && Hex2(n)[0] == Digit(b) && Hex2(m)[1] == Digit(c) && Hex2(n)[1] == Digit(d);
    DigitTells(a, b);
    DigitTells(c, d);
  }

  lemma DigitTells(i: nat, j: nat)
    requires i < 16 && j < 16
    ensures Digit(i) == Digit(j) ==> i == j
  {
  }

  lemma Hex4Tells(m: nat, n: nat)
    requires m < 0x10000 && n < 0x10000
    ensures Hex4(m) == Hex4(n) ==> m == n
  {
    hide Hex2;
    var a, b, c, d := m / 0x100, n / 0x100, m % 0x100, n % 0x100;
    Hex2Size(a);
    Hex2Size(b);
    assert Hex4(m)[..2] == Hex2(a) && Hex4(n)[..2] == Hex2(b) && Hex4(m)[2..] == Hex2(c) && Hex4(n)[2..] == Hex2(d);
    Hex2Tells(a, b);
    Hex2Tells(c, d);
  }

  lemma Hex2Size(n: nat)
    requires n < 0x100
    ensures |Hex2(n)| == 2
  {
  }

  lemma CodeShape(c: char)
    ensures var n, code := c as int, CodeOf(c);
      && (n < 0x100 ==> |code| == 3 && code[0] == 'x' && code[1..] == Hex2(n))
      && (0x100 <= n < 0x10000 ==> |code| == 5 && code[0] == 'u' && code[1..] == Hex4(n))
      && (0x10000 <= n ==> |code| == 9 && code[0] == 'U' && code[1..5] == Hex4(n / 0x10000) && code[5..] == Hex4(n % 0x10000))
  {
  }

  lemma SamePrefix(a: string, b: string, rest: string, other: string)
    requires a + rest == b + other && |a| == |b|
    ensures a == b && rest == other
  {
    assert a == (a + rest)[..|a|] && b == (b + other)[..|b|];
    assert rest == (a + rest)[|a|..] && other == (b + other)[|b|..];
  }

  /** Written codes tell the characters apart, whatever follows. */
  lemma CodeTells(a: char, b: char, rest: string, other: string)
    requires CodeOf(a) + rest == CodeOf(b) + other
    ensures a == b && rest == other
  {
    hide CodeOf, Hex2, Hex4;
    CodeShape(a);
    CodeShape(b);
    assert (CodeOf(a) + rest)[0] == CodeOf(a)[0] && (CodeOf(b) + other)[0] == CodeOf(b)[0];
    SamePrefix(CodeOf(a), CodeOf(b), rest, other);
    var m, n := a as int, b as int;
    if m < 0x100 {
      Hex2Tells(m, n);
    } else if m < 0x10000 {
      Hex4Tells(m, n);
    } else {
      Hex4Tells(m / 0x10000, n / 0x10000);
      Hex4Tells(m % 0x10000, n % 0x10000);
    }
  }

  lemma EscapedTells(a: char, b: char, quote: char, shown: char -> bool, rest: string, other: string)
    requires quote == '\'' || quote == '"'
    requires Escaped(a, quote, shown) + rest == Escaped(b, quote, shown) + other
    ensures a == b && rest == other
  {
    hide Escaped, CodeOf, CodeLetter;
    EscapedShape(a, quote, shown);
    EscapedShape(b, quote, shown);
    var x, y := Escaped(a, quote, shown), Escaped(b, quote, shown);
    SameHead(x, y, rest, other);
    if x[0] == '\\' && CodeLetter(x[1]) {
      CodeTells(a, b, rest, other);
    } else {
      SamePrefix(x, y, rest, other);
    }
  }

  lemma SameHead(x: string, y: string, rest: string, other: string)
    requires x != [] && y != [] && x + rest == y + other
    ensures x[0] == y[0] && x[1..] + rest == y[1..] + other
    ensures |x| >= 2 && |y| >= 2 ==> x[1] == y[1]
  {
    assert x[0] == (x + rest)[0] && y[0] == (y + other)[0];
    assert x[1..] + rest == (x + rest)[1..] && y[1..] + other == (y + other)[1..];
    if |x| >= 2 && |y| >= 2 {
      assert x[1] == (x + rest)[1] && y[1] == (y + other)[1];
    }
  }

  predicate CodeLetter(c: char) {
    c == 'x' || c == 'u' || c == 'U'
  }

  /** A character as it is, or a backslash and one letter, or a backslash and a code. */
  lemma EscapedShape(c: char, quote: char, shown: char -> bool)
    requires quote == '\'' || quote == '"'
    ensures var e := Escaped(c, quote, shown);
      && e != [] && e[0] != quote
      && (e[0] != '\\' ==> e == [c])
      && (e[0] == '\\' ==> |e| >= 2)
      && (e[0] == '\\' && CodeLetter(e[1]) ==> e[1..] == CodeOf(c))
      && (e[0] == '\\' && !CodeLetter(e[1]) ==> |e| == 2 && c == Meant(e[1]))
  {
    CodeShape(c);
  }

  /** The character a backslash and one letter stand for. */
  function Meant(letter: char): char {
    match letter
    case 'n' => '\n'
    case 'r' => '\r'
    case 't' => '\t'
    case _ => letter
  }

  /** The rest of a quoted key, its closing quote, and what follows. */
  function Closed(s: string, quote: char, shown: char -> bool, rest: string): string {
    EscapedAll(s, quote, shown) + [quote] + rest
  }

  lemma ClosedStep(s: string, quote: char, shown: char -> bool, rest: string)
    requires quote == '\'' || quote == '"'
    ensures s == [] ==> Closed(s, quote, shown, rest) == [quote] + rest
    ensures s != [] ==>
      && Closed(s, quote, shown, rest) == Escaped(s[0], quote, shown) + Closed(s[1..], quote, shown, rest)
      && Closed(s, quote, shown, rest) != [] && Closed(s, quote, shown, rest)[0] != quote
  {
    if s != [] {
      EscapedShape(s[0], quote, shown);
      var head, tail := Escaped(s[0], quote, shown), EscapedAll(s[1..], quote, shown);
      assert (head + tail) + [quote] + rest == head + (tail + [quote] + rest);
    }
  }

  lemma {:induction false} EscapedAllTells(s: string, t: string, quote: char, shown: char -> bool, rest: string, other: string)
    requires quote == '\'' || quote == '"'
    requires Closed(s, quote, shown, rest) == Closed(t, quote, shown, other)
    ensures s == t && rest == other
  {
    hide Closed, Escaped;
    ClosedStep(s, quote, shown, rest);
    ClosedStep(t, quote, shown, other);
    if s == [] && t == [] {
      SamePrefix([quote], [quote], rest, other);
    } else if s != [] && t != [] {
      EscapedTells(s[0], t[0], quote, shown, Closed(s[1..], quote, shown, rest), Closed(t[1..], quote, shown, other));
      EscapedAllTells(s[1..], t[1..], quote, shown, rest, other);
      assert s == [s[0]] + s[1..] && t == [t[0]] + t[1..];
    }
  }

  /** Quoted keys tell apart, whatever follows them. */
  lemma QuotedTells(s: string, t: string, shown: char -> bool, rest: string, other: string)
    requires Quoted(s, shown) + rest == Quoted(t, shown) + other
    ensures s == t && rest == other
  {
    hide EscapedAll;
    var x, y := Quoted(s, shown) + rest, Quoted(t, shown) + other;
    var q := x[0];
    assert q == Quoted(s, shown)[0] == Quoted(t, shown)[0];
    assert x[1..] == Closed(s, q, shown, rest) && y[1..] == Closed(t, q, shown, other);
    EscapedAllTells(s, t, q, shown, rest, other);
  }

  // ---------------------------------------------------------------- numbers and quoted keys, read back

  /** What a digit stands for. */
  function DigitValue(c: char): int {
    if '0' <= c <= '9' then c as int - '0' as int
    else if 'a' <= c <= 'f' then c as int - 'a' as int + 10
    else -1
  }

  /** The number digits spell to a base, most significant first. */
  function NumberOf(digits: string, base: int): int {
    if digits == [] then 0 else NumberOf(digits[..|digits| - 1], base) * base + DigitValue(digits[|digits| - 1])
  }

  /** An index is written as the shortest decimal that spells it. */
  lemma {:induction false} DecimalSpells(n: nat)
    ensures NumberOf(Decimal(n), 10) == n
    ensures forall i :: 0 <= i < |Decimal(n)| ==> '0' <= Decimal(n)[i] <= '9'
    ensures Decimal(n)[0] == '0' ==> n == 0
  {
    var d := Decimal(n);
    if n < 10 {
      assert d[..|d| - 1] == "";
    } else {
      DecimalSpells(n / 10);
      assert d[..|d| - 1] == Decimal(n / 10) && d[|d| - 1] == Digit(n % 10);
      assert d[0] == Decimal(n / 10)[0];
    }
  }

  lemma Hex2Spells(n: nat)
    requires n < 0x100
    ensures |Hex2(n)| == 2 && NumberOf(Hex2(n), 16) == n
  {
    var d := Hex2(n);
    assert d[..1] == [Digit(n / 16)] && d[..1][..0] == "" && d[1] == Digit(n % 16);
    assert NumberOf(d[..1], 16) == NumberOf("", 16) * 16 + n / 16 == n / 16;
  }

  lemma {:induction false} NumberConcat(front: string, back: string, shift: int)
    requires shift == Power16(|back|)
    ensures NumberOf(front + back, 16) == NumberOf(front, 16) * shift + NumberOf(back, 16)
  {
    if back == "" {
      assert front + back == front;
    } else {
      var b, last := back[..|back| - 1], back[|back| - 1];
      var all := front + back;
      assert all[..|all| - 1] == front + b && all[|all| - 1] == last;
      NumberConcat(front, b, Power16(|b|));
      Shifted(NumberOf(front, 16), Power16(|b|));
    }
  }

  function Power16(n: nat): int {
    if n == 0 then 1 else Power16(n - 1) * 16
  }

  lemma Shifted(x: int, p: int)
    ensures (x * p) * 16 == x * (p * 16)
  {
  }

  lemma Hex4Spells(n: nat)
    requires n < 0x10000
    ensures |Hex4(n)| == 4 && NumberOf(Hex4(n), 16) == n
  {
    hide Hex2;
    Hex2Spells(n / 0x100);
    Hex2Spells(n % 0x100);
    assert Power16(2) == 0x100 by {
      assert Power16(1) == 16;
    }
    NumberConcat(Hex2(n / 0x100), Hex2(n % 0x100), 0x100);
  }

  lemma Hex8Spells(n: nat)
    requires n < 0x1_0000_0000
    ensures var d := Hex4(n / 0x10000) + Hex4(n % 0x10000); |d| == 8 && NumberOf(d, 16) == n
  {
    hide Hex4;
    Hex4Spells(n / 0x10000);
    Hex4Spells(n % 0x10000);
    assert Power16(4) == 0x10000 by {
      assert Power16(1) == 16 && Power16(2) == 0x100;
      assert Power16(3) == 0x1000;
    }
    NumberConcat(Hex4(n / 0x10000), Hex4(n % 0x10000), 0x10000);
  }

  /** The character an escape sequence stands for, as a string literal is read, or none. */
  function ReadEscape(e: string): Option<int> {
    if |e| == 1 && e[0] != '\\' then Some(e[0] as int)
    else if |e| < 2 || e[0] != '\\' then None
    else if |e| == 2 then
      match e[1]
      case 'n' => Some(10)
      case 'r' => Some(13)
      case 't' => Some(9)
      case c => if c == '\\' || c == '\'' || c == '"' then Some(c as int) else None
    else if (e[1] == 'x' && |e| == 4) || (e[1] == 'u' && |e| == 6) || (e[1] == 'U' && |e| == 10) then Some(NumberOf(e[2..], 16))
    else None
  }

  /** How long a character is once written: itself, a backslash and a letter, or the shortest code it has. */
  function WrittenLength(c: char, quote: char, shown: char -> bool): nat {
    if c in {quote, '\\', '\n', '\r', '\t'} then 2
    else if shown(c) then 1
    else if c as int < 0x100 then 4
    else if c as int < 0x10000 then 6
    else 10
  }

  /** What is written as a number reads back as that character. */
  lemma CodeReads(c: char)
    ensures ReadEscape("\\" + CodeOf(c)) == Some(c as int)
    ensures |"\\" + CodeOf(c)| == if c as int < 0x100 then 4 else if c as int < 0x10000 then 6 else 10
  {
    var e, n := "\\" + CodeOf(c), c as int;
    assert e[2..] == CodeOf(c)[1..];
    hide Hex2, Hex4, NumberOf;
    if n < 0x100 {
      Hex2Spells(n);
      assert e[2..] == Hex2(n);
    } else if n < 0x10000 {
      Hex4Spells(n);
      assert e[2..] == Hex4(n);
    } else {
      Hex8Spells(n);
      assert e[2..] == Hex4(n / 0x10000) + Hex4(n % 0x10000);
    }
  }

  /** Each character of a quoted key reads back as itself, and is written as short as that. */
  lemma EscapedReads(c: char, quote: char, shown: char -> bool)
    requires quote == '\'' || quote == '"'
    ensures ReadEscape(Escaped(c, quote, shown)) == Some(c as int)
    ensures |Escaped(c, quote, shown)| == WrittenLength(c, quote, shown)
  {
    CodeReads(c);
    hide CodeOf, NumberOf;
  }

  /** A key is quoted character by character, between double quotes iff it holds a single and no double one. */
  lemma QuotedIs(s: string, shown: char -> bool)
    ensures var q, quote := Quoted(s, shown), if '\'' in s && '"' !in s then '"' else '\'';
      && |q| >= 2 && q[0] == quote == q[|q| - 1]
      && q[1..|q| - 1] == EscapedAll(s, quote, shown)
  {
  }

  lemma {:induction false} EscapedInTurn(s: string, t: string, c: char, quote: char, shown: char -> bool)
    ensures EscapedAll(s + t, quote, shown) == EscapedAll(s, quote, shown) + EscapedAll(t, quote, shown)
    ensures EscapedAll([c], quote, shown) == Escaped(c, quote, shown)
  {
    hide Escaped;
    assert [c][1..] == [] && EscapedAll([], quote, shown) == [];
    assert Escaped(c, quote, shown) + [] == Escaped(c, quote, shown);
    if s == [] {
      assert s + t == t;
      assert EscapedAll(s, quote, shown) + EscapedAll(t, quote, shown) == EscapedAll(t, quote, shown);
    } else {
      assert (s + t)[0] == s[0] && (s + t)[1..] == s[1..] + t;
      EscapedInTurn(s[1..], t, c, quote, shown);
      Associates(Escaped(s[0], quote, shown), EscapedAll(s[1..], quote, shown), EscapedAll(t, quote, shown));
    }
  }

  /** What each step adds to the text of where it starts from. */
  lemma StepText(front: Path, step: Step, shown: char -> bool)
    ensures var before, after := Text(front, shown), Text(front + [step], shown);
      match step
      case Field(name) => after == if before == "" then name else before + "." + name
      case Item(i) => after == before + "[" + Decimal(i) + "]"
      case Key(k) => after == before + "[" + Quoted(k, shown) + "]"
    ensures Text([], shown) == ""
  {
    hide Quoted, Decimal;
    assert (front + [step])[..|front|] == front;
  }

  // ---------------------------------------------------------------- the text of a path

  /** The text of a place, one step after the other: what the binder appends as it goes down. */
  function Text(path: Path, shown: char -> bool): string {
    if path == [] then ""
    else
      var front := Text(path[..|path| - 1], shown);
      match path[|path| - 1]
      case Field(name) => ChildPath(front, name)
      case Item(i) => front + "[" + Decimal(i) + "]"
      case Key(k) => front + "[" + Quoted(k, shown) + "]"
  }

  function ChildPath(path: string, name: string): string {
    if path != "" then path + "." + name else name
  }

  /** What the steps after the first add. */
  function Onward(path: Path, shown: char -> bool): string {
    if path == [] then ""
    else
      (match path[0]
       case Field(name) => "." + name
       case Item(i) => "[" + Decimal(i) + "]"
       case Key(k) => "[" + Quoted(k, shown) + "]")
      + Onward(path[1..], shown)
  }

  /** A name that can be told from what surrounds it: an identifier is one. */
  predicate PlainName(name: string) {
    name != "" && '.' !in name && '[' !in name
  }

  predicate PlainPath(path: Path) {
    forall i :: 0 <= i < |path| && path[i].Field? ==> PlainName(path[i].name)
  }

  lemma {:induction false} OnwardAppended(path: Path, step: Step, shown: char -> bool)
    ensures Onward(path + [step], shown) == Onward(path, shown) + Onward([step], shown)
  {
    hide Quoted, Decimal;
    if path == [] {
      assert path + [step] == [step];
    } else {
      assert (path + [step])[1..] == path[1..] + [step];
      OnwardAppended(path[1..], step, shown);
    }
  }

  function First(step: Step, shown: char -> bool): string {
    match step
    case Field(name) => name
    case Item(i) => "[" + Decimal(i) + "]"
    case Key(k) => "[" + Quoted(k, shown) + "]"
  }

  lemma TextAppended(front: Path, step: Step, shown: char -> bool)
    ensures Text(front + [step], shown) ==
      (if Text(front, shown) == "" then First(step, shown) else Text(front, shown) + Onward([step], shown))
  {
    OneStepOnward(step, shown);
    TextUnfold(front, step, shown);
    hide Text, Onward, Quoted, Decimal;
    if step.Field? {
      assert Text(front, shown) + "." + step.name == Text(front, shown) + ("." + step.name);
    } else {
      assert "" + First(step, shown) == First(step, shown);
    }
  }

  lemma TextUnfold(front: Path, step: Step, shown: char -> bool)
    ensures Text(front + [step], shown) ==
      if step.Field? then ChildPath(Text(front, shown), step.name) else Text(front, shown) + First(step, shown)
  {
    hide Quoted, Decimal;
    assert (front + [step])[..|front|] == front;
    if !step.Field? {
      Associates(Text(front, shown), "[", if step.Item? then Decimal(step.index) else Quoted(step.key, shown));
      Associates(Text(front, shown), First(step, shown)[..|First(step, shown)| - 1], "]");
    }
  }

  lemma OneStepOnward(step: Step, shown: char -> bool)
    ensures Onward([step], shown) == if step.Field? then "." + step.name else First(step, shown)
  {
    hide Quoted, Decimal;
    assert [step][1..] == [];
    var s := if step.Field? then "." + step.name else First(step, shown);
    assert s + "" == s;
  }

  /** Read forwards, a text is its first step and then what each step after it adds. */
  lemma {:induction false} TextForwards(path: Path, shown: char -> bool)
    requires path != [] && PlainPath(path[..|path| - 1])
    ensures Text(path, shown) == First(path[0], shown) + Onward(path[1..], shown)
    ensures PlainPath(path) ==> Text(path, shown) != ""
  {
    hide Text, Onward, First, PlainPath;
    var front, last := path[..|path| - 1], path[|path| - 1];
    assert path == front + [last];
    TextAppended(front, last, shown);
    if |path| == 1 {
      OneStepText(last, shown);
      assert front == [] && path[1..] == [] && path[0] == last;
      NothingOnward(shown);
      assert First(last, shown) + "" == First(last, shown);
      PlainLast(front, last);
    } else {
      PlainFront(front);
      TextForwards(front, shown);
      assert path[1..] == front[1..] + [last] && path[0] == front[0];
      OnwardAppended(front[1..], last, shown);
      Associates(First(path[0], shown), Onward(front[1..], shown), Onward([last], shown));
    }
  }

  lemma OneStepText(step: Step, shown: char -> bool)
    ensures Text([], shown) == ""
    ensures PlainStep(step) ==> First(step, shown) != ""
  {
    FirstIsSomething(step, shown);
  }

  lemma PlainLast(front: Path, last: Step)
    ensures PlainPath(front + [last]) ==> PlainStep(last)
  {
    assert (front + [last])[|front|] == last;
  }

  lemma PlainFront(front: Path)
    requires PlainPath(front) && front != []
    ensures PlainPath(front[..|front| - 1])
  {
  }

  lemma FirstIsSomething(step: Step, shown: char -> bool)
    ensures (step.Field? ==> PlainName(step.name)) ==> First(step, shown) != ""
    ensures !step.Field? ==> First(step, shown)[0] == '['
    ensures step.Field? && PlainName(step.name) ==> First(step, shown)[0] != '['
  {
    hide Quoted, Decimal;
    if step.Field? && PlainName(step.name) {
      assert step.name[0] in step.name;
    }
  }

  // ---------------------------------------------------------------- reading a text back

  /** Where one step of a text may end. */
  predicate Boundary(rest: string) {
    rest == "" || rest[0] == '.' || rest[0] == '['
  }

  /** Two texts delimited by characters they do not hold are the same, and so is what follows them. */
  lemma {:induction false} Delimited(x: string, y: string, rest: string, other: string, stops: char -> bool)
    requires x + rest == y + other
    requires (forall c :: c in x ==> !stops(c)) && forall c :: c in y ==> !stops(c)
    requires (rest == "" || stops(rest[0])) && (other == "" || stops(other[0]))
    ensures x == y && rest == other
  {
    HeadOf(x, rest);
    HeadOf(y, other);
    if x != "" && y != "" {
      SameHead(x, y, rest, other);
      Delimited(x[1..], y[1..], rest, other, stops);
      assert x == [x[0]] + x[1..] && y == [y[0]] + y[1..];
    }
  }

  lemma HeadOf(x: string, rest: string)
    ensures x == "" ==> x + rest == rest
    ensures x != "" ==> x[0] in x && (x + rest)[0] == x[0]
  {
  }

  predicate PlainStep(step: Step) {
    step.Field? ==> PlainName(step.name)
  }

  /** The first step of a text can be read off it, and what follows. */
  lemma StepTells(a: Step, b: Step, shown: char -> bool, rest: string, other: string)
    requires PlainStep(a) && PlainStep(b) && Boundary(rest) && Boundary(other)
    requires First(a, shown) + rest == First(b, shown) + other
    ensures a == b && rest == other
  {
    hide Quoted, Decimal;
    var x, y := First(a, shown), First(b, shown);
    FirstIsSomething(a, shown);
    FirstIsSomething(b, shown);
    SameHead(x, y, rest, other);
    if a.Field? {
      Delimited(a.name, b.name, rest, other, c => c == '.' || c == '[');
    } else {
      BracketTells(a, b, shown, rest, other);
    }
  }

  function Bracketed(step: Step, shown: char -> bool): string
    requires !step.Field?
  {
    if step.Item? then Decimal(step.index) else Quoted(step.key, shown)
  }

  lemma BracketTells(a: Step, b: Step, shown: char -> bool, rest: string, other: string)
    requires !a.Field? && !b.Field? && First(a, shown) + rest == First(b, shown) + other
    ensures a == b && rest == other
  {
    BracketStart(a, shown);
    BracketStart(b, shown);
    FirstBracketed(a, shown, rest);
    FirstBracketed(b, shown, other);
    hide First, Quoted, Decimal;
    var x, y := Bracketed(a, shown), Bracketed(b, shown);
    SamePrefix("[", "[", x + ("]" + rest), y + ("]" + other));
    SameHead(x, y, "]" + rest, "]" + other);
    if a.Item? {
      Delimited(x, y, "]" + rest, "]" + other, c => c == ']');
      DecimalTells(a.index, b.index);
    } else {
      QuotedTells(a.key, b.key, shown, "]" + rest, "]" + other);
    }
    SamePrefix("]", "]", rest, other);
  }

  lemma FirstBracketed(step: Step, shown: char -> bool, rest: string)
    requires !step.Field?
    ensures First(step, shown) + rest == "[" + (Bracketed(step, shown) + ("]" + rest))
  {
    hide Quoted, Decimal;
  }

  lemma BracketStart(step: Step, shown: char -> bool)
    requires !step.Field?
    ensures var x := Bracketed(step, shown);
      && x != ""
      && (step.Item? ==> x[0] != '\'' && x[0] != '"' && forall c :: c in x ==> c != ']')
      && (step.Key? ==> x[0] == '\'' || x[0] == '"')
  {
    if step.Item? {
      var x := Decimal(step.index);
      assert x[0] in x;
    }
  }

  lemma OnwardStep(path: Path, shown: char -> bool, end: string)
    requires path != []
    ensures Onward(path, shown) + end ==
      (if path[0].Field? then "." else "") + (First(path[0], shown) + (Onward(path[1..], shown) + end))
    ensures Onward(path, shown) != "" && Onward(path, shown)[0] == if path[0].Field? then '.' else '['
  {
    OnwardUnfold(path, shown);
    FirstIsSomething(path[0], shown);
    hide Onward, First;
    var first, dot, tail := First(path[0], shown), if path[0].Field? then "." else "", Onward(path[1..], shown);
    Regrouped(dot, first, tail, end);
  }

  lemma OnwardUnfold(path: Path, shown: char -> bool)
    requires path != []
    ensures Onward(path, shown) == (if path[0].Field? then "." else "") + First(path[0], shown) + Onward(path[1..], shown)
  {
    hide Quoted, Decimal;
    if !path[0].Field? {
      assert "" + First(path[0], shown) == First(path[0], shown);
    }
  }

  lemma Regrouped(dot: string, first: string, tail: string, end: string)
    ensures (dot + first + tail) + end == dot + (first + (tail + end))
    ensures dot != "" ==> (dot + first + tail)[0] == dot[0]
    ensures dot == "" && first != "" ==> (dot + first + tail)[0] == first[0]
  {
  }

  lemma OnwardIsBoundary(path: Path, shown: char -> bool, end: string)
    requires Boundary(end)
    ensures Boundary(Onward(path, shown) + end)
    ensures path != [] ==>
      && Onward(path, shown) != ""
      && Onward(path, shown)[0] == (if path[0].Field? then '.' else '[')
      && Onward(path, shown) + end == (if path[0].Field? then "." else "") + (First(path[0], shown) + (Onward(path[1..], shown) + end))
  {
    if path == [] {
      NothingOnward(shown);
      assert "" + end == end;
    } else {
      OnwardStep(path, shown, end);
      hide Onward, First;
      HeadOf(Onward(path, shown), end);
    }
  }

  /** One path leads on from another by a field. */
  predicate LeadsOn(p: Path, q: Path) {
    |p| < |q| && q[..|p|] == p && q[|p|].Field?
  }

  /** Two ways on that read the same up to a last name each: one way, or one leads on inside the other's name. */
  lemma {:induction false} OnwardMeets(p: Path, q: Path, k: string, l: string, shown: char -> bool)
    requires PlainPath(p) && PlainPath(q)
    requires Onward(p, shown) + ("." + k) == Onward(q, shown) + ("." + l)
    ensures (p == q && k == l)
      || (LeadsOn(p, q) && "." + k == Onward(q[|p|..], shown) + ("." + l))
      || (LeadsOn(q, p) && "." + l == Onward(p[|q|..], shown) + ("." + k))
  {
    hide Onward, First, LeadsOn, PlainPath, PlainStep;
    if p == [] || q == [] {
      NameAgainstWay(p, k, q, l, shown);
      NameAgainstWay(q, l, p, k, shown);
    } else {
      SameStep(p, q, k, l, shown);
      OnwardMeets(p[1..], q[1..], k, l, shown);
      LeadsOnLater(p, q);
      LeadsOnLater(q, p);
    }
  }

  lemma NameAgainstWay(p: Path, k: string, q: Path, l: string, shown: char -> bool)
    requires Onward(p, shown) + ("." + k) == Onward(q, shown) + ("." + l)
    ensures p == [] && q == [] ==> k == l
    ensures p == [] && q != [] ==> LeadsOn(p, q) && "." + k == Onward(q[|p|..], shown) + ("." + l)
  {
    NothingOnward(shown);
    hide Onward, First;
    if p == [] {
      assert "" + ("." + k) == "." + k && q[|p|..] == q;
      if q == [] {
        assert "" + ("." + l) == "." + l;
        SamePrefix(".", ".", k, l);
      } else {
        OnwardIsBoundary(q, shown, "." + l);
        assert ("." + k)[0] == '.' && (Onward(q, shown) + ("." + l))[0] == Onward(q, shown)[0];
      }
    }
  }

  /** Two ways on that read the same take one step first. */
  lemma SameStep(p: Path, q: Path, k: string, l: string, shown: char -> bool)
    requires p != [] && q != [] && PlainPath(p) && PlainPath(q)
    requires Onward(p, shown) + ("." + k) == Onward(q, shown) + ("." + l)
    ensures p[0] == q[0] && PlainPath(p[1..]) && PlainPath(q[1..])
    ensures Onward(p[1..], shown) + ("." + k) == Onward(q[1..], shown) + ("." + l)
  {
    PlainEnds(p);
    PlainEnds(q);
    hide Onward, First, PlainStep, PlainPath;
    var rest, other := Onward(p[1..], shown) + ("." + k), Onward(q[1..], shown) + ("." + l);
    OnwardIsBoundary(p, shown, "." + k);
    OnwardIsBoundary(q, shown, "." + l);
    OnwardIsBoundary(p[1..], shown, "." + k);
    OnwardIsBoundary(q[1..], shown, "." + l);
    SameHead(Onward(p, shown), Onward(q, shown), "." + k, "." + l);
    var dot := if p[0].Field? then "." else "";
    SamePrefix(dot, dot, First(p[0], shown) + rest, First(q[0], shown) + other);
    StepTells(p[0], q[0], shown, rest, other);
  }

  lemma LeadsOnLater(p: Path, q: Path)
    requires p != [] && q != [] && p[0] == q[0]
    ensures p[1..] == q[1..] ==> p == q
    ensures LeadsOn(p[1..], q[1..]) ==> LeadsOn(p, q) && q[|p|..] == q[1..][|p| - 1..]
  {
    assert p == [p[0]] + p[1..] && q == [q[0]] + q[1..];
    if LeadsOn(p[1..], q[1..]) {
      assert q[..|p|] == [q[0]] + q[1..][..|p| - 1];
    }
  }

  lemma NothingOnward(shown: char -> bool)
    ensures Onward([], shown) == ""
  {
  }

  // ---------------------------------------------------------------- which places share a text

  lemma LedOnSaysMore(p: Path, q: Path, shown: char -> bool)
    ensures LeadsOn(p, q) ==> "." + "" != Onward(q[|p|..], shown) + ("." + "")
  {
    if LeadsOn(p, q) {
      OnwardIsBoundary(q[|p|..], shown, "");
      hide Onward;
      assert |Onward(q[|p|..], shown) + ("." + "")| == |Onward(q[|p|..], shown)| + 1;
    }
  }

  lemma OnwardTells(p: Path, q: Path, shown: char -> bool)
    requires PlainPath(p) && PlainPath(q) && Onward(p, shown) == Onward(q, shown)
    ensures p == q
  {
    OnwardMeets(p, q, "", "", shown);
    LedOnSaysMore(p, q, shown);
    LedOnSaysMore(q, p, shown);
  }

  /** Places under names that can be told apart have different texts. */
  lemma TextTells(p: Path, q: Path, shown: char -> bool)
    requires PlainPath(p) && PlainPath(q)
    ensures Text(p, shown) == Text(q, shown) <==> p == q
  {
    if Text(p, shown) == Text(q, shown) {
      NothingSaid(p, shown);
      NothingSaid(q, shown);
      hide Text, Onward, First;
      if p != [] && q != [] {
        TextForwards(p, shown);
        TextForwards(q, shown);
        OnwardEnds(p[1..], shown);
        OnwardEnds(q[1..], shown);
        StepTells(p[0], q[0], shown, Onward(p[1..], shown), Onward(q[1..], shown));
        OnwardTells(p[1..], q[1..], shown);
        assert p == [p[0]] + p[1..] && q == [q[0]] + q[1..];
      }
    }
  }

  lemma NothingSaid(p: Path, shown: char -> bool)
    requires PlainPath(p)
    ensures Text(p, shown) == "" <==> p == []
  {
    if p != [] {
      TextForwards(p, shown);
    }
  }

  lemma OnwardEnds(p: Path, shown: char -> bool)
    ensures Boundary(Onward(p, shown))
  {
    OnwardIsBoundary(p, shown, "");
    assert Onward(p, shown) + "" == Onward(p, shown);
  }

  lemma {:induction false} OnwardConcat(a: Path, b: Path, shown: char -> bool)
    ensures Onward(a + b, shown) == Onward(a, shown) + Onward(b, shown)
  {
    hide Onward, First;
    if a == [] {
      assert a + b == b;
      NothingOnward(shown);
      assert "" + Onward(b, shown) == Onward(b, shown);
    } else {
      var rest := a[1..];
      assert (a + b)[1..] == rest + b && (a + b)[0] == a[0];
      OnwardConcat(rest, b, shown);
      OnwardUnfold(a, shown);
      OnwardUnfold(a + b, shown);
      Associates((if a[0].Field? then "." else "") + First(a[0], shown), Onward(rest, shown), Onward(b, shown));
    }
  }

  lemma Associates(x: string, y: string, z: string)
    ensures x + y + z == x + (y + z)
  {
  }

  /** The text of a field below a place: the name the caller or the constructor gave it comes last. */
  lemma FieldText(p: Path, k: string, shown: char -> bool)
    requires PlainPath(p)
    ensures p == [] ==> Text(p + [Field(k)], shown) == k
    ensures p != [] ==> Text(p + [Field(k)], shown) == First(p[0], shown) + (Onward(p[1..], shown) + ("." + k))
  {
    if p == [] {
      TextAppended(p, Field(k), shown);
      assert Text([], shown) == "";
    } else {
      var u := p + [Field(k)];
      assert u[..|u| - 1] == p && u[1..] == p[1..] + [Field(k)] && u[0] == p[0];
      TextForwards(u, shown);
      OnwardAppended(p[1..], Field(k), shown);
      OneStepOnward(Field(k), shown);
      hide Onward, First, Text;
    }
  }

  /** A way on by a field, and a name below it, read as a dot and the text of that way. */
  lemma OnwardIsText(rest: Path, l: string, shown: char -> bool)
    requires rest != [] && PlainPath(rest) && rest[0].Field?
    ensures Onward(rest, shown) + ("." + l) == "." + Text(rest + [Field(l)], shown)
  {
    FieldText(rest, l, shown);
    OnwardStep(rest, shown, "." + l);
  }

  /** The name `k` below `p` spells the way from there to the name `l` below `q`. */
  predicate Spells(p: Path, k: string, q: Path, l: string, shown: char -> bool) {
    |p| < |q| && q[..|p|] == p && (p == [] || q[|p|].Field?) && k == Text(q[|p|..] + [Field(l)], shown)
  }

  lemma SpellingIsSharing(p: Path, k: string, q: Path, l: string, shown: char -> bool)
    requires PlainPath(p) && PlainPath(q) && Spells(p, k, q, l, shown)
    ensures Text(p + [Field(k)], shown) == Text(q + [Field(l)], shown)
  {
    var rest := q[|p|..];
    FieldText(p, k, shown);
    FieldText(q, l, shown);
    hide Text, Onward, First;
    if p == [] {
      assert rest == q;
    } else {
      SpellingOnward(p, q, l, shown);
    }
  }

  lemma SpellingOnward(p: Path, q: Path, l: string, shown: char -> bool)
    requires p != [] && |p| < |q| && q[..|p|] == p && q[|p|].Field? && PlainPath(q)
    ensures q[0] == p[0]
    ensures Onward(q[1..], shown) + ("." + l) == Onward(p[1..], shown) + ("." + Text(q[|p|..] + [Field(l)], shown))
  {
    var rest := q[|p|..];
    assert q[0] == p[0] && q[1..] == p[1..] + rest;
    OnwardIsText(rest, l, shown);
    OnwardConcat(p[1..], rest, shown);
    hide Text, Onward, First;
    Associates(Onward(p[1..], shown), Onward(rest, shown), "." + l);
  }

  /** Two names below two places come out under one text iff they are one, or one spells the way to the other. */
  lemma TextsMeetIff(p: Path, k: string, q: Path, l: string, shown: char -> bool)
    requires PlainPath(p) && PlainPath(q)
    ensures Text(p + [Field(k)], shown) == Text(q + [Field(l)], shown) <==>
      (p == q && k == l) || Spells(p, k, q, l, shown) || Spells(q, l, p, k, shown)
  {
    hide Text, Spells, PlainPath;
    if Spells(p, k, q, l, shown) {
      SpellingIsSharing(p, k, q, l, shown);
    } else if Spells(q, l, p, k, shown) {
      SpellingIsSharing(q, l, p, k, shown);
    } else if Text(p + [Field(k)], shown) == Text(q + [Field(l)], shown) {
      if p == [] || q == [] {
        RootSpells(p, k, q, l, shown);
      } else {
        SharingSpells(p, k, q, l, shown);
      }
    }
  }

  lemma RootSpells(p: Path, k: string, q: Path, l: string, shown: char -> bool)
    requires PlainPath(p) && PlainPath(q) && (p == [] || q == [])
    requires Text(p + [Field(k)], shown) == Text(q + [Field(l)], shown)
    ensures (p == q && k == l) || Spells(p, k, q, l, shown) || Spells(q, l, p, k, shown)
  {
    FieldText(p, k, shown);
    FieldText(q, l, shown);
    hide Text, Onward, First;
    assert p == [] ==> q[|p|..] == q;
    assert q == [] ==> p[|q|..] == p;
  }

  lemma SharingSpells(p: Path, k: string, q: Path, l: string, shown: char -> bool)
    requires PlainPath(p) && PlainPath(q) && p != [] && q != []
    requires Text(p + [Field(k)], shown) == Text(q + [Field(l)], shown)
    ensures (p == q && k == l) || Spells(p, k, q, l, shown) || Spells(q, l, p, k, shown)
  {
    hide Text, Onward, First, Spells, PlainPath;
    FieldText(p, k, shown);
    FieldText(q, l, shown);
    PlainEnds(p);
    PlainEnds(q);
    OnwardIsBoundary(p[1..], shown, "." + k);
    OnwardIsBoundary(q[1..], shown, "." + l);
    StepTells(p[0], q[0], shown, Onward(p[1..], shown) + ("." + k), Onward(q[1..], shown) + ("." + l));
    OnwardMeets(p[1..], q[1..], k, l, shown);
    if LeadsOn(p[1..], q[1..]) {
      LedOnSpells(p, k, q, l, shown);
    } else if LeadsOn(q[1..], p[1..]) {
      LedOnSpells(q, l, p, k, shown);
    } else {
      LeadsOnLater(p, q);
    }
  }

  lemma PlainEnds(p: Path)
    requires PlainPath(p) && p != []
    ensures PlainStep(p[0]) && PlainPath(p[1..])
  {
  }

  lemma LedOnSpells(p: Path, k: string, q: Path, l: string, shown: char -> bool)
    requires p != [] && q != [] && p[0] == q[0] && PlainPath(q) && LeadsOn(p[1..], q[1..])
    requires "." + k == Onward(q[1..][|p| - 1..], shown) + ("." + l)
    ensures Spells(p, k, q, l, shown)
  {
    hide Text, Onward, First;
    var rest := q[|p|..];
    assert q[1..][|p| - 1..] == rest && q[..|p|] == [q[0]] + q[1..][..|p| - 1] == p;
    OnwardIsText(rest, l, shown);
    SamePrefix(".", ".", k, Text(rest + [Field(l)], shown));
  }

  // ---------------------------------------------------------------- the texts of one refusal

  /** The names constructors declare can be told from what surrounds them in a text. */
  predicate PlainDeclaration(d: Declaration) {
    && (forall i :: 0 <= i < |d.parameters| ==> PlainName(d.parameters[i].name))
    && (d.hints.Some? ==> forall name :: name in d.hints.value ==> PlainName(name))
  }

  predicate AllPlain(places: seq<Location>) {
    forall i :: 0 <= i < |places| ==> PlainPath(places[i].path)
  }

  lemma {:induction false} PlacesArePlain(p: Program, t: Type, v: Json, path: Path)
    requires PlainPath(path) && forall c :: PlainDeclaration(p.classes(c))
    ensures AllPlain(Locations(p, t, v, path))
    decreases v, t, Width(v) + 1
  {
    if t.UnionType? && Transparent(p, t.members, v) {
      assert SoleMember(t.members).value in t.members;
      PlacesArePlain(p, SoleMember(t.members).value, v, path);
    } else {
      InsideIsPlain(p, t, v, path, Width(v));
    }
  }

  lemma {:induction false} InsideIsPlain(p: Program, t: Type, v: Json, path: Path, n: nat)
    requires n <= Width(v) && PlainPath(path) && forall c :: PlainDeclaration(p.classes(c))
    ensures AllPlain(Inside(p, t, v, path, n))
    decreases v, t, n
  {
    if n > 0 {
      InsideIsPlain(p, t, v, path, n - 1);
      match Child(p, t, v, n - 1)
      case None =>
      case Some((step, declared, value)) =>
        assert PlainStep(step) by {
          assert t.Class? ==> PlainDeclaration(p.classes(t.name));
        }
        PlacesArePlain(p, declared, value, path + [step]);
    }
  }

  /** A name below a place: the place's path, and the name. */
  predicate NameBelow(q: Path) {
    q != [] && q[|q| - 1].Field? && PlainPath(q[..|q| - 1])
  }

  lemma {:induction false} NamedPlainly(p: Program, places: seq<Location>)
    requires AllPlain(places) && forall c :: PlainDeclaration(p.classes(c)) && DistinctNames(p.classes(c).parameters)
    requires forall i :: 0 <= i < |places| ==> Decoded(places[i].value)
    ensures var m := AllFaults(p, places);
      && (forall q :: q in m.missing || q in PathsOf(m.mistyped) ==> PlainPath(q))
      && (forall q :: q in m.unexpected ==> NameBelow(q))
  {
    hide LocalFaults, Decoded, DistinctNames, PlainDeclaration, PlainPath, NameBelow;
    if places != [] {
      NamedPlainlyHere(p, places[0]);
      NamedPlainly(p, places[1..]);
      var here, rest := LocalFaults(p, places[0]), AllFaults(p, places[1..]);
      assert PathsOf(here.MergedWith(rest).mistyped) == PathsOf(here.mistyped) + PathsOf(rest.mistyped);
    }
  }

  lemma NamedPlainlyHere(p: Program, at: Location)
    requires PlainPath(at.path) && Decoded(at.value)
    requires forall c :: PlainDeclaration(p.classes(c)) && DistinctNames(p.classes(c).parameters)
    ensures var m := LocalFaults(p, at);
      && (forall q :: q in m.missing || q in PathsOf(m.mistyped) ==> PlainPath(q))
      && (forall q :: q in m.unexpected ==> NameBelow(q))
  {
    if at.declared.Class? && at.value.Obj? {
      var d := p.classes(at.declared.name);
      assert PlainDeclaration(d) && DistinctNames(d.parameters);
      MissingOnce(d.parameters, at.value.entries, at.path);
      UnexpectedOnce(d, at.value.entries, at.path);
    }
  }

  /** The name that ends one path spells the way to the name that ends another. */
  predicate SpellsOut(u: Path, w: Path, shown: char -> bool)
    requires NameBelow(u) && NameBelow(w)
  {
    Spells(u[..|u| - 1], u[|u| - 1].name, w[..|w| - 1], w[|w| - 1].name, shown)
  }

  lemma SharedTextIff(u: Path, w: Path, shown: char -> bool)
    requires NameBelow(u) && NameBelow(w) && u != w
    ensures Text(u, shown) == Text(w, shown) <==> SpellsOut(u, w, shown) || SpellsOut(w, u, shown)
  {
    hide Text, Spells;
    var p, q := u[..|u| - 1], w[..|w| - 1];
    assert u == p + [Field(u[|u| - 1].name)] && w == q + [Field(w[|w| - 1].name)];
    TextsMeetIff(p, u[|u| - 1].name, q, w[|w| - 1].name, shown);
  }

  /**
   The texts of one refusal. No text names two missing fields, nor two mistyped values. One text names two
   unexpected keys iff one of the keys, which the caller chose, spells the way to the other.
   */
  lemma RefusalTexts(p: Program, t: Type, v: Json, shown: char -> bool)
    requires Decoded(v) && !Raises(p, t, v)
    requires forall c :: PlainDeclaration(p.classes(c)) && DistinctNames(p.classes(c).parameters)
    ensures var m := Faults(p, t, v, []);
      && (forall i, j :: 0 <= i < j < |m.missing| ==> Text(m.missing[i], shown) != Text(m.missing[j], shown))
      && (forall i, j :: 0 <= i < j < |m.mistyped| ==> Text(m.mistyped[i].path, shown) != Text(m.mistyped[j].path, shown))
      && (forall i :: 0 <= i < |m.unexpected| ==> NameBelow(m.unexpected[i]))
      && (forall i, j :: 0 <= i < j < |m.unexpected| ==>
        (Text(m.unexpected[i], shown) == Text(m.unexpected[j], shown) <==>
          SpellsOut(m.unexpected[i], m.unexpected[j], shown) || SpellsOut(m.unexpected[j], m.unexpected[i], shown)))
  {
    hide Text, Locations, Conforms, Raises, AllFaults, Decoded, DistinctNames, PlainDeclaration, SpellsOut, NameBelow, PlainPath;
    var places, m := Locations(p, t, v, []), Faults(p, t, v, []);
    RefusalIsComplete(p, t, v);
    RootIsPlain();
    PlacesArePlain(p, t, v, []);
    forall i | 0 <= i < |places| ensures Decoded(places[i].value) {
      DecodedInside(v, places[i].path[0..]);
    }
    NamedPlainly(p, places);
    forall i, j | 0 <= i < j < |m.missing| ensures Text(m.missing[i], shown) != Text(m.missing[j], shown) {
      TextTells(m.missing[i], m.missing[j], shown);
    }
    forall i, j | 0 <= i < j < |m.mistyped| ensures Text(m.mistyped[i].path, shown) != Text(m.mistyped[j].path, shown) {
      assert PathsOf(m.mistyped)[i] in PathsOf(m.mistyped) && PathsOf(m.mistyped)[j] in PathsOf(m.mistyped);
      assert PathsOf(m.mistyped)[i] != PathsOf(m.mistyped)[j];
      TextTells(m.mistyped[i].path, m.mistyped[j].path, shown);
    }
    forall i, j | 0 <= i < j < |m.unexpected|
      ensures NameBelow(m.unexpected[i]) && NameBelow(m.unexpected[j])
      ensures Text(m.unexpected[i], shown) == Text(m.unexpected[j], shown) <==>
        SpellsOut(m.unexpected[i], m.unexpected[j], shown) || SpellsOut(m.unexpected[j], m.unexpected[i], shown)
    {
      assert m.unexpected[i] in m.unexpected && m.unexpected[j] in m.unexpected;
      SharedTextIff(m.unexpected[i], m.unexpected[j], shown);
    }
    forall i | 0 <= i < |m.unexpected| ensures NameBelow(m.unexpected[i]) {
      assert m.unexpected[i] in m.unexpected;
    }
  }

  lemma RootIsPlain()
    ensures PlainPath([])
  {
  }

  const INNER := Declaration(true, [], false, Some(map[]))
  const OUTER := Declaration(true, [Parameter("a", true)], false, Some(map["a" := Class("Inner")]))
  const INSIDE := Obj([Entry("b", Int(2))])

  function Classes(): Program {
    Program((c: string) => if c == "Outer" then OUTER else INNER, (name, sent) => false)
  }

  lemma InnerFaults(p: Program, path: Path)
    requires p.classes("Inner") == INNER
    ensures Faults(p, Class("Inner"), INSIDE, path) == Mismatch([], [path + [Field("b")]], [])
    ensures !Raises(p, Class("Inner"), INSIDE)
  {
    assert Child(p, Class("Inner"), INSIDE, 0) == None;
    assert Inside(p, Class("Inner"), INSIDE, path, 0) == [];
    assert Inside(p, Class("Inner"), INSIDE, path, 1) == [];
    NoPlaces(p);
    RootFaults(p, Class("Inner"), INSIDE, path);
    assert INSIDE.entries[1..] == [];
    assert UnexpectedFields(INNER, INSIDE.entries, path) == [path + [Field("b")]];
    MergeAssociative(ShapeMismatch(INNER, INSIDE.entries, path), NO_MISMATCH, NO_MISMATCH);
  }

  lemma OuterShape(entries: seq<Entry>)
    requires entries == [Entry("a.b", Int(1)), Entry("a", INSIDE)]
    ensures ShapeMismatch(OUTER, entries, []) == Mismatch([], [[Field("a.b")]], [])
  {
    assert OUTER.parameters[0].name == "a" && OUTER.parameters[1..] == [];
    assert entries[1].key == "a" && Names(entries, "a");
    assert MissingFields(OUTER.parameters[1..], entries, []) == [];
    assert MissingFields(OUTER.parameters, entries, []) == [] + [] == [];
    assert !Declares(OUTER, "a.b") && Declares(OUTER, "a");
    assert entries[1..] == [entries[1]] && entries[1..][1..] == [];
    assert UnexpectedFields(OUTER, entries[1..][1..], []) == [];
    assert UnexpectedFields(OUTER, entries[1..], []) == [] + [] == [];
    var root: Path := [];
    assert UnexpectedFields(OUTER, entries, root) == [root + [Field("a.b")]] + [];
    assert root + [Field("a.b")] == [Field("a.b")];
    assert [root + [Field("a.b")]] + [] == [root + [Field("a.b")]];
    assert OUTER.readable && !OUTER.collectsSurplus;
  }

  /** A key with a dot in it is named by the text of another object's key. */
  lemma DottedKeyCollides(shown: char -> bool)
    ensures var v := Obj([Entry("a.b", Int(1)), Entry("a", INSIDE)]);
      && Decoded(v) && !Raises(Classes(), Class("Outer"), v)
      && Faults(Classes(), Class("Outer"), v, []) == Mismatch([], [[Field("a.b")], [Field("a"), Field("b")]], [])
      && Text([Field("a.b")], shown) == "a.b" == Text([Field("a"), Field("b")], shown)
  {
    var v := Obj([Entry("a.b", Int(1)), Entry("a", INSIDE)]);
    CollidingFaults(Classes(), v);
    DecodedAtOnce(v);
    OneText(shown);
  }

  lemma OneText(shown: char -> bool)
    ensures Text([Field("a.b")], shown) == "a.b" == Text([Field("a"), Field("b")], shown)
  {
    assert [] + [Field("a.b")] == [Field("a.b")] && [] + [Field("a")] == [Field("a")];
    assert [Field("a")] + [Field("b")] == [Field("a"), Field("b")];
    FieldText([], "a.b", shown);
    FieldText([], "a", shown);
    TextAppended([Field("a")], Field("b"), shown);
    OneStepOnward(Field("b"), shown);
  }

  lemma DecodedAtOnce(v: Json)
    requires v == Obj([Entry("a.b", Int(1)), Entry("a", INSIDE)])
    ensures Decoded(v)
  {
    assert "a.b"[1] == '.' && Decoded(INSIDE);
  }

  lemma CollidingFaults(p: Program, v: Json)
    requires p == Classes() && v == Obj([Entry("a.b", Int(1)), Entry("a", INSIDE)])
    ensures !Raises(p, Class("Outer"), v)
    ensures Faults(p, Class("Outer"), v, []) == Mismatch([], [[Field("a.b")], [Field("a"), Field("b")]], [])
  {
    hide Faults, ShapeMismatch, Locations, AllFaults, Inside, Raises;
    InsideFaults(p, v);
    OuterRaises(p, v);
    OuterShape(v.entries);
    RootFaults(p, Class("Outer"), v, []);
    assert [Field("a")] + [Field("b")] == [Field("a"), Field("b")];
  }

  lemma InsideFaults(p: Program, v: Json)
    requires p == Classes() && v == Obj([Entry("a.b", Int(1)), Entry("a", INSIDE)])
    ensures Width(v) == 2
    ensures AllFaults(p, Inside(p, Class("Outer"), v, [], 2)) == Mismatch([], [[Field("a")] + [Field("b")]], [])
  {
    hide Faults, Locations, AllFaults, Inside, Child;
    var t, root, way: Path := Class("Outer"), [], [Field("a")];
    assert p.classes("Inner") == INNER;
    hide Classes;
    assert root + way == way;
    InnerFaults(p, way);
    OuterChildren(p, v);
    NoPlaces(p);
    FaultsUnfold(p, t, v, root, 0);
    FaultsUnfold(p, t, v, root, 1);
    MergeAssociative(Faults(p, Class("Inner"), INSIDE, way), NO_MISMATCH, NO_MISMATCH);
  }

  lemma OuterChildren(p: Program, v: Json)
    requires p == Classes() && v == Obj([Entry("a.b", Int(1)), Entry("a", INSIDE)])
    ensures Width(v) == 2 && Inside(p, Class("Outer"), v, [], 0) == []
    ensures Child(p, Class("Outer"), v, 0) == None
    ensures Child(p, Class("Outer"), v, 1) == Some((Field("a"), Class("Inner"), INSIDE))
  {
    OuterHints(p);
    hide Hint, Classes;
    assert v.entries[0] == Entry("a.b", Int(1)) && v.entries[1] == Entry("a", INSIDE);
  }

  lemma OuterRaises(p: Program, v: Json)
    requires p == Classes() && v == Obj([Entry("a.b", Int(1)), Entry("a", INSIDE)])
    ensures !Raises(p, Class("Outer"), v)
  {
    OuterChildren(p, v);
    InnerFaults(p, []);
    RaisesByChild(p, Class("Outer"), v);
    hide Raises, Child, Faults, Classes;
    assert !ChildRaises(p, Class("Outer"), v, 0) && !ChildRaises(p, Class("Outer"), v, 1);
  }

  lemma OuterHints(p: Program)
    requires p == Classes()
    ensures Hint(p.classes("Outer"), "a.b") == None && Hint(p.classes("Outer"), "a") == Some(Class("Inner"))
  {
    assert "a.b" != "a";
  }

  lemma NoPlaces(p: Program)
    ensures AllFaults(p, []) == NO_MISMATCH
  {
  }

  /** The faults of an object's own shape, and then those inside it. */
  lemma RootFaults(p: Program, t: Type, v: Json, path: Path)
    requires t.Class?
    ensures Faults(p, t, v, path) ==
      LocalFaults(p, Location(path, v, t)).MergedWith(AllFaults(p, Inside(p, t, v, path, Width(v))))
  {
    var at, inside := Location(path, v, t), Inside(p, t, v, path, Width(v));
    assert ([at] + inside)[1..] == inside;
  }
}
