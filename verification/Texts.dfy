/** ASCII text: white space, lines, fields, and numbers as Python reads and writes them. */
module Texts {
  import opened Wrappers

  type ascii = c: char | c < 128 as char
  type text = seq<ascii>

  // ---------- White space ----------

  predicate IsSpace(c: ascii) {
    c == ' ' || 9 <= c as int <= 13 || 28 <= c as int <= 31
  }

  /** `strip`: without white space at either end. */
  function Strip(s: text): text {
    if s == [] then s
    else if IsSpace(s[0]) then Strip(s[1..])
    else if IsSpace(s[|s| - 1]) then Strip(s[..|s| - 1])
    else s
  }

  predicate Trim(s: text) {
    s != [] ==> !IsSpace(s[0]) && !IsSpace(s[|s| - 1])
  }

  lemma {:induction false} StripExact(s: text)
    ensures Trim(Strip(s)) && |Strip(s)| <= |s|
    ensures Strip(s) == s <==> Trim(s)
  {
    if s != [] {
      if IsSpace(s[0]) {
        StripExact(s[1..]);
      } else if IsSpace(s[|s| - 1]) {
        StripExact(s[..|s| - 1]);
      }
    }
  }

  /** What is left was there before, from the first character that is not white space on. */
  lemma {:induction false} StripKeeps(s: text)
    ensures forall c :: c in Strip(s) ==> c in s
    ensures s != [] && !IsSpace(s[0]) ==> Strip(s) != [] && Strip(s)[0] == s[0]
  {
    if s != [] {
      if IsSpace(s[0]) {
        StripKeeps(s[1..]);
      } else if IsSpace(s[|s| - 1]) {
        StripKeeps(s[..|s| - 1]);
      }
    }
  }

  predicate AllSpace(s: text) {
    forall i :: 0 <= i < |s| ==> IsSpace(s[i])
  }

  /** Only white space is taken away; together with `StripExact` this determines the result. */
  lemma {:induction false} StripTakes(s: text) returns (front: text, back: text)
    ensures s == front + Strip(s) + back && AllSpace(front) && AllSpace(back)
  {
    front, back := [], [];
    if s == [] {
    } else if IsSpace(s[0]) {
      front, back := StripTakes(s[1..]);
      assert s == [s[0]] + s[1..] && Strip(s) == Strip(s[1..]);
      hide Strip, IsSpace;
      Regrouped([s[0]], front, Strip(s), back, []);
      front := [s[0]] + front;
      assert back + [] == back;
    } else if IsSpace(s[|s| - 1]) {
      var k := |s| - 1;
      front, back := StripTakes(s[..k]);
      assert s == [] + s[..k] + [s[k]] && Strip(s) == Strip(s[..k]);
      hide Strip, IsSpace;
      Regrouped([], front, Strip(s), back, [s[k]]);
      assert [] + front == front;
      back := back + [s[k]];
    }
  }

  lemma Regrouped(x: text, front: text, mid: text, back: text, y: text)
    ensures x + (front + mid + back) + y == (x + front) + mid + (back + y)
  {
  }

  // ---------- Fields ----------

  /** `split` at a single character. */
  function Split(s: text, sep: ascii): (r: seq<text>)
    ensures |r| >= 1
  {
    if s == [] then [[]]
    else
      var r := Split(s[1..], sep);
      if s[0] == sep then [[]] + r else [[s[0]] + r[0]] + r[1..]
  }

  /** `join`. */
  function Join(fields: seq<text>, sep: ascii): text {
    if fields == [] then []
    else if |fields| == 1 then fields[0]
    else fields[0] + [sep] + Join(fields[1..], sep)
  }

  lemma {:induction false} SplitAppend(a: text, sep: ascii, b: text)
    ensures Split(a + [sep] + b, sep) == Split(a, sep) + Split(b, sep)
  {
    if a == [] {
      assert [] + [sep] + b == [sep] + b && ([sep] + b)[1..] == b;
    } else {
      var rest := a[1..] + [sep] + b;
      assert a + [sep] + b == [a[0]] + rest && a == [a[0]] + a[1..];
      hide Split;
      SplitAppend(a[1..], sep, b);
      SplitCons(a[0], rest, sep);
      SplitCons(a[0], a[1..], sep);
      FirstField(a[0], Split(a[1..], sep), Split(b, sep));
    }
  }

  lemma SplitCons(c: ascii, s: text, sep: ascii)
    ensures var r := Split(s, sep);
            Split([c] + s, sep) == if c == sep then [[]] + r else [[c] + r[0]] + r[1..]
  {
    assert ([c] + s)[1..] == s;
  }

  lemma FirstField(c: ascii, r: seq<text>, q: seq<text>)
    requires r != []
    ensures [[c] + (r + q)[0]] + (r + q)[1..] == [[c] + r[0]] + r[1..] + q
    ensures [[]] + (r + q) == [[]] + r + q
  {
    assert (r + q)[1..] == r[1..] + q;
  }

  lemma {:induction false} SplitOne(a: text, sep: ascii)
    requires sep !in a
    ensures Split(a, sep) == [a]
  {
    if a != [] {
      SplitOne(a[1..], sep);
      assert a == [a[0]] + a[1..];
    }
  }

  /** Splitting undoes joining, for fields without the separator. */
  lemma {:induction false} SplitJoin(fields: seq<text>, sep: ascii)
    requires fields != [] && forall i :: 0 <= i < |fields| ==> sep !in fields[i]
    ensures Split(Join(fields, sep), sep) == fields
  {
    if |fields| == 1 {
      SplitOne(fields[0], sep);
    } else {
      SplitJoin(fields[1..], sep);
      SplitOne(fields[0], sep);
      SplitAppend(fields[0], sep, Join(fields[1..], sep));
      assert fields == [fields[0]] + fields[1..];
    }
  }

  /** And joining undoes splitting, into fields without the separator. */
  lemma {:induction false} JoinSplit(s: text, sep: ascii)
    ensures Join(Split(s, sep), sep) == s
    ensures forall i :: 0 <= i < |Split(s, sep)| ==> sep !in Split(s, sep)[i]
  {
    if s != [] {
      var r := Split(s[1..], sep);
      JoinSplit(s[1..], sep);
      assert s == [s[0]] + s[1..];
      if s[0] == sep {
        assert ([[]] + r)[1..] == r;
      } else {
        var first := [s[0]] + r[0];
        assert ([first] + r[1..])[1..] == r[1..];
        if |r| > 1 {
          assert [s[0]] + r[0] + [sep] + Join(r[1..], sep) == [s[0]] + (r[0] + [sep] + Join(r[1..], sep));
        }
      }
    }
  }

  /** The first field is what stands in front of the first separator. */
  lemma {:induction false} SplitFirst(s: text, sep: ascii)
    ensures Split(s, sep)[0] <= s && sep !in Split(s, sep)[0]
  {
    if s != [] && s[0] != sep {
      SplitFirst(s[1..], sep);
    }
  }

  lemma {:induction false} JoinWithout(fields: seq<text>, sep: ascii, c: ascii)
    requires c != sep && forall i :: 0 <= i < |fields| ==> c !in fields[i]
    ensures c !in Join(fields, sep)
  {
    if |fields| > 1 {
      JoinWithout(fields[1..], sep, c);
    }
  }

  // ---------- Lines ----------

  predicate IsBreak(c: ascii) {
    10 <= c as int <= 13 || 28 <= c as int <= 30
  }

  /** `splitlines`. */
  function Lines(s: text): seq<text> {
    if s == [] then []
    else if IsBreak(s[0]) then
      [[]] + Lines(s[if s[0] == '\r' && |s| > 1 && s[1] == '\n' then 2 else 1..])
    else
      var r := Lines(s[1..]);
      if r == [] then [[s[0]]] else [[s[0]] + r[0]] + r[1..]
  }

  /** The seven line breaks, and the three characters that are white space but break no line. */
  lemma BreaksAndSpaces(c: ascii)
    ensures IsBreak(c) <==> c as int in {10, 11, 12, 13, 28, 29, 30}
    ensures IsSpace(c) <==> IsBreak(c) || c as int in {9, 31, 32}
  {
  }

  predicate OneLine(s: text) {
    forall i :: 0 <= i < |s| ==> !IsBreak(s[i])
  }

  /** Lines have no breaks in them, and nothing that is not in the text. */
  lemma {:induction false} LinesParts(s: text)
    ensures forall i :: 0 <= i < |Lines(s)| ==> OneLine(Lines(s)[i]) && forall c :: c in Lines(s)[i] ==> c in s
  {
    if s == [] {
    } else if IsBreak(s[0]) {
      LinesParts(s[if s[0] == '\r' && |s| > 1 && s[1] == '\n' then 2 else 1..]);
    } else {
      LinesParts(s[1..]);
    }
  }

  /** Every line ended by a line feed. */
  function Unlines(lines: seq<text>): text {
    if lines == [] then [] else lines[0] + ['\n'] + Unlines(lines[1..])
  }

  lemma {:induction false} UnlinesWithout(lines: seq<text>, c: ascii)
    requires c != '\n' && forall i :: 0 <= i < |lines| ==> c !in lines[i]
    ensures c !in Unlines(lines)
  {
    if lines != [] {
      UnlinesWithout(lines[1..], c);
    }
  }

  lemma {:induction false} FirstLine(a: text, b: text)
    requires OneLine(a)
    ensures Lines(a + ['\n'] + b) == [a] + Lines(b)
  {
    if a == [] {
      assert [] + ['\n'] + b == ['\n'] + b && (['\n'] + b)[1..] == b;
    } else {
      FirstLine(a[1..], b);
      assert (a + ['\n'] + b)[1..] == a[1..] + ['\n'] + b;
      assert a == [a[0]] + a[1..];
    }
  }

  /** A line break: a single character, or the two that end a line on some systems. */
  predicate Break(b: text, rest: text) {
    || b == ['\r', '\n']
    || (|b| == 1 && IsBreak(b[0]) && !(b == ['\r'] && rest != [] && rest[0] == '\n'))
  }

  /** What the lines of a text are: up to each break, and, by `LastLine`, the rest if there is any. */
  lemma {:induction false} LinesExact(a: text, b: text, rest: text)
    requires OneLine(a) && Break(b, rest)
    ensures Lines(a + b + rest) == [a] + Lines(rest)
  {
    if a == [] {
      assert [] + b + rest == b + rest && (b + rest)[|b|..] == rest;
    } else {
      LinesExact(a[1..], b, rest);
      assert (a + b + rest)[1..] == a[1..] + b + rest;
      assert a == [a[0]] + a[1..];
    }
  }

  lemma {:induction false} LastLine(a: text)
    requires OneLine(a)
    ensures Lines(a) == if a == [] then [] else [a]
  {
    if a != [] {
      var rest := a[1..];
      LastLine(rest);
      assert a == [a[0]] + rest && !IsBreak(a[0]);
      if rest == [] {
        assert Lines(a) == [[a[0]]] && [a[0]] == a;
      } else {
        assert Lines(rest) == [rest] && Lines(rest)[1..] == [];
        assert Lines(a) == [[a[0]] + rest];
      }
    }
  }

  lemma {:induction false} LinesUnlines(lines: seq<text>)
    requires forall i :: 0 <= i < |lines| ==> OneLine(lines[i])
    ensures Lines(Unlines(lines)) == lines
  {
    if lines != [] {
      LinesUnlines(lines[1..]);
      FirstLine(lines[0], Unlines(lines[1..]));
      assert lines == [lines[0]] + lines[1..];
    }
  }

  /** A field that splitting and stripping leave alone. */
  predicate OneField(s: text) {
    Trim(s) && ',' !in s
  }

  /** A field that survives being written on a line of comma-separated values. */
  predicate Clean(s: text) {
    Trim(s) && OneLine(s) && ',' !in s && '$' !in s
  }

  lemma {:induction false} JoinClean(fields: seq<text>)
    requires forall i :: 0 <= i < |fields| ==> OneLine(fields[i]) && '$' !in fields[i]
    ensures OneLine(Join(fields, ',')) && '$' !in Join(fields, ',')
  {
    if |fields| > 1 {
      JoinClean(fields[1..]);
    }
  }

  // ---------- Numbers ----------

  function DigitValue(c: ascii): (d: nat) {
    if '0' <= c <= '9' then c as int - '0' as int
    else if 'a' <= c <= 'z' then c as int - 'a' as int + 10
    else if 'A' <= c <= 'Z' then c as int - 'A' as int + 10
    else 36
  }

  function DigitChar(d: nat): (c: ascii)
    requires d < 16
    ensures DigitValue(c) == d && (c == '0' ==> d == 0)
  {
    if d < 10 then ('0' as int + d) as char else ('a' as int + d - 10) as char
  }

  predicate AllDigits(s: text, base: nat) {
    forall i :: 0 <= i < |s| ==> DigitValue(s[i]) < base
  }

  /** `n` with one more digit. */
  function Append(n: nat, base: nat, d: nat): nat {
    assert n * base >= 0;
    n * base + d
  }

  function Value(s: text, base: nat): nat {
    if s == [] then 0 else Append(Value(s[..|s| - 1], base), base, DigitValue(s[|s| - 1]))
  }

  function Digits(s: text, base: nat): Option<nat> {
    if s != [] && AllDigits(s, base) then Some(Value(s, base)) else None
  }

  /** A literal without a sign: a prefix selects the base, and decimal numbers do not start with a
      superfluous zero. */
  function Unsigned(s: text): (r: Option<nat>)
    ensures s == [] ==> r == None
  {
    if |s| >= 2 && s[0] == '0' && (s[1] == 'x' || s[1] == 'X') then Digits(s[2..], 16)
    else if |s| >= 2 && s[0] == '0' && (s[1] == 'o' || s[1] == 'O') then Digits(s[2..], 8)
    else if |s| >= 2 && s[0] == '0' && (s[1] == 'b' || s[1] == 'B') then Digits(s[2..], 2)
    else if s != [] && s[0] == '0' && Value(s, 10) != 0 then None
    else Digits(s, 10)
  }

  predicate Signed(s: text) {
    s != [] && (s[0] == '-' || s[0] == '+')
  }

  /** `int(v, 0)`. */
  function IntLiteral(v: text): Option<int> {
    var s := Strip(v);
    match Unsigned(if Signed(s) then s[1..] else s)
    case None => None
    case Some(n) =>
      var value: int := n;
      Some(if s[0] == '-' then -value else value)
  }

  /** What each digit is worth, letters in either case. */
  lemma DigitExact(c: ascii, d: nat)
    requires d < 36
    ensures DigitValue(c) == d <==>
            if d < 10 then c as int == 48 + d else c as int == 97 + (d - 10) || c as int == 65 + (d - 10)
  {
  }

  function Power(base: nat, n: nat): nat {
    if n == 0 then 1 else Append(Power(base, n - 1), base, 0)
  }

  /** The first digit counts most. */
  function Weighted(s: text, base: nat): nat {
    if s == [] then 0 else Append(DigitValue(s[0]), Power(base, |s| - 1), Weighted(s[1..], base))
  }

  lemma AppendTwice(d: nat, power: nat, rest: nat, base: nat, last: nat)
    ensures Append(Append(d, power, rest), base, last) == Append(d, Append(power, base, 0), Append(rest, base, last))
  {
    assert (d * power + rest) * base == d * (power * base) + rest * base;
  }

  lemma {:induction false} WeightedSnoc(s: text, base: nat, c: ascii)
    ensures Weighted(s + [c], base) == Append(Weighted(s, base), base, DigitValue(c))
  {
    hide Append, DigitValue;
    if s == [] {
      assert [] + [c] == [c] && [c][1..] == [] && Weighted([], base) == 0;
      AppendOne(DigitValue(c), base);
    } else {
      WeightedSnoc(s[1..], base, c);
      assert (s + [c])[1..] == s[1..] + [c];
      AppendTwice(DigitValue(s[0]), Power(base, |s| - 1), Weighted(s[1..], base), base, DigitValue(c));
    }
  }

  lemma AppendOne(d: nat, base: nat)
    ensures Append(d, Power(base, 0), 0) == Append(0, base, d)
  {
  }

  /** Reading digits one after the other gives the number they denote. */
  lemma {:induction false} ValueExact(s: text, base: nat)
    ensures Value(s, base) == Weighted(s, base)
  {
    if s != [] {
      hide Append, DigitValue, Weighted;
      ValueExact(s[..|s| - 1], base);
      WeightedSnoc(s[..|s| - 1], base, s[|s| - 1]);
      assert s == s[..|s| - 1] + [s[|s| - 1]];
    } else {
      assert Weighted([], base) == 0;
    }
  }

  /** The digits of a number in some base. */
  predicate Numeral(s: text, base: nat, n: nat) {
    s != [] && AllDigits(s, base) && n == Weighted(s, base)
  }

  predicate Prefixed(s: text, small: ascii, large: ascii, base: nat, n: nat) {
    |s| >= 2 && s[0] == '0' && (s[1] == small || s[1] == large) && Numeral(s[2..], base, n)
  }

  /** The integer literals of Python without a sign (section 2.4.5 of its language reference). */
  predicate Denotes(s: text, n: nat) {
    || (Numeral(s, 10, n) && (s[0] == '0' ==> n == 0))
    || Prefixed(s, 'x', 'X', 16, n)
    || Prefixed(s, 'o', 'O', 8, n)
    || Prefixed(s, 'b', 'B', 2, n)
  }

  /** The character behind a leading zero that selects a base. */
  predicate Selects(s: text, small: ascii, large: ascii) {
    |s| >= 2 && s[0] == '0' && (s[1] == small || s[1] == large)
  }

  lemma NumeralExact(s: text, base: nat, n: nat)
    ensures Digits(s, base) == Some(n) <==> Numeral(s, base, n)
  {
    ValueExact(s, base);
    hide Value, Weighted, AllDigits;
  }

  lemma NotDecimal(s: text, n: nat)
    requires Selects(s, 'x', 'X') || Selects(s, 'o', 'O') || Selects(s, 'b', 'B')
    ensures !Numeral(s, 10, n)
  {
    assert DigitValue(s[1]) >= 10;
    hide Weighted;
  }

  lemma UnsignedExact(s: text, n: nat)
    ensures Unsigned(s) == Some(n) <==> Denotes(s, n)
  {
    if Selects(s, 'x', 'X') || Selects(s, 'o', 'O') || Selects(s, 'b', 'B') {
      NotDecimal(s, n);
      NumeralExact(s[2..], 16, n);
      NumeralExact(s[2..], 8, n);
      NumeralExact(s[2..], 2, n);
      hide Numeral, Digits, Value;
    } else {
      ValueExact(s, 10);
      NumeralExact(s, 10, n);
      hide AllDigits, Value, Weighted;
    }
  }

  /** Exactly which texts are numbers, and which: white space around them and a sign are allowed. */
  lemma LiteralExact(v: text, n: int)
    ensures IntLiteral(v) == Some(n) <==>
            var s := Strip(v);
            || (n >= 0 && Denotes(s, n))
            || (s != [] && s[0] == '+' && n >= 0 && Denotes(s[1..], n))
            || (s != [] && s[0] == '-' && n <= 0 && Denotes(s[1..], -n))
  {
    var s := Strip(v);
    var m: nat := if n < 0 then -n else n;
    UnsignedExact(s, m);
    UnsignedExact(if Signed(s) then s[1..] else s, m);
    if Signed(s) {
      SignNoDigit(s, m);
    }
    hide Strip, Unsigned, Denotes;
  }

  lemma SignNoDigit(s: text, n: nat)
    requires Signed(s)
    ensures !Denotes(s, n)
  {
    assert DigitValue(s[0]) == 36;
    hide Weighted;
  }

  function Show(n: nat, base: nat): text
    requires base == 10 || base == 16
  {
    (if n < base then [] else Show(Front(n, base), base)) + [DigitChar(LastDigit(n, base))]
  }

  function Front(n: nat, base: nat): (q: nat)
    requires base == 10 || base == 16
    ensures n > 0 ==> q < n
    ensures n >= base ==> q > 0
  {
    if base == 10 then n / 10 else n / 16
  }

  function LastDigit(n: nat, base: nat): (d: nat)
    requires base == 10 || base == 16
    ensures d < base && Append(Front(n, base), base, d) == n
  {
    if base == 10 then n % 10 else n % 16
  }

  /** `%d`. */
  function Decimal(n: int): text {
    if n < 0 then ['-'] + Show(-n, 10) else Show(n, 10)
  }

  /** `0x%x`. */
  function Hex(n: int): text {
    if n < 0 then ['0', 'x', '-'] + Show(-n, 16) else ['0', 'x'] + Show(n, 16)
  }

  lemma {:induction false} ShowRound(n: nat, base: nat)
    requires base == 10 || base == 16
    ensures AllDigits(Show(n, base), base) && Value(Show(n, base), base) == n
    ensures Show(n, base) != [] && (Show(n, base)[0] == '0' ==> n == 0)
    decreases n
  {
    hide Append, Front, LastDigit, DigitChar, DigitValue, Value, AllDigits;
    var d := LastDigit(n, base);
    if n >= base {
      var init := Show(Front(n, base), base);
      assert Show(n, base) == init + [DigitChar(d)];
      hide Show;
      ShowRound(Front(n, base), base);
      DigitsSnoc(init, base, DigitChar(d));
    } else {
      ShowDigit(n, base);
    }
  }

  lemma DigitsSnoc(init: text, base: nat, last: ascii)
    ensures Value(init + [last], base) == Append(Value(init, base), base, DigitValue(last))
    ensures AllDigits(init, base) && DigitValue(last) < base ==> AllDigits(init + [last], base)
  {
    hide Append, DigitValue;
    assert (init + [last])[..|init|] == init;
  }

  lemma ShowDigit(n: nat, base: nat)
    requires (base == 10 || base == 16) && n < base
    ensures Show(n, base) == [DigitChar(n)] && Value([DigitChar(n)], base) == n && AllDigits([DigitChar(n)], base)
  {
    hide DigitChar, DigitValue;
    assert [DigitChar(n)][..0] == [] && Value([], base) == 0;
  }

  /** What numbers are written with. */
  predicate PlainChar(c: ascii) {
    '0' <= c <= '9' || 'a' <= c <= 'f' || c == 'x' || c == '-'
  }

  predicate Plain(s: text) {
    forall i :: 0 <= i < |s| ==> PlainChar(s[i])
  }

  lemma {:induction false} ShowPlain(n: nat, base: nat)
    requires base == 10 || base == 16
    ensures Plain(Show(n, base))
    decreases n
  {
    hide Front, LastDigit;
    if n >= base {
      ShowPlain(Front(n, base), base);
    }
  }

  lemma PlainMeans(s: text)
    requires Plain(s)
    ensures Clean(s) && Strip(s) == s
  {
    forall i | 0 <= i < |s|
      ensures !IsBreak(s[i]) && !IsSpace(s[i]) && s[i] != ',' && s[i] != '$'
    {
      assert PlainChar(s[i]);
    }
    StripExact(s);
  }

  /** Numbers written with `%d` are read back. */
  lemma DecimalRound(n: int)
    ensures IntLiteral(Decimal(n)) == Some(n) && Plain(Decimal(n)) && Decimal(n) != []
  {
    var m: nat := if n < 0 then -n else n;
    var s := Show(m, 10);
    ShowRound(m, 10);
    ShowPlain(m, 10);
    SignPlain(s);
    PlainMeans(Decimal(n));
    UnsignedDecimal(s, m);
    hide Show, Value, AllDigits, Strip, Plain, Unsigned;
    if n < 0 {
      assert Decimal(n)[1..] == s;
    }
  }

  lemma SignPlain(s: text)
    requires Plain(s)
    ensures Plain(['-'] + s) && Plain(['0', 'x', '-'] + s) && Plain(['0', 'x'] + s)
  {
    assert PlainChar('-') && PlainChar('0') && PlainChar('x');
    hide PlainChar;
  }

  lemma UnsignedDecimal(s: text, n: nat)
    requires s != [] && AllDigits(s, 10) && Value(s, 10) == n && (s[0] == '0' ==> n == 0)
    ensures Unsigned(s) == Some(n) && !Signed(s)
  {
    assert DigitValue(s[0]) < 10;
    if |s| >= 2 {
      assert DigitValue(s[1]) < 10;
    }
    hide Value;
  }

  lemma UnsignedHex(s: text, n: nat)
    requires AllDigits(s, 16) && Value(s, 16) == n && s != []
    ensures Unsigned(['0', 'x'] + s) == Some(n)
    ensures Unsigned(['0', 'x', '-'] + s) == None
  {
    assert (['0', 'x'] + s)[2..] == s;
    assert (['0', 'x', '-'] + s)[2..][0] == '-';
    hide Value;
  }

  lemma LiteralUnsigned(v: text)
    requires Strip(v) == v && v != [] && !Signed(v)
    ensures IntLiteral(v) == Unsigned(v)
  {
    hide Strip, Unsigned;
  }

  /** A hexadecimal number is read back exactly when it is not negative. */
  lemma HexRound(n: int)
    ensures IntLiteral(Hex(n)) == if n >= 0 then Some(n) else None
    ensures Plain(Hex(n)) && Hex(n) != []
  {
    hide Show, Value, AllDigits, Strip, Plain, Unsigned, IntLiteral;
    var m: nat := if n < 0 then -n else n;
    var s := Show(m, 16);
    ShowRound(m, 16);
    ShowPlain(m, 16);
    SignPlain(s);
    PlainMeans(Hex(n));
    UnsignedHex(s, m);
    LiteralUnsigned(Hex(n));
  }

  function LowerChar(c: ascii): ascii {
    if 'A' <= c <= 'Z' then (c as int + 32) as char else c
  }

  /** `lower`. */
  function Lower(s: text): (r: text)
    ensures |r| == |s|
  {
    seq(|s|, i requires 0 <= i < |s| => LowerChar(s[i]))
  }
}
