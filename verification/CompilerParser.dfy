/** The parser of NovaCC (kernel/compiler.c): the return value and the printed message of a source text. */
module CompilerParser {
  import opened VmTypes

  /** A source text: the bytes before the terminating NUL. */
  type Text = seq<byte>

  const RETURN: Text := [114, 101, 116, 117, 114, 110]
  const PRINT: Text := [112, 114, 105, 110, 116]
  const INT_MAIN: Text := [105, 110, 116, 32, 109, 97, 105, 110]
  const SPACE: byte := 32
  const TAB: byte := 9
  const NEWLINE: byte := 10
  const MINUS: byte := 45
  const SEMICOLON: byte := 59
  const OPEN: byte := 40
  const CLOSE: byte := 41
  const QUOTE: byte := 34
  const BACKSLASH: byte := 92
  const LETTER_N: byte := 110
  const MESSAGE_MAX := 511

  /** The byte at `i`, zero at and after the end. */
  function At(s: Text, i: nat): byte {
    if i < |s| then s[i] else 0
  }

  predicate Occurs(s: Text, needle: Text, i: nat) {
    i + |needle| <= |s| && s[i..i + |needle|] == needle
  }

  /** The first occurrence at or after `from`. */
  function Find(s: Text, needle: Text, from: nat): (position: Option<nat>)
    requires from <= |s|
    ensures position.Some? ==> from <= position.value < |s| && Occurs(s, needle, position.value)
    ensures position.Some? ==> forall k: nat :: from <= k < position.value ==> !Occurs(s, needle, k)
    ensures position.None? && |needle| > 0 ==> forall k: nat :: from <= k ==> !Occurs(s, needle, k)
    decreases |s| - from
  {
    if from == |s| then None
    else if Occurs(s, needle, from) then Some(from)
    else Find(s, needle, from + 1)
  }

  method FindText(s: Text, needle: Text) returns (position: Option<nat>)
    ensures position == Find(s, needle, 0)
  {
    var i := 0;
    while i < |s|
      invariant 0 <= i <= |s| && Find(s, needle, 0) == Find(s, needle, i)
    {
      if i + |needle| <= |s| && s[i..i + |needle|] == needle {
        return Some(i);
      }
      i := i + 1;
    }
    return None;
  }

  predicate Blank(c: byte) {
    c == SPACE || c == TAB
  }

  predicate Digit(c: byte) {
    48 <= c <= 57
  }

  function SkipBlanks(s: Text, i: nat): (end: nat)
    ensures i <= end && !Blank(At(s, end)) && forall k :: i <= k < end ==> Blank(At(s, k))
    decreases |s| - i
  {
    if i < |s| && Blank(s[i]) then SkipBlanks(s, i + 1) else i
  }

  function SkipDigits(s: Text, i: nat): (end: nat)
    ensures i <= end && !Digit(At(s, end)) && forall k :: i <= k < end ==> Digit(At(s, k))
    decreases |s| - i
  {
    if i < |s| && Digit(s[i]) then SkipDigits(s, i + 1) else i
  }

  method Skip(s: Text, i: nat) returns (end: nat)
    ensures end == SkipBlanks(s, i)
  {
    end := i;
    while end < |s| && Blank(s[end])
      invariant i <= end && SkipBlanks(s, i) == SkipBlanks(s, end)
      decreases |s| - end
    {
      end := end + 1;
    }
  }

  /** The number written by the digits of s[i..j]. */
  function Decimal(s: Text, i: nat, j: nat): nat
    requires i <= j
    decreases j - i
  {
    if i == j then 0 else Decimal(s, i, j - 1) * 10 + if Digit(At(s, j - 1)) then At(s, j - 1) as nat - 48 else 0
  }

  /** The value of the first return statement: at most one digit may follow once the number exceeds 100000000. */
  function ReturnValue(s: Text): Option<int> {
    match Find(s, RETURN, 0)
    case None => None
    case Some(p) =>
      var a := SkipBlanks(s, p + 6);
      var b := if At(s, a) == MINUS then a + 1 else a;
      var d := SkipDigits(s, b);
      if d == b || Decimal(s, b, d - 1) > 100000000 || At(s, SkipBlanks(s, d)) != SEMICOLON then None
      else Some(if At(s, a) == MINUS then -(Decimal(s, b, d) as int) else Decimal(s, b, d))
  }

  /** Prefixes of a number are no larger than the number. */
  lemma {:induction false} DecimalGrows(s: Text, i: nat, j: nat, k: nat)
    requires i <= j <= k
    ensures Decimal(s, i, j) <= Decimal(s, i, k)
    decreases k
  {
    if j < k {
      DecimalGrows(s, i, j, k - 1);
    }
  }

  /** The result fits an int, with room for the last multiplication. */
  lemma ReturnFits(s: Text)
    ensures ReturnValue(s).Some? ==> -1000000009 <= ReturnValue(s).value <= 1000000009
  {
  }

  /** Reads digits; gives up once the number exceeds 100000000 and another digit follows. */
  method ReadNumber(s: Text, b: nat) returns (end: nat, number: Option<nat>)
    requires Digit(At(s, b))
    ensures number.None? <==> Decimal(s, b, SkipDigits(s, b) - 1) > 100000000
    ensures number.Some? ==> end == SkipDigits(s, b) && number.value == Decimal(s, b, end) <= 1000000009
  {
    hide SkipDigits;
    end := b;
    var result := 0;
    DigitsStep(s, b);
    while end < |s| && Digit(s[end])
      invariant b <= end && SkipDigits(s, b) == SkipDigits(s, end)
      invariant result == Decimal(s, b, end) <= 1000000009
      invariant end > b ==> Decimal(s, b, end - 1) <= 100000000
      decreases |s| - end
    {
      DigitsStep(s, end);
      if result > 100000000 {
        DecimalGrows(s, b, end, SkipDigits(s, b) - 1);
        return end, None;
      }
      result := result * 10 + (s[end] as int - 48);
      end := end + 1;
    }
    DigitsStep(s, end);
    number := Some(result);
  }

  lemma DigitsStep(s: Text, i: nat)
    ensures SkipDigits(s, i) == if Digit(At(s, i)) then SkipDigits(s, i + 1) else i
  {
  }

  method ParseReturn(s: Text) returns (value: Option<int>)
    ensures value == ReturnValue(s)
  {
    hide Find, SkipBlanks, SkipDigits, Decimal;
    var found := FindText(s, RETURN);
    if found.None? {
      return None;
    }
    var a := Skip(s, found.value + 6);
    var negative := At(s, a) == MINUS;
    var b := if negative then a + 1 else a;
    DigitsStep(s, b);
    if !Digit(At(s, b)) {
      return None;
    }
    var position, number := ReadNumber(s, b);
    if number.None? {
      return None;
    }
    var end := Skip(s, position);
    if At(s, end) != SEMICOLON {
      return None;
    }
    return Some(if negative then -(number.value as int) else number.value);
  }

  // ----- the message

  datatype Quoted = Quoted(message: Text, end: nat)

  /** The text of a string literal from `i` up to its closing quote, escapes resolved. */
  function Unescape(s: Text, i: nat): Option<Quoted>
    decreases |s| - i
  {
    if i >= |s| then None
    else if s[i] == QUOTE then Some(Quoted([], i))
    else
      var c := Escaped(s, i);
      if c.None? then None
      else match Unescape(s, i + Width(s, i))
           case None => None
           case Some(rest) => Some(Quoted([c.value] + rest.message, rest.end))
  }

  /** The character written at `i`. */
  function Escaped(s: Text, i: nat): Option<byte>
    requires i < |s|
  {
    if s[i] != BACKSLASH then Some(s[i])
    else if At(s, i + 1) == LETTER_N then Some(NEWLINE)
    else if At(s, i + 1) == QUOTE || At(s, i + 1) == BACKSLASH then Some(At(s, i + 1))
    else None
  }

  function Width(s: Text, i: nat): (width: nat)
    requires i < |s|
    ensures width > 0
  {
    if s[i] == BACKSLASH then 2 else 1
  }

  /** What the program prints: nothing without a print statement. */
  function Message(s: Text): Option<Text> {
    match Find(s, PRINT, 0)
    case None => Some([])
    case Some(p) =>
      var a := SkipBlanks(s, p + 5);
      var b := SkipBlanks(s, a + 1);
      if At(s, a) != OPEN || At(s, b) != QUOTE then None
      else match Unescape(s, b + 1)
           case None => None
           case Some(q) =>
             var c := SkipBlanks(s, q.end + 1);
             if |q.message| > MESSAGE_MAX || At(s, c) != CLOSE || At(s, SkipBlanks(s, c + 1)) != SEMICOLON then None
             else Some(q.message)
  }

  /** Reads the literal that starts after the quote at start - 1. */
  method ReadLiteral(s: Text, start: nat) returns (quoted: Option<Quoted>)
    ensures quoted == match Unescape(s, start)
                      case None => None
                      case Some(q) => if |q.message| > MESSAGE_MAX then None else Some(q)
  {
    hide Unescape;
    var position, output := start, [];
    ContinuesHere(s, start);
    while position < |s| && s[position] != QUOTE
      invariant start <= position && |output| <= MESSAGE_MAX && Continues(s, start, position, output)
      decreases |s| - position
    {
      var character := s[position];
      ghost var before, kept := position, output;
      UnescapeStep(s, position);
      position := position + 1;
      if character == BACKSLASH {
        if At(s, position) == LETTER_N {
          character := NEWLINE;
          position := position + 1;
        } else if At(s, position) == QUOTE || At(s, position) == BACKSLASH {
          character := At(s, position);
          position := position + 1;
        } else {
          return None;
        }
      }
      if |output| + 1 >= 512 {
        TooLong(s, start, before, output);
        return None;
      }
      output := output + [character];
      Continued(s, start, before, kept);
    }
    UnescapeStep(s, position);
    if At(s, position) != QUOTE {
      return None;
    }
    assert output + [] == output;
    return Some(Quoted(output, position));
  }

  lemma UnescapeStep(s: Text, i: nat)
    ensures At(s, i) != QUOTE && (i >= |s| || Escaped(s, i).None?) ==> Unescape(s, i) == None
    ensures At(s, i) == QUOTE ==> Unescape(s, i) == Some(Quoted([], i))
  {
  }

  lemma ContinuesHere(s: Text, i: nat)
    ensures Continues(s, i, i, [])
  {
    if Unescape(s, i).Some? {
      assert [] + Unescape(s, i).value.message == Unescape(s, i).value.message;
    }
  }

  method ParsePrint(s: Text) returns (message: Option<Text>)
    ensures message == Message(s)
  {
    hide Find, SkipBlanks, Unescape;
    var found := FindText(s, PRINT);
    if found.None? {
      return Some([]);
    }
    var position := Skip(s, found.value + 5);
    if At(s, position) != OPEN {
      return None;
    }
    position := Skip(s, position + 1);
    if At(s, position) != QUOTE {
      return None;
    }
    var quoted := ReadLiteral(s, position + 1);
    if quoted.None? {
      return None;
    }
    position := Skip(s, quoted.value.end + 1);
    if At(s, position) != CLOSE {
      return None;
    }
    position := Skip(s, position + 1);
    if At(s, position) != SEMICOLON {
      return None;
    }
    return Some(quoted.value.message);
  }

  /** `output` has been read so far: the whole literal is `output` followed by the rest. */
  ghost predicate Continues(s: Text, start: nat, i: nat, output: Text) {
    Unescape(s, start) == match Unescape(s, i)
                          case None => None
                          case Some(rest) => Some(Quoted(output + rest.message, rest.end))
  }

  lemma Continued(s: Text, start: nat, i: nat, output: Text)
    requires i < |s| && s[i] != QUOTE && Escaped(s, i).Some? && Continues(s, start, i, output)
    ensures Continues(s, start, i + Width(s, i), output + [Escaped(s, i).value])
  {
    var c := Escaped(s, i).value;
    var rest := Unescape(s, i + Width(s, i));
    if rest.Some? {
      assert output + ([c] + rest.value.message) == output + [c] + rest.value.message;
    }
  }

  lemma TooLong(s: Text, start: nat, i: nat, output: Text)
    requires i < |s| && s[i] != QUOTE && Escaped(s, i).Some? && |output| >= MESSAGE_MAX && Continues(s, start, i, output)
    ensures Unescape(s, start).None? || |Unescape(s, start).value.message| > MESSAGE_MAX
  {
  }

  // ----- every message can be written

  /** A character as it is written inside quotes. */
  function EscapeOne(c: byte): (text: Text)
    ensures 1 <= |text| <= 2
  {
    if c == NEWLINE then [BACKSLASH, LETTER_N]
    else if c == QUOTE || c == BACKSLASH then [BACKSLASH, c]
    else [c]
  }

  function Escape(message: Text): Text {
    if message == [] then [] else EscapeOne(message[0]) + Escape(message[1..])
  }

  /** A written message is read back exactly, up to the quote that ends it. */
  lemma {:induction false} EscapeRoundTrip(before: Text, message: Text, after: Text)
    ensures Unescape(before + Escape(message) + [QUOTE] + after, |before|) ==
      Some(Quoted(message, |before| + |Escape(message)|))
    decreases |message|
  {
    var s := before + Escape(message) + [QUOTE] + after;
    if message == [] {
      assert s[|before|] == QUOTE;
    } else {
      var head, rest := EscapeOne(message[0]), Escape(message[1..]);
      assert s == (before + head) + rest + [QUOTE] + after;
      EscapeRoundTrip(before + head, message[1..], after);
      OneRead(before, message[0], rest + [QUOTE] + after);
      assert s == before + head + (rest + [QUOTE] + after);
      assert message == [message[0]] + message[1..];
    }
  }

  lemma OneRead(before: Text, c: byte, after: Text)
    ensures var s := before + EscapeOne(c) + after;
      |before| < |s| && s[|before|] != QUOTE && Escaped(s, |before|) == Some(c) && Width(s, |before|) == |EscapeOne(c)|
  {
    var s, head := before + EscapeOne(c) + after, EscapeOne(c);
    assert s[|before|] == head[0];
    assert |head| == 2 ==> At(s, |before| + 1) == head[1];
  }
}
