/**
  Quoting of values written into generated udev rules. A `char` stands for one byte of
  the C++ string.
 */
module UdevEscape {
  const HEX := "0123456789abcdef"

  predicate IsControl(c: char) {
    c < ' ' || c as int == 0x7f
  }

  /** The text that stands for one byte other than NUL. */
  function EscapeChar(c: char): (text: string) {
    if c == '\\' then "\\\\"
    else if c == '"' then "\\\""
    else if IsControl(c) then ['\\', 'x', HEX[c as int / 16], HEX[c as int % 16]]
    else [c]
  }

  function Escape(value: string): (text: string) {
    if value == "" then "" else Escape(value[..|value| - 1]) + EscapeChar(value[|value| - 1])
  }

  /** The escaping loop, with the branches of the C++ switch. */
  method EscapeUdevValue(value: string) returns (ok: bool, escaped: string)
    ensures ok <==> '\0' !in value
    ensures ok ==> escaped == Escape(value)
  {
    escaped := "";
    for i := 0 to |value|
      invariant '\0' !in value[..i]
      invariant escaped == Escape(value[..i])
    {
      var c := value[i];
      assert value[..i + 1] == value[..i] + [c];
      if c == '\\' {
        escaped := escaped + "\\\\";
      } else if c == '"' {
        escaped := escaped + "\\\"";
      } else if c == '\n' {
        escaped := escaped + "\\x0a";
      } else if c == '\r' {
        escaped := escaped + "\\x0d";
      } else if c == '\t' {
        escaped := escaped + "\\x09";
      } else if c == '\0' {
        return false, escaped;
      } else if c < ' ' || c as int == 0x7f {
        escaped := escaped + "\\x" + [HEX[c as int / 16]] + [HEX[c as int % 16]];
      } else {
        escaped := escaped + [c];
      }
      assert escaped == Escape(value[..i]) + EscapeChar(c);
    }
    assert value[..|value|] == value;
    ok := true;
  }

  // ----- a decoder and a scanner, written without reference to the encoder

  function HexDigit(c: char): (d: int)
    ensures -1 <= d < 16
    ensures forall k :: 0 <= k < 16 && HEX[k] == c ==> d == k
  {
    if '0' <= c <= '9' then c as int - '0' as int
    else if 'a' <= c <= 'f' then c as int - 'a' as int + 10
    else -1
  }

  /** Reads a quoted text back: `\xHH` is a byte, `\c` is c, anything else is itself. */
  function Unescape(text: string): (value: string) {
    if text == "" then ""
    else if text[0] == '\\' && |text| >= 4 && text[1] == 'x' && HexDigit(text[2]) >= 0 && HexDigit(text[3]) >= 0 then
      [(HexDigit(text[2]) * 16 + HexDigit(text[3])) as char] + Unescape(text[4..])
    else if text[0] == '\\' && |text| >= 2 then [text[1]] + Unescape(text[2..])
    else [text[0]] + Unescape(text[1..])
  }

  /** Position of the first quote that no backslash precedes; the length when there is none. */
  function ClosingQuote(text: string): (end: nat)
    ensures end <= |text|
  {
    if text == "" || text[0] == '"' then 0
    else if text[0] == '\\' && |text| >= 2 then 2 + ClosingQuote(text[2..])
    else 1 + ClosingQuote(text[1..])
  }

  lemma {:induction false} EscapeConcat(a: string, b: string)
    ensures Escape(a + b) == Escape(a) + Escape(b)
  {
    hide EscapeChar;
    if b == "" {
      assert a + b == a;
    } else {
      var c, last := b[..|b| - 1], EscapeChar(b[|b| - 1]);
      EscapeConcat(a, c);
      assert (a + b)[..|a + b| - 1] == a + c;
      calc {
        Escape(a + b);
        Escape(a + c) + last;
        (Escape(a) + Escape(c)) + last;
        Escape(a) + (Escape(c) + last);
        Escape(a) + Escape(b);
      }
    }
  }

  lemma EscapeSingle(c: char)
    ensures Escape([c]) == EscapeChar(c)
  {
    hide EscapeChar;
    assert [c][..0] == "";
    assert Escape([c]) == Escape("") + EscapeChar(c);
  }

  lemma {:induction false} EscapeHead(value: string)
    requires value != ""
    ensures Escape(value) == EscapeChar(value[0]) + Escape(value[1..])
  {
    hide EscapeChar, Escape;
    assert value == [value[0]] + value[1..];
    EscapeConcat([value[0]], value[1..]);
    EscapeSingle(value[0]);
  }

  lemma HexDigitOfHex(k: int)
    requires 0 <= k < 16
    ensures HexDigit(HEX[k]) == k
  {
  }

  lemma {:induction false} UnescapeOne(c: char, rest: string)
    requires c != '\0'
    ensures Unescape(EscapeChar(c) + rest) == [c] + Unescape(rest)
  {
    var text := EscapeChar(c) + rest;
    if c == '\\' || c == '"' {
      assert text[2..] == rest;
    } else if IsControl(c) {
      HexDigitOfHex(c as int / 16);
      HexDigitOfHex(c as int % 16);
      assert text[4..] == rest;
      assert text[2] == HEX[c as int / 16] && text[3] == HEX[c as int % 16];
    } else {
      assert text[1..] == rest;
    }
  }

  /** Escaping loses nothing: every NUL-free value is read back exactly. */
  lemma {:induction false} EscapeRoundTrip(value: string)
    requires '\0' !in value
    ensures Unescape(Escape(value)) == value
  {
    if value != "" {
      EscapeHead(value);
      UnescapeOne(value[0], Escape(value[1..]));
      EscapeRoundTrip(value[1..]);
      assert value == [value[0]] + value[1..];
    }
  }

  /** Hence two values never share a text. */
  lemma {:induction false} EscapeInjective(a: string, b: string)
    requires '\0' !in a && '\0' !in b && Escape(a) == Escape(b)
    ensures a == b
  {
    EscapeRoundTrip(a);
    EscapeRoundTrip(b);
  }

  lemma {:induction false} ClosingQuoteSkips(c: char, rest: string)
    ensures ClosingQuote(EscapeChar(c) + rest) == |EscapeChar(c)| + ClosingQuote(rest)
  {
    var text := EscapeChar(c) + rest;
    if c == '\\' || c == '"' {
      assert text[2..] == rest;
    } else if IsControl(c) {
      var tail := text[2..];
      assert tail[0] != '"' && tail[0] != '\\' && tail[1] != '"' && tail[1] != '\\';
      assert tail[1..][1..] == rest;
      assert ClosingQuote(text) == 2 + ClosingQuote(tail);
      assert ClosingQuote(tail) == 1 + ClosingQuote(tail[1..]);
    } else {
      assert text[1..] == rest;
    }
  }

  lemma EscapeCharPrintable(c: char)
    ensures forall k :: 0 <= k < |EscapeChar(c)| ==> !IsControl(EscapeChar(c)[k])
  {
    assert forall k :: 0 <= k < 16 ==> !IsControl(HEX[k]);
  }

  /** Self-delimiting: whatever follows the closing quote, the scanner stops at the value's end. */
  lemma {:induction false} EscapeSelfDelimiting(value: string, suffix: string)
    ensures ClosingQuote(Escape(value) + "\"" + suffix) == |Escape(value)|
  {
    if value == "" {
      assert (Escape(value) + "\"" + suffix)[0] == '"';
    } else {
      EscapeHead(value);
      var rest := Escape(value[1..]) + "\"" + suffix;
      EscapeSelfDelimiting(value[1..], suffix);
      assert Escape(value) + "\"" + suffix == EscapeChar(value[0]) + rest;
      ClosingQuoteSkips(value[0], rest);
    }
  }

  /** No raw control byte reaches the rules file. */
  lemma {:induction false} EscapePrintable(value: string)
    ensures forall k :: 0 <= k < |Escape(value)| ==> !IsControl(Escape(value)[k])
  {
    if value != "" {
      EscapePrintable(value[..|value| - 1]);
      EscapeCharPrintable(value[|value| - 1]);
    }
  }
}
