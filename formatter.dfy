/**
 * The two escaping string formatters: StringFormatter::write_on (the one
 * in use, also the body of string_repr_out::write_on in utilities.cpp) and
 * the older string_repr_out::write_on of helper.cpp.  Both wrap the string
 * in double quotes and escape it byte by byte.
 *
 * A std::string holds bytes; here a string whose every char is below 256.
 * The driver's `char` is signed, so a byte of 128 or more compares as a
 * negative number.
 */
module Formatter {
  predicate IsBytes(s: string)
  {
    forall i | 0 <= i < |s| :: s[i] as int < 256
  }

  /** The value a `char` holding this byte has when `char` is signed. */
  function SignedChar(c: char): int
    requires c as int < 256
  {
    if c as int < 128 then c as int else c as int - 256
  }

  const HEX_DIGITS := "0123456789abcdef"

  function HexValue(d: char): int
  {
    if '0' <= d <= '9' then d as int - '0' as int
    else if 'a' <= d <= 'f' then d as int - 'a' as int + 10
    else -1
  }

  /** The encoding StringFormatter gives one byte. */
  function Escape(c: char): (r: string)
    requires c as int < 256
    ensures |r| == 1 || |r| == 2 || |r| == 4
    ensures |r| == 1 <==> 32 <= c as int <= 126 && c != '\\' && c != '\'' && c != '"'
    ensures |r| == 1 ==> r == [c]
    ensures |r| > 1 ==> r[0] == '\\'
  {
    match c
    case '\n' => "\\n"
    case '\r' => "\\r"
    case '\0' => "\\0"
    case '\t' => "\\t"
    case '\\' => "\\\\"
    case '\'' => "\\'"
    case '"' => "\\\""
    case _ =>
      if SignedChar(c) < 32 || SignedChar(c) > 126 then
        "\\x" + [HEX_DIGITS[c as int / 16], HEX_DIGITS[c as int % 16]]
      else [c]
  }

  /** The bytes between the quotes: each byte's encoding, in order. */
  function EscapeAll(s: string): (r: string)
    requires IsBytes(s)
    ensures |s| <= |r| <= 4 * |s|
  {
    if s == [] then "" else Escape(s[0]) + EscapeAll(s[1..])
  }

  /** StringFormatter::write_on. */
  function Format(s: string): (r: string)
    requires IsBytes(s)
    ensures |r| >= 2 && r[0] == '"' && r[|r| - 1] == '"'
    ensures r[1..|r| - 1] == EscapeAll(s)
  {
    "\"" + EscapeAll(s) + "\""
  }

  /** StringFormatter::write_on: the loop over the string's bytes. */
  method WriteOn(s: string) returns (out: string)
    requires IsBytes(s)
    ensures out == Format(s)
  {
    out := "\"";
    var i := 0;
    while i < |s|
      invariant 0 <= i <= |s|
      invariant out + EscapeAll(s[i..]) == "\"" + EscapeAll(s)
    {
      EscapeAllFrom(s, i);
      out := out + Escape(s[i]);
      i := i + 1;
    }
    out := out + "\"";
  }

  lemma EscapeAllFrom(s: string, i: nat)
    requires IsBytes(s) && i < |s|
    ensures EscapeAll(s[i..]) == Escape(s[i]) + EscapeAll(s[i + 1..])
  {
    assert s[i..][1..] == s[i + 1..];
  }

  /** Reading an escaped body back: the inverse of EscapeAll. */
  function Unescape(t: string): string
  {
    if |t| >= 2 && t[0] == '\\' then
      if t[1] == 'n' then "\n" + Unescape(t[2..])
      else if t[1] == 'r' then "\r" + Unescape(t[2..])
      else if t[1] == '0' then "\0" + Unescape(t[2..])
      else if t[1] == 't' then "\t" + Unescape(t[2..])
      else if t[1] == 'x' && |t| >= 4 && HexValue(t[2]) >= 0 && HexValue(t[3]) >= 0 then
        [(16 * HexValue(t[2]) + HexValue(t[3])) as char] + Unescape(t[4..])
      else [t[1]] + Unescape(t[2..])
    else if t == [] then []
    else [t[0]] + Unescape(t[1..])
  }

  lemma UnescapeOne(c: char, rest: string)
    requires c as int < 256
    ensures Unescape(Escape(c) + rest) == [c] + Unescape(rest)
  {
    var e := Escape(c);
    if |e| == 4 {
      assert e == "\\x" + [HEX_DIGITS[c as int / 16], HEX_DIGITS[c as int % 16]];
      UnescapeHex(c, rest);
    } else if |e| == 2 {
      UnescapeNamed(c, rest);
    } else {
      assert (e + rest)[1..] == rest;
    }
  }

  /** A byte with a two-character escape reads back as that byte. */
  lemma UnescapeNamed(c: char, rest: string)
    requires c as int < 256 && |Escape(c)| == 2
    ensures Unescape(Escape(c) + rest) == [c] + Unescape(rest)
  {
    var t := Escape(c) + rest;
    assert t[2..] == rest;
    match c
    case '\n' =>
    case '\r' =>
    case '\0' =>
    case '\t' =>
    case '\\' =>
    case '\'' =>
    case '"' =>
    case _ => assert false;
  }

  /** A byte written as \x and two hex digits reads back as that byte. */
  lemma UnescapeHex(c: char, rest: string)
    requires c as int < 256
    ensures Unescape("\\x" + [HEX_DIGITS[c as int / 16], HEX_DIGITS[c as int % 16]] + rest) == [c] + Unescape(rest)
  {
    var t := "\\x" + [HEX_DIGITS[c as int / 16], HEX_DIGITS[c as int % 16]] + rest;
    assert t[4..] == rest;
    assert HexValue(HEX_DIGITS[c as int / 16]) == c as int / 16;
    assert HexValue(HEX_DIGITS[c as int % 16]) == c as int % 16;
  }

  /** Escaping loses nothing: the escaped body reads back as the original bytes. */
  lemma {:induction false} EscapeRoundTrip(s: string)
    requires IsBytes(s)
    ensures Unescape(EscapeAll(s)) == s
  {
    if s != [] {
      EscapeRoundTrip(s[1..]);
      UnescapeOne(s[0], EscapeAll(s[1..]));
    }
  }

  /** No unescaped quote appears between the quotes, so the output is one string literal. */
  lemma {:induction false} EscapeAllNoBareQuote(s: string)
    requires IsBytes(s)
    ensures forall i | 0 <= i < |EscapeAll(s)| && EscapeAll(s)[i] == '"' ::
      i > 0 && EscapeAll(s)[i - 1] == '\\'
  {
    if s != [] {
      EscapeAllNoBareQuote(s[1..]);
      var e := Escape(s[0]);
      var rest := EscapeAll(s[1..]);
      forall i | 0 <= i < |e + rest| && (e + rest)[i] == '"'
        ensures i > 0 && (e + rest)[i - 1] == '\\'
      {
        if i >= |e| {
          assert rest[i - |e|] == '"';
          if i - |e| == 0 {
            assert false;
          }
        }
      }
    }
  }

  /** Every escaped byte is printable ASCII, so the output is one clean line. */
  lemma {:induction false} EscapeAllPrintable(s: string)
    requires IsBytes(s)
    ensures forall i | 0 <= i < |EscapeAll(s)| :: 32 <= EscapeAll(s)[i] as int <= 126
  {
    if s != [] {
      EscapeAllPrintable(s[1..]);
      var e := Escape(s[0]);
      assert forall i | 0 <= i < |e| :: 32 <= e[i] as int <= 126;
    }
  }

  // ------------------------------------------------- helper.cpp's write_on

  /**
   * The older encoding of one byte: like StringFormatter for the named
   * escapes, but a byte below 32 (as an unsigned char) becomes "\x"
   * followed by '0' + its low nibble and then '0' + its high nibble, and
   * every byte of 32 or more, 127 and above included, passes through.
   */
  function LegacyEscape(c: char): (r: string)
    requires c as int < 256
    ensures r == [c] || ((|r| == 2 || |r| == 4) && r[0] == '\\')
  {
    match c
    case '\n' => "\\n"
    case '\r' => "\\r"
    case '\0' => "\\0"
    case '\t' => "\\t"
    case '\\' => "\\\\"
    case '\'' => "\\'"
    case '"' => "\\\""
    case _ =>
      if c as int < 32 then
        "\\x" + [('0' as int + c as int % 16) as char, ('0' as int + c as int / 16 % 16) as char]
      else [c]
  }

  function LegacyEscapeAll(s: string): string
    requires IsBytes(s)
  {
    if s == [] then "" else LegacyEscape(s[0]) + LegacyEscapeAll(s[1..])
  }

  /** string_repr_out::write_on of helper.cpp: the cursor loop over the bytes. */
  method LegacyWriteOn(s: string) returns (out: string)
    requires IsBytes(s)
    ensures out == "\"" + LegacyEscapeAll(s) + "\""
  {
    out := "\"";
    var cp := 0;
    while cp < |s|
      invariant 0 <= cp <= |s|
      invariant out + LegacyEscapeAll(s[cp..]) == "\"" + LegacyEscapeAll(s)
    {
      assert s[cp..][1..] == s[cp + 1..];
      out := out + LegacyEscape(s[cp]);
      cp := cp + 1;
    }
    out := out + "\"";
  }

  /** Reading the legacy body back: low nibble first, then high nibble. */
  function LegacyUnescape(t: string): string
  {
    if |t| >= 2 && t[0] == '\\' then
      if t[1] == 'n' then "\n" + LegacyUnescape(t[2..])
      else if t[1] == 'r' then "\r" + LegacyUnescape(t[2..])
      else if t[1] == '0' then "\0" + LegacyUnescape(t[2..])
      else if t[1] == 't' then "\t" + LegacyUnescape(t[2..])
      else if t[1] == 'x' && |t| >= 4 && '0' <= t[2] <= '?' && '0' <= t[3] <= '1' then
        [((t[2] as int - '0' as int) + 16 * (t[3] as int - '0' as int)) as char] + LegacyUnescape(t[4..])
      else [t[1]] + LegacyUnescape(t[2..])
    else if t == [] then []
    else [t[0]] + LegacyUnescape(t[1..])
  }

  lemma LegacyUnescapeOne(c: char, rest: string)
    requires c as int < 256
    ensures LegacyUnescape(LegacyEscape(c) + rest) == [c] + LegacyUnescape(rest)
  {
    var e := LegacyEscape(c);
    var t := e + rest;
    if |e| == 4 {
      assert t[4..] == rest;
    } else if |e| == 2 {
      assert t[2..] == rest;
    } else {
      assert t[1..] == rest;
    }
  }

  /** The legacy encoding is also lossless, its swapped nibble order notwithstanding. */
  lemma {:induction false} LegacyRoundTrip(s: string)
    requires IsBytes(s)
    ensures LegacyUnescape(LegacyEscapeAll(s)) == s
  {
    if s != [] {
      LegacyRoundTrip(s[1..]);
      LegacyUnescapeOne(s[0], LegacyEscapeAll(s[1..]));
    }
  }

  /** Where the two formatters differ: a control byte and a high byte. */
  lemma FormattersDiffer()
    ensures Escape(27 as char) == "\\x1b" && LegacyEscape(27 as char) == "\\x;1"
    ensures Escape(200 as char) == "\\xc8" && LegacyEscape(200 as char) == [200 as char]
  {
  }

  /** Escaping a string one character longer appends that character's escape. */
  lemma {:induction false} EscapeAllSnoc(s: string, c: char)
    requires IsBytes(s) && c as int < 256
    ensures IsBytes(s + [c]) && EscapeAll(s + [c]) == EscapeAll(s) + Escape(c)
  {
    BytesSnoc(s, c);
    if s == [] {
      assert s + [c] == [c];
      assert [c][1..] == [];
    } else {
      var t := s + [c];
      assert t[0] == s[0] && t[1..] == s[1..] + [c];
      EscapeAllSnoc(s[1..], c);
      assert EscapeAll(t) == Escape(s[0]) + (EscapeAll(s[1..]) + Escape(c));
    }
  }

  lemma BytesSnoc(s: string, c: char)
    requires IsBytes(s) && c as int < 256
    ensures IsBytes(s + [c])
    ensures s != [] ==> IsBytes(s[1..]) && IsBytes(s[1..] + [c])
  {
  }
}
