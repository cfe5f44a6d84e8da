/**
 * The byte-literal characters inspection: byte and byte-string literals may
 * hold only ASCII characters, and the quick fix for a byte-string literal
 * rewrites every byte of its text outside that range as a `\x` escape.
 */
module ByteLiteralInspection {
  import opened Wrappers

  /** An unsigned byte. */
  type byte = b: int | 0 <= b < 256

  /** The value Kotlin's signed `Byte` gives the byte `b`: from 0x80 on it is negative. */
  function KotlinByte(b: byte): int
  {
    if b < 0x80 then b else b - 0x100
  }

  /** Kotlin's `toUByte()`: the unsigned value of a signed byte. */
  function ToUByte(k: int): byte
    requires -0x80 <= k < 0x80
  {
    if k < 0 then k + 0x100 else k
  }

  /** The inspection's notion of ASCII: code points 0x00 through 0x7E; DEL (0x7F) is excluded. */
  predicate IsAscii(c: char)
  {
    c as int <= 0x7E
  }

  predicate IsTextAscii(text: string)
  {
    forall i :: 0 <= i < |text| ==> IsAscii(text[i])
  }

  /** The characters of the inspection's ASCII range are exactly the codes up to 0x7E. */
  lemma AsciiRange(text: string)
    ensures IsTextAscii(text) <==> forall c :: c in text ==> c as int < 0x7F
    ensures IsTextAscii([])
    ensures !IsAscii(0x7F as char) && IsAscii(0x7E as char) && IsAscii(0 as char)
  {
    if forall c :: c in text ==> c as int < 0x7F {
      forall i | 0 <= i < |text| ensures IsAscii(text[i]) {
        assert text[i] in text;
      }
    }
  }

  // ---------------------------------------------------------------------------
  // The inspection
  // ---------------------------------------------------------------------------

  /** Which kind of literal a literal expression holds. */
  datatype LiteralKind = ByteLit | ByteStringLit | OtherLit

  /** A registered problem: its message and whether the escaping quick fix is offered. */
  datatype Problem = Problem(message: string, offersEscapeFix: bool)

  /** The problem the inspection registers for a literal of `kind` whose text is `text`, if any. */
  function Inspect(kind: LiteralKind, text: string): (r: Option<Problem>)
    ensures r.Some? <==> !kind.OtherLit? && exists i :: 0 <= i < |text| && text[i] as int > 0x7E
    ensures r.Some? ==> (r.value.offersEscapeFix <==> kind.ByteStringLit?)
    ensures r.Some? && kind.ByteLit? ==> r.value.message == "Non-ASCII character in byte literal"
    ensures r.Some? && kind.ByteStringLit? ==> r.value.message == "Non-ASCII character in byte string literal"
  {
    match kind
    case ByteLit =>
      if !IsTextAscii(text) then Some(Problem("Non-ASCII character in byte literal", false)) else None
    case ByteStringLit =>
      if !IsTextAscii(text) then Some(Problem("Non-ASCII character in byte string literal", true)) else None
    case OtherLit => None
  }

  // ---------------------------------------------------------------------------
  // The escaping quick fix
  // ---------------------------------------------------------------------------

  /** The lowercase hexadecimal digit of `d`. */
  function HexDigit(d: int): char
    requires 0 <= d < 16
  {
    if d < 10 then ('0' as int + d) as char else ('a' as int + d - 10) as char
  }

  /** Kotlin's `toString(16)` on a non-negative number: lowercase digits, no leading zeros. */
  function ToHex(n: nat): string
    decreases n
  {
    if n < 16 then [HexDigit(n)] else ToHex(n / 16) + [HexDigit(n % 16)]
  }

  /** The text the fix appends for one byte of the literal's text. */
  function EscapeByte(b: byte): string
  {
    var k := KotlinByte(b);
    if 0 <= k <= 0x7E then [k as char] else "\\x" + ToHex(ToUByte(k))
  }

  /** The fix's replacement text for the bytes of a literal, byte by byte. */
  function Escaped(bytes: seq<byte>): string
  {
    if bytes == [] then [] else Escaped(bytes[..|bytes| - 1]) + EscapeByte(bytes[|bytes| - 1])
  }

  /** Builds the fix's replacement text for the bytes of a literal's text. */
  method EscapeNonAsciiSymbols(bytes: seq<byte>) returns (text: string)
    ensures text == Escaped(bytes)
  {
    text := "";
    for i := 0 to |bytes|
      invariant text == Escaped(bytes[..i])
    {
      ghost var before := text;
      var k := KotlinByte(bytes[i]);
      if 0 <= k <= 0x7E {
        text := text + [k as char];
      } else {
        text := text + ("\\x" + ToHex(ToUByte(k)));
      }
      assert text == before + EscapeByte(bytes[i]);
      assert bytes[..i + 1][..i] == bytes[..i];
    }
    assert bytes[..|bytes|] == bytes;
  }

  /**
   * A byte up to 0x7E is kept as the character with that code; every other
   * byte, 0x7F included, becomes `\x` and two lowercase hexadecimal digits of
   * its unsigned value.
   */
  lemma EscapeByteCases(b: byte)
    ensures b <= 0x7E ==> EscapeByte(b) == [b as char]
    ensures b > 0x7E ==> EscapeByte(b) == ['\\', 'x', HexDigit(b / 16), HexDigit(b % 16)]
  {
    if b > 0x7E {
      assert ToUByte(KotlinByte(b)) == b;
      assert ToHex(b / 16) == [HexDigit(b / 16)];
    }
  }

  lemma {:induction false} EscapedAppend(a: seq<byte>, b: seq<byte>)
    ensures Escaped(a + b) == Escaped(a) + Escaped(b)
    decreases |b|
  {
    if b == [] {
      assert a + b == a;
    } else {
      var ab, init, last := a + b, b[..|b| - 1], b[|b| - 1];
      assert ab[..|ab| - 1] == a + init;
      assert ab[|ab| - 1] == last;
      var tail := EscapeByte(last);
      assert Escaped(ab) == Escaped(a + init) + tail;
      assert Escaped(b) == Escaped(init) + tail;
      EscapedAppend(a, init);
    }
  }

  /** The number of bytes the fix escapes. */
  function CountEscaped(bytes: seq<byte>): nat
  {
    if bytes == [] then 0
    else CountEscaped(bytes[..|bytes| - 1]) + (if bytes[|bytes| - 1] > 0x7E then 1 else 0)
  }

  /** Kept bytes yield one character each, escaped bytes four. */
  lemma {:induction false} EscapedLength(bytes: seq<byte>)
    ensures CountEscaped(bytes) <= |bytes|
    ensures |Escaped(bytes)| == (|bytes| - CountEscaped(bytes)) + 4 * CountEscaped(bytes)
  {
    if bytes != [] {
      EscapedLength(bytes[..|bytes| - 1]);
      EscapeByteCases(bytes[|bytes| - 1]);
    }
  }

  /** The replacement text is ASCII, so the fixed literal is no longer flagged. */
  lemma {:induction false} EscapedIsAscii(bytes: seq<byte>)
    ensures IsTextAscii(Escaped(bytes))
    ensures Inspect(ByteStringLit, Escaped(bytes)) == None
    ensures Inspect(ByteLit, Escaped(bytes)) == None
  {
    if bytes != [] {
      var init, last := bytes[..|bytes| - 1], bytes[|bytes| - 1];
      EscapedIsAscii(init);
      EscapeByteCases(last);
      var head, tail := Escaped(init), EscapeByte(last);
      assert IsTextAscii(tail);
      forall i | 0 <= i < |head + tail| ensures IsAscii((head + tail)[i]) {
        if i >= |head| {
          assert (head + tail)[i] == tail[i - |head|];
        }
      }
    }
  }

  /** On bytes that are all in the ASCII range the fix changes nothing. */
  lemma {:induction false} EscapeAsciiIdentity(bytes: seq<byte>)
    requires forall i :: 0 <= i < |bytes| ==> bytes[i] <= 0x7E
    ensures |Escaped(bytes)| == |bytes|
    ensures forall i :: 0 <= i < |bytes| ==> Escaped(bytes)[i] as int == bytes[i]
  {
    if bytes != [] {
      var init := bytes[..|bytes| - 1];
      EscapeAsciiIdentity(init);
      EscapeByteCases(bytes[|bytes| - 1]);
    }
  }

  // ---------------------------------------------------------------------------
  // Reading the escapes back
  // ---------------------------------------------------------------------------

  /** The value of a lowercase hexadecimal digit, or -1 for any other character. */
  function HexValue(c: char): int
  {
    if '0' <= c <= '9' then c as int - '0' as int
    else if 'a' <= c <= 'f' then c as int - 'a' as int + 10
    else -1
  }

  /** The byte values a text denotes when each `\xHH` is read as one byte and every other character as its code. */
  function Unescape(text: string): seq<int>
    decreases |text|
  {
    if text == [] then []
    else if |text| >= 4 && text[0] == '\\' && text[1] == 'x' && HexValue(text[2]) >= 0 && HexValue(text[3]) >= 0 then
      [16 * HexValue(text[2]) + HexValue(text[3])] + Unescape(text[4..])
    else [text[0] as int] + Unescape(text[1..])
  }

  lemma HexDigitValue(d: int)
    requires 0 <= d < 16
    ensures HexValue(HexDigit(d)) == d
  {
  }

  lemma UnescapeByte(b: byte, rest: string)
    requires b != '\\' as int
    ensures Unescape(EscapeByte(b) + rest) == [b] + Unescape(rest)
  {
    EscapeByteCases(b);
    var t := EscapeByte(b) + rest;
    if b <= 0x7E {
      assert t[0] == b as char && t[1..] == rest;
    } else {
      var hi, lo := HexDigit(b / 16), HexDigit(b % 16);
      HexDigitValue(b / 16);
      HexDigitValue(b % 16);
      assert t[0] == '\\' && t[1] == 'x' && t[2] == hi && t[3] == lo;
      assert t[4..] == rest;
    }
  }

  lemma EscapedSingle(b: byte)
    ensures Escaped([b]) == EscapeByte(b)
  {
    var s: seq<byte> := [b];
    assert s[..|s| - 1] == [] && s[|s| - 1] == b;
    assert Escaped(s) == Escaped([]) + EscapeByte(b);
  }

  lemma EscapedCons(b: byte, rest: seq<byte>)
    ensures Escaped([b] + rest) == EscapeByte(b) + Escaped(rest)
  {
    EscapedAppend([b], rest);
    EscapedSingle(b);
  }

  /**
   * When the literal's text holds no backslash byte, reading the escapes
   * back gives the original bytes: the fix loses no byte.
   */
  lemma {:induction false} UnescapeEscaped(bytes: seq<byte>)
    requires forall i :: 0 <= i < |bytes| ==> bytes[i] != '\\' as int
    ensures Unescape(Escaped(bytes)) == bytes
    decreases |bytes|
  {
    if bytes != [] {
      var rest := bytes[1..];
      assert bytes == [bytes[0]] + rest;
      EscapedCons(bytes[0], rest);
      UnescapeByte(bytes[0], Escaped(rest));
      UnescapeEscaped(rest);
    }
  }

  /**
   * Backslashes already in the text are kept, so the text `\xf0` and the byte
   * 0xF0 are fixed to the same replacement: the text is source code whose
   * existing escapes keep their meaning.
   */
  lemma BackslashKept()
    ensures Escaped(['\\' as int, 'x' as int, 'f' as int, '0' as int]) == Escaped([0xF0]) == "\\xf0"
  {
    var text: seq<byte> := ['\\' as int, 'x' as int, 'f' as int, '0' as int];
    EscapeAsciiIdentity(text);
    var fixed, expected := Escaped(text), "\\xf0";
    assert |fixed| == |expected|;
    forall i | 0 <= i < 4 ensures fixed[i] == expected[i] {
      assert fixed[i] as int == expected[i] as int;
    }
    EscapedSingle(0xF0);
    EscapeByteCases(0xF0);
    assert HexDigit(0xF0 / 16) == 'f' && HexDigit(0xF0 % 16) == '0';
  }
}

module ByteLiteralExamples {
  import opened Wrappers
  import opened ByteLiteralInspection

  /** The escape of one byte from 0x7F on, given its two hexadecimal digits. */
  lemma EscapeHigh(b: byte, hi: char, lo: char)
    requires b > 0x7E && HexDigit(b / 16) == hi && HexDigit(b % 16) == lo
    ensures Escaped([b]) == ['\\', 'x', hi, lo]
  {
    EscapedSingle(b);
    EscapeByteCases(b);
  }

  /** Two bytes from 0x7F on, given their hexadecimal digits. */
  lemma EscapeHighPair(a: byte, a1: char, a0: char, b: byte, b1: char, b0: char)
    requires a > 0x7E && HexDigit(a / 16) == a1 && HexDigit(a % 16) == a0
    requires b > 0x7E && HexDigit(b / 16) == b1 && HexDigit(b % 16) == b0
    ensures Escaped([a, b]) == ['\\', 'x', a1, a0, '\\', 'x', b1, b0]
  {
    EscapeHigh(a, a1, a0);
    EscapeHigh(b, b1, b0);
    EscapedAppend([a], [b]);
    assert [a, b] == [a] + [b];
  }

  /** The UTF-8 bytes of U+1F97A escape to four `\\x` groups. */
  lemma PleadingFace()
    ensures Escaped([0xF0, 0x9F, 0xA5, 0xBA]) == "\\xf0\\x9f\\xa5\\xba"
  {
    EscapeHighPair(0xF0, 'f', '0', 0x9F, '9', 'f');
    EscapeHighPair(0xA5, 'a', '5', 0xBA, 'b', 'a');
    var high: seq<byte>, low: seq<byte> := [0xF0, 0x9F], [0xA5, 0xBA];
    EscapedAppend(high, low);
    PleadingFaceSegments();
  }

  lemma PleadingFaceSegments()
    ensures [0xF0, 0x9F] + [0xA5, 0xBA] == [0xF0, 0x9F, 0xA5, 0xBA]
    ensures "\\xf0\\x9f" + "\\xa5\\xba" == "\\xf0\\x9f\\xa5\\xba"
  {
  }

  /** Joins the escapes of two adjacent byte segments. */
  lemma Join(x: seq<byte>, tx: string, y: seq<byte>, ty: string, xy: seq<byte>, txy: string)
    requires Escaped(x) == tx && Escaped(y) == ty
    requires x + y == xy && tx + ty == txy
    ensures Escaped(xy) == txy
  {
    EscapedAppend(x, y);
  }

  /** The UTF-8 bytes of the zero-width joiner U+200D. */
  lemma ZeroWidthJoiner()
    ensures Escaped([0xE2, 0x80, 0x8D]) == "\\xe2\\x80\\x8d"
  {
    EscapeHighPair(0xE2, 'e', '2', 0x80, '8', '0');
    EscapeHigh(0x8D, '8', 'd');
    Join([0xE2, 0x80], "\\xe2\\x80", [0x8D], "\\x8d", [0xE2, 0x80, 0x8D], "\\xe2\\x80\\x8d");
  }

  /** The UTF-8 bytes of a four-byte emoji starting f0 9f 91, such as man, woman and boy. */
  lemma PersonEmoji(last: byte, hi: char, lo: char)
    requires last > 0x7E && HexDigit(last / 16) == hi && HexDigit(last % 16) == lo
    ensures Escaped([0xF0, 0x9F, 0x91, last]) == ['\\', 'x', 'f', '0', '\\', 'x', '9', 'f', '\\', 'x', '9', '1', '\\', 'x', hi, lo]
  {
    EscapeHighPair(0xF0, 'f', '0', 0x9F, '9', 'f');
    EscapeHighPair(0x91, '9', '1', last, hi, lo);
    Join([0xF0, 0x9F], "\\xf0\\x9f", [0x91, last], ['\\', 'x', '9', '1', '\\', 'x', hi, lo],
         [0xF0, 0x9F, 0x91, last], ['\\', 'x', 'f', '0', '\\', 'x', '9', 'f', '\\', 'x', '9', '1', '\\', 'x', hi, lo]);
  }

  /** An all-ASCII byte sequence is fixed to the text with the same codes. */
  lemma EscapedAsciiText(bytes: seq<byte>, text: string)
    requires |bytes| == |text|
    requires forall i :: 0 <= i < |bytes| ==> bytes[i] <= 0x7E && text[i] as int == bytes[i]
    ensures Escaped(bytes) == text
  {
    EscapeAsciiIdentity(bytes);
    var fixed := Escaped(bytes);
    forall i | 0 <= i < |text| ensures fixed[i] == text[i] {
      assert fixed[i] as int == text[i] as int;
    }
  }

  /** From the quick-fix test: the ASCII segment " and " is kept verbatim. */
  lemma AndKept()
    ensures Escaped([0x20, 0x61, 0x6E, 0x64, 0x20]) == " and "
  {
    EscapedAsciiText([0x20, 0x61, 0x6E, 0x64, 0x20], " and ");
  }

  /** From the inspection tests: `b'a'` and `b" ~"` are not flagged; `~` (0x7E) is the last ASCII character. */
  lemma AsciiLiteralsNotFlagged()
    ensures Inspect(ByteLit, "b'a'") == None
    ensures Inspect(ByteStringLit, "b\" ~\"") == None
  {
  }

  /**
   * From the inspection tests: a byte literal holding a decomposed `é` (`e`
   * followed by the combining acute accent U+0301) is flagged, without a fix.
   */
  lemma AccentedByteLiteralFlagged()
    ensures Inspect(ByteLit, "b'e" + [0x301 as char] + "'") == Some(Problem("Non-ASCII character in byte literal", false))
  {
    var text := "b'e" + [0x301 as char] + "'";
    assert text[3] as int > 0x7E;
  }

  /** From the inspection tests: a byte-string literal holding the family emoji is flagged, with the fix. */
  lemma FamilyByteStringFlagged()
    ensures Inspect(ByteStringLit, "b\"" + [0x1F468 as char, 0x200D as char, 0x1F469 as char, 0x200D as char, 0x1F466 as char] + "\"")
         == Some(Problem("Non-ASCII character in byte string literal", true))
  {
    var text := "b\"" + [0x1F468 as char, 0x200D as char, 0x1F469 as char, 0x200D as char, 0x1F466 as char] + "\"";
    assert text[2] as int > 0x7E;
  }

  /**
   * The quick-fix test: the UTF-8 bytes of the byte-string literal holding
   * the family emoji (man, joiner, woman, joiner, boy), " and " and the
   * pleading face are fixed to
   * `b"\xf0\x9f\x91\xa8\xe2\x80\x8d\xf0\x9f\x91\xa9\xe2\x80\x8d\xf0\x9f\x91\xa6 and \xf0\x9f\xa5\xba"`.
   */
  lemma FixTest()
    ensures Escaped([0x62, 0x22, 0xF0, 0x9F, 0x91, 0xA8, 0xE2, 0x80, 0x8D, 0xF0, 0x9F, 0x91, 0xA9, 0xE2, 0x80, 0x8D, 0xF0, 0x9F, 0x91, 0xA6, 0x20, 0x61, 0x6E, 0x64, 0x20, 0xF0, 0x9F, 0xA5, 0xBA, 0x22])
         == "b\"\\xf0\\x9f\\x91\\xa8\\xe2\\x80\\x8d\\xf0\\x9f\\x91\\xa9\\xe2\\x80\\x8d\\xf0\\x9f\\x91\\xa6 and \\xf0\\x9f\\xa5\\xba\""
  {
    var open: seq<byte>, man: seq<byte>, zwj: seq<byte>, woman: seq<byte>, boy: seq<byte>, and: seq<byte>, face: seq<byte>, close: seq<byte> :=
      [0x62, 0x22], [0xF0, 0x9F, 0x91, 0xA8], [0xE2, 0x80, 0x8D], [0xF0, 0x9F, 0x91, 0xA9], [0xF0, 0x9F, 0x91, 0xA6],
      [0x20, 0x61, 0x6E, 0x64, 0x20], [0xF0, 0x9F, 0xA5, 0xBA], [0x22];
    EscapedAsciiText(open, "b\"");
    PersonEmoji(0xA8, 'a', '8');
    ZeroWidthJoiner();
    PersonEmoji(0xA9, 'a', '9');
    PersonEmoji(0xA6, 'a', '6');
    AndKept();
    PleadingFace();
    EscapedAsciiText(close, "\"");
    EscapedAppend(open, man);
    EscapedAppend(open + man, zwj);
    EscapedAppend(open + man + zwj, woman);
    EscapedAppend(open + man + zwj + woman, zwj);
    EscapedAppend(open + man + zwj + woman + zwj, boy);
    EscapedAppend(open + man + zwj + woman + zwj + boy, and);
    EscapedAppend(open + man + zwj + woman + zwj + boy + and, face);
    EscapedAppend(open + man + zwj + woman + zwj + boy + and + face, close);
    FixTestBytes();
    FixTestText1();
    FixTestText2();
    FixTestText3();
    FixTestText4();
    FixTestText5();
    FixTestText6();
    FixTestText7();
    FixTestText8();
  }

  /** The fix test's bytes, segment by segment; the `FixTestText` lemmas build its expected text the same way. */
  lemma FixTestBytes()
    ensures [0x62, 0x22] + [0xF0, 0x9F, 0x91, 0xA8] == [0x62, 0x22, 0xF0, 0x9F, 0x91, 0xA8]
    ensures [0x62, 0x22, 0xF0, 0x9F, 0x91, 0xA8] + [0xE2, 0x80, 0x8D] == [0x62, 0x22, 0xF0, 0x9F, 0x91, 0xA8, 0xE2, 0x80, 0x8D]
    ensures [0x62, 0x22, 0xF0, 0x9F, 0x91, 0xA8, 0xE2, 0x80, 0x8D] + [0xF0, 0x9F, 0x91, 0xA9] == [0x62, 0x22, 0xF0, 0x9F, 0x91, 0xA8, 0xE2, 0x80, 0x8D, 0xF0, 0x9F, 0x91, 0xA9]
    ensures [0x62, 0x22, 0xF0, 0x9F, 0x91, 0xA8, 0xE2, 0x80, 0x8D, 0xF0, 0x9F, 0x91, 0xA9] + [0xE2, 0x80, 0x8D] == [0x62, 0x22, 0xF0, 0x9F, 0x91, 0xA8, 0xE2, 0x80, 0x8D, 0xF0, 0x9F, 0x91, 0xA9, 0xE2, 0x80, 0x8D]
    ensures [0x62, 0x22, 0xF0, 0x9F, 0x91, 0xA8, 0xE2, 0x80, 0x8D, 0xF0, 0x9F, 0x91, 0xA9, 0xE2, 0x80, 0x8D] + [0xF0, 0x9F, 0x91, 0xA6] == [0x62, 0x22, 0xF0, 0x9F, 0x91, 0xA8, 0xE2, 0x80, 0x8D, 0xF0, 0x9F, 0x91, 0xA9, 0xE2, 0x80, 0x8D, 0xF0, 0x9F, 0x91, 0xA6]
    ensures [0x62, 0x22, 0xF0, 0x9F, 0x91, 0xA8, 0xE2, 0x80, 0x8D, 0xF0, 0x9F, 0x91, 0xA9, 0xE2, 0x80, 0x8D, 0xF0, 0x9F, 0x91, 0xA6] + [0x20, 0x61, 0x6E, 0x64, 0x20] == [0x62, 0x22, 0xF0, 0x9F, 0x91, 0xA8, 0xE2, 0x80, 0x8D, 0xF0, 0x9F, 0x91, 0xA9, 0xE2, 0x80, 0x8D, 0xF0, 0x9F, 0x91, 0xA6, 0x20, 0x61, 0x6E, 0x64, 0x20]
    ensures [0x62, 0x22, 0xF0, 0x9F, 0x91, 0xA8, 0xE2, 0x80, 0x8D, 0xF0, 0x9F, 0x91, 0xA9, 0xE2, 0x80, 0x8D, 0xF0, 0x9F, 0x91, 0xA6, 0x20, 0x61, 0x6E, 0x64, 0x20] + [0xF0, 0x9F, 0xA5, 0xBA] == [0x62, 0x22, 0xF0, 0x9F, 0x91, 0xA8, 0xE2, 0x80, 0x8D, 0xF0, 0x9F, 0x91, 0xA9, 0xE2, 0x80, 0x8D, 0xF0, 0x9F, 0x91, 0xA6, 0x20, 0x61, 0x6E, 0x64, 0x20, 0xF0, 0x9F, 0xA5, 0xBA]
    ensures [0x62, 0x22, 0xF0, 0x9F, 0x91, 0xA8, 0xE2, 0x80, 0x8D, 0xF0, 0x9F, 0x91, 0xA9, 0xE2, 0x80, 0x8D, 0xF0, 0x9F, 0x91, 0xA6, 0x20, 0x61, 0x6E, 0x64, 0x20, 0xF0, 0x9F, 0xA5, 0xBA] + [0x22] == [0x62, 0x22, 0xF0, 0x9F, 0x91, 0xA8, 0xE2, 0x80, 0x8D, 0xF0, 0x9F, 0x91, 0xA9, 0xE2, 0x80, 0x8D, 0xF0, 0x9F, 0x91, 0xA6, 0x20, 0x61, 0x6E, 0x64, 0x20, 0xF0, 0x9F, 0xA5, 0xBA, 0x22]
  {
  }

  lemma FixTestText1()
    ensures "b\"" + "\\xf0\\x9f\\x91\\xa8" == "b\"\\xf0\\x9f\\x91\\xa8"
  {
  }

  lemma FixTestText2()
    ensures "b\"\\xf0\\x9f\\x91\\xa8" + "\\xe2\\x80\\x8d" == "b\"\\xf0\\x9f\\x91\\xa8\\xe2\\x80\\x8d"
  {
  }

  lemma FixTestText3()
    ensures "b\"\\xf0\\x9f\\x91\\xa8\\xe2\\x80\\x8d" + "\\xf0\\x9f\\x91\\xa9" == "b\"\\xf0\\x9f\\x91\\xa8\\xe2\\x80\\x8d\\xf0\\x9f\\x91\\xa9"
  {
  }

  lemma FixTestText4()
    ensures "b\"\\xf0\\x9f\\x91\\xa8\\xe2\\x80\\x8d\\xf0\\x9f\\x91\\xa9" + "\\xe2\\x80\\x8d" == "b\"\\xf0\\x9f\\x91\\xa8\\xe2\\x80\\x8d\\xf0\\x9f\\x91\\xa9\\xe2\\x80\\x8d"
  {
  }

  lemma FixTestText5()
    ensures "b\"\\xf0\\x9f\\x91\\xa8\\xe2\\x80\\x8d\\xf0\\x9f\\x91\\xa9\\xe2\\x80\\x8d" + "\\xf0\\x9f\\x91\\xa6" == "b\"\\xf0\\x9f\\x91\\xa8\\xe2\\x80\\x8d\\xf0\\x9f\\x91\\xa9\\xe2\\x80\\x8d\\xf0\\x9f\\x91\\xa6"
  {
  }

  lemma FixTestText6()
    ensures "b\"\\xf0\\x9f\\x91\\xa8\\xe2\\x80\\x8d\\xf0\\x9f\\x91\\xa9\\xe2\\x80\\x8d\\xf0\\x9f\\x91\\xa6" + " and " == "b\"\\xf0\\x9f\\x91\\xa8\\xe2\\x80\\x8d\\xf0\\x9f\\x91\\xa9\\xe2\\x80\\x8d\\xf0\\x9f\\x91\\xa6 and "
  {
  }

  lemma FixTestText7()
    ensures "b\"\\xf0\\x9f\\x91\\xa8\\xe2\\x80\\x8d\\xf0\\x9f\\x91\\xa9\\xe2\\x80\\x8d\\xf0\\x9f\\x91\\xa6 and " + "\\xf0\\x9f\\xa5\\xba" == "b\"\\xf0\\x9f\\x91\\xa8\\xe2\\x80\\x8d\\xf0\\x9f\\x91\\xa9\\xe2\\x80\\x8d\\xf0\\x9f\\x91\\xa6 and \\xf0\\x9f\\xa5\\xba"
  {
  }

  lemma FixTestText8()
    ensures "b\"\\xf0\\x9f\\x91\\xa8\\xe2\\x80\\x8d\\xf0\\x9f\\x91\\xa9\\xe2\\x80\\x8d\\xf0\\x9f\\x91\\xa6 and \\xf0\\x9f\\xa5\\xba" + "\"" == "b\"\\xf0\\x9f\\x91\\xa8\\xe2\\x80\\x8d\\xf0\\x9f\\x91\\xa9\\xe2\\x80\\x8d\\xf0\\x9f\\x91\\xa6 and \\xf0\\x9f\\xa5\\xba\""
  {
  }
}
