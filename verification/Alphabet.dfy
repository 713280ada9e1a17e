/** The bytes the parsers tell apart, written out. */
module Alphabet {
  import opened Bytes
  import opened ChunkedSpec
  import opened HeadSpec

  const DIGITS := "0123456789"
  const TOKEN_MARKS := "!#$%&'*+-.^_`|~"
  const HEX_LOWER := "0123456789abcdef"
  const HEX_UPPER := "0123456789ABCDEF"

  /** The separators, as characters. */
  lemma Separators()
    ensures [HT, LF, CR, SP, COLON, SEMICOLON] == [9, 10, 13, 32, 58, 59] && DEL == 127
    ensures [HT as char, LF as char, CR as char, SP as char, COLON as char, SEMICOLON as char] == "\t\n\r :;"
  {
  }

  /** The numbers of machine words, decoder states and return codes. */
  lemma Numbers()
    ensures U64 == 18446744073709551616 && MAX_HEX == 16 && OVERHEAD_FLOOR == 102400
    ensures [ST_SIZE, ST_EXT, ST_EXPECT_LF, ST_DATA, ST_DATA_CR, ST_DATA_LF, ST_TRAIL_HEAD, ST_TRAIL_MID] ==
            [0, 1, 2, 3, 4, 5, 6, 7]
    ensures Code(Err(Partial)) == -2 && Code(Err(Malformed)) == -1 && forall n: nat :: Code(Ok(n)) == n
  {
  }

  lemma DigitExact(b: byte)
    ensures IsDigit(b) <==> b as char in DIGITS
    ensures IsDigit(b) ==> DIGITS[Digit(b)] == b as char
  {
    if IsDigit(b) {
      assert DIGITS[b - 0x30] == b as char;
    }
  }

  lemma MarksExact(b: byte)
    ensures b as char in TOKEN_MARKS <==>
            b in {0x21, 0x23, 0x24, 0x25, 0x26, 0x27, 0x2A, 0x2B, 0x2D, 0x2E, 0x5E, 0x5F, 0x60, 0x7C, 0x7E}
  {
  }

  /** A token character by its RFC 7230 name: a digit, a letter or one of fifteen marks. */
  predicate TokenChar(c: char) {
    c in DIGITS || 'A' <= c <= 'Z' || 'a' <= c <= 'z' || c in TOKEN_MARKS
  }

  lemma TcharExact(b: byte)
    ensures IsTchar(b) <==> TokenChar(b as char)
  {
    hide DIGITS, TOKEN_MARKS;
    DigitExact(b);
    MarksExact(b);
  }

  /** What each scanner runs over: a token up to its delimiter, text with tabs, a target without
      spaces; bytes from 0x80 on are text. */
  lemma ClassesExact(b: byte, stop: byte)
    ensures Accepts(Token(stop), b) <==> b != stop && TokenChar(b as char)
    ensures Accepts(Text, b) <==> b == 9 || 32 <= b <= 126 || 128 <= b
    ensures Accepts(Target, b) <==> 33 <= b <= 126 || 128 <= b
    ensures Accepts(Spaces, b) <==> b == 32
    ensures Accepts(Blanks, b) <==> b == 32 || b == 9
  {
    TcharExact(b);
  }

  /** The hexadecimal digits and their values, in both letter cases. */
  lemma HexExact(b: byte)
    ensures HexVal(b).Some? <==> b as char in HEX_LOWER || b as char in HEX_UPPER
    ensures HexVal(b).Some? ==> HEX_LOWER[HexVal(b).value] == b as char || HEX_UPPER[HexVal(b).value] == b as char
  {
    if 0x30 <= b <= 0x39 {
      assert HEX_LOWER[b - 0x30] == b as char;
    } else if 0x41 <= b <= 0x46 {
      assert HEX_UPPER[b - 0x41 + 10] == b as char;
    } else if 0x61 <= b <= 0x66 {
      assert HEX_LOWER[b - 0x61 + 10] == b as char;
    }
  }

  /** The digit for a value has that value. */
  lemma HexOfValue(v: nat)
    requires v < 16
    ensures HEX_LOWER[v] as int < 256 && HexVal(HEX_LOWER[v] as byte) == Some(v)
    ensures HEX_UPPER[v] as int < 256 && HexVal(HEX_UPPER[v] as byte) == Some(v)
  {
  }

  lemma SizeTerminatorExact(b: byte)
    ensures SizeTerminator(b) <==> b as char in " \t;\r\n"
  {
  }

  lemma VersionPrefixExact()
    ensures |PREFIX| == 7 && forall i :: 0 <= i < 7 ==> PREFIX[i] as char == "HTTP/1."[i]
  {
  }
}
