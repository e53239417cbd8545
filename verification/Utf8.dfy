/**
 UTF-8 as sections 3 and 4 of RFC 3629 define it: the encoding of a code point. The byte
 ranges that the reader of `JsonText` goes by are shown to be exactly these encodings.
 */
module Utf8 {
  import opened Bytes
  import opened JsonText

  /** A code point that is no surrogate. */
  predicate Scalar(c: int) { 0 <= c < 0x110000 && !(0xD800 <= c < 0xE000) }

  function Encoded(c: int): (s: string)
    requires Scalar(c)
    ensures 1 <= |s| <= 4
  {
    if c < 0x80 then [c as char]
    else if c < 0x800 then [(0xC0 + c / 0x40) as char, (0x80 + c % 0x40) as char]
    else if c < 0x10000 then
      [(0xE0 + c / 0x40 / 0x40) as char, (0x80 + c / 0x40 % 0x40) as char, (0x80 + c % 0x40) as char]
    else
      [(0xF0 + c / 0x40 / 0x40 / 0x40) as char, (0x80 + c / 0x40 / 0x40 % 0x40) as char,
       (0x80 + c / 0x40 % 0x40) as char, (0x80 + c % 0x40) as char]
  }

  /** The payload bits, six from each byte after the first. */
  function Payload(s: string): int {
    match |s|
    case 1 => s[0] as int
    case 2 => Six(s[0] as int - 0xC0, s[1])
    case 3 => Six(Six(s[0] as int - 0xE0, s[1]), s[2])
    case 4 => Six(Six(Six(s[0] as int - 0xF0, s[1]), s[2]), s[3])
    case _ => 0
  }

  function Six(high: int, c: char): int { high * 0x40 + (c as int - 0x80) }

  lemma SixParts(high: int, c: char)
    requires Between(0x80, c, 0xBF)
    ensures Six(high, c) / 0x40 == high && Six(high, c) % 0x40 == c as int - 0x80
  {
  }

  lemma SixJoins(n: int)
    requires n >= 0
    ensures Six(n / 0x40, (0x80 + n % 0x40) as char) == n
  {
  }

  lemma PayloadOf(c: int)
    requires Scalar(c)
    ensures Payload(Encoded(c)) == c
  {
    SixJoins(c);
    SixJoins(c / 0x40);
    SixJoins(c / 0x40 / 0x40);
  }

  /** How long an encoding is shows in its first byte. */
  lemma LengthShows(c: int)
    requires Scalar(c)
    ensures IsByte(Encoded(c)[0]) && |Encoded(c)| == Announced(Encoded(c)[0])
  {
  }

  /** No encoding begins another. */
  lemma EncodedCancels(c: int, d: int, x: string, y: string)
    requires Scalar(c) && Scalar(d) && Encoded(c) + x == Encoded(d) + y
    ensures c == d
  {
    assert (Encoded(c) + x)[0] == Encoded(c)[0] && (Encoded(d) + y)[0] == Encoded(d)[0];
    LengthShows(c);
    LengthShows(d);
    assert (Encoded(c) + x)[..|Encoded(c)|] == Encoded(c) && (Encoded(d) + y)[..|Encoded(d)|] == Encoded(d);
    PayloadOf(c);
    PayloadOf(d);
  }

  /** The bytes of a rune, as the reader accepts them. */
  predicate RuneBytes(s: string) { s != "" && RuneLength(s) == |s| && IsByte(s[0]) }

  lemma RuneIsEncoding(s: string)
    requires RuneBytes(s)
    ensures Scalar(Payload(s)) && Encoded(Payload(s)) == s
  {
    match |s| {
      case 1 =>
      case 2 => Two(s);
      case 3 => Three(s);
      case 4 => Four(s);
    }
  }

  lemma Two(s: string)
    requires RuneBytes(s) && |s| == 2
    ensures Scalar(Payload(s)) && Encoded(Payload(s)) == s
  {
    SixParts(s[0] as int - 0xC0, s[1]);
  }

  lemma Three(s: string)
    requires RuneBytes(s) && |s| == 3
    ensures Scalar(Payload(s)) && Encoded(Payload(s)) == s
  {
    var high := Six(s[0] as int - 0xE0, s[1]);
    SixParts(s[0] as int - 0xE0, s[1]);
    SixParts(high, s[2]);
    assert 0x20 <= high < 0x400 && !(0x360 <= high < 0x380);
  }

  lemma Four(s: string)
    requires RuneBytes(s) && |s| == 4
    ensures Scalar(Payload(s)) && Encoded(Payload(s)) == s
  {
    var top := Six(s[0] as int - 0xF0, s[1]);
    SixParts(s[0] as int - 0xF0, s[1]);
    SixParts(top, s[2]);
    SixParts(Six(top, s[2]), s[3]);
    assert 0x10 <= top < 0x110;
  }

  lemma EncodingIsRune(c: int)
    requires Scalar(c)
    ensures RuneBytes(Encoded(c))
  {
    LengthShows(c);
    var s := Encoded(c);
    assert |s| >= 2 ==> SecondByte(s[0], s[1]);
  }

  /** The reader finds a rune at the front of a byte string iff some code point's encoding is there. */
  lemma RuneIffEncoding(s: string)
    requires s != "" && IsByte(s[0])
    ensures RuneLength(s) > 0 <==> exists c :: Scalar(c) && Encoded(c) <= s
    ensures RuneLength(s) > 0 ==>
              var rune := s[..RuneLength(s)]; Scalar(Payload(rune)) && Encoded(Payload(rune)) == rune
  {
    var n := RuneLength(s);
    if n > 0 {
      SameRune(s, s[..n], n);
      RuneIsEncoding(s[..n]);
      assert Scalar(Payload(s[..n])) && Encoded(Payload(s[..n])) <= s;
    }
    forall c | Scalar(c) && Encoded(c) <= s ensures n > 0 {
      EncodingIsRune(c);
      assert Encoded(c) == s[..|Encoded(c)|];
      SameRune(Encoded(c), s, |Encoded(c)|);
    }
  }
}
