// Base 64 encoding with the standard alphabet and `=` padding, as defined in
// section 4 of RFC 4648 — what `Buffer.prototype.toString("base64")` produces.

module Base64 {
  import opened Wrappers

  type Byte = b: int | 0 <= b < 256
  type Sextet = d: int | 0 <= d < 64

  /** The character for a 6-bit value (Table 1 of RFC 4648). */
  function Digit(d: Sextet): (c: char)
    ensures IsBase64Char(c) && c != '='
  {
    if d < 26 then ('A' as int + d) as char
    else if d < 52 then ('a' as int + (d - 26)) as char
    else if d < 62 then ('0' as int + (d - 52)) as char
    else if d == 62 then '+'
    else '/'
  }

  /** The characters the splice pattern accepts as payload: `[A-Za-z0-9+/=]`. */
  predicate IsBase64Char(c: char) {
    ('A' <= c <= 'Z') || ('a' <= c <= 'z') || ('0' <= c <= '9') || c == '+' || c == '/' || c == '='
  }

  /** The 6-bit value of an alphabet character; padding has none. */
  function Value(c: char): (r: Option<Sextet>)
    ensures r.Some? <==> IsBase64Char(c) && c != '='
  {
    if 'A' <= c <= 'Z' then Some(c as int - 'A' as int)
    else if 'a' <= c <= 'z' then Some(c as int - 'a' as int + 26)
    else if '0' <= c <= '9' then Some(c as int - '0' as int + 52)
    else if c == '+' then Some(62)
    else if c == '/' then Some(63)
    else None
  }

  lemma ValueOfDigit(d: Sextet)
    ensures Value(Digit(d)) == Some(d)
  {
  }

  // The bits of a group: byte `a` is the top six bits of the first sextet
  // and the top two of the second, and so on, most significant bit first.

  function Join1(w: Sextet, x: Sextet): Byte { w * 4 + x / 16 }
  function Join2(x: Sextet, y: Sextet): Byte { (x % 16) * 16 + y / 4 }
  function Join3(y: Sextet, z: Sextet): Byte { (y % 4) * 64 + z }

  /** Three bytes as four characters. */
  function Block3(a: Byte, b: Byte, c: Byte): seq<char> {
    [Digit(a / 4), Digit((a % 4) * 16 + b / 16), Digit((b % 16) * 4 + c / 64), Digit(c % 64)]
  }

  /** A final group of two bytes: three characters and one `=`. */
  function Block2(a: Byte, b: Byte): seq<char> {
    [Digit(a / 4), Digit((a % 4) * 16 + b / 16), Digit((b % 16) * 4), '=']
  }

  /** A final group of one byte: two characters and `==`. */
  function Block1(a: Byte): seq<char> {
    [Digit(a / 4), Digit((a % 4) * 16), '=', '=']
  }

  /** Every group of three bytes becomes four characters; a final group of
      one or two bytes is padded to four characters with `=`. */
  function Encode(bs: seq<Byte>): (r: seq<char>)
    ensures |r| == 4 * ((|bs| + 2) / 3)
    ensures |r| % 4 == 0
    decreases |bs|
  {
    if |bs| == 0 then []
    else if |bs| == 1 then Block1(bs[0])
    else if |bs| == 2 then Block2(bs[0], bs[1])
    else
      assert (|bs| - 3 + 2) / 3 == (|bs| + 2) / 3 - 1;
      assert (4 + |Encode(bs[3..])|) % 4 == 0;
      Block3(bs[0], bs[1], bs[2]) + Encode(bs[3..])
  }

  /** The test vectors of section 10 of RFC 4648: "f", "fo", "foo", "foob",
      "fooba" and "foobar". */
  lemma EncodeVectors()
    ensures Encode([102]) == "Zg=="
    ensures Encode([102, 111]) == "Zm8="
    ensures Encode([102, 111, 111]) == "Zm9v"
    ensures Encode([102, 111, 111, 98]) == "Zm9vYg=="
    ensures Encode([102, 111, 111, 98, 97]) == "Zm9vYmE="
    ensures Encode([102, 111, 111, 98, 97, 114]) == "Zm9vYmFy"
  {
    ShortVectors();
    assert [102, 111, 111, 98][3..] == [98];
    assert [102, 111, 111, 98, 97][3..] == [98, 97];
    assert [102, 111, 111, 98, 97, 114][3..] == [98, 97, 114];
  }

  lemma ShortVectors()
    ensures Encode([98]) == "Yg=="
    ensures Encode([98, 97]) == "YmE="
    ensures Encode([98, 97, 114]) == "YmFy"
  {
  }

  /** Every character of an encoding is one the splice pattern accepts. */
  lemma {:induction false} EncodeAlphabet(bs: seq<Byte>)
    ensures forall i | 0 <= i < |Encode(bs)| :: IsBase64Char(Encode(bs)[i])
    decreases |bs|
  {
    if |bs| >= 3 {
      EncodeAlphabet(bs[3..]);
      EncodeGroup(bs);
    }
  }

  /** A final group `XY==`: one byte. */
  function Unblock1(s: seq<char>): Option<seq<Byte>>
    requires |s| == 4
  {
    var w, x := Value(s[0]), Value(s[1]);
    if w.Some? && x.Some? then Some([Join1(w.value, x.value)]) else None
  }

  /** A final group `XYZ=`: two bytes. */
  function Unblock2(s: seq<char>): Option<seq<Byte>>
    requires |s| == 4
  {
    var w, x, y := Value(s[0]), Value(s[1]), Value(s[2]);
    if w.Some? && x.Some? && y.Some? then
      Some([Join1(w.value, x.value), Join2(x.value, y.value)])
    else None
  }

  /** A full group of four characters: three bytes. */
  function Unblock3(s: seq<char>): Option<seq<Byte>>
    requires |s| == 4
  {
    var w, x, y, z := Value(s[0]), Value(s[1]), Value(s[2]), Value(s[3]);
    if w.Some? && x.Some? && y.Some? && z.Some? then
      Some([Join1(w.value, x.value), Join2(x.value, y.value), Join3(y.value, z.value)])
    else None
  }

  /** The decoding of section 4 of RFC 4648 for text whose length is a
      multiple of four: padding may appear only in the last group, as `=` or
      `==`; `None` for anything else. */
  function Decode(s: seq<char>): Option<seq<Byte>>
    decreases |s|
  {
    if |s| == 0 then Some([])
    else if |s| % 4 != 0 then None
    else if |s| == 4 && s[2] == '=' && s[3] == '=' then Unblock1(s)
    else if |s| == 4 && s[3] == '=' then Unblock2(s)
    else
      var head, tail := Unblock3(s[..4]), Decode(s[4..]);
      if head.Some? && tail.Some? then Some(head.value + tail.value) else None
  }

  // Regrouping the bits of a group undoes their splitting into sextets.

  lemma JoinFirst(a: Byte, b: Byte)
    ensures (a % 4) * 16 + b / 16 < 64
    ensures Join1(a / 4, (a % 4) * 16 + b / 16) == a
  {
    assert ((a % 4) * 16 + b / 16) / 16 == a % 4;
  }

  lemma JoinSecond(a: Byte, b: Byte, c: Byte)
    ensures Join2((a % 4) * 16 + b / 16, (b % 16) * 4 + c / 64) == b
  {
    assert ((a % 4) * 16 + b / 16) % 16 == b / 16;
    assert ((b % 16) * 4 + c / 64) / 4 == b % 16;
  }

  lemma JoinThird(b: Byte, c: Byte)
    ensures Join3((b % 16) * 4 + c / 64, c % 64) == c
  {
    assert ((b % 16) * 4 + c / 64) % 4 == c / 64;
  }

  lemma Block1RoundTrip(a: Byte)
    ensures Unblock1(Block1(a)) == Some([a])
  {
    ValueOfDigit(a / 4);
    ValueOfDigit((a % 4) * 16);
    JoinFirst(a, 0);
  }

  lemma Block2RoundTrip(a: Byte, b: Byte)
    ensures Unblock2(Block2(a, b)) == Some([a, b])
  {
    ValueOfDigit(a / 4);
    ValueOfDigit((a % 4) * 16 + b / 16);
    ValueOfDigit((b % 16) * 4);
    JoinFirst(a, b);
    JoinSecond(a, b, 0);
  }

  lemma Block3RoundTrip(a: Byte, b: Byte, c: Byte)
    ensures Unblock3(Block3(a, b, c)) == Some([a, b, c])
  {
    ValueOfDigit(a / 4);
    ValueOfDigit((a % 4) * 16 + b / 16);
    ValueOfDigit((b % 16) * 4 + c / 64);
    ValueOfDigit(c % 64);
    JoinFirst(a, b);
    JoinSecond(a, b, c);
    JoinThird(b, c);
  }

  /** Decoding what was encoded gives back the bytes. */
  lemma {:induction false} DecodeEncode(bs: seq<Byte>)
    ensures Decode(Encode(bs)) == Some(bs)
    decreases |bs|
  {
    if |bs| == 1 {
      DecodeBlock1(bs[0]);
      assert bs == [bs[0]];
    } else if |bs| == 2 {
      DecodeBlock2(bs[0], bs[1]);
      assert bs == [bs[0], bs[1]];
    } else if |bs| >= 3 {
      var head := Block3(bs[0], bs[1], bs[2]);
      var rest := Encode(bs[3..]);
      EncodeGroup(bs);
      Block3RoundTrip(bs[0], bs[1], bs[2]);
      DecodeEncode(bs[3..]);
      DecodeGroup(head, rest, [bs[0], bs[1], bs[2]], bs[3..]);
      GroupSplit(bs);
    }
  }

  lemma GroupSplit(bs: seq<Byte>)
    requires |bs| >= 3
    ensures [bs[0], bs[1], bs[2]] + bs[3..] == bs
  {
  }

  lemma EncodeGroup(bs: seq<Byte>)
    requires |bs| >= 3
    ensures Encode(bs) == Block3(bs[0], bs[1], bs[2]) + Encode(bs[3..])
    ensures Block3(bs[0], bs[1], bs[2])[3] != '='
  {
  }

  lemma DecodeBlock1(a: Byte)
    ensures Decode(Block1(a)) == Some([a])
  {
    var s := Block1(a);
    assert |s| == 4 && s[2] == '=' && s[3] == '=';
    Block1RoundTrip(a);
  }

  lemma DecodeBlock2(a: Byte, b: Byte)
    ensures Decode(Block2(a, b)) == Some([a, b])
  {
    var s := Block2(a, b);
    assert |s| == 4 && s[2] != '=' && s[3] == '=';
    Block2RoundTrip(a, b);
  }

  /** A full group that is not a final padded one decodes on its own. */
  lemma DecodeGroup(head: seq<char>, rest: seq<char>, h: seq<Byte>, t: seq<Byte>)
    requires |head| == 4 && head[3] != '=' && |rest| % 4 == 0
    requires Unblock3(head) == Some(h) && Decode(rest) == Some(t)
    ensures Decode(head + rest) == Some(h + t)
  {
    var s := head + rest;
    assert |s| % 4 == 0 && s[3] != '=';
    assert s[..4] == head;
    assert s[4..] == rest;
  }
}
