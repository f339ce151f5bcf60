/**
  The encoded words of mail headers: `qEncode`, `needsEncoding` and `encodeWord` of
  `core/utils/mail.go`, against a decoder written from sections 2 and 4.2 of RFC 2047.
 */
module EncodedWord {
  import opened Text
  import opened Bytes
  import opened QuotedPrintable

  const QUESTION: byte := 63
  const UNDERSCORE: byte := 95
  const LOWER_Q: byte := 113
  const UPPER_Q: byte := 81

  /** The bytes that stand for themselves. */
  predicate Literal(b: byte) { 33 <= b <= 126 && b != EQUALS && b != QUESTION && b != UNDERSCORE }

  function QCode(b: byte): (out: seq<byte>)
    ensures QUESTION !in out
  {
    if b == SPACE then [UNDERSCORE]
    else if Literal(b) then [b]
    else [EQUALS, Hex(b / 16), Hex(b % 16)]
  }

  function QText(s: seq<byte>): seq<byte> { if s == [] then [] else QCode(s[0]) + QText(s[1..]) }

  /** The single encoded word of a text. */
  function Word(charset: seq<byte>, s: seq<byte>): seq<byte> {
    [EQUALS, QUESTION] + (charset + [QUESTION] + ([LOWER_Q] + [QUESTION] + (QText(s) + [QUESTION] + [EQUALS])))
  }

  lemma QTextStep(text: seq<byte>, s: seq<byte>, i: nat)
    requires i < |s|
    ensures text + QText(s[i..]) == text + QCode(s[i]) + QText(s[i + 1..])
  {
    assert s[i..][1..] == s[i + 1..];
  }

  method EncodeWord(charset: seq<byte>, s: seq<byte>) returns (w: seq<byte>)
    ensures w == Word(charset, s)
  {
    var text: seq<byte> := [];
    for i := 0 to |s|
      invariant text + QText(s[i..]) == QText(s)
    {
      QTextStep(text, s, i);
      var b := s[i];
      if b == SPACE {
        text := text + [UNDERSCORE];
      } else if b <= 126 && b >= 33 && b != EQUALS && b != QUESTION && b != UNDERSCORE {
        text := text + [b];
      } else {
        text := text + [EQUALS, Hex(b / 16), Hex(b % 16)];
      }
    }
    assert text == QText(s);
    w := [EQUALS, QUESTION] + charset + [QUESTION, LOWER_Q, QUESTION] + text + [QUESTION, EQUALS];
    WordParts(charset, text);
  }

  lemma WordParts(charset: seq<byte>, text: seq<byte>)
    ensures [EQUALS, QUESTION] + charset + [QUESTION, LOWER_Q, QUESTION] + text + [QUESTION, EQUALS] ==
            [EQUALS, QUESTION] + (charset + [QUESTION] + ([LOWER_Q] + [QUESTION] + (text + [QUESTION] + [EQUALS])))
  {
  }

  method NeedsEncoding(s: seq<byte>) returns (r: bool)
    ensures r == Special(s)
  {
    for i := 0 to |s|
      invariant !Special(s[..i])
    {
      if (s[i] < 32 || s[i] > 126) && s[i] != TAB {
        assert IsSpecial(s[i]);
        return true;
      }
      assert s[..i + 1] == s[..i] + [s[i]];
    }
    assert s[..|s|] == s;
    return false;
  }

  predicate IsSpecial(b: byte) { (b < 32 || b > 126) && b != TAB }

  /** Some character is neither printable nor a tab. */
  ghost predicate Special(s: seq<byte>) { exists b <- s :: IsSpecial(b) }

  method QEncode(charset: seq<byte>, s: seq<byte>) returns (r: seq<byte>)
    ensures r == Header(charset, s)
  {
    var needed := NeedsEncoding(s);
    if !needed {
      return s;
    }
    r := EncodeWord(charset, s);
  }

  ghost function Header(charset: seq<byte>, s: seq<byte>): seq<byte> { if Special(s) then Word(charset, s) else s }

  // ---- decoding ----

  /** Section 4.2: "_" is a blank, "=" and two digits a byte, other printable characters but "?"
      stand for themselves. */
  function DecodeText(t: seq<byte>): Option<seq<byte>> {
    if t == [] then Some([])
    else if t[0] == UNDERSCORE then Before(SPACE, DecodeText(t[1..]))
    else if t[0] == EQUALS then
      if |t| < 3 || HexValue(t[1]) < 0 || HexValue(t[2]) < 0 then None
      else Before((16 * HexValue(t[1]) + HexValue(t[2])) as byte, DecodeText(t[3..]))
    else if Literal(t[0]) then Before(t[0], DecodeText(t[1..]))
    else None
  }

  function Before(b: byte, r: Option<seq<byte>>): Option<seq<byte>> { if r.None? then None else Some([b] + r.value) }

  /** What stands before the first "?", and what behind it. */
  function CutMark(t: seq<byte>): (seq<byte>, Option<seq<byte>>) {
    if t == [] then ([], None)
    else if t[0] == QUESTION then ([], Some(t[1..]))
    else
      var (a, b) := CutMark(t[1..]);
      ([t[0]] + a, b)
  }

  /** Section 2: "=?", charset, "?", "q", "?", text, "?=". */
  function DecodeWord(t: seq<byte>): Option<(seq<byte>, seq<byte>)> {
    if !StartsWith(t, [EQUALS, QUESTION]) then None
    else
      var (charset, r1) := CutMark(t[2..]);
      if r1.None? then None
      else
        var (encoding, r2) := CutMark(r1.value);
        if r2.None? || !(encoding == [LOWER_Q] || encoding == [UPPER_Q]) then None
        else
          var (text, r3) := CutMark(r2.value);
          if r3 != Some([EQUALS]) || DecodeText(text).None? then None
          else Some((charset, DecodeText(text).value))
  }

  /** What a mail reader makes of a header: the content of an encoded word, or the text itself. */
  function ReadHeader(t: seq<byte>): seq<byte> { if DecodeWord(t).Some? then DecodeWord(t).value.1 else t }

  lemma {:induction false} CutAtMark(a: seq<byte>, b: seq<byte>)
    requires QUESTION !in a
    ensures CutMark(a + [QUESTION] + b) == (a, Some(b))
  {
    var t := a + [QUESTION] + b;
    if a == [] {
      assert t == [QUESTION] + b && t[1..] == b;
    } else {
      CutAtMark(a[1..], b);
      assert t[1..] == a[1..] + [QUESTION] + b;
      assert a == [a[0]] + a[1..];
    }
  }

  lemma {:induction false} NoMarkInText(s: seq<byte>)
    ensures QUESTION !in QText(s)
  {
    if s != [] {
      NoMarkInText(s[1..]);
    }
  }

  lemma DecodeCode1(b: byte, t: seq<byte>)
    ensures DecodeText(QCode(b) + t) == Before(b, DecodeText(t))
  {
    var u := QCode(b) + t;
    if b == SPACE || Literal(b) {
      assert u[1..] == t;
    } else {
      assert u[3..] == t && u[0] == EQUALS && u[1] == Hex(b / 16) && u[2] == Hex(b % 16);
      HexRoundTrip(b);
    }
  }

  lemma {:induction false} TextRoundTrip(s: seq<byte>)
    ensures DecodeText(QText(s)) == Some(s)
  {
    if s != [] {
      TextRoundTrip(s[1..]);
      DecodeCode1(s[0], QText(s[1..]));
      assert s == [s[0]] + s[1..];
    }
  }

  /** For every byte string, decoding the encoded word gives charset and text back. */
  lemma WordRoundTrip(charset: seq<byte>, s: seq<byte>)
    requires QUESTION !in charset
    ensures DecodeWord(Word(charset, s)) == Some((charset, s))
  {
    var last := QText(s) + [QUESTION] + [EQUALS];
    var rest := [LOWER_Q] + [QUESTION] + last;
    var body := charset + [QUESTION] + rest;
    var w := [EQUALS, QUESTION] + body;
    assert w[..2] == [EQUALS, QUESTION] && w[2..] == body;
    CutAtMark(charset, rest);
    CutAtMark([LOWER_Q], last);
    NoMarkInText(s);
    CutAtMark(QText(s), [EQUALS]);
    TextRoundTrip(s);
  }

  lemma {:induction false} CutShortens(t: seq<byte>)
    ensures CutMark(t).1.Some? ==> |CutMark(t).0| + 1 + |CutMark(t).1.value| == |t|
  {
    if t != [] && t[0] != QUESTION {
      CutShortens(t[1..]);
    }
  }

  lemma {:induction false} DecodedIsShorter(t: seq<byte>)
    ensures DecodeText(t).Some? ==> |DecodeText(t).value| <= |t|
  {
    if t != [] {
      DecodedIsShorter(t[1..]);
      if |t| >= 3 {
        DecodedIsShorter(t[3..]);
      }
    }
  }

  lemma WordIsLonger(t: seq<byte>)
    ensures DecodeWord(t).Some? ==> |DecodeWord(t).value.1| < |t|
  {
    if DecodeWord(t).Some? {
      CutShortens(t[2..]);
      var r1 := CutMark(t[2..]).1.value;
      CutShortens(r1);
      var r2 := CutMark(r1).1.value;
      CutShortens(r2);
      DecodedIsShorter(CutMark(r2).0);
    }
  }

  /** A header comes back from a mail reader exactly when it was encoded, or does not read as an
      encoded word by itself: `qEncode` leaves printable text alone, even if it looks like one. */
  lemma HeaderRoundTripIff(charset: seq<byte>, s: seq<byte>)
    requires QUESTION !in charset
    ensures ReadHeader(Header(charset, s)) == s <==> Special(s) || DecodeWord(s).None?
  {
    if Special(s) {
      WordRoundTrip(charset, s);
    } else {
      WordIsLonger(s);
    }
  }

  /** The subject "=?q?q?A?=" is sent as it is and read as "A". */
  lemma LooksEncoded()
    ensures var s := Word([LOWER_Q], [65]);
            !Special(s) && ReadHeader(Header([LOWER_Q], s)) == [65] != s
  {
    var s := Word([LOWER_Q], [65]);
    WordRoundTrip([LOWER_Q], [65]);
    assert [65 as byte][1..] == [];
    assert QText([65]) == QCode(65) + QText([]) == [65];
    assert s == [EQUALS, QUESTION, LOWER_Q, QUESTION, LOWER_Q, QUESTION, 65, QUESTION, EQUALS];
  }

  // ---- length ----

  /** How many bytes need an escape. */
  function Escapes(s: seq<byte>): nat {
    if s == [] then 0 else (if s[0] == SPACE || Literal(s[0]) then 0 else 1) + Escapes(s[1..])
  }

  lemma {:induction false} TextLength(s: seq<byte>)
    ensures |QText(s)| == |s| + 2 * Escapes(s)
  {
    if s != [] {
      TextLength(s[1..]);
    }
  }

  /** The encoded word, which is never split, stays within the 75 characters of section 2 exactly
      when charset, text and two more characters per escaped byte do not exceed 68. */
  lemma WordFitsIff(charset: seq<byte>, s: seq<byte>)
    ensures |Word(charset, s)| <= 75 <==> |charset| + |s| + 2 * Escapes(s) <= 68
  {
    TextLength(s);
  }

  /** So every text of more than 68 bytes is too long. */
  lemma LongTextOverflows(charset: seq<byte>, s: seq<byte>)
    requires |s| > 68
    ensures |Word(charset, s)| > 75
  {
    WordFitsIff(charset, s);
  }
}
