/** `base64Wrap` of `core/utils/mail.go`. */
module Base64Wrap {
  import opened Bytes

  // ---- base64, section 4 of RFC 4648 ----

  const PAD: byte := 61

  function Digit(n: byte): (c: byte)
    requires n < 64
    ensures c != CR && c != LF && c != PAD
  {
    if n < 26 then 65 + n else if n < 52 then 71 + n else if n < 62 then n - 4 else if n == 62 then 43 else 47
  }

  function Quad(a: byte, b: byte, c: byte): seq<byte> {
    [Digit(a / 4), Digit(a % 4 * 16 + b / 16), Digit(b % 16 * 4 + c / 64), Digit(c % 64)]
  }

  /** The encoding of a byte string, padded to full quads. */
  function Base64(b: seq<byte>): seq<byte> {
    if b == [] then []
    else if |b| == 1 then Quad(b[0], 0, 0)[..2] + [PAD, PAD]
    else if |b| == 2 then Quad(b[0], b[1], 0)[..3] + [PAD]
    else Quad(b[0], b[1], b[2]) + Base64(b[3..])
  }

  /** `EncodedLen`. */
  function EncodedLen(n: nat): nat { (n + 2) / 3 * 4 }

  lemma {:induction false} Base64Length(b: seq<byte>)
    ensures |Base64(b)| == EncodedLen(|b|)
  {
    if |b| > 2 {
      Base64Length(b[3..]);
      assert |Base64(b)| == 4 + |Base64(b[3..])|;
    }
  }

  lemma {:induction false} NoBreaks(b: seq<byte>)
    ensures CR !in Base64(b) && LF !in Base64(b)
  {
    if |b| > 2 {
      NoBreaks(b[3..]);
    }
  }

  /** Whole triples encode independently of what follows. */
  lemma {:induction false} Base64Concat(a: seq<byte>, b: seq<byte>)
    requires |a| % 3 == 0
    ensures Base64(a + b) == Base64(a) + Base64(b)
  {
    if a == [] {
      assert a + b == b;
    } else {
      assert (a + b)[3..] == a[3..] + b;
      Base64Concat(a[3..], b);
    }
  }

  // ---- decoding, to pin the encoding down ----

  function Value(c: byte): (v: int)
    ensures -1 <= v < 64
  {
    if 65 <= c <= 90 then c as int - 65
    else if 97 <= c <= 122 then c as int - 71
    else if 48 <= c <= 57 then c as int + 4
    else if c == 43 then 62 else if c == 47 then 63 else -1
  }

  /** The three bytes of four digit values. */
  function Triple(p: int, q: int, r: int, s: int): seq<byte>
    requires 0 <= p < 64 && 0 <= q < 64 && 0 <= r < 64 && 0 <= s < 64
  {
    [(p * 4 + q / 16) as byte, (q % 16 * 16 + r / 4) as byte, (r % 4 * 64 + s) as byte]
  }

  datatype Decoded = Malformed | Decoded(bytes: seq<byte>)

  function Decode(t: seq<byte>): Decoded {
    if t == [] then Decoded([])
    else if |t| < 4 || Value(t[0]) < 0 || Value(t[1]) < 0 then Malformed
    else if t[2..] == [PAD, PAD] then Decoded(Triple(Value(t[0]), Value(t[1]), 0, 0)[..1])
    else if Value(t[2]) < 0 then Malformed
    else if t[3..] == [PAD] then Decoded(Triple(Value(t[0]), Value(t[1]), Value(t[2]), 0)[..2])
    else if Value(t[3]) < 0 then Malformed
    else
      match Decode(t[4..])
      case Malformed => Malformed
      case Decoded(rest) => Decoded(Triple(Value(t[0]), Value(t[1]), Value(t[2]), Value(t[3])) + rest)
  }

  lemma DigitValue(n: byte)
    requires n < 64
    ensures Value(Digit(n)) == n as int
  {
  }

  lemma Regroup(a: int, b: int, c: int)
    requires 0 <= a < 256 && 0 <= b < 256 && 0 <= c < 256
    ensures var q, r := a % 4 * 16 + b / 16, b % 16 * 4 + c / 64;
      && 0 <= q < 64 && 0 <= r < 64
      && a / 4 * 4 + q / 16 == a && q % 16 * 16 + r / 4 == b && r % 4 * 64 + c % 64 == c
  {
    var q, r := a % 4 * 16 + b / 16, b % 16 * 4 + c / 64;
    assert q / 16 == a % 4 && q % 16 == b / 16;
    assert r / 4 == b % 16 && r % 4 == c / 64;
  }

  lemma QuadValues(a: byte, b: byte, c: byte)
    ensures var q := Quad(a, b, c);
      && Value(q[0]) == a as int / 4 && Value(q[1]) == a as int % 4 * 16 + b as int / 16
      && Value(q[2]) == b as int % 16 * 4 + c as int / 64 && Value(q[3]) == c as int % 64
  {
    DigitValue(a / 4);
    DigitValue(a % 4 * 16 + b / 16);
    DigitValue(b % 16 * 4 + c / 64);
    DigitValue(c % 64);
  }

  lemma QuadTriple(a: byte, b: byte, c: byte)
    ensures var q := Quad(a, b, c);
      && Value(q[0]) >= 0 && Value(q[1]) >= 0 && Value(q[2]) >= 0 && Value(q[3]) >= 0
      && Triple(Value(q[0]), Value(q[1]), Value(q[2]), Value(q[3])) == [a, b, c]
  {
    QuadValues(a, b, c);
    Regroup(a as int, b as int, c as int);
    var q := Quad(a, b, c);
    var t := Triple(Value(q[0]), Value(q[1]), Value(q[2]), Value(q[3]));
    assert t[0] == a && t[1] == b && t[2] == c;
  }

  // one lemma per way out of the decoder

  lemma DecodeTwoPads(t: seq<byte>, a: byte, q: seq<byte>)
    requires q == Quad(a, 0, 0) && t == [q[0], q[1], PAD, PAD]
    ensures Decode(t) == Decoded([a])
  {
    QuadTriple(a, 0, 0);
    QuadValues(a, 0, 0);
    var three := Triple(Value(q[0]), Value(q[1]), 0, 0);
    assert three == [a, 0, 0];
    assert t[2..] == [PAD, PAD];
    assert three[..1] == [a];
  }

  lemma DecodeOnePad(t: seq<byte>, a: byte, b: byte, q: seq<byte>)
    requires q == Quad(a, b, 0) && t == [q[0], q[1], q[2], PAD]
    ensures Decode(t) == Decoded([a, b])
  {
    QuadTriple(a, b, 0);
    QuadValues(a, b, 0);
    var three := Triple(Value(q[0]), Value(q[1]), Value(q[2]), 0);
    assert three == [a, b, 0];
    assert t[2..][0] != PAD && t[3..] == [PAD];
    assert three[..2] == [a, b];
  }

  lemma DecodeQuad(t: seq<byte>, a: byte, b: byte, c: byte, tail: seq<byte>, rest: seq<byte>)
    requires t == Quad(a, b, c) + tail && Decode(tail) == Decoded(rest)
    ensures Decode(t) == Decoded([a, b, c] + rest)
  {
    var q := Quad(a, b, c);
    QuadTriple(a, b, c);
    assert t[0] == q[0] && t[1] == q[1] && t[2] == q[2] && t[3] == q[3] && t[4..] == tail;
    assert t[2..][0] != PAD && t[3..][0] != PAD;
  }

  lemma FirstThree(b: seq<byte>)
    requires |b| > 2
    ensures [b[0], b[1], b[2]] + b[3..] == b
  {
  }

  lemma TripleRoundTrip(b: seq<byte>)
    requires |b| > 2 && Decode(Base64(b[3..])) == Decoded(b[3..])
    ensures Decode(Base64(b)) == Decoded(b)
  {
    DecodeQuad(Base64(b), b[0], b[1], b[2], Base64(b[3..]), b[3..]);
    FirstThree(b);
  }

  lemma {:induction false} Base64RoundTrip(b: seq<byte>)
    ensures Decode(Base64(b)) == Decoded(b)
  {
    if |b| == 1 {
      DecodeTwoPads(Base64(b), b[0], Quad(b[0], 0, 0));
      assert b == [b[0]];
    } else if |b| == 2 {
      DecodeOnePad(Base64(b), b[0], b[1], Quad(b[0], b[1], 0));
      assert b == [b[0], b[1]];
    } else if b != [] {
      Base64RoundTrip(b[3..]);
      TripleRoundTrip(b);
    }
  }

  // ---- wrapping ----

  const MAX_RAW := 57

  /** One line for every 57 bytes, and one for what is left. */
  function Wrapped(b: seq<byte>): seq<byte> {
    if |b| >= MAX_RAW then Base64(b[..MAX_RAW]) + CRLF + Wrapped(b[MAX_RAW..])
    else if b != [] then Base64(b) + CRLF
    else []
  }

  /** `base64.StdEncoding.Encode(dst, src)`: overwrites a prefix of `dst`. */
  method EncodeInto(dst: array<byte>, src: seq<byte>)
    requires EncodedLen(|src|) <= dst.Length
    modifies dst
    ensures dst[..EncodedLen(|src|)] == Base64(src)
    ensures forall i :: EncodedLen(|src|) <= i < dst.Length ==> dst[i] == old(dst[i])
  {
    var t := Base64(src);
    Base64Length(src);
    for i := 0 to |t|
      invariant dst[..i] == t[..i]
      invariant forall k :: i <= k < dst.Length ==> dst[k] == old(dst[k])
    {
      dst[i] := t[i];
    }
    assert t[..|t|] == t;
  }

  lemma FullLine(w: seq<byte>, rest: seq<byte>, line: seq<byte>)
    requires |rest| >= MAX_RAW && line == rest[..MAX_RAW]
    ensures w + (Base64(line) + CRLF) + Wrapped(rest[MAX_RAW..]) == w + Wrapped(rest)
  {
    assert Wrapped(rest) == Base64(line) + CRLF + Wrapped(rest[MAX_RAW..]);
  }

  lemma LastLine(w: seq<byte>, rest: seq<byte>)
    requires 0 < |rest| < MAX_RAW
    ensures w + (Base64(rest) + CRLF) == w + Wrapped(rest)
  {
  }

  method Wrap(b: seq<byte>) returns (w: seq<byte>)
    ensures w == Wrapped(b)
  {
    var buffer := new byte[MAX_LINE + 2](_ => 0);
    buffer[MAX_LINE], buffer[MAX_LINE + 1] := CR, LF;
    w := [];
    var rest := b;
    while |rest| >= MAX_RAW
      invariant buffer[MAX_LINE] == CR && buffer[MAX_LINE + 1] == LF
      invariant w + Wrapped(rest) == Wrapped(b)
    {
      var line := rest[..MAX_RAW];
      EncodeInto(buffer, line);
      assert buffer[..] == buffer[..MAX_LINE] + CRLF;
      FullLine(w, rest, line);
      w := w + buffer[..];
      rest := rest[MAX_RAW..];
    }
    if |rest| > 0 {
      var n := EncodedLen(|rest|);
      EncodeInto(buffer, rest);
      // append stays within the buffer's capacity and overwrites it in place
      buffer[n], buffer[n + 1] := CR, LF;
      assert buffer[..n + 2] == Base64(rest) + CRLF;
      LastLine(w, rest);
      w := w + buffer[..n + 2];
    }
  }

  /** The text without its line breaks. */
  function Unwrapped(t: seq<byte>): seq<byte> {
    if t == [] then [] else (if t[0] == CR || t[0] == LF then [] else [t[0]]) + Unwrapped(t[1..])
  }

  lemma {:induction false} UnwrapLine(line: seq<byte>, rest: seq<byte>)
    requires CR !in line && LF !in line
    ensures Unwrapped(line + CRLF + rest) == line + Unwrapped(rest)
  {
    var t := line + CRLF + rest;
    if line == [] {
      assert t == [CR] + ([LF] + rest);
      assert t[1..] == [LF] + rest && ([LF] + rest)[1..] == rest;
    } else {
      assert t[1..] == line[1..] + CRLF + rest;
      UnwrapLine(line[1..], rest);
      assert line == [line[0]] + line[1..];
    }
  }

  /** Without its line breaks, the output is the base64 encoding of the whole content. */
  lemma {:induction false} UnwrappedIsBase64(b: seq<byte>)
    ensures Unwrapped(Wrapped(b)) == Base64(b)
    decreases |b|
  {
    if |b| >= MAX_RAW {
      NoBreaks(b[..MAX_RAW]);
      UnwrapLine(Base64(b[..MAX_RAW]), Wrapped(b[MAX_RAW..]));
      UnwrappedIsBase64(b[MAX_RAW..]);
      Base64Concat(b[..MAX_RAW], b[MAX_RAW..]);
      assert b == b[..MAX_RAW] + b[MAX_RAW..];
    } else if b != [] {
      NoBreaks(b);
      UnwrapLine(Base64(b), []);
      assert Base64(b) + CRLF + [] == Base64(b) + CRLF;
    }
  }

  lemma {:induction false} FitLine(line: seq<byte>, rest: seq<byte>, n: nat)
    requires CR !in line && n + |line| <= MAX_LINE && LinesFit(rest, 0)
    ensures LinesFit(line + CRLF + rest, n)
  {
    if line == [] {
      assert line + CRLF + rest == CRLF + rest;
      FitCrlf(rest, n);
    } else {
      FitLine(line[1..], rest, n + 1);
      FitChar(line[0], line[1..] + CRLF + rest, n);
      assert line + CRLF + rest == [line[0]] + (line[1..] + CRLF + rest);
    }
  }

  /** No line is longer than 76 characters. */
  lemma {:induction false} WrappedLinesFit(b: seq<byte>)
    ensures LinesFit(Wrapped(b), 0)
    decreases |b|
  {
    if |b| >= MAX_RAW {
      NoBreaks(b[..MAX_RAW]);
      Base64Length(b[..MAX_RAW]);
      WrappedLinesFit(b[MAX_RAW..]);
      FitLine(Base64(b[..MAX_RAW]), Wrapped(b[MAX_RAW..]), 0);
    } else if b != [] {
      NoBreaks(b);
      Base64Length(b);
      FitLine(Base64(b), [], 0);
      assert Base64(b) + CRLF + [] == Base64(b) + CRLF;
    }
  }
}
