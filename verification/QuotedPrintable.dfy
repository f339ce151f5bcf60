/**
  The quoted-printable encoder of `core/utils/mail.go`, against a decoder written from
  section 6.7 of RFC 2045.
 */
module QuotedPrintable {
  import opened Bytes

  const TAB: byte := 9
  const SPACE: byte := 32
  const EQUALS: byte := 61

  /** The upper-case hexadecimal digit of a nibble. */
  function Hex(n: byte): byte
    requires n < 16
  {
    if n < 10 then 48 + n else 55 + n
  }

  predicate IsPrintable(c: byte) {
    (33 <= c <= 60) || (62 <= c <= 126) || c == SPACE || c == LF || c == TAB
  }

  /** What one byte that is not a line feed becomes. */
  function Code(c: byte): (out: seq<byte>)
    ensures |out| == 1 || |out| == 3
  {
    if IsPrintable(c) then [c] else [EQUALS, Hex(c / 16), Hex(c % 16)]
  }

  const SOFT := [EQUALS, CR, LF]

  /** The output for `s` when `mc` characters stand on the current line. */
  function Encode(s: seq<byte>, mc: nat): seq<byte> {
    if s == [] then (if mc > 0 then SOFT else [])
    else if s[0] == LF then CRLF + Encode(s[1..], 0)
    else
      var out := Code(s[0]);
      if mc + |out| >= MAX_LINE then SOFT + (out + Encode(s[1..], |out|))
      else out + Encode(s[1..], mc + |out|)
  }

  lemma EmitChar(w: seq<byte>, s: seq<byte>, mc: nat)
    requires s != [] && s[0] != LF && mc + |Code(s[0])| < MAX_LINE
    ensures w + Code(s[0]) + Encode(s[1..], mc + |Code(s[0])|) == w + Encode(s, mc)
  {
  }

  lemma EmitSoft(w: seq<byte>, s: seq<byte>, mc: nat)
    requires s != [] && s[0] != LF && mc + |Code(s[0])| >= MAX_LINE
    ensures w + SOFT + Code(s[0]) + Encode(s[1..], |Code(s[0])|) == w + Encode(s, mc)
  {
  }

  lemma EmitBreak(w: seq<byte>, s: seq<byte>, mc: nat)
    requires s != [] && s[0] == LF
    ensures w + CRLF + Encode(s[1..], 0) == w + Encode(s, mc)
  {
    assert Encode(s, mc) == CRLF + Encode(s[1..], 0);
  }

  method QuotePrintEncode(s: seq<byte>) returns (w: seq<byte>)
    ensures w == Encode(s, 0)
  {
    w := [];
    var mc := 0;
    for i := 0 to |s|
      invariant mc >= 0
      invariant w + Encode(s[i..], mc) == Encode(s, 0)
    {
      var c := s[i];
      assert s[i..][1..] == s[i + 1..];
      if c == LF {
        EmitBreak(w, s[i..], mc);
        w := w + CRLF;
        mc := 0;
      } else {
        var nextOut := Code(c);
        if mc + |nextOut| >= MAX_LINE {
          EmitSoft(w, s[i..], mc);
          w := w + SOFT;
          mc := 0;
        } else {
          EmitChar(w, s[i..], mc);
        }
        w := w + nextOut;
        mc := mc + |nextOut|;
      }
    }
    if mc > 0 {
      w := w + SOFT;
    }
  }

  // ---- decoding ----

  datatype Decoded = Malformed | Bytes(bytes: seq<byte>)

  function HexValue(c: byte): (v: int)
    ensures -1 <= v < 16
  {
    if 48 <= c <= 57 then c as int - 48 else if 65 <= c <= 70 then c as int - 55 else -1
  }

  function Prepend(c: byte, d: Decoded): Decoded { if d.Bytes? then Bytes([c] + d.bytes) else Malformed }

  /** Rules 1 to 5 of section 6.7, reading a CRLF line break as one line feed: "=" and two
      digits stand for a byte, "=" at the end of a line for nothing, printable characters and
      blanks for themselves. */
  function Decode(t: seq<byte>): Decoded
    decreases |t|
  {
    if t == [] then Bytes([])
    else if StartsWith(t, CRLF) then Prepend(LF, Decode(t[2..]))
    else if StartsWith(t, SOFT) then Decode(t[3..])
    else if t[0] == EQUALS then
      if |t| < 3 || HexValue(t[1]) < 0 || HexValue(t[2]) < 0 then Malformed
      else Prepend((16 * HexValue(t[1]) + HexValue(t[2])) as byte, Decode(t[3..]))
    else if 33 <= t[0] <= 126 || t[0] == SPACE || t[0] == TAB then Prepend(t[0], Decode(t[1..]))
    else Malformed
  }

  lemma HexRoundTrip(c: byte)
    ensures HexValue(Hex(c / 16)) == c as int / 16 && HexValue(Hex(c % 16)) == c as int % 16
  {
  }

  lemma DecodeCrlf(t: seq<byte>)
    ensures Decode(CRLF + t) == Prepend(LF, Decode(t))
  {
    assert (CRLF + t)[..2] == CRLF && (CRLF + t)[2..] == t;
  }

  lemma DecodeSoft(t: seq<byte>)
    ensures Decode(SOFT + t) == Decode(t)
  {
    var u := SOFT + t;
    assert u[..3] == SOFT && u[3..] == t;
    assert u[0] == EQUALS;
    assert !StartsWith(u, CRLF) by {
      assert |u| >= 2 ==> u[..2][0] == EQUALS;
    }
  }

  lemma DecodeCode(c: byte, t: seq<byte>)
    requires c != LF
    ensures Decode(Code(c) + t) == Prepend(c, Decode(t))
  {
    var u := Code(c) + t;
    assert u[0] == Code(c)[0] && u[0] != CR;
    assert !StartsWith(u, CRLF) by {
      assert |u| >= 2 ==> u[..2][0] == u[0];
    }
    if IsPrintable(c) {
      assert u[1..] == t;
      assert !StartsWith(u, SOFT) by {
        assert |u| >= 3 ==> u[..3][0] == u[0];
      }
    } else {
      assert u[3..] == t && u[1] == Hex(c / 16) && u[2] == Hex(c % 16);
      assert !StartsWith(u, SOFT) by {
        assert u[..3][1] == u[1] != CR;
      }
      HexRoundTrip(c);
    }
  }

  lemma CharReadsBack(s: seq<byte>, t: seq<byte>)
    requires s != [] && s[0] != LF && Decode(t) == Bytes(s[1..])
    ensures Decode(Code(s[0]) + t) == Bytes(s)
  {
    DecodeCode(s[0], t);
    assert s == [s[0]] + s[1..];
  }

  lemma BreakReadsBack(s: seq<byte>, t: seq<byte>)
    requires s != [] && s[0] == LF && Decode(t) == Bytes(s[1..])
    ensures Decode(CRLF + t) == Bytes(s)
  {
    DecodeCrlf(t);
    assert s == [LF] + s[1..];
  }

  lemma EndReadsBack(mc: nat)
    ensures Decode(Encode([], mc)) == Bytes([])
  {
    DecodeSoft([]);
    assert SOFT + [] == SOFT;
  }

  /** Decoding the output gives the input back, for every byte string. */
  lemma {:induction false} RoundTrip(s: seq<byte>, mc: nat)
    ensures Decode(Encode(s, mc)) == Bytes(s)
  {
    if s == [] {
      EndReadsBack(mc);
    } else {
      var out, rest := Code(s[0]), s[1..];
      if s[0] == LF {
        RoundTrip(rest, 0);
        BreakReadsBack(s, Encode(rest, 0));
      } else if mc + |out| >= MAX_LINE {
        RoundTrip(rest, |out|);
        CharReadsBack(s, Encode(rest, |out|));
        DecodeSoft(out + Encode(rest, |out|));
      } else {
        RoundTrip(rest, mc + |out|);
        CharReadsBack(s, Encode(rest, mc + |out|));
      }
    }
  }

  // ---- line lengths ----

  lemma FitCode(c: byte, t: seq<byte>, n: nat)
    requires c != LF
    ensures LinesFit(Code(c) + t, n) <==> LinesFit(t, n + |Code(c)|)
  {
    var out := Code(c);
    if IsPrintable(c) {
      FitChar(c, t, n);
    } else {
      assert out + t == [out[0]] + ([out[1]] + ([out[2]] + t));
      FitChar(out[0], [out[1]] + ([out[2]] + t), n);
      FitChar(out[1], [out[2]] + t, n + 1);
      FitChar(out[2], t, n + 2);
    }
  }

  lemma FitSoft(t: seq<byte>, n: nat)
    requires n < MAX_LINE
    ensures LinesFit(SOFT + t, n) <==> LinesFit(t, 0)
  {
    assert SOFT + t == [EQUALS] + (CRLF + t);
    FitChar(EQUALS, CRLF + t, n);
    FitCrlf(t, n + 1);
  }

  lemma EndFits(mc: nat)
    requires mc < MAX_LINE
    ensures LinesFit(Encode([], mc), mc)
  {
    FitSoft([], mc);
    assert SOFT + [] == SOFT;
  }

  /** No output line is longer than 76 characters, the "=" of a soft break included. */
  lemma {:induction false} EncodedLinesFit(s: seq<byte>, mc: nat)
    requires mc < MAX_LINE
    ensures LinesFit(Encode(s, mc), mc)
  {
    if s == [] {
      EndFits(mc);
    } else {
      var out, rest := Code(s[0]), s[1..];
      if s[0] == LF {
        EncodedLinesFit(rest, 0);
        FitCrlf(Encode(rest, 0), mc);
      } else if mc + |out| >= MAX_LINE {
        EncodedLinesFit(rest, |out|);
        FitCode(s[0], Encode(rest, |out|), 0);
        FitSoft(out + Encode(rest, |out|), mc);
      } else {
        EncodedLinesFit(rest, mc + |out|);
        FitCode(s[0], Encode(rest, mc + |out|), mc);
        assert Encode(s, mc) == out + Encode(rest, mc + |out|);
      }
    }
  }

  // ---- a decoder that deletes blanks at the end of a line ----

  predicate IsBlank(c: byte) { c == SPACE || c == TAB }

  /** Rule 3 of section 6.7: blanks right before a line break, or the end, are deleted. */
  function Strip(t: seq<byte>): seq<byte> {
    if t == [] then []
    else
      var rest := Strip(t[1..]);
      if IsBlank(t[0]) && (rest == [] || StartsWith(rest, CRLF)) then rest else [t[0]] + rest
  }

  ghost predicate BlankBeforeBreak(s: seq<byte>) {
    exists i :: 0 <= i < |s| - 1 && IsBlank(s[i]) && s[i + 1] == LF
  }

  lemma StripChar(c: byte, t: seq<byte>)
    requires !IsBlank(c)
    ensures Strip([c] + t) == [c] + Strip(t)
  {
    assert ([c] + t)[1..] == t;
  }

  lemma StripCrlf(t: seq<byte>)
    ensures Strip(CRLF + t) == CRLF + Strip(t)
  {
    assert CRLF + t == [CR] + ([LF] + t);
    StripChar(CR, [LF] + t);
    StripChar(LF, t);
  }

  lemma StripSoft(t: seq<byte>)
    ensures Strip(SOFT + t) == SOFT + Strip(t)
  {
    assert SOFT + t == [EQUALS] + (CRLF + t);
    StripChar(EQUALS, CRLF + t);
    StripCrlf(t);
  }

  lemma StripCode(c: byte, t: seq<byte>)
    requires c != LF && !IsBlank(c)
    ensures Strip(Code(c) + t) == Code(c) + Strip(t)
  {
    var out := Code(c);
    if IsPrintable(c) {
      StripChar(c, t);
    } else {
      assert out + t == [out[0]] + ([out[1]] + ([out[2]] + t));
      StripChar(out[0], [out[1]] + ([out[2]] + t));
      StripChar(out[1], [out[2]] + t);
      StripChar(out[2], t);
    }
  }

  lemma BlankLater(s: seq<byte>)
    requires s != []
    ensures BlankBeforeBreak(s) <==>
            BlankBeforeBreak(s[1..]) || (|s| > 1 && IsBlank(s[0]) && s[1] == LF)
  {
    if BlankBeforeBreak(s[1..]) {
      var i :| 0 <= i < |s[1..]| - 1 && IsBlank(s[1..][i]) && s[1..][i + 1] == LF;
      assert IsBlank(s[i + 1]) && s[i + 2] == LF;
    }
    if i :| 0 <= i < |s| - 1 && IsBlank(s[i]) && s[i + 1] == LF {
      if i > 0 {
        assert IsBlank(s[1..][i - 1]) && s[1..][i] == LF;
      }
    }
  }

  /** What a stripping decoder makes of the output: never more than the input, the input itself
      when no blank stands before a line feed, and something shorter otherwise. */
  ghost predicate Survives(s: seq<byte>, d: Decoded) {
    && d.Bytes? && |d.bytes| <= |s|
    && (if BlankBeforeBreak(s) then |d.bytes| < |s| else d.bytes == s)
  }

  lemma BlankDropped(c: byte, t: seq<byte>)
    requires IsBlank(c) && StartsWith(t, CRLF)
    ensures Strip([c] + t) == Strip(t)
  {
    assert ([c] + t)[1..] == t;
    assert t == CRLF + t[2..];
    StripCrlf(t[2..]);
    assert (CRLF + Strip(t[2..]))[..2] == CRLF;
  }

  lemma BlankKept(c: byte, t: seq<byte>)
    requires IsBlank(c) && Strip(t) != [] && !StartsWith(Strip(t), CRLF)
    ensures Decode(Strip([c] + t)) == Prepend(c, Decode(Strip(t)))
  {
    assert ([c] + t)[1..] == t;
    DecodeCode(c, Strip(t));
  }

  /** A line break that only stripping brings up front was not the next character. */
  lemma BreakUncovered(c: byte, t: seq<byte>, s: seq<byte>)
    requires IsBlank(c) && StartsWith(Strip(t), CRLF)
    requires Decode(Strip(t)) == Bytes(s)
    ensures s != [] && s[0] == LF && Strip([c] + t) == Strip(t)
  {
    var u := Strip(t);
    assert ([c] + t)[1..] == t;
    assert u == CRLF + u[2..];
    DecodeCrlf(u[2..]);
  }

  lemma BlankSurvives(s: seq<byte>, t: seq<byte>)
    requires s != [] && IsBlank(s[0]) && t != []
    requires Survives(s[1..], Decode(Strip(t))) && Strip(t) != []
    requires StartsWith(t, CRLF) <==> |s| > 1 && s[1] == LF
    ensures Survives(s, Decode(Strip([s[0]] + t)))
  {
    BlankLater(s);
    var d := Decode(Strip(t)).bytes;
    if StartsWith(t, CRLF) {
      BlankDropped(s[0], t);
    } else if StartsWith(Strip(t), CRLF) {
      BreakUncovered(s[0], t, d);
    } else {
      BlankKept(s[0], t);
      assert s == [s[0]] + s[1..];
    }
  }

  predicate EndsInLf(t: seq<byte>) { t != [] && t[|t| - 1] == LF }

  lemma LaterEnd(a: seq<byte>, b: seq<byte>)
    requires EndsInLf(b)
    ensures EndsInLf(a + b)
  {
  }

  lemma {:induction false} EndsInBreak(s: seq<byte>, mc: nat)
    requires s != [] || mc > 0
    ensures EndsInLf(Encode(s, mc))
  {
    if s != [] {
      var out, rest := Code(s[0]), s[1..];
      if s[0] == LF {
        if rest != [] {
          EndsInBreak(rest, 0);
          LaterEnd(CRLF, Encode(rest, 0));
        }
      } else if mc + |out| >= MAX_LINE {
        EndsInBreak(rest, |out|);
        LaterEnd(out, Encode(rest, |out|));
        LaterEnd(SOFT, out + Encode(rest, |out|));
      } else {
        EndsInBreak(rest, mc + |out|);
        LaterEnd(out, Encode(rest, mc + |out|));
      }
    }
  }

  lemma {:induction false} StripKeepsEnd(t: seq<byte>)
    requires t != [] && !IsBlank(t[|t| - 1])
    ensures Strip(t) != []
  {
    if |t| > 1 {
      StripKeepsEnd(t[1..]);
    }
  }

  lemma StartsWithBreak(s: seq<byte>, mc: nat)
    ensures StartsWith(Encode(s, mc), CRLF) <==> s != [] && s[0] == LF
  {
    var t := Encode(s, mc);
    if s != [] && s[0] == LF {
      assert t[..2] == CRLF;
    } else if t != [] {
      assert t[0] != CR;
      assert |t| >= 2 ==> t[..2][0] == t[0];
    }
  }

  lemma InkSurvives(s: seq<byte>, t: seq<byte>)
    requires s != [] && s[0] != LF && !IsBlank(s[0]) && Survives(s[1..], Decode(Strip(t)))
    ensures Survives(s, Decode(Strip(Code(s[0]) + t)))
  {
    assert s == [s[0]] + s[1..];
    BlankLater(s);
    StripCode(s[0], t);
    DecodeCode(s[0], Strip(t));
  }

  lemma CharSurvives(s: seq<byte>, mc: nat)
    requires s != [] && s[0] != LF && mc > 0
    requires Survives(s[1..], Decode(Strip(Encode(s[1..], mc))))
    ensures Survives(s, Decode(Strip(Code(s[0]) + Encode(s[1..], mc))))
  {
    var t := Encode(s[1..], mc);
    if IsBlank(s[0]) {
      EndsInBreak(s[1..], mc);
      StripKeepsEnd(t);
      StartsWithBreak(s[1..], mc);
      BlankSurvives(s, t);
    } else {
      InkSurvives(s, t);
    }
  }

  lemma BreakSurvives(s: seq<byte>)
    requires s != [] && s[0] == LF && Survives(s[1..], Decode(Strip(Encode(s[1..], 0))))
    ensures Survives(s, Decode(Strip(CRLF + Encode(s[1..], 0))))
  {
    assert s == [s[0]] + s[1..];
    BlankLater(s);
    StripCrlf(Encode(s[1..], 0));
    DecodeCrlf(Strip(Encode(s[1..], 0)));
  }

  lemma SoftSurvives(t: seq<byte>)
    ensures Decode(Strip(SOFT + t)) == Decode(Strip(t))
  {
    StripSoft(t);
    DecodeSoft(Strip(t));
  }

  lemma {:induction false} StrippedSurvives(s: seq<byte>, mc: nat)
    ensures Survives(s, Decode(Strip(Encode(s, mc))))
  {
    if s == [] {
      SoftSurvives([]);
      assert SOFT + [] == SOFT;
    } else if s[0] == LF {
      StrippedSurvives(s[1..], 0);
      BreakSurvives(s);
    } else {
      var out := Code(s[0]);
      if mc + |out| >= MAX_LINE {
        StrippedSurvives(s[1..], |out|);
        CharSurvives(s, |out|);
        SoftSurvives(out + Encode(s[1..], |out|));
      } else {
        StrippedSurvives(s[1..], mc + |out|);
        CharSurvives(s, mc + |out|);
      }
    }
  }

  /** A decoder that deletes blanks before line breaks gives the input back exactly when the
      input has no blank right before a line feed. */
  lemma StrippingRoundTripIff(s: seq<byte>)
    ensures Decode(Strip(Encode(s, 0))) == Bytes(s) <==> !BlankBeforeBreak(s)
  {
    StrippedSurvives(s, 0);
  }

  /** A line of one blank loses it. */
  lemma BlankIsLost()
    ensures Decode(Strip(Encode([SPACE, LF], 0))) != Bytes([SPACE, LF])
  {
    var s := [SPACE, LF];
    assert IsBlank(s[0]) && s[0 + 1] == LF;
    StrippingRoundTripIff(s);
  }
}
