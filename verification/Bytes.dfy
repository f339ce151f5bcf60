/** Bytes and lines of MIME text, shared by the encoders of `core/utils/mail.go`. */
module Bytes {

  newtype byte = x: int | 0 <= x < 256

  const LF: byte := 10
  const CR: byte := 13
  const CRLF := [CR, LF]

  /** `maxLineLength`. */
  const MAX_LINE := 76

  predicate StartsWith(t: seq<byte>, p: seq<byte>) { |p| <= |t| && t[..|p|] == p }

  /** With `n` characters already on the current line, no line exceeds the limit, the "=" of a
      soft break included and the CRLF excluded. */
  ghost predicate LinesFit(t: seq<byte>, n: nat)
    decreases |t|
  {
    if t == [] then n <= MAX_LINE
    else if StartsWith(t, CRLF) then n <= MAX_LINE && LinesFit(t[2..], 0)
    else LinesFit(t[1..], n + 1)
  }

  lemma FitCrlf(t: seq<byte>, n: nat)
    ensures LinesFit(CRLF + t, n) <==> n <= MAX_LINE && LinesFit(t, 0)
  {
    assert (CRLF + t)[..2] == CRLF && (CRLF + t)[2..] == t;
  }

  lemma FitChar(c: byte, t: seq<byte>, n: nat)
    requires c != CR
    ensures LinesFit([c] + t, n) <==> LinesFit(t, n + 1)
  {
    var u := [c] + t;
    assert u[1..] == t;
    assert !StartsWith(u, CRLF) by {
      assert |u| >= 2 ==> u[..2][0] == c;
    }
  }
}
