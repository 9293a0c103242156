/** Decoding of `\xHH` character escapes in a user-supplied output format,
    done in `Status.format_results` with one `re.sub` over `_HEX_RE`.

    The regular expression is `\\x([0-9a-fA-f]{2})`. Its last range runs
    from 'A' up to lower-case 'f', so besides the hexadecimal digits it also
    admits 'G'..'Z' and the six characters between 'Z' and 'a'. A match on
    one of those reaches `int(..., 16)`, which raises. Two decoders are
    modelled: `DecodeHexEscapesAsWritten`, which follows the expression as
    written and reports that exception as an error, and `DecodeHexEscapes`,
    which follows the evidently intended class `[0-9a-fA-F]` and is what the
    rest of the model uses. */
module HexEscapes {
  import opened Wrappers

  /** `int(literal, 16)` raising `ValueError`. */
  datatype DecodeError = InvalidHexLiteral(literal: string)

  predicate IsHexDigit(c: char) {
    '0' <= c <= '9' || 'a' <= c <= 'f' || 'A' <= c <= 'F'
  }

  /** Membership in the character class `[0-9a-fA-f]` as written. */
  predicate InWrittenClass(c: char) {
    '0' <= c <= '9' || 'a' <= c <= 'f' || 'A' <= c <= 'f'
  }

  function HexValue(c: char): (v: nat)
    requires IsHexDigit(c)
    ensures v < 16
  {
    if '0' <= c <= '9' then c as int - '0' as int
    else if 'a' <= c <= 'f' then c as int - 'a' as int + 10
    else c as int - 'A' as int + 10
  }

  /** The lower-case hexadecimal digit of a value below 16. */
  function HexDigit(v: nat): (c: char)
    requires v < 16
    ensures IsHexDigit(c) && HexValue(c) == v
  {
    if v < 10 then ('0' as int + v) as char else ('a' as int + v - 10) as char
  }

  /** `s` begins with a backslash, `x` and two hexadecimal digits. */
  predicate StartsWithEscape(s: string) {
    |s| >= 4 && s[0] == '\\' && s[1] == 'x' && IsHexDigit(s[2]) && IsHexDigit(s[3])
  }

  /** `s` begins with a match of the expression as written. */
  predicate StartsWithWrittenMatch(s: string) {
    |s| >= 4 && s[0] == '\\' && s[1] == 'x' && InWrittenClass(s[2]) && InWrittenClass(s[3])
  }

  /** `chr(int(HH, 16))` for the escape at the head of `s`. */
  function EscapedChar(s: string): char
    requires StartsWithEscape(s)
  {
    (16 * HexValue(s[2]) + HexValue(s[3])) as char
  }

  /** One left-to-right pass: an escape becomes its character and the scan
      resumes after it; any other character is kept. */
  function DecodeHexEscapes(s: string): (r: string)
    ensures |r| <= |s|
    decreases |s|
  {
    if |s| == 0 then ""
    else if StartsWithEscape(s) then [EscapedChar(s)] + DecodeHexEscapes(s[4..])
    else [s[0]] + DecodeHexEscapes(s[1..])
  }

  /** The same pass over the class as written: the leftmost match whose two
      characters are not both hexadecimal digits aborts the substitution. */
  function DecodeHexEscapesAsWritten(s: string): (r: Result<string, DecodeError>)
    ensures r.Ok? ==> |r.value| <= |s|
    ensures r.Err? ==> exists i :: 0 <= i < |s| && StartsWithWrittenMatch(s[i..]) && !StartsWithEscape(s[i..])
    decreases |s|
  {
    if |s| == 0 then Ok("")
    else if StartsWithWrittenMatch(s) then
      if IsHexDigit(s[2]) && IsHexDigit(s[3]) then
        match DecodeHexEscapesAsWritten(s[4..])
        case Ok(t) => Ok([EscapedChar(s)] + t)
        case Err(e) => Err(e)
      else
        assert s[0..] == s;
        Err(InvalidHexLiteral(s[2..4]))
    else
      match DecodeHexEscapesAsWritten(s[1..])
      case Ok(t) => Ok([s[0]] + t)
      case Err(e) => Err(e)
  }

  /** Text with no escape anywhere is left as it is. */
  lemma {:induction false} NoEscapeUnchanged(s: string)
    requires forall i :: 0 <= i < |s| ==> !StartsWithEscape(s[i..])
    ensures DecodeHexEscapes(s) == s
  {
    if |s| > 0 {
      assert !StartsWithEscape(s[0..]);
      assert s[0..] == s;
      forall i | 0 <= i < |s[1..]| ensures !StartsWithEscape(s[1..][i..]) {
        assert s[1..][i..] == s[i + 1..];
      }
      NoEscapeUnchanged(s[1..]);
    }
  }

  /** The escape `\xHH` of a character below 256, with lower-case digits. */
  function Escape(c: char): (e: string)
    requires c as int < 256
    ensures |e| == 4 && StartsWithEscape(e)
  {
    ['\\', 'x', HexDigit(c as int / 16), HexDigit(c as int % 16)]
  }

  predicate AllBelow256(s: string) {
    forall i :: 0 <= i < |s| ==> s[i] as int < 256
  }

  function EscapeAll(s: string): (e: string)
    requires AllBelow256(s)
    ensures |e| == 4 * |s|
  {
    if |s| == 0 then "" else Escape(s[0]) + EscapeAll(s[1..])
  }

  /** A decoded character is never rescanned: the text after an escape is
      decoded on its own, even when the escape stands for a backslash. */
  lemma EscapeNotRescanned(c: char, t: string)
    requires c as int < 256
    ensures DecodeHexEscapes(Escape(c) + t) == [c] + DecodeHexEscapes(t)
  {
    var s := Escape(c) + t;
    assert s[..4] == Escape(c);
    assert s[4..] == t;
    assert EscapedChar(s) == c;
  }

  /** Concretely: `\x5cx41` decodes to the four characters `\x41`. */
  lemma BackslashEscapeExample()
    ensures DecodeHexEscapes("\\x5cx41") == "\\x41"
  {
    assert Escape('\\') == "\\x5c";
    assert "\\x5cx41" == Escape('\\') + "x41";
    EscapeNotRescanned('\\', "x41");
    forall i | 0 <= i < |"x41"| ensures !StartsWithEscape("x41"[i..]) {
    }
    NoEscapeUnchanged("x41");
  }

  /** Escaping every character and decoding gives the text back. */
  lemma {:induction false} EscapeAllRoundTrip(s: string)
    requires AllBelow256(s)
    ensures DecodeHexEscapes(EscapeAll(s)) == s
  {
    if |s| > 0 {
      EscapeNotRescanned(s[0], EscapeAll(s[1..]));
      EscapeAllRoundTrip(s[1..]);
    }
  }

  /** Wherever the expression as written does not abort, it computes what
      the intended expression computes. */
  lemma {:induction false} WrittenAgreesWhenOk(s: string)
    requires DecodeHexEscapesAsWritten(s).Ok?
    ensures DecodeHexEscapesAsWritten(s).value == DecodeHexEscapes(s)
    decreases |s|
  {
    if |s| > 0 {
      if StartsWithWrittenMatch(s) {
        WrittenAgreesWhenOk(s[4..]);
      } else {
        WrittenAgreesWhenOk(s[1..]);
      }
    }
  }

  /** The expression as written succeeds on every text in which each of its
      matches is a genuine hexadecimal escape. */
  lemma {:induction false} WrittenOkWithoutMalformedEscape(s: string)
    requires forall i :: 0 <= i < |s| && StartsWithWrittenMatch(s[i..]) ==> StartsWithEscape(s[i..])
    ensures DecodeHexEscapesAsWritten(s) == Ok(DecodeHexEscapes(s))
    decreases |s|
  {
    if |s| > 0 {
      assert s[0..] == s;
      var k := if StartsWithWrittenMatch(s) then 4 else 1;
      forall i | 0 <= i < |s[k..]| && StartsWithWrittenMatch(s[k..][i..])
        ensures StartsWithEscape(s[k..][i..])
      {
        assert s[k..][i..] == s[i + k..];
      }
      WrittenOkWithoutMalformedEscape(s[k..]);
    }
  }

  /** Every match of the class as written that is not a hexadecimal escape
      (`\xG0`, `\x_0`, `\x4\`, ...) makes the substitution fail, wherever
      it lies in the text. */
  lemma {:induction false} MalformedMatchFails(s: string, i: nat)
    requires i < |s| && StartsWithWrittenMatch(s[i..]) && !StartsWithEscape(s[i..])
    ensures DecodeHexEscapesAsWritten(s).Err?
    decreases |s|
  {
    if StartsWithWrittenMatch(s) {
      if IsHexDigit(s[2]) && IsHexDigit(s[3]) {
        // A match at 1, 2 or 3 would need a backslash where `x` or a digit stands.
        assert i != 0 && s[i] == '\\';
        assert i >= 4;
        assert s[4..][i - 4..] == s[i..];
        MalformedMatchFails(s[4..], i - 4);
      }
    } else {
      assert i != 0 by { assert s[0..] == s; }
      assert s[1..][i - 1..] == s[i..];
      MalformedMatchFails(s[1..], i - 1);
    }
  }

  /** The typo in the class: `\xG0` makes the substitution raise, where the
      intended expression would not match and would keep the text. */
  lemma WrittenClassAdmitsNonHex()
    ensures InWrittenClass('G') && !IsHexDigit('G')
    ensures DecodeHexEscapesAsWritten("\\xG0") == Err(InvalidHexLiteral("G0"))
    ensures DecodeHexEscapes("\\xG0") == "\\xG0"
  {
    var s := "\\xG0";
    assert StartsWithWrittenMatch(s) && !IsHexDigit(s[2]);
    assert s[2..4] == "G0";
    forall i | 0 <= i < |s| ensures !StartsWithEscape(s[i..]) {
    }
    NoEscapeUnchanged(s);
  }
}
