/**
 * The debug helpers: the centring of `log_header` banners and the
 * fixed-size `DebugTag` label. Stream output, colours and the log file are
 * not modelled; `LogHeader` returns the text the banner would show.
 */
module Debug {

  /** The width a header message is centred in. */
  const TotalWidth: nat := 50

  /** The `#` border printed above and below a header. */
  const BorderWidth: nat := 56

  function Max(a: nat, b: nat): nat {
    if a >= b then a else b
  }

  /** The left (and base right) padding of a message of length `len`. */
  function Padding(len: nat): (p: nat)
    ensures len < TotalWidth ==> len + 2 * p <= TotalWidth <= len + 2 * p + 1
    ensures len >= TotalWidth ==> p == 0
  {
    if TotalWidth > len then (TotalWidth - len) / 2 else 0
  }

  function Spaces(n: nat): string {
    seq(n, _ => ' ')
  }

  predicate AllSpaces(s: string) {
    forall i :: 0 <= i < |s| ==> s[i] == ' '
  }

  /**
   * The centring in `log_header`: equal padding on both sides, then one more
   * space on the right when the result is still narrower than 50. The
   * message stands for the bytes of the `std::string`, one `char` per byte,
   * so `|message|` is the byte count that `length()` returns.
   */
  method CenterHeader(message: string) returns (padded: string)
    requires forall i :: 0 <= i < |message| ==> message[i] as int < 256
    ensures |padded| == Max(TotalWidth, |message|)
    ensures padded[..Padding(|message|)] == Spaces(Padding(|message|))
    ensures padded[Padding(|message|)..Padding(|message|) + |message|] == message
    ensures AllSpaces(padded[Padding(|message|) + |message|..])
    ensures var right := |padded| - |message| - Padding(|message|);
      right == Padding(|message|) || right == Padding(|message|) + 1
  {
    var padding := Padding(|message|);
    padded := Spaces(padding) + message + Spaces(padding);
    if |padded| < TotalWidth {
      padded := padded + " ";
    }
    assert padded[..padding] == Spaces(padding);
    assert padded[padding..padding + |message|] == message;
  }

  /** The three banner lines of `log_header`. */
  method LogHeader(message: string) returns (lines: seq<string>)
    requires forall i :: 0 <= i < |message| ==> message[i] as int < 256
    ensures |lines| == 3
    ensures lines[0] == lines[2] == seq(BorderWidth, _ => '#')
    ensures |lines[1]| == Max(TotalWidth, |message|) + 6
    ensures |message| <= TotalWidth <==> |lines[1]| == BorderWidth
    ensures lines[1][..3] == "## " && lines[1][|lines[1]| - 3..] == " ##"
    ensures lines[1][3 + Padding(|message|)..3 + Padding(|message|) + |message|] == message
    ensures AllSpaces(lines[1][3..3 + Padding(|message|)])
    ensures AllSpaces(lines[1][3 + Padding(|message|) + |message|..|lines[1]| - 3])
  {
    var padded := CenterHeader(message);
    var border := seq(BorderWidth, _ => '#');
    lines := [border, "## " + padded + " ##", border];
    var p := Padding(|message|);
    assert lines[1][3 + p..3 + p + |message|] == padded[p..p + |message|];
    assert lines[1][3..3 + p] == padded[..p];
    assert lines[1][3 + p + |message|..|lines[1]| - 3] == padded[p + |message|..];
  }

  /**
   * `DebugTag<CharCount>`: a zero-filled array of `CharCount` characters
   * into which the constructor copies the literal it is given; the
   * literal's type fixes its length, terminator included, at `CharCount`.
   */
  class DebugTag {
    const charCount: nat
    const tag: array<char>

    constructor (charCount: nat, str: seq<char>)
      requires |str| == charCount
      ensures this.charCount == charCount && tag.Length == charCount && fresh(tag)
      ensures tag[..] == str
    {
      this.charCount := charCount;
      var t := new char[charCount](_ => '\0');
      for i := 0 to charCount
        invariant forall j :: 0 <= j < i ==> t[j] == str[j]
      {
        t[i] := str[i];
      }
      tag := t;
      new;
      assert tag[..] == str;
    }
  }
}
