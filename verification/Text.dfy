/** Text operations the scripts use: Python slicing with non-negative bounds,
    `" " * n`, and the UTF-8 encoding of ASCII text. */
module Text {

  function Min(a: nat, b: nat): nat {
    if a <= b then a else b
  }

  /** Python `s[start:stop]` with non-negative bounds: both bounds are clamped to
      `len(s)`, and the slice is empty unless the clamped start lies below the
      clamped stop. It never fails. */
  function Slice<T>(s: seq<T>, start: nat, stop: nat): (r: seq<T>)
    ensures |r| == if start < stop && start < |s| then Min(stop, |s|) - start else 0
    ensures forall k :: 0 <= k < |r| ==> r[k] == s[start + k]
  {
    var lo := Min(start, |s|);
    var hi := Min(stop, |s|);
    if lo < hi then s[lo..hi] else []
  }

  /** Python `" " * n`. */
  function Spaces(n: nat): (r: string)
    ensures |r| == n
    ensures forall k :: 0 <= k < n ==> r[k] == ' '
  {
    if n == 0 then "" else " " + Spaces(n - 1)
  }

  /** The number of spaces a line starts with. */
  function LeadingSpaces(line: string): (r: nat)
    ensures r <= |line|
    ensures forall k :: 0 <= k < r ==> line[k] == ' '
    ensures r < |line| ==> line[r] != ' '
  {
    if |line| > 0 && line[0] == ' ' then 1 + LeadingSpaces(line[1..]) else 0
  }

  /** Reading the indentation back: `" " * n + text` starts with exactly `n`
      spaces whenever `text` does not itself start with a space. */
  lemma LeadingSpacesOfIndented(n: nat, text: string)
    requires |text| == 0 || text[0] != ' '
    ensures LeadingSpaces(Spaces(n) + text) == n
    ensures (Spaces(n) + text)[n..] == text
  {
  }

  type byte = x: int | 0 <= x < 256

  predicate IsAscii(s: string) {
    forall i :: 0 <= i < |s| ==> s[i] as int < 128
  }

  /** `s.encode('utf8')` for ASCII text: one byte per character, equal to its
      code point. */
  function EncodeAscii(s: string): (r: seq<byte>)
    requires IsAscii(s)
    ensures |r| == |s|
    ensures forall i :: 0 <= i < |s| ==> r[i] == s[i] as int
  {
    seq(|s|, i requires 0 <= i < |s| => s[i] as int)
  }

  /** For ASCII text the parser's byte offsets are character offsets: slicing the
      encoded bytes gives the encoding of the same slice of the string. */
  lemma AsciiSliceAgrees(s: string, start: nat, stop: nat)
    requires IsAscii(s)
    ensures IsAscii(Slice(s, start, stop))
    ensures EncodeAscii(Slice(s, start, stop)) == Slice(EncodeAscii(s), start, stop)
  {
  }
}
