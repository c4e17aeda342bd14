/** Parsing the output of `mount`, as `find_device` does it on bytes:
    `splitlines()` cuts the output into lines and `split()` cuts a line into
    whitespace-separated fields, of which the third is the mount point. */
module MountTable {
  import opened Wrappers

  newtype byte = x: int | 0 <= x < 256

  const LF: byte := 10
  const CR: byte := 13
  const Space: byte := 32

  /** The line boundaries of `bytes.splitlines()`: `\n`, `\r` (and `\r\n`). */
  predicate IsLineBreak(b: byte) {
    b == LF || b == CR
  }

  /** The ASCII whitespace of `bytes.split()`: `\t \n \v \f \r` and space. */
  predicate IsWhitespace(b: byte) {
    b == Space || 9 <= b <= 13
  }

  predicate NoLineBreak(s: seq<byte>) {
    forall i :: 0 <= i < |s| ==> !IsLineBreak(s[i])
  }

  predicate NoWhitespace(s: seq<byte>) {
    forall i :: 0 <= i < |s| ==> !IsWhitespace(s[i])
  }

  /** The length of the run before the first line break. */
  function LineLength(b: seq<byte>): (n: nat)
    ensures n <= |b| && NoLineBreak(b[..n])
    ensures n < |b| ==> IsLineBreak(b[n])
  {
    if |b| == 0 || IsLineBreak(b[0]) then 0
    else
      var n := 1 + LineLength(b[1..]);
      assert b[..n] == [b[0]] + b[1..][..n - 1];
      n
  }

  /** `bytes.splitlines()`: no trailing empty line after a final break, and
      `\r\n` counts as one break. */
  function SplitLines(b: seq<byte>): (lines: seq<seq<byte>>)
    ensures forall i :: 0 <= i < |lines| ==> NoLineBreak(lines[i])
    decreases |b|
  {
    if |b| == 0 then []
    else
      var n := LineLength(b);
      if n == |b| then [b]
      else
        var next := if b[n] == CR && n + 1 < |b| && b[n + 1] == LF then n + 2 else n + 1;
        [b[..n]] + SplitLines(b[next..])
  }

  /** The length of the run before the first whitespace byte. */
  function WordLength(b: seq<byte>): (n: nat)
    ensures n <= |b| && NoWhitespace(b[..n])
    ensures n < |b| ==> IsWhitespace(b[n])
  {
    if |b| == 0 || IsWhitespace(b[0]) then 0
    else
      var n := 1 + WordLength(b[1..]);
      assert b[..n] == [b[0]] + b[1..][..n - 1];
      n
  }

  /** `bytes.split()` with no separator: the maximal runs of non-whitespace. */
  function Fields(line: seq<byte>): (fs: seq<seq<byte>>)
    ensures forall i :: 0 <= i < |fs| ==> 0 < |fs[i]| && NoWhitespace(fs[i])
    decreases |line|
  {
    if |line| == 0 then []
    else if IsWhitespace(line[0]) then Fields(line[1..])
    else
      var n := WordLength(line);
      [line[..n]] + Fields(line[n..])
  }

  /** `line.split()[2]`, the mount point of a `mount` line; `None` is the
      `IndexError` a line with fewer than three fields raises. */
  function MountPoint(line: seq<byte>): (r: Option<seq<byte>>)
    ensures r.Some? <==> |Fields(line)| >= 3
    ensures r.Some? ==> 0 < |r.value| && NoWhitespace(r.value)
  {
    var fs := Fields(line);
    if |fs| < 3 then None else Some(fs[2])
  }

  // ---------------------------------------------------------------------
  // Inverse views: building output back from lines and fields
  // ---------------------------------------------------------------------

  /** Every line followed by the terminator `eol`. */
  function Terminated(lines: seq<seq<byte>>, eol: seq<byte>): seq<byte> {
    if |lines| == 0 then [] else lines[0] + eol + Terminated(lines[1..], eol)
  }

  predicate IsLineEnding(eol: seq<byte>) {
    eol == [LF] || eol == [CR] || eol == [CR, LF]
  }

  lemma LineLengthOfBreakFree(line: seq<byte>, rest: seq<byte>)
    requires NoLineBreak(line) && 0 < |rest| && IsLineBreak(rest[0])
    ensures LineLength(line + rest) == |line|
  {
    assert forall i :: 0 <= i < |line| ==> (line + rest)[i] == line[i];
    assert (line + rest)[|line|] == rest[0];
  }

  /** Splitting a terminated list of break-free lines gives the lines back. */
  lemma {:induction false} SplitLinesOfTerminated(lines: seq<seq<byte>>, eol: seq<byte>)
    requires IsLineEnding(eol)
    requires forall i :: 0 <= i < |lines| ==> NoLineBreak(lines[i])
    ensures SplitLines(Terminated(lines, eol)) == lines
    decreases |lines|
  {
    if 0 < |lines| {
      var l, rest := lines[0], Terminated(lines[1..], eol);
      var b := Terminated(lines, eol);
      assert b == l + (eol + rest);
      LineLengthOfBreakFree(l, eol + rest);
      var n := |l|;
      assert b[..n] == l;
      var next := if b[n] == CR && n + 1 < |b| && b[n + 1] == LF then n + 2 else n + 1;
      if eol == [CR] && n + 1 < |b| {
        assert b[n + 1] == rest[0];
        if 0 < |lines[1]| {
          assert rest[0] == lines[1][0];
        } else {
          assert rest[0] == CR;
        }
      }
      assert next == n + |eol|;
      assert b[next..] == rest;
      SplitLinesOfTerminated(lines[1..], eol);
    }
  }

  /** Every word followed by its own whitespace run `seps[i]`. */
  function Spaced(words: seq<seq<byte>>, seps: seq<seq<byte>>): seq<byte>
    requires |seps| == |words|
  {
    if |words| == 0 then [] else words[0] + seps[0] + Spaced(words[1..], seps[1..])
  }

  predicate IsSeparator(sep: seq<byte>) {
    0 < |sep| && forall i :: 0 <= i < |sep| ==> IsWhitespace(sep[i])
  }

  lemma {:induction false} FieldsSkipWhitespace(ws: seq<byte>, rest: seq<byte>)
    requires forall i :: 0 <= i < |ws| ==> IsWhitespace(ws[i])
    ensures Fields(ws + rest) == Fields(rest)
    decreases |ws|
  {
    if 0 < |ws| {
      assert (ws + rest)[0] == ws[0];
      assert (ws + rest)[1..] == ws[1..] + rest;
      FieldsSkipWhitespace(ws[1..], rest);
    } else {
      assert ws + rest == rest;
    }
  }

  lemma WordLengthOfWord(word: seq<byte>, rest: seq<byte>)
    requires NoWhitespace(word)
    requires 0 < |rest| && IsWhitespace(rest[0])
    ensures WordLength(word + rest) == |word|
  {
    assert forall i :: 0 <= i < |word| ==> (word + rest)[i] == word[i];
    assert (word + rest)[|word|] == rest[0];
  }

  /** A field followed by whitespace is the first field. */
  lemma FieldsOfWord(word: seq<byte>, rest: seq<byte>)
    requires 0 < |word| && NoWhitespace(word)
    requires 0 < |rest| && IsWhitespace(rest[0])
    ensures Fields(word + rest) == [word] + Fields(rest)
  {
    WordLengthOfWord(word, rest);
    var b := word + rest;
    assert b[..|word|] == word;
    assert b[|word|..] == rest;
  }

  /** Splitting space-separated fields gives the fields back. */
  lemma {:induction false} FieldsOfSpaced(words: seq<seq<byte>>, seps: seq<seq<byte>>)
    requires |seps| == |words|
    requires forall i :: 0 <= i < |seps| ==> IsSeparator(seps[i])
    requires forall i :: 0 <= i < |words| ==> 0 < |words[i]| && NoWhitespace(words[i])
    ensures Fields(Spaced(words, seps)) == words
    decreases |words|
  {
    if 0 < |words| {
      var sep := seps[0];
      var rest := Spaced(words[1..], seps[1..]);
      assert Spaced(words, seps) == words[0] + (sep + rest);
      FieldsOfWord(words[0], sep + rest);
      FieldsSkipWhitespace(sep, rest);
      FieldsOfSpaced(words[1..], seps[1..]);
    }
  }

  /** On a line shaped like `<device> on <mount point> <anything>`, the
      third field is the mount point. */
  lemma MountPointOfMountLine(device: seq<byte>, on: seq<byte>, point: seq<byte>, tail: seq<byte>)
    requires 0 < |device| && NoWhitespace(device)
    requires 0 < |on| && NoWhitespace(on)
    requires 0 < |point| && NoWhitespace(point)
    ensures MountPoint(device + [Space] + on + [Space] + point + [Space] + tail) == Some(point)
  {
    var t := [Space] + tail;
    var line := device + [Space] + on + [Space] + point + [Space] + tail;
    assert line == device + ([Space] + (on + ([Space] + (point + t))));
    FieldsOfWord(point, t);
    FieldsSkipWhitespace([Space], point + t);
    FieldsOfWord(on, [Space] + (point + t));
    FieldsSkipWhitespace([Space], on + ([Space] + (point + t)));
    FieldsOfWord(device, [Space] + (on + ([Space] + (point + t))));
  }
}
