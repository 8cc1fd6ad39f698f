/** Line framing: what write_line puts on the wire for a line (`line + "\n"`) and what
    std::getline takes out of the input buffer (the bytes before the first '\n', dropping
    that delimiter, or everything when no delimiter is buffered). */
module Framing {

  const Newline: char := '\n'

  /** The position of the first delimiter in `s`, or |s| when there is none. */
  function FindNewline(s: seq<char>): (i: nat)
    ensures i <= |s|
    ensures Newline !in s[..i]
    ensures i < |s| ==> s[i] == Newline
    ensures i == |s| <==> Newline !in s
  {
    if s == [] then 0
    else if s[0] == Newline then 0
    else
      var j := FindNewline(s[1..]);
      assert s[..j + 1] == [s[0]] + s[1..][..j];
      j + 1
  }

  /** std::getline on the input buffer: the extracted line and what stays buffered. */
  function GetLine(buffer: seq<char>): (r: (seq<char>, seq<char>))
    ensures Newline !in r.0
    ensures Newline in buffer ==> r.0 + [Newline] + r.1 == buffer
    ensures Newline !in buffer ==> r.0 == buffer && r.1 == []
  {
    var i := FindNewline(buffer);
    if i < |buffer| then
      assert buffer == buffer[..i] + [Newline] + buffer[i + 1..];
      (buffer[..i], buffer[i + 1..])
    else (buffer, [])
  }

  /** The bytes write_line hands to async_write for `line`. */
  function Frame(line: seq<char>): seq<char> {
    line + [Newline]
  }

  /** A delimiter-free prefix before the first delimiter is determined by the sequence. */
  lemma SplitUnique(a: seq<char>, b: seq<char>, c: seq<char>, d: seq<char>)
    requires Newline !in a && Newline !in c
    requires a + [Newline] + b == c + [Newline] + d
    ensures a == c && b == d
  {
    var s := a + [Newline] + b;
    assert forall k :: 0 <= k < |a| ==> s[k] == a[k];
    assert forall k :: 0 <= k < |c| ==> s[k] == c[k];
    assert s[|a|] == Newline && s[|c|] == Newline;
    assert |a| == |c|;
    assert a == s[..|a|] && c == s[..|c|];
    assert b == s[|a| + 1..] && d == s[|c| + 1..];
  }

  /** Reading back a framed line: with `pending` (delimiter-free bytes already buffered)
      in front of the frame of `line` and anything after it, getline returns the pending
      bytes followed by the line and leaves exactly the bytes after the frame buffered. */
  lemma FrameRoundTrip(pending: seq<char>, line: seq<char>, rest: seq<char>)
    requires Newline !in pending && Newline !in line
    ensures GetLine(pending + Frame(line) + rest) == (pending + line, rest)
  {
    var buffer := pending + Frame(line) + rest;
    assert buffer == (pending + line) + [Newline] + rest;
    assert buffer[|pending + line|] == Newline;
    var r := GetLine(buffer);
    SplitUnique(r.0, r.1, pending + line, rest);
  }
}
