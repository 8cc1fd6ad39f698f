/** Serial passthrough cleaning: receiveSerial takes the first line of what it read and
    applies boost::erase_all(data, "\x01U") to it.  In that C++ literal 'U' is not a hex
    digit, so the marker is the two bytes 0x01, 'U'. */
module Serial {
  import opened Framing

  const Soh: char := 1 as char
  const Marker: seq<char> := [Soh, 'U']

  /** erase_all: the occurrences of the marker found scanning the ORIGINAL string from the
      left, without overlap, are removed; the output is not scanned again. */
  function EraseMarkers(s: seq<char>): (r: seq<char>)
    ensures |r| <= |s| && (|s| - |r|) % 2 == 0
    ensures forall c :: c in r ==> c in s
    ensures Soh !in s ==> r == s
  {
    if |s| < 2 then s
    else if s[0] == Soh && s[1] == 'U' then
      var r := EraseMarkers(s[2..]);
      assert s == [s[0], s[1]] + s[2..];
      r
    else
      var r := EraseMarkers(s[1..]);
      assert s == [s[0]] + s[1..];
      [s[0]] + r
  }

  /** Text without 0x01 in front of the rest passes through erase_all untouched: no marker
      can start inside it or at its boundary. */
  lemma {:induction false} EraseMarkersAfterClean(a: seq<char>, s: seq<char>)
    requires Soh !in a
    ensures EraseMarkers(a + s) == a + EraseMarkers(s)
    decreases |a|
  {
    if a != [] {
      var t := a + s;
      assert t[0] == a[0] && a[0] != Soh;
      assert t[1..] == a[1..] + s;
      EraseMarkersAfterClean(a[1..], s);
      assert a == [a[0]] + a[1..];
    } else {
      assert a + s == s;
    }
  }

  /** Clean pieces of text joined with the marker between them, as a serial line may carry
      them: erase_all gives back exactly the pieces run together. */
  function JoinWithMarkers(pieces: seq<seq<char>>): seq<char> {
    if pieces == [] then []
    else if |pieces| == 1 then pieces[0]
    else pieces[0] + Marker + JoinWithMarkers(pieces[1..])
  }

  function Concat(pieces: seq<seq<char>>): seq<char> {
    if pieces == [] then [] else pieces[0] + Concat(pieces[1..])
  }

  lemma {:induction false} EraseJoinedMarkers(pieces: seq<seq<char>>)
    requires forall i :: 0 <= i < |pieces| ==> Soh !in pieces[i]
    ensures EraseMarkers(JoinWithMarkers(pieces)) == Concat(pieces)
    decreases |pieces|
  {
    if |pieces| == 1 {
      assert Concat(pieces) == pieces[0] + Concat([]);
    } else if |pieces| > 1 {
      var tail := JoinWithMarkers(pieces[1..]);
      var m := Marker + tail;
      assert m[0] == Soh && m[1] == 'U' && m[2..] == tail;
      assert EraseMarkers(m) == EraseMarkers(tail);
      assert JoinWithMarkers(pieces) == pieces[0] + m;
      EraseMarkersAfterClean(pieces[0], m);
      EraseJoinedMarkers(pieces[1..]);
    }
  }

  /** erase_all does not rescan its output: two interleaved markers leave one behind, so
      the result may still contain the marker and a second pass would change it. */
  lemma MarkerCanSurvive()
    ensures EraseMarkers([Soh, Soh, 'U', 'U']) == Marker
    ensures EraseMarkers(Marker) == []
  {
    var s := [Soh, Soh, 'U', 'U'];
    assert s[1..] == [Soh, 'U', 'U'] && [Soh, 'U', 'U'][2..] == ['U'];
    assert EraseMarkers(['U']) == ['U'];
    assert EraseMarkers([Soh, 'U', 'U']) == ['U'];
    assert Marker[2..] == [];
  }

  /** What receiveSerial returns for the bytes its local buffer read: the first line with
      the markers erased.  Its length is what it stores through `size`. */
  function CleanSerialLine(received: seq<char>): (r: seq<char>)
    ensures var line := GetLine(received).0;
      |r| <= |line| && (|line| - |r|) % 2 == 0 && (Soh !in line ==> r == line)
    ensures Newline !in r
  {
    var line := GetLine(received).0;
    var r := EraseMarkers(line);
    r
  }

  /** A serial reply that opens with the marker: 0x01 'U' "hello" '\n' comes back "hello". */
  lemma CleanSerialHello()
    ensures CleanSerialLine(Marker + "hello" + [Newline]) == "hello"
  {
    var text := "hello";
    var line := Marker + text;
    FrameRoundTrip([], line, []);
    assert [] + Frame(line) + [] == Marker + text + [Newline];
    assert line[0] == Soh && line[1] == 'U' && line[2..] == text;
  }
}
