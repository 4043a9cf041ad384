/** The edge-list file as the loader sees it: lines that are either comments
    or, when two integers can be extracted from their front, directed edges. */
module Input {

  datatype Option<T> = None | Some(value: T)

  /** A directed edge u -> v, between external ids or between internal ids. */
  datatype Edge = Edge(u: int, v: int)

  /** One line of the file: its text, and what extracting two integers from
      the front of that text yields (None when the extraction fails). Tokens
      after the second integer are not looked at, so a line with trailing
      tokens still yields its first two integers. */
  datatype Line = Line(text: string, extracted: Option<Edge>)

  /** Empty lines and lines whose first character is '#' are skipped
      before any extraction is tried. */
  predicate IsComment(l: Line)
  {
    |l.text| == 0 || l.text[0] == '#'
  }

  /** A line that counts as an edge. */
  predicate IsEdgeLine(l: Line)
  {
    !IsComment(l) && l.extracted.Some?
  }

  /** The edges of the file, in file order: one per edge line, duplicates kept. */
  function Accepted(lines: seq<Line>): (es: seq<Edge>)
    ensures |es| <= |lines|
    decreases |lines|
  {
    if lines == [] then []
    else
      var last := lines[|lines| - 1];
      var rest := Accepted(lines[..|lines| - 1]);
      if IsEdgeLine(last) then rest + [last.extracted.value] else rest
  }

  /** The accepted edges are exactly the edges of the edge lines. */
  lemma {:induction false} AcceptedMembers(lines: seq<Line>)
    ensures forall i :: 0 <= i < |lines| && IsEdgeLine(lines[i]) ==> lines[i].extracted.value in Accepted(lines)
    ensures forall e :: e in Accepted(lines) ==>
              exists i :: 0 <= i < |lines| && IsEdgeLine(lines[i]) && lines[i].extracted == Some(e)
    decreases |lines|
  {
    if lines != [] {
      var init := lines[..|lines| - 1];
      var last := lines[|lines| - 1];
      AcceptedMembers(init);
      assert forall i :: 0 <= i < |init| ==> init[i] == lines[i];
      forall e | e in Accepted(lines)
        ensures exists i :: 0 <= i < |lines| && IsEdgeLine(lines[i]) && lines[i].extracted == Some(e)
      {
        if e in Accepted(init) {
          var i :| 0 <= i < |init| && IsEdgeLine(init[i]) && init[i].extracted == Some(e);
          assert lines[i] == init[i];
        } else {
          assert IsEdgeLine(last) && e == last.extracted.value;
          assert lines[|lines| - 1] == last;
        }
      }
    }
  }

  /** Reading one more line extends the accepted edges by at most that line's edge. */
  lemma AcceptedSnoc(lines: seq<Line>, i: nat)
    requires i < |lines|
    ensures Accepted(lines[..i + 1]) ==
              Accepted(lines[..i]) + (if IsEdgeLine(lines[i]) then [lines[i].extracted.value] else [])
  {
    assert lines[..i + 1][..i] == lines[..i];
  }

  /** Accepting a file in two pieces gives the two pieces' edges in order. */
  lemma {:induction false} AcceptedAppend(a: seq<Line>, b: seq<Line>)
    ensures Accepted(a + b) == Accepted(a) + Accepted(b)
    decreases |b|
  {
    if b == [] {
      assert a + b == a;
    } else {
      var b' := b[..|b| - 1];
      assert (a + b)[..|a + b| - 1] == a + b';
      AcceptedAppend(a, b');
    }
  }

  /** The edges accepted from a prefix of the file are a prefix of all its edges. */
  lemma AcceptedPrefix(lines: seq<Line>, i: nat)
    requires i <= |lines|
    ensures |Accepted(lines[..i])| <= |Accepted(lines)|
    ensures Accepted(lines)[..|Accepted(lines[..i])|] == Accepted(lines[..i])
  {
    assert lines == lines[..i] + lines[i..];
    AcceptedAppend(lines[..i], lines[i..]);
  }
}
