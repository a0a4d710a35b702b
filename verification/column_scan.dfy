/** The last-column scan of `parse_file` in host.cpp.

    The scanner walks the file contents counting spaces. When the count
    reaches 5 it is reset, and the characters from just after that space up
    to (not including) the next carriage return are captured as one field.
    The do/while loop that finds the end of the field first steps onto the
    character after the space and only then looks one character ahead, so the
    carriage return that ends a field lies at least two places after the
    space. Spaces inside a captured field are skipped, not counted. When no
    carriage return follows, the source reads past the end of its buffer;
    here that outcome is `None`. Opening the file and `atof` are not
    modelled: the result is the captured text of each field. */
module ColumnScan {
  import opened Options

  /** Spaces before the captured column on a line. */
  const ColumnSpaces := 5

  /** The first carriage return at or after `from`, if any. */
  function NextReturn(c: seq<char>, from: nat): (r: Option<nat>)
    ensures r.Some? ==> from <= r.value < |c| && c[r.value] == '\r'
    ensures r.Some? ==> forall k :: from <= k < r.value ==> c[k] != '\r'
    ensures r.None? ==> forall k :: from <= k < |c| ==> c[k] != '\r'
    decreases |c| - from
  {
    if from >= |c| then None
    else if c[from] == '\r' then Some(from)
    else NextReturn(c, from + 1)
  }

  /** Prepends a captured field to the fields of the rest of the scan. */
  function Prepend(field: seq<char>, rest: Option<seq<seq<char>>>): Option<seq<seq<char>>>
  {
    match rest
    case None => None
    case Some(fields) => Some([field] + fields)
  }

  /** The scan of `c` with `spaces` spaces already counted. Every captured
      field is non-empty and holds no carriage return after its first
      character. */
  function Scan(c: seq<char>, spaces: nat): (r: Option<seq<seq<char>>>)
    requires spaces < ColumnSpaces
    ensures r.Some? ==> forall i :: 0 <= i < |r.value| ==> |r.value[i]| >= 1
    ensures r.Some? ==> forall i, k :: 0 <= i < |r.value| && 1 <= k < |r.value[i]| ==>
                          r.value[i][k] != '\r'
    decreases |c|
  {
    if |c| == 0 then Some([])
    else
      var counted := if c[0] == ' ' then spaces + 1 else spaces;
      if counted == ColumnSpaces then
        match NextReturn(c, 2)
        case None => None
        case Some(j) => Prepend(c[1..j], Scan(c[j..], 0))
      else
        Scan(c[1..], counted)
  }

  /** The spaces of `c` are those before position `j` and those from it on;
      the first character counts one when it is a space. */
  lemma SpaceCount(c: seq<char>, j: nat)
    requires 1 <= j <= |c|
    ensures multiset(c)[' '] >= multiset(c[j..])[' '] + (if c[0] == ' ' then 1 else 0)
  {
    assert c == [c[0]] + c[1..j] + c[j..];
  }

  /** Each captured field uses up five counted spaces: the scan yields at
      most as many fields as a fifth of the spaces it counts, those already
      counted included. */
  lemma {:induction false} ScanSpendsFiveSpaces(c: seq<char>, spaces: nat)
    requires spaces < ColumnSpaces
    ensures var r := Scan(c, spaces);
      r.Some? ==> ColumnSpaces * |r.value| <= spaces + multiset(c)[' ']
    decreases |c|
  {
    if |c| > 0 {
      var counted := if c[0] == ' ' then spaces + 1 else spaces;
      SpaceCount(c, 1);
      if counted == ColumnSpaces {
        match NextReturn(c, 2)
        case None =>
        case Some(j) =>
          SpaceCount(c, j);
          ScanSpendsFiveSpaces(c[j..], 0);
      } else {
        ScanSpendsFiveSpaces(c[1..], counted);
      }
    }
  }

  /** `parse_file`'s scan of a whole file: one field per time the space
      count reaches 5, or `None` when the source would read past the end. */
  function LastColumns(contents: seq<char>): Option<seq<seq<char>>>
  {
    Scan(contents, 0)
  }

  predicate NoSpace(w: seq<char>)
  {
    forall k :: 0 <= k < |w| ==> w[k] != ' '
  }

  predicate NoReturn(w: seq<char>)
  {
    forall k :: 0 <= k < |w| ==> w[k] != '\r'
  }

  /** A line of the data file: five leading columns separated by single
      spaces, then the value column, ended by a carriage return and a line
      feed. */
  datatype Line = Line(leading: seq<seq<char>>, value: seq<char>)

  /** The leading columns hold no space, and the value column is non-empty
      and holds no carriage return. */
  predicate WellFormedLine(l: Line)
  {
    && |l.leading| == ColumnSpaces
    && (forall i :: 0 <= i < |l.leading| ==> NoSpace(l.leading[i]))
    && |l.value| >= 1
    && NoReturn(l.value)
  }

  /** Each column followed by one space. */
  function Columns(cols: seq<seq<char>>): seq<char>
  {
    if |cols| == 0 then [] else cols[0] + ([' '] + Columns(cols[1..]))
  }

  function RenderLine(l: Line): seq<char>
  {
    Columns(l.leading) + l.value + ['\r', '\n']
  }

  function Render(lines: seq<Line>): seq<char>
  {
    if |lines| == 0 then [] else RenderLine(lines[0]) + Render(lines[1..])
  }

  function ValueColumn(lines: seq<Line>): seq<seq<char>>
  {
    if |lines| == 0 then [] else [lines[0].value] + ValueColumn(lines[1..])
  }

  /** A character other than a space leaves the count, and the fields, as
      they are. */
  lemma SkipChar(x: char, rest: seq<char>, spaces: nat)
    requires spaces < ColumnSpaces && x != ' '
    ensures Scan([x] + rest, spaces) == Scan(rest, spaces)
  {
    assert ([x] + rest)[1..] == rest;
  }

  /** A space below the fifth only moves the count on. */
  lemma SkipSpace(rest: seq<char>, spaces: nat)
    requires spaces + 1 < ColumnSpaces
    ensures Scan([' '] + rest, spaces) == Scan(rest, spaces + 1)
  {
    assert ([' '] + rest)[1..] == rest;
  }

  /** A word without spaces leaves the count, and the fields, as they are. */
  lemma {:induction false} SkipWord(w: seq<char>, rest: seq<char>, spaces: nat)
    requires spaces < ColumnSpaces && NoSpace(w)
    ensures Scan(w + rest, spaces) == Scan(rest, spaces)
    decreases |w|
  {
    if |w| == 0 {
      assert w + rest == rest;
    } else {
      assert w + rest == [w[0]] + (w[1..] + rest);
      SkipChar(w[0], w[1..] + rest, spaces);
      SkipWord(w[1..], rest, spaces);
    }
  }

  lemma ColumnsAppend(cols: seq<seq<char>>, tail: seq<char>)
    requires |cols| >= 1
    ensures Columns(cols) + tail == cols[0] + ([' '] + (Columns(cols[1..]) + tail))
    ensures |cols| == 1 ==> Columns(cols[1..]) + tail == tail
  {
    AppendAssoc(cols[0], [' '] + Columns(cols[1..]), tail);
    AppendAssoc([' '], Columns(cols[1..]), tail);
  }

  /** Concatenation is associative. Stated over an element type the solver
      knows nothing about, so that using it does not unfold `Columns`. */
  lemma AppendAssoc<T>(a: seq<T>, b: seq<T>, c: seq<T>)
    ensures (a + b) + c == a + (b + c)
  {
  }

  /** A space-free column and the space after it move the count on by one. */
  lemma SkipColumn(w: seq<char>, after: seq<char>, spaces: nat)
    requires spaces + 1 < ColumnSpaces && NoSpace(w)
    ensures Scan(w + ([' '] + after), spaces) == Scan(after, spaces + 1)
  {
    SkipWord(w, [' '] + after, spaces);
    SkipSpace(after, spaces);
  }

  /** Skipping the leading columns of a line: with `spaces` already counted
      and `|cols|` columns to go, the last of them ending in the fifth space,
      the scan arrives at that space with four counted. */
  lemma {:induction false} ScanToLastSpace(cols: seq<seq<char>>, tail: seq<char>, spaces: nat)
    requires |cols| >= 1 && spaces + |cols| == ColumnSpaces
    requires forall i :: 0 <= i < |cols| ==> NoSpace(cols[i])
    ensures Scan(Columns(cols) + tail, spaces) == Scan([' '] + tail, ColumnSpaces - 1)
    decreases |cols|
  {
    var more := cols[1..];
    var after := Columns(more) + tail;
    ColumnsAppend(cols, tail);
    assert Columns(cols) + tail == cols[0] + ([' '] + after);
    assert NoSpace(cols[0]);
    if |cols| == 1 {
      assert after == tail;
      SkipWord(cols[0], [' '] + tail, spaces);
      assert Scan(cols[0] + ([' '] + tail), spaces) == Scan([' '] + tail, ColumnSpaces - 1);
    } else {
      forall i | 0 <= i < |more|
        ensures NoSpace(more[i])
      {
        assert more[i] == cols[i + 1];
      }
      SkipColumn(cols[0], after, spaces);
      ScanToLastSpace(more, tail, spaces + 1);
      assert Scan(cols[0] + ([' '] + after), spaces) == Scan(after, spaces + 1);
    }
  }

  /** At the fifth space the value column is captured, up to the carriage
      return, and the scan resumes after the line with the count reset. */
  lemma Capture(value: seq<char>, rest: seq<char>, tail: seq<char>)
    requires |value| >= 1 && NoReturn(value)
    requires tail == value + (['\r', '\n'] + rest)
    ensures Scan([' '] + tail, ColumnSpaces - 1) == Prepend(value, Scan(rest, 0))
  {
    var c := [' '] + tail;
    var j := |value| + 1;
    assert c[j] == '\r';
    assert forall k :: 2 <= k < j ==> c[k] == value[k - 1];
    assert NextReturn(c, 2) == Some(j);
    assert c[1..j] == value;
    assert c[j..] == ['\r', '\n'] + rest;
    SkipWord(['\r', '\n'], rest, 0);
  }

  /** Without a carriage return after the fifth space the source reads past
      the end of its buffer. */
  lemma MissingReturn(tail: seq<char>)
    requires NoReturn(tail)
    ensures Scan([' '] + tail, ColumnSpaces - 1) == None
  {
    var c := [' '] + tail;
    assert forall k :: 2 <= k < |c| ==> c[k] == tail[k - 1];
  }

  /** One well-formed line contributes its value column, and the scan
      continues after it with the count reset. */
  lemma ScanLine(l: Line, rest: seq<char>)
    requires WellFormedLine(l)
    ensures Scan(RenderLine(l) + rest, 0) == Prepend(l.value, Scan(rest, 0))
  {
    var tail := l.value + (['\r', '\n'] + rest);
    assert ((Columns(l.leading) + l.value) + ['\r', '\n']) + rest == (Columns(l.leading) + l.value) + (['\r', '\n'] + rest);
    assert (Columns(l.leading) + l.value) + (['\r', '\n'] + rest) == Columns(l.leading) + (l.value + (['\r', '\n'] + rest));
    ScanToLastSpace(l.leading, tail, 0);
    Capture(l.value, rest, tail);
  }

  /** Round trip: scanning a file of well-formed lines yields exactly their
      value columns, in order. */
  lemma {:induction false} ScanRender(lines: seq<Line>)
    requires forall i :: 0 <= i < |lines| ==> WellFormedLine(lines[i])
    ensures LastColumns(Render(lines)) == Some(ValueColumn(lines))
  {
    if |lines| > 0 {
      ScanLine(lines[0], Render(lines[1..]));
      ScanRender(lines[1..]);
    }
  }

  /** A file whose last line ends with a line feed alone, as files written
      with Unix line endings do, has no carriage return after its last value:
      the scan runs past the end of the buffer. */
  lemma UnixLineEndingFails(l: Line)
    requires WellFormedLine(l)
    ensures LastColumns(Columns(l.leading) + l.value + ['\n']) == None
  {
    var tail := l.value + ['\n'];
    assert (Columns(l.leading) + l.value) + ['\n'] == Columns(l.leading) + (l.value + ['\n']);
    ScanToLastSpace(l.leading, tail, 0);
    MissingReturn(tail);
  }
}
