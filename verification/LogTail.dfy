/** The windowed log tail: a capped, doubling read from the end of a file,
    against splitting the whole file. */
module LogTail {
  import opened Options

  type Byte = b: int | 0 <= b < 256
  type Bytes = seq<Byte>

  const NEWLINE: Byte := 10
  const CARRIAGE_RETURN: Byte := 13

  const TAIL_WINDOW_BYTES: nat := 64 * 1024
  const TAIL_WINDOW_CAP_BYTES: nat := 8 * 1024 * 1024

  /** The pieces between newlines; never empty. */
  function Split(b: Bytes): (rows: seq<Bytes>)
    ensures rows != []
  {
    if b == [] then [[]]
    else
      var rest := Split(b[1..]);
      if b[0] == NEWLINE then [[]] + rest else [[b[0]] + rest[0]] + rest[1..]
  }

  /** One trailing carriage return removed. */
  function StripReturn(row: Bytes): Bytes {
    if row != [] && row[|row| - 1] == CARRIAGE_RETURN then row[..|row| - 1] else row
  }

  function StripAll(rows: seq<Bytes>): (r: seq<Bytes>)
    ensures |r| == |rows| && forall i :: 0 <= i < |rows| ==> r[i] == StripReturn(rows[i])
  {
    seq(|rows|, i requires 0 <= i < |rows| => StripReturn(rows[i]))
  }

  /** The final newline's empty remainder removed. */
  function DropRemainder(rows: seq<Bytes>): seq<Bytes> {
    if rows != [] && rows[|rows| - 1] == [] then rows[..|rows| - 1] else rows
  }

  /** The rows read from `offset`: at a mid-file seek the leading partial row
      is dropped. */
  function RowsFrom(file: Bytes, offset: nat): seq<Bytes>
    requires offset <= |file|
  {
    var rows := StripAll(Split(file[offset..]));
    DropRemainder(if offset > 0 then rows[1..] else rows)
  }

  function WholeRows(file: Bytes): seq<Bytes> {
    RowsFrom(file, 0)
  }

  function Offset(file: Bytes, window: nat): nat {
    if |file| > window then |file| - window else 0
  }

  function WindowRows(file: Bytes, window: nat): seq<Bytes> {
    RowsFrom(file, Offset(file, window))
  }

  function LastRows(rows: seq<Bytes>, lines: nat): seq<Bytes> {
    if |rows| <= lines then rows else rows[|rows| - lines..]
  }

  /** One windowed read. */
  method ReadRows(file: Bytes, offset: nat) returns (rows: seq<Bytes>)
    requires offset <= |file|
    ensures rows == RowsFrom(file, offset)
  {
    hide Split, StripReturn;
    rows := StripAll(Split(file[offset..]));
    if offset > 0 && rows != [] {
      rows := rows[1..];
    }
    if rows != [] && rows[|rows| - 1] == [] {
      rows := rows[..|rows| - 1];
    }
  }

  method TailLines(file: Bytes, lines: nat) returns (r: Option<seq<Bytes>>)
    requires lines >= 1
    ensures r.Some? <==> |file| <= 65_536 || |WindowRows(file, 8_388_608)| >= lines
    ensures r.Some? ==> r.value == LastRows(WholeRows(file), lines)
  {
    hide RowsFrom, WholeRows;
    var size := |file|;
    var window := TAIL_WINDOW_BYTES;
    while true
      invariant TAIL_WINDOW_BYTES <= window <= TAIL_WINDOW_CAP_BYTES
      invariant window > TAIL_WINDOW_BYTES ==> size > TAIL_WINDOW_BYTES
      decreases TAIL_WINDOW_CAP_BYTES - window
    {
      var offset := if size > window then size - window else 0;
      var rows := ReadRows(file, offset);
      WindowSettles(file, window, lines);
      if |rows| >= lines {
        return Some(rows[|rows| - lines..]);
      }
      if offset == 0 || window >= TAIL_WINDOW_CAP_BYTES {
        if window > TAIL_WINDOW_BYTES {
          return None;
        }
        return Some(rows);
      }
      window := if window * 2 < TAIL_WINDOW_CAP_BYTES then window * 2 else TAIL_WINDOW_CAP_BYTES;
    }
  }

  // ---- a window's rows are the file's last rows ------------------------------------

  predicate IsSuffix(a: seq<Bytes>, b: seq<Bytes>) {
    |a| <= |b| && a == b[|b| - |a|..]
  }

  /** Replacing everything before a suffix keeps it a suffix. */
  lemma SuffixOfTail(a: seq<Bytes>, b: seq<Bytes>, n: nat)
    requires IsSuffix(a, b) && n + |a| <= |b|
    ensures IsSuffix(a, b[n..])
  {
    assert b[n..][|b| - n - |a|..] == b[|b| - |a|..];
  }

  lemma SuffixAfter(a: seq<Bytes>, b: seq<Bytes>, head: seq<Bytes>)
    requires IsSuffix(a, b)
    ensures IsSuffix(a, head + b)
  {
    assert (head + b)[|head| + |b| - |a|..] == b[|b| - |a|..];
  }

  /** Cutting a file anywhere splits the row at the cut in two. */
  lemma {:induction false} SplitConcat(x: Bytes, y: Bytes)
    ensures |Split(x + y)| == |Split(x)| + |Split(y)| - 1
    ensures IsSuffix(Split(y)[1..], Split(x + y))
    decreases x
  {
    var a := Split(y)[1..];
    if x == [] {
      assert x + y == y;
    } else {
      var rest := Split(x[1..] + y);
      assert (x + y)[1..] == x[1..] + y && (x + y)[0] == x[0];
      SplitConcat(x[1..], y);
      if x[0] == NEWLINE {
        assert Split(x + y) == [[]] + rest;
        SuffixAfter(a, rest, [[]]);
      } else {
        assert Split(x + y) == [[x[0]] + rest[0]] + rest[1..];
        SuffixOfTail(a, rest, 1);
        SuffixAfter(a, rest[1..], [[x[0]] + rest[0]]);
      }
    }
  }

  lemma StripTail(rows: seq<Bytes>, n: nat)
    requires n <= |rows|
    ensures StripAll(rows)[n..] == StripAll(rows[n..])
  {}

  lemma StripSuffix(a: seq<Bytes>, b: seq<Bytes>)
    requires IsSuffix(a, b)
    ensures IsSuffix(StripAll(a), StripAll(b))
  {
    StripTail(b, |b| - |a|);
  }

  lemma DropBoth(a: seq<Bytes>, b: seq<Bytes>)
    requires IsSuffix(a, b)
    ensures IsSuffix(DropRemainder(a), DropRemainder(b))
  {
    if a != [] {
      assert a[|a| - 1] == b[|b| - 1];
      assert a[..|a| - 1] == b[..|b| - 1][|b| - |a|..];
    }
  }

  /** Reading from later in the file yields a suffix of reading from earlier. */
  lemma LaterIsSuffix(file: Bytes, early: nat, late: nat)
    requires early <= late <= |file|
    ensures IsSuffix(RowsFrom(file, late), RowsFrom(file, early))
  {
    if early < late {
      var x, y := file[early..late], file[late..];
      assert x + y == file[early..];
      SplitConcat(x, y);
      var outer := Split(x + y);
      var wider := if early > 0 then outer[1..] else outer;
      if early > 0 { SuffixOfTail(Split(y)[1..], outer, 1); }
      StripSuffix(Split(y)[1..], wider);
      StripTail(Split(y), 1);
      StripTail(outer, 1);
      DropBoth(StripAll(Split(y)[1..]), StripAll(wider));
    }
  }

  lemma WindowIsSuffix(file: Bytes, window: nat)
    ensures IsSuffix(WindowRows(file, window), WholeRows(file))
    ensures window >= |file| ==> WindowRows(file, window) == WholeRows(file)
  {
    LaterIsSuffix(file, 0, Offset(file, window));
  }

  lemma WiderWindowHoldsMore(file: Bytes, window: nat, wider: nat)
    requires window <= wider
    ensures |WindowRows(file, window)| <= |WindowRows(file, wider)|
  {
    LaterIsSuffix(file, Offset(file, wider), Offset(file, window));
  }

  lemma SuffixOfSuffix(a: seq<Bytes>, b: seq<Bytes>, n: nat)
    requires IsSuffix(a, b) && n <= |a|
    ensures a[|a| - n..] == b[|b| - n..]
  {
    assert b[|b| - |a|..][|a| - n..] == b[|b| - n..];
  }

  /** What one window already decides. */
  lemma WindowSettles(file: Bytes, window: nat, lines: nat)
    requires lines >= 1 && window <= TAIL_WINDOW_CAP_BYTES
    ensures var rows := WindowRows(file, window);
            && (|rows| >= lines ==> |WindowRows(file, TAIL_WINDOW_CAP_BYTES)| >= lines
                                    && rows[|rows| - lines..] == LastRows(WholeRows(file), lines))
            && (window >= |file| ==> rows == WholeRows(file) == WindowRows(file, TAIL_WINDOW_CAP_BYTES))
  {
    hide WindowRows, WholeRows, RowsFrom;
    var rows, whole := WindowRows(file, window), WholeRows(file);
    WindowIsSuffix(file, window);
    WindowIsSuffix(file, TAIL_WINDOW_CAP_BYTES);
    WiderWindowHoldsMore(file, window, TAIL_WINDOW_CAP_BYTES);
    if |rows| >= lines {
      SuffixOfSuffix(rows, whole, lines);
    }
  }

  // ---- what the whole-file rows are ----------------------------------------------------

  function Join(rows: seq<Bytes>): Bytes {
    if rows == [] then [] else if |rows| == 1 then rows[0] else rows[0] + [NEWLINE] + Join(rows[1..])
  }

  /** Splitting loses nothing and leaves no newline inside a row. */
  lemma {:induction false} SplitIsJoinInverse(b: Bytes)
    ensures Join(Split(b)) == b
    ensures forall row :: row in Split(b) ==> NEWLINE !in row
    decreases b
  {
    if b != [] {
      var rest := Split(b[1..]);
      SplitIsJoinInverse(b[1..]);
      if b[0] == NEWLINE {
        assert Split(b)[1..] == rest;
      } else {
        assert Split(b)[1..] == rest[1..];
        assert [[b[0]] + rest[0]] + rest[1..] == Split(b);
      }
      assert b == [b[0]] + b[1..];
    }
  }

  /** A written row: its bytes, and whether a carriage return ends it too. */
  datatype Row = Row(bytes: Bytes, returned: bool)

  function Text(rows: seq<Row>, rest: Bytes): Bytes {
    if rows == [] then rest
    else rows[0].bytes + (if rows[0].returned then [13, 10] else [10]) + Text(rows[1..], rest)
  }

  /** Free of newlines, and not ending as a carriage-returned row would. */
  predicate PlainRow(b: Bytes) {
    10 !in b && (b != [] ==> b[|b| - 1] != 13)
  }

  predicate Writable(rows: seq<Row>, rest: Bytes) {
    PlainRow(rest) && forall i :: 0 <= i < |rows| ==> 10 !in rows[i].bytes && (!rows[i].returned ==> PlainRow(rows[i].bytes))
  }

  function BytesOf(rows: seq<Row>): (r: seq<Bytes>)
    ensures |r| == |rows| && forall i :: 0 <= i < |rows| ==> r[i] == rows[i].bytes
  {
    seq(|rows|, i requires 0 <= i < |rows| => rows[i].bytes)
  }

  lemma {:induction false} SplitPlain(b: Bytes)
    requires 10 !in b
    ensures Split(b) == [b]
    decreases b
  {
    if b != [] {
      SplitPlain(b[1..]);
      assert [b[0]] + b[1..] == b;
    }
  }

  lemma SplitAtNewline(b: Bytes, more: Bytes)
    requires 10 !in b
    ensures Split(b + [10] + more) == [b] + Split(more)
    decreases b
  {
    var all := b + [10] + more;
    if b == [] {
      assert all[1..] == more;
    } else {
      assert all[1..] == b[1..] + [10] + more && all[0] == b[0];
      SplitAtNewline(b[1..], more);
      assert Split(all[1..])[0] == b[1..] && Split(all[1..])[1..] == Split(more);
      assert [b[0]] + b[1..] == b;
    }
  }

  lemma FirstRow(row: Row, line: Bytes, more: Bytes)
    requires 10 !in row.bytes && (!row.returned ==> PlainRow(row.bytes))
    requires line == if row.returned then row.bytes + [13] else row.bytes
    ensures row.bytes + (if row.returned then [13, 10] else [10]) + more == line + [10] + more
    ensures StripReturn(line) == row.bytes && 10 !in line
  {
    assert row.bytes + [13, 10] == row.bytes + [13] + [10];
  }

  lemma StripCons(line: Bytes, more: seq<Bytes>)
    ensures StripAll([line] + more) == [StripReturn(line)] + StripAll(more)
  {}

  lemma {:induction false} SplitText(rows: seq<Row>, rest: Bytes)
    requires Writable(rows, rest)
    ensures StripAll(Split(Text(rows, rest))) == BytesOf(rows) + [rest]
  {
    if rows == [] {
      SplitPlain(rest);
    } else {
      var row, more := rows[0], Text(rows[1..], rest);
      SplitText(rows[1..], rest);
      var line := if row.returned then row.bytes + [13] else row.bytes;
      FirstRow(row, line, more);
      assert Text(rows, rest) == line + [10] + more;
      SplitAtNewline(line, more);
      StripCons(line, Split(more));
      hide *;
      assert BytesOf(rows) == [row.bytes] + BytesOf(rows[1..]);
      assert [row.bytes] + (BytesOf(rows[1..]) + [rest]) == BytesOf(rows) + [rest];
    }
  }

  /** The rows written are the rows read, whichever way each was ended, and an
      unended last one if there is any. */
  lemma RowsReadBack(rows: seq<Row>, rest: Bytes)
    requires Writable(rows, rest)
    ensures WholeRows(Text(rows, rest)) == BytesOf(rows) + (if rest == [] then [] else [rest])
  {
    SplitText(rows, rest);
    assert Text(rows, rest)[0..] == Text(rows, rest);
    var all := BytesOf(rows) + [rest];
    assert all[..|all| - 1] == BytesOf(rows);
  }
}
