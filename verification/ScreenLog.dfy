/** The console as an unbounded log of 80-column rows, of which the last 25 are on screen. */
module ScreenLog {
  import opened Machine

  const WIDTH := 80
  const HEIGHT := 25
  const SCREEN := WIDTH * HEIGHT
  const BACKSPACE: byte := 8
  const NEWLINE: byte := 10
  const SPACE: byte := 32

  type Cell = n: int | 0 <= n < 0x1_0000

  /** A screen cell: character in the low byte, colour in the high byte. */
  function Entry(c: byte, color: byte): Cell {
    c + 0x100 * color
  }

  function CharOf(cell: Cell): byte {
    cell % 0x100
  }

  lemma CharOfEntry(c: byte, color: byte)
    ensures CharOf(Entry(c, color)) == c && Entry(c, color) / 0x100 == color
  {
  }

  /** All cells ever scrolled in, row after row, and the cursor's index among them. */
  datatype Log = Log(cells: seq<Cell>, pos: nat) {
    /** Index of the first cell on screen. */
    function Top(): int {
      |cells| - SCREEN
    }

    ghost predicate Valid() {
      && 0 <= Top() <= pos < |cells|
      && |cells| % WIDTH == 0
    }
  }

  function Blanks(n: nat, color: byte): (s: seq<Cell>)
    ensures |s| == n && forall i :: 0 <= i < n ==> s[i] == Entry(SPACE, color)
  {
    seq(n, _ => Entry(SPACE, color))
  }

  /** Move to `pos`, appending a blank row when that is one past the last cell. */
  function MoveTo(cells: seq<Cell>, pos: nat, color: byte): Log {
    Log(if pos < |cells| then cells else cells + Blanks(WIDTH, color), pos)
  }

  function NextRow(l: Log, color: byte): Log {
    MoveTo(l.cells, l.pos - l.pos % WIDTH + WIDTH, color)
  }

  function Put(l: Log, c: byte, color: byte): Log
    requires l.Valid()
  {
    if c == BACKSPACE then
      var p := if l.pos > l.Top() then l.pos - 1 else l.pos;
      Log(l.cells[p := Entry(SPACE, color)], p)
    else if c == NEWLINE then
      NextRow(l, color)
    else
      MoveTo(l.cells[l.pos := Entry(c, color)], l.pos + 1, color)
  }

  function Cleared(l: Log, color: byte): Log
    requires l.Valid()
  {
    Log(l.cells[..l.Top()] + Blanks(SCREEN, color), l.Top())
  }

  /** Clearing keeps the rows above the screen and leaves a blank screen with the position at its start. */
  lemma ClearedBlanks(l: Log, color: byte)
    requires l.Valid()
    ensures var r := Cleared(l, color);
      && r.Valid() && r.Top() == l.Top() == r.pos && r.cells[..r.Top()] == l.cells[..l.Top()]
      && forall k :: r.Top() <= k < |r.cells| ==> CharOf(r.cells[k]) == SPACE && r.cells[k] / 0x100 == color
  {
    CharOfEntry(SPACE, color);
  }

  lemma RowStart(pos: nat, n: nat)
    requires n % WIDTH == 0 && pos < n
    ensures pos < pos - pos % WIDTH + WIDTH <= n
  {
    assert n == WIDTH * (n / WIDTH);
    assert pos == WIDTH * (pos / WIDTH) + pos % WIDTH;
    assert pos / WIDTH < n / WIDTH;
  }

  /** A newline moves to the least multiple of the width above the old position; what was there stays, and a
      row that is new is blank. */
  lemma NewlineMoves(l: Log, color: byte)
    requires l.Valid()
    ensures var r := Put(l, 10, color);
      && r.pos % WIDTH == 0 && r.pos - WIDTH <= l.pos < r.pos
      && l.cells <= r.cells && (forall k :: |l.cells| <= k < |r.cells| ==> CharOf(r.cells[k]) == SPACE)
      && (|r.cells| > |l.cells| <==> r.pos == |l.cells|)
  {
    RowStart(l.pos, |l.cells|);
    CharOfEntry(SPACE, color);
  }

  /** One character: the log stays well formed, grows by whole rows at the end only, and nothing
      above the screen changes. */
  lemma PutKeepsHistory(l: Log, c: byte, color: byte)
    requires l.Valid()
    ensures Put(l, c, color).Valid()
    ensures l.Top() <= Put(l, c, color).Top() <= l.Top() + WIDTH
    ensures l.cells[..l.Top()] <= Put(l, c, color).cells
  {
    RowStart(l.pos, |l.cells|);
  }

  function PutAll(l: Log, s: seq<byte>, color: byte): Log
    requires l.Valid()
    decreases |s|
  {
    if s == [] then l
    else
      PutKeepsHistory(l, s[0], color);
      PutAll(Put(l, s[0], color), s[1..], color)
  }

  /** Rows above the screen are final: whatever is printed later, they stay a prefix of the log. */
  lemma {:induction false} HistoryIsFinal(l: Log, s: seq<byte>, color: byte)
    requires l.Valid()
    ensures PutAll(l, s, color).Valid()
    ensures l.Top() <= PutAll(l, s, color).Top()
    ensures l.cells[..l.Top()] <= PutAll(l, s, color).cells
    decreases |s|
  {
    if s != [] {
      PutKeepsHistory(l, s[0], color);
      var l1 := Put(l, s[0], color);
      HistoryIsFinal(l1, s[1..], color);
      assert l.cells[..l.Top()] <= l1.cells[..l1.Top()];
    }
  }

  /** What programs do to the console. */
  datatype ConsoleOp = OpPut(c: byte) | OpColor(color: byte) | OpClear

  /** The log and the colour. */
  datatype Shown = Shown(log: Log, color: byte)

  function AfterOps(v: Shown, ops: seq<ConsoleOp>): (r: Shown)
    requires v.log.Valid()
    ensures r.log.Valid()
    decreases |ops|
  {
    if ops == [] then v
    else
      var u := AfterOps(v, ops[..|ops| - 1]);
      match ops[|ops| - 1]
      case OpPut(c) => PutKeepsHistory(u.log, c, u.color); u.(log := Put(u.log, c, u.color))
      case OpColor(color) => u.(color := color)
      case OpClear => u.(log := Cleared(u.log, u.color))
  }

  /** In every run of printing, colour changes and clearing the rows above the screen are final. */
  lemma {:induction false} RunsKeepHistory(v: Shown, ops: seq<ConsoleOp>, k: nat)
    requires v.log.Valid() && k <= |ops|
    ensures var u, r := AfterOps(v, ops[..k]).log, AfterOps(v, ops).log;
      u.Top() <= r.Top() && u.cells[..u.Top()] <= r.cells
    decreases |ops|
  {
    if k == |ops| {
      assert ops[..k] == ops;
    } else {
      var before := ops[..|ops| - 1];
      RunsKeepHistory(v, before, k);
      assert before[..k] == ops[..k];
      OpKeepsHistory(v, ops);
    }
  }

  lemma OpKeepsHistory(v: Shown, ops: seq<ConsoleOp>)
    requires v.log.Valid() && ops != []
    ensures var u, r := AfterOps(v, ops[..|ops| - 1]).log, AfterOps(v, ops).log;
      u.Top() <= r.Top() && u.cells[..u.Top()] <= r.cells[..r.Top()]
  {
    var u := AfterOps(v, ops[..|ops| - 1]);
    match ops[|ops| - 1]
    case OpPut(c) => PutKeepsHistory(u.log, c, u.color);
    case OpColor(_) =>
    case OpClear =>
  }

  lemma {:induction false} PutAllConcat(l: Log, s: seq<byte>, t: seq<byte>, color: byte)
    requires l.Valid()
    ensures PutAll(l, s, color).Valid()
    ensures PutAll(l, s + t, color) == PutAll(PutAll(l, s, color), t, color)
    decreases |s|
  {
    HistoryIsFinal(l, s, color);
    if s == [] {
      assert s + t == t;
    } else {
      PutKeepsHistory(l, s[0], color);
      assert (s + t)[1..] == s[1..] + t;
      PutAllConcat(Put(l, s[0], color), s[1..], t, color);
    }
  }

  /** Text without backspaces and newlines stands behind what was there, across wraps and scrolls. */
  lemma {:induction false} VisibleTextStands(l: Log, s: seq<byte>, color: byte)
    requires l.Valid() && BACKSPACE !in s && NEWLINE !in s
    ensures var r := PutAll(l, s, color);
      && r.Valid() && r.pos == l.pos + |s| && l.cells[..l.pos] <= r.cells
      && forall i :: 0 <= i < |s| ==> CharOf(r.cells[l.pos + i]) == s[i]
    decreases |s|
  {
    if s != [] {
      PutKeepsHistory(l, s[0], color);
      CharOfEntry(s[0], color);
      var l1, r := Put(l, s[0], color), PutAll(l, s, color);
      VisibleTextStands(l1, s[1..], color);
      assert l1.cells[..l1.pos] <= r.cells && l.cells[..l.pos] <= l1.cells[..l1.pos];
      forall i | 0 <= i < |s| ensures CharOf(r.cells[l.pos + i]) == s[i] {
        if i > 0 { assert r.cells[l.pos + i] == r.cells[l1.pos + (i - 1)] && s[i] == s[1..][i - 1]; }
      }
    }
  }

  /** Every cell from the cursor on is a space. */
  ghost predicate BlankTail(l: Log) {
    forall k :: l.pos <= k < |l.cells| ==> CharOf(l.cells[k]) == SPACE
  }

  lemma PutKeepsBlankTail(l: Log, c: byte, color: byte)
    requires l.Valid() && BlankTail(l)
    ensures BlankTail(Put(l, c, color))
  {
    CharOfEntry(SPACE, color);
    RowStart(l.pos, |l.cells|);
  }

  lemma {:induction false} PutAllKeepsBlankTail(l: Log, s: seq<byte>, color: byte)
    requires l.Valid() && BlankTail(l)
    ensures BlankTail(PutAll(l, s, color))
    decreases |s|
  {
    if s != [] {
      PutKeepsHistory(l, s[0], color);
      PutKeepsBlankTail(l, s[0], color);
      PutAllKeepsBlankTail(Put(l, s[0], color), s[1..], color);
    }
  }
}
