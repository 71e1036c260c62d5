/** The execution log's list models. A model shows a window of the
    logger's messages, newest first: `msgCount` of them, starting at the
    message id `startIndex`. A row's item is built by the concrete model
    (LogMessageModel or LogPeerModel) and memoised. The logger itself, the
    locale's time format and translation are not part of this model: they
    are parameters. */
module LogModel {
  import opened Common

  /** Logger's cap on kept messages. */
  const MAX_LOG_MESSAGES := 20000

  // Qt::ItemDataRole values the model answers.
  const DISPLAY_ROLE := 0
  const FOREGROUND_ROLE := 9
  const USER_ROLE := 0x0100

  // Log::MsgType.
  const NORMAL := 1
  const INFO := 2
  const WARNING := 4
  const CRITICAL := 8

  datatype Color = Color(red: int, green: int, blue: int)

  const BLUE := Color(0, 0, 255)
  const ORANGE := Color(255, 165, 0)
  const RED := Color(255, 0, 0)

  /** The QVariant values an item holds; `NoValue` is the invalid one. */
  datatype Variant = NoValue | Text(text: string) | Brush(color: Color) | IntValue(value: int)

  datatype Item = Item(displayRole: Variant, foregroundRole: Variant, userRole: Variant)

  /** A model index: a row and a column, valid when both are non-negative. */
  datatype ModelIndex = ModelIndex(row: int, column: int)
  {
    predicate IsValid() { row >= 0 && column >= 0 }
  }

  /** The value of one role of an item; other roles have none. */
  function RoleValue(item: Item, role: int): (v: Variant)
  {
    if role == DISPLAY_ROLE then item.displayRole
    else if role == FOREGROUND_ROLE then item.foregroundRole
    else if role == USER_ROLE then item.userRole
    else NoValue
  }

  /** The message a row shows: row 0 is the newest message of the window. */
  function RowMessage(msgCount: int, startIndex: int, row: int): int
  {
    msgCount - row + startIndex - 1
  }

  /** The rows of a window of `n` messages from `start` show each message
      of the window exactly once, newest first. */
  lemma RowWindow(n: nat, start: int)
    ensures forall row :: 0 <= row < n ==> start <= RowMessage(n, start, row) < start + n
    ensures forall r1, r2 :: 0 <= r1 < r2 < n ==> RowMessage(n, start, r1) > RowMessage(n, start, r2)
    ensures forall id :: start <= id < start + n ==>
      0 <= MessageRow(n, start, id) < n && RowMessage(n, start, MessageRow(n, start, id)) == id
  {
  }

  /** The row that shows message `id`. */
  function MessageRow(msgCount: int, startIndex: int, id: int): int
  {
    msgCount - 1 - (id - startIndex)
  }

  class BaseLogModel {
    var startIndex: int
    var msgCount: int
    /** The memo of built items, by message id. */
    var cache: map<int, Item>
    /** The concrete model's rowData. */
    const rowData: int -> Item

    /** Every memoised item is the one rowData builds. */
    ghost predicate Valid()
      reads this
    {
      forall i :: i in cache ==> cache[i] == rowData(i)
    }

    /** A model over `initialSize` messages already logged, starting at the
        first message id. */
    constructor (initialSize: int, rowData: int -> Item)
      ensures Valid() && msgCount == initialSize && startIndex == 0 && cache == map[]
      ensures this.rowData == rowData
    {
      this.rowData := rowData;
      msgCount := initialSize;
      cache := map[];
      // The declared start is 0, and an empty log sets it to 0 again.
      startIndex := 0;
    }

    /** rowCount: none before the window starts, otherwise one row per
        message of the window. */
    function RowCount(): (n: int)
      reads this
      ensures startIndex == -1 ==> n == 0
      ensures startIndex != -1 ==> n == msgCount
    {
      if startIndex == -1 then 0 else msgCount
    }

    /** A log view has the one column of its text. */
    function ColumnCount(): (n: int)
      ensures n == 1
    {
      1
    }

    /** data: nothing for an invalid index or an empty model; otherwise the
        role's value of the item of the row's message, built once and then
        taken from the memo. */
    method Data(index: ModelIndex, role: int) returns (v: Variant)
      requires Valid()
      modifies this`cache
      ensures Valid()
      ensures (!index.IsValid() || msgCount == 0) ==> v == NoValue && cache == old(cache)
      ensures (index.IsValid() && msgCount != 0) ==>
        var i := RowMessage(msgCount, startIndex, index.row);
        && v == RoleValue(rowData(i), role)
        && cache == old(cache)[i := rowData(i)]
    {
      if !index.IsValid() || msgCount == 0 {
        return NoValue;
      }
      var i := msgCount - index.row + startIndex - 1;
      var item;
      if i in cache {
        item := cache[i];
      } else {
        item := rowData(i);
        cache := cache[i := item];
      }
      if role == DISPLAY_ROLE {
        v := item.displayRole;
      } else if role == FOREGROUND_ROLE {
        v := item.foregroundRole;
      } else if role == USER_ROLE {
        v := item.userRole;
      } else {
        v := NoValue;
      }
    }

    /** addNewMessage: a window that has not started starts at `index`;
        one more row at the top, then the bottom row goes again when the rows
        would pass the cap. A started window keeps its start, so `index` is
        used only to start one. */
    method AddNewMessage(index: int)
      requires Valid()
      modifies this`startIndex, this`msgCount
      ensures Valid()
      ensures startIndex == if old(startIndex) == -1 then index else old(startIndex)
      ensures msgCount == if startIndex != -1 && old(msgCount) + 1 > MAX_LOG_MESSAGES then old(msgCount) else old(msgCount) + 1
      ensures old(msgCount) <= MAX_LOG_MESSAGES ==> RowCount() <= MAX_LOG_MESSAGES
      // At the cap the new row and the bottom row cancel: every row shows
      // the message it showed before, and the new message is not shown.
      ensures old(startIndex) != -1 && old(msgCount) + 1 > MAX_LOG_MESSAGES ==>
        forall row :: RowMessage(msgCount, startIndex, row) == RowMessage(old(msgCount), old(startIndex), row)
      // Below the cap the window grows at the top: row 0 shows the message
      // just past the old window, and every old row moves down by one.
      ensures old(startIndex) != -1 && old(msgCount) + 1 <= MAX_LOG_MESSAGES ==>
        && RowMessage(msgCount, startIndex, 0) == old(startIndex) + old(msgCount)
        && forall row :: RowMessage(msgCount, startIndex, row + 1) == RowMessage(old(msgCount), old(startIndex), row)
    {
      if startIndex == -1 {
        startIndex := index;
      }
      msgCount := msgCount + 1;
      var count := RowCount();
      if count > MAX_LOG_MESSAGES {
        msgCount := msgCount - 1;
      }
    }

    /** reset: the window moves past every message it showed and is empty,
        so the next message added is the first row. */
    method Reset()
      requires Valid()
      modifies this`startIndex, this`msgCount
      ensures Valid() && startIndex == old(startIndex) + old(msgCount) && msgCount == 0 && RowCount() == 0
      ensures forall row :: 0 <= row < old(msgCount) ==> RowMessage(old(msgCount), old(startIndex), row) < startIndex
    {
      startIndex := startIndex + msgCount;
      msgCount := 0;
    }

    /** reset as logmodel.cpp writes it: the start becomes the old count,
        which is past the shown messages only while the start is 0. */
    method ResetAsWritten()
      requires Valid()
      modifies this`startIndex, this`msgCount
      ensures Valid() && startIndex == old(msgCount) && msgCount == 0 && RowCount() == 0
    {
      startIndex := msgCount;
      msgCount := 0;
    }
  }

  /** Three messages logged, a reset, messages 3 and 4, a second reset and
      message 5: with reset as written the top row shows message 2, one the
      first reset had already cleared. */
  method SecondResetAsWritten(rowData: int -> Item) returns (shown: int)
    ensures shown == 2
  {
    var m := new BaseLogModel(3, rowData);
    m.ResetAsWritten();
    m.AddNewMessage(3);
    m.AddNewMessage(4);
    m.ResetAsWritten();
    m.AddNewMessage(5);
    shown := RowMessage(m.msgCount, m.startIndex, 0);
  }

  /** The same steps with the corrected reset: the top row shows message 5,
      the one just added. */
  method SecondReset(rowData: int -> Item) returns (shown: int)
    ensures shown == 5
  {
    var m := new BaseLogModel(3, rowData);
    m.Reset();
    m.AddNewMessage(3);
    m.AddNewMessage(4);
    m.Reset();
    m.AddNewMessage(5);
    shown := RowMessage(m.msgCount, m.startIndex, 0);
  }

  /** Log::Msg: id, time stamp, type and text. */
  datatype Msg = Msg(id: int, timestamp: int, kind: int, message: string)

  /** Log::Peer: id, time stamp, address, and whether it was blocked (with
      the reason) or banned. */
  datatype Peer = Peer(id: int, timestamp: int, ip: string, blocked: bool, reason: string)

  /** The colour of a message type; the palette's window text colour
      (`windowText`) for normal messages, none for an unknown type. */
  function TypeColor(kind: int, windowText: Color): (v: Variant)
    ensures kind == NORMAL ==> v == Brush(windowText)
    ensures kind == INFO ==> v == Brush(BLUE)
    ensures kind == WARNING ==> v == Brush(ORANGE)
    ensures kind == CRITICAL ==> v == Brush(RED)
    ensures v == NoValue <==> kind !in {NORMAL, INFO, WARNING, CRITICAL}
  {
    if kind == NORMAL then Brush(windowText)
    else if kind == INFO then Brush(BLUE)
    else if kind == WARNING then Brush(ORANGE)
    else if kind == CRITICAL then Brush(RED)
    else NoValue
  }

  /** LogMessageModel::rowData: "<time> - <text>", the type's colour, and
      the type itself. `timeText` formats a time stamp in the locale's short
      format. */
  function MessageItem(msg: Msg, windowText: Color, timeText: int -> string): (item: Item)
    ensures var t := timeText(msg.timestamp) + " - ";
      && item.displayRole.Text? && |t| <= |item.displayRole.text|
      && item.displayRole.text[..|t|] == t
      && item.displayRole.text[|t|..] == msg.message
      && (item.foregroundRole != NoValue <==> msg.kind in {NORMAL, INFO, WARNING, CRITICAL})
      && (msg.kind in {NORMAL, INFO, WARNING, CRITICAL} ==> item.foregroundRole == TypeColor(msg.kind, windowText))
      && item.userRole == IntValue(msg.kind)
  {
    var t := timeText(msg.timestamp) + " - ";
    var text := t + msg.message;
    assert text[..|t|] == t;
    assert text[|t|..] == msg.message;
    Item(Text(text), TypeColor(msg.kind, windowText), IntValue(msg.kind))
  }

  /** The peer part of a peer row: who was blocked and why, or who was
      banned. */
  function PeerText(peer: Peer): string
  {
    if peer.blocked then peer.ip + " was blocked " + peer.reason else peer.ip + " was banned"
  }

  /** LogPeerModel::rowData: only a display text. */
  function PeerItem(peer: Peer, timeText: int -> string): (item: Item)
    ensures item.foregroundRole == NoValue && item.userRole == NoValue
    ensures item.displayRole.Text?
  {
    Item(Text(timeText(peer.timestamp) + " - " + PeerText(peer)), NoValue, NoValue)
  }

  /** A peer row starts with the time and then names the peer's address;
      it says "blocked" with the reason exactly when the peer was
      blocked. */
  lemma PeerTextShape(peer: Peer, timeText: int -> string)
    ensures var t := timeText(peer.timestamp) + " - ";
      var text := PeerItem(peer, timeText).displayRole.text;
      && text[..|t|] == t
      && text[|t|..|t| + |peer.ip|] == peer.ip
      && (peer.blocked ==> text[|t| + |peer.ip|..] == " was blocked " + peer.reason)
      && (!peer.blocked ==> text[|t| + |peer.ip|..] == " was banned")
  {
    var t := timeText(peer.timestamp) + " - ";
    var rest := if peer.blocked then " was blocked " + peer.reason else " was banned";
    var text := t + (peer.ip + rest);
    assert PeerItem(peer, timeText).displayRole.text == text;
    assert text[..|t|] == t;
    assert text[|t|..] == peer.ip + rest;
    assert (peer.ip + rest)[..|peer.ip|] == peer.ip;
    assert (peer.ip + rest)[|peer.ip|..] == rest;
  }
}
