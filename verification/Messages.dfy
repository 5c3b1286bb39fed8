/**
  The framed messages inside one segment.

  Arithmetic on offsets is 64-bit and checked, as in a debug build; an overflow,
  a read past the end or a failed assertion is a panic, here `None`.
*/
module Messages {
  import opened Wrappers
  import opened ByteStrings
  import opened Sequences

  const CONTINUATION: nat := 0xFFFF_FFFF

  // ---------- offsets ----------

  /** A signed value reinterpreted as an unsigned 64-bit one. */
  function AsUsize(i: int): nat
    requires 0 - TWO64 <= i
  {
    if i < 0 then i + TWO64 else i
  }

  function CheckedAdd(a: nat, b: nat): Option<nat> {
    if a + b < TWO64 then Some(a + b) else None
  }

  function CheckedSub(a: nat, b: nat): Option<nat> {
    if b <= a then Some(a - b) else None
  }

  /** Round a signed length up to a multiple of eight, then reinterpret it. */
  function Align8(n: int): Option<nat>
    requires 0 - TWO64 / 2 <= n < TWO64 / 2
  {
    if n + 7 >= TWO64 / 2 then None else Some(AsUsize(n + 7 - (n + 7) % 8))
  }

  // ---------- flatbuffer tables ----------

  function RootTable(buf: Bytes, at: nat): Option<nat> {
    match I32At(buf, at)
    case None => None
    case Some(rel) => CheckedAdd(at, AsUsize(rel))
  }

  function Vtable(buf: Bytes, table: nat): Option<nat> {
    match I32At(buf, table)
    case None => None
    case Some(back) => CheckedSub(table, AsUsize(back))
  }

  /** Where field `id` of a table is, or that it is absent. */
  function FieldAt(buf: Bytes, table: nat, id: nat): Option<Option<nat>> {
    match Vtable(buf, table)
    case None => None
    case Some(vt) =>
      match U16At(buf, vt)
      case None => None
      case Some(length) =>
        var slot := 4 + id * 2;
        if slot + 2 > length then Some(None)
        else
          match U16At(buf, vt + slot)
          case None => None
          case Some(rel) =>
            if rel == 0 then Some(None)
            else
              match CheckedAdd(table, rel)
              case None => None
              case Some(at) => Some(Some(at))
  }

  // ---------- messages ----------

  /** Offsets are relative to the segment body. */
  datatype Message = Message(start: nat, bodyLen: int, headerType: nat, table: nat, end: nat)

  datatype Item = Marker | Carried(message: Message)

  function HeaderType(seg: Bytes, table: nat): Option<nat> {
    match FieldAt(seg, table, 1)
    case None => None
    case Some(None) => Some(0)
    case Some(Some(at)) => if at < |seg| then Some(seg[at]) else None
  }

  function BodyLength(seg: Bytes, table: nat): (n: Option<int>)
    ensures n.Some? ==> 0 - TWO64 / 2 <= n.value < TWO64 / 2
  {
    match FieldAt(seg, table, 3)
    case None => None
    case Some(None) => Some(0)
    case Some(Some(at)) => I64At(seg, at)
  }

  function MessageEnd(mp: nat, metadata: nat, bodyLen: int): Option<nat>
    requires 0 - TWO64 / 2 <= bodyLen < TWO64 / 2
  {
    match Align8(bodyLen)
    case None => None
    case Some(aligned) =>
      match CheckedAdd(mp + 8, metadata)
      case None => None
      case Some(body) => CheckedAdd(body, aligned)
  }

  /** What stands at `mp`: an end-of-stream marker, or one message and where it ends. */
  function ItemAt(seg: Bytes, mp: nat): (item: Option<Item>)
    ensures item.Some? && item.value.Carried? ==> item.value.message.start == mp && item.value.message.end > mp + 8
  {
    match (U32At(seg, mp), U32At(seg, mp + 4))
    case (Some(cont), Some(metadata)) =>
      if cont != CONTINUATION then None
      else if metadata == 0 then Some(Marker)
      else
        (match RootTable(seg, mp + 8)
         case None => None
         case Some(table) =>
           match (HeaderType(seg, table), BodyLength(seg, table))
           case (Some(header), Some(bodyLen)) =>
             (match MessageEnd(mp, metadata, bodyLen)
              case None => None
              case Some(end) => Some(Carried(Message(mp, bodyLen, header, table, end))))
           case _ => None)
    case _ => None
  }

  function MessagesFrom(seg: Bytes, mp: nat): Option<seq<Message>>
    decreases |seg| - mp
  {
    if mp + 8 >= TWO64 then None
    else if mp + 8 > |seg| then Some([])
    else
      match ItemAt(seg, mp)
      case None => None
      case Some(Marker) => MessagesFrom(seg, mp + 8)
      case Some(Carried(m)) =>
        match MessagesFrom(seg, m.end)
        case None => None
        case Some(rest) => Some([m] + rest)
  }

  /** Every message of a segment body. */
  function BodyMessages(body: Bytes): Option<seq<Message>> {
    MessagesFrom(body, 0)
  }

  // ---------- messages tile a segment ----------

  /** Only end-of-stream markers stand between two offsets. */
  ghost predicate Markers(seg: Bytes, from: nat, to: nat)
    decreases to - from
  {
    from == to || (from + 8 <= to && ItemAt(seg, from) == Some(Marker) && Markers(seg, from + 8, to))
  }

  /** From `mp` on: markers, a message, markers, a message, and so on to the end of the last. */
  ghost predicate Tiled(seg: Bytes, mp: nat, messages: seq<Message>)
    decreases |messages|
  {
    messages != [] ==>
      && mp <= messages[0].start && messages[0].start + 8 <= |seg|
      && Markers(seg, mp, messages[0].start)
      && ItemAt(seg, messages[0].start) == Some(Carried(messages[0]))
      && Tiled(seg, messages[0].end, messages[1..])
  }

  function LastEnd(mp: nat, messages: seq<Message>): nat {
    if messages == [] then mp else messages[|messages| - 1].end
  }

  /**
    The messages follow one another with nothing but end-of-stream markers
    between them; after the last come markers until fewer than eight bytes are
    left, none at all when the last message claims more than the segment holds.
  */
  lemma {:induction false} MessagesTile(seg: Bytes, mp: nat) returns (stop: nat)
    requires MessagesFrom(seg, mp).Some?
    ensures var messages := MessagesFrom(seg, mp).value;
      && Tiled(seg, mp, messages)
      && LastEnd(mp, messages) <= stop && Markers(seg, LastEnd(mp, messages), stop) && stop + 8 > |seg|
    decreases |seg| - mp
  {
    if mp + 8 > |seg| {
      stop := mp;
    } else if ItemAt(seg, mp) == Some(Marker) {
      stop := MessagesTile(seg, mp + 8);
    } else {
      stop := MessagesTile(seg, ItemAt(seg, mp).value.message.end);
    }
  }

  // ---------- the loop ----------

  method ParseMessages(seg: Bytes) returns (r: Option<seq<Message>>)
    ensures r == MessagesFrom(seg, 0)
  {
    var messages: seq<Message> := [];
    var mp := 0;
    Prepended([], MessagesFrom(seg, 0));
    while mp + 8 < TWO64 && mp + 8 <= |seg|
      invariant MessagesFrom(seg, 0) == After(messages, MessagesFrom(seg, mp))
      decreases |seg| - mp
    {
      match ItemAt(seg, mp)
      case None => return None;
      case Some(Marker) => mp := mp + 8;
      case Some(Carried(m)) =>
        AfterOne(messages, m, MessagesFrom(seg, m.end));
        messages := messages + [m];
        mp := m.end;
    }
    if mp + 8 >= TWO64 {
      return None;
    }
    assert messages + [] == messages;
    r := Some(messages);
  }
}
