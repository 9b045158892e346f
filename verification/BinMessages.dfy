/**
 The binary message header: version, header length, flags, name, and the id and reply id
 as little-endian fields that are present only when they are not zero.
 */
module BinMessages {
  import opened BasicDetail
  import opened BinCodec
  import opened Helper
  import opened Optional

  type Width = w: nat | w > 0 witness 4

  /** What the C++ platform decides: the size of messageid_type and whether char is signed. */
  datatype Platform = Platform(idWidth: Width, signedChar: bool)

  type Name = seq<byte>

  const UNDEFINED_MESSAGE_ID: nat := 0
  const UNSIGNED_CHAR_MAX: nat := 255

  /** A message as its user sees it; the tail is what the user class appends to the header. */
  datatype Message = Message(name: Name, id: nat, rid: nat, tail: seq<byte>) {
    predicate IdExists() {
      id != UNDEFINED_MESSAGE_ID
    }

    predicate RidExists() {
      rid != UNDEFINED_MESSAGE_ID
    }

    /** Both ids can be held by a messageid_type. */
    predicate IdsFit(p: Platform) {
      id < Pow256(p.idWidth) && rid < Pow256(p.idWidth)
    }
  }

  datatype DecodeError =
    | InvalidEscape
    | IncompleteHeader
    | IllegalVersion
    | UnknownName
    | NameMismatch
    | MalformedHeader
    | TailRejected

  datatype Result<+T> = Ok(value: T) | Throws(error: DecodeError) {
    /** `later` if nothing was thrown before. */
    function IfOk<U>(later: U): Result<U> {
      if Ok? then Ok(later) else Throws(error)
    }
  }

  /** The message classes a program registers: their names, and which tails the user's
      unserialize_tail of each class takes without throwing. */
  datatype Catalog = Catalog(known: set<Name>, accepts: (Name, seq<byte>) -> bool)

  function FieldLength(p: Platform, present: bool): nat {
    if present then p.idWidth else 0
  }

  function IdsLength(p: Platform, hasId: bool, hasRid: bool): nat {
    FieldLength(p, hasId) + FieldLength(p, hasRid)
  }

  function HeaderLength(p: Platform, m: Message): nat {
    HEADER_MIN_LEN + |m.name| + IdsLength(p, m.IdExists(), m.RidExists())
  }

  function IdField(p: Platform, id: nat): seq<byte> {
    if id != UNDEFINED_MESSAGE_ID then LittleEndian(id, p.idWidth) else []
  }

  /** The bytes of a message, or None where serializing throws because the header is too
      long for its length byte. */
  function Serialized(p: Platform, m: Message): Option<seq<byte>> {
    if HeaderLength(p, m) > UNSIGNED_CHAR_MAX then
      None
    else
      Some([VERSION, HeaderLength(p, m), HeaderFlags(m.IdExists(), m.RidExists())]
           + m.name + IdField(p, m.id) + IdField(p, m.rid) + m.tail)
  }

  /** `size_t head_len = raw[1]`: a negative char becomes a number above every string
      size, which is None here. */
  function HeadLength(p: Platform, b: byte): Option<nat> {
    if p.signedChar && b >= 0x80 then None else Some(b)
  }

  /** Where the name ends.  When the header is too short for its own id fields, the source
      computes a wrapped-around length, which substr cuts at the end of the string. */
  function NameEnd(raw: seq<byte>, headLength: nat, idsLength: nat): (end: nat)
    requires |raw| >= HEADER_MIN_LEN && headLength <= |raw|
    ensures HEADER_MIN_LEN <= end <= |raw|
  {
    if headLength < HEADER_MIN_LEN + idsLength then |raw| else headLength - idsLength
  }

  /** The checks that get_message_name and unserialize share, and the header length. */
  function CheckedHeadLength(p: Platform, raw: seq<byte>): (r: Result<nat>)
    ensures r.Ok? ==> |raw| >= HEADER_MIN_LEN && r.value <= |raw|
  {
    if |raw| < HEADER_MIN_LEN then Throws(IncompleteHeader)
    else if raw[0] != VERSION then Throws(IllegalVersion)
    else
      match HeadLength(p, raw[1])
      case None => Throws(IncompleteHeader)
      case Some(n) => if |raw| < n then Throws(IncompleteHeader) else Ok(n)
  }

  /** get_message_name */
  function MessageName(p: Platform, raw: seq<byte>): Result<Name> {
    match CheckedHeadLength(p, raw)
    case Throws(e) => Throws(e)
    case Ok(n) =>
      Ok(raw[HEADER_MIN_LEN..NameEnd(raw, n, IdsLength(p, IsIdExists(raw[2]), IsRidExists(raw[2])))])
  }

  /** The header length leaves room for the id fields that the flags announce.  Without this
      the source forms iterators outside the string. */
  predicate HeaderFits(p: Platform, raw: seq<byte>) {
    match CheckedHeadLength(p, raw)
    case Throws(_) => true
    case Ok(n) =>
      var ids := IdsLength(p, IsIdExists(raw[2]), IsRidExists(raw[2]));
      ids == 0 || HEADER_MIN_LEN + ids <= n
  }

  function ReadField(p: Platform, raw: seq<byte>, at: nat, present: bool, default: nat): nat
    requires present ==> at + p.idWidth <= |raw|
  {
    if present then FromLittleEndian(raw[at..at + p.idWidth]) else default
  }

  /** unserialize: what the message object holds afterwards, if the tail is taken. */
  function Unserialized(p: Platform, m: Message, raw: seq<byte>): Result<Message>
    requires HeaderFits(p, raw)
  {
    match CheckedHeadLength(p, raw)
    case Throws(e) => Throws(e)
    case Ok(n) =>
      var hasId, hasRid := IsIdExists(raw[2]), IsRidExists(raw[2]);
      var end := NameEnd(raw, n, IdsLength(p, hasId, hasRid));
      if raw[HEADER_MIN_LEN..end] != m.name then
        Throws(NameMismatch)
      else
        Ok(Message(m.name,
                   ReadField(p, raw, end, hasId, m.id),
                   ReadField(p, raw, end + FieldLength(p, hasId), hasRid, m.rid),
                   raw[n..]))
  }

  /** bin_message, with the tail of the user class derived from it. */
  class BinMessage {
    const name: Name
    var id: nat
    var rid: nat
    var tail: seq<byte>

    constructor (name: Name)
      ensures this.name == name && Value() == Message(name, UNDEFINED_MESSAGE_ID, UNDEFINED_MESSAGE_ID, [])
    {
      this.name := name;
      id, rid, tail := UNDEFINED_MESSAGE_ID, UNDEFINED_MESSAGE_ID, [];
    }

    function Value(): Message
      reads this
    {
      Message(name, id, rid, tail)
    }

    method Serialize(p: Platform) returns (r: Option<seq<byte>>)
      ensures r == Serialized(p, Value())
    {
      var hasId, hasRid := id != UNDEFINED_MESSAGE_ID, rid != UNDEFINED_MESSAGE_ID;
      var s := new ByteString([]);
      s.text := s.text + [VERSION];
      var headLength := HEADER_MIN_LEN + |name| + FieldLength(p, hasId) + FieldLength(p, hasRid);
      if headLength > UNSIGNED_CHAR_MAX {
        return None;
      }
      s.text := s.text + [headLength];
      s.text := s.text + [SetFlag(SetFlag(0, FLAG_ID_FIELD, hasId), FLAG_RID_FIELD, hasRid)];
      s.text := s.text + name;
      if hasId {
        IntToVec(s, id, p.idWidth);
      }
      assert s.text == [VERSION, headLength, HeaderFlags(hasId, hasRid)] + name + IdField(p, id);
      if hasRid {
        IntToVec(s, rid, p.idWidth);
      }
      assert s.text == [VERSION, headLength, HeaderFlags(hasId, hasRid)] + name + IdField(p, id) + IdField(p, rid);
      return Some(s.text + tail);
    }

    /** A malformed header leaves the object as it was.  When the tail throws, the ids of the
        message are already in place. */
    method Unserialize(catalog: Catalog, p: Platform, message: seq<byte>) returns (r: Result<()>)
      requires HeaderFits(p, message)
      modifies this
      ensures match Unserialized(p, old(Value()), message)
              case Throws(e) => r == Throws(e) && Value() == old(Value())
              case Ok(m) =>
                if catalog.accepts(name, m.tail) then r == Ok(()) && Value() == m
                else r == Throws(TailRejected) && Value() == m.(tail := old(tail))
    {
      hide FromLittleEndian, IsIdExists, IsRidExists;
      if |message| < HEADER_MIN_LEN {
        return Throws(IncompleteHeader);
      }
      if message[0] != VERSION {
        return Throws(IllegalVersion);
      }
      var headLength := HeadLength(p, message[1]);
      if headLength.None? || |message| < headLength.value {
        return Throws(IncompleteHeader);
      }
      var n, flags := headLength.value, message[2];
      var ids := FieldLength(p, IsIdExists(flags)) + FieldLength(p, IsRidExists(flags));
      var nameEnd := NameEnd(message, n, ids);
      if message[HEADER_MIN_LEN..nameEnd] != name {
        return Throws(NameMismatch);
      }
      if IsIdExists(flags) {
        id := IntFromVec(message, nameEnd, nameEnd + p.idWidth);
      }
      if IsRidExists(flags) {
        var first := nameEnd + FieldLength(p, IsIdExists(flags));
        rid := IntFromVec(message, first, first + p.idWidth);
      }
      if !catalog.accepts(name, message[n..]) {
        return Throws(TailRejected);
      }
      tail := message[n..];
      return Ok(());
    }
  }

  /** The parts of a serialized message as the reader cuts them. */
  lemma SerializedParts(p: Platform, m: Message)
    requires Serialized(p, m).Some?
    ensures var raw, end := Serialized(p, m).value, HEADER_MIN_LEN + |m.name|;
            var afterId := end + FieldLength(p, m.IdExists());
            && |raw| >= HeaderLength(p, m) && raw[0] == VERSION && raw[1] == HeaderLength(p, m)
            && IsIdExists(raw[2]) == m.IdExists() && IsRidExists(raw[2]) == m.RidExists()
            && raw[HEADER_MIN_LEN..end] == m.name && raw[HeaderLength(p, m)..] == m.tail
            && raw[end..afterId] == IdField(p, m.id)
            && raw[afterId..afterId + FieldLength(p, m.RidExists())] == IdField(p, m.rid)
  {
  }

  lemma IdFieldReadsBack(p: Platform, id: nat, raw: seq<byte>, at: nat)
    requires id < Pow256(p.idWidth)
    requires var end := at + FieldLength(p, id != UNDEFINED_MESSAGE_ID); end <= |raw| && raw[at..end] == IdField(p, id)
    ensures ReadField(p, raw, at, id != UNDEFINED_MESSAGE_ID, UNDEFINED_MESSAGE_ID) == id
  {
    if id != UNDEFINED_MESSAGE_ID {
      IntRoundTrip(id, p.idWidth);
    }
  }

  /** The reader finds again what the writer wrote, and it does so exactly when the length
      byte is not read as a negative char. */
  lemma SerializedReadsBack(p: Platform, m: Message)
    requires m.IdsFit(p) && Serialized(p, m).Some?
    ensures var raw, blank := Serialized(p, m).value, Message(m.name, UNDEFINED_MESSAGE_ID, UNDEFINED_MESSAGE_ID, []);
            if HeaderLength(p, m) <= 127 || !p.signedChar then
              && MessageName(p, raw) == Ok(m.name)
              && HeaderFits(p, raw)
              && Unserialized(p, blank, raw) == Ok(m)
            else
              MessageName(p, raw) == Throws(IncompleteHeader)
  {
    hide Serialized, IdField, ReadField, IsIdExists, IsRidExists;
    var raw := Serialized(p, m).value;
    SerializedParts(p, m);
    if HeaderLength(p, m) <= 127 || !p.signedChar {
      var end := HEADER_MIN_LEN + |m.name|;
      assert CheckedHeadLength(p, raw) == Ok(HeaderLength(p, m));
      assert NameEnd(raw, HeaderLength(p, m), IdsLength(p, m.IdExists(), m.RidExists())) == end;
      IdFieldReadsBack(p, m.id, raw, end);
      IdFieldReadsBack(p, m.rid, raw, end + FieldLength(p, m.IdExists()));
    }
  }

  /** The layout of a serialized message, byte by byte. */
  lemma SerializedLayout(p: Platform, m: Message)
    requires Serialized(p, m).Some?
    ensures var raw, name, w := Serialized(p, m).value, |m.name|, p.idWidth;
            var atRid := 3 + name + if m.id != 0 then w else 0;
            var head := atRid + if m.rid != 0 then w else 0;
            && head <= 255 && |raw| == head + |m.tail|
            && raw[0] == 0 && raw[1] == head
            && raw[2] == (if m.id != 0 then 1 else 0) + (if m.rid != 0 then 2 else 0)
            && raw[3..3 + name] == m.name && raw[head..] == m.tail
            && (m.id != 0 ==> forall k: nat | k < w :: raw[3 + name + k] == m.id / Pow256(k) % 256)
            && (m.rid != 0 ==> forall k: nat | k < w :: raw[atRid + k] == m.rid / Pow256(k) % 256)
  {
    hide LittleEndian;
    var raw, atId := Serialized(p, m).value, 3 + |m.name|;
    SerializedParts(p, m);
    if m.id != 0 {
      FieldLayout(raw, atId, m.id, p.idWidth);
    }
    if m.rid != 0 {
      FieldLayout(raw, atId + FieldLength(p, m.IdExists()), m.rid, p.idWidth);
    }
  }

  lemma FieldLayout(raw: seq<byte>, at: nat, id: nat, width: nat)
    requires at + width <= |raw| && raw[at..at + width] == LittleEndian(id, width)
    ensures forall k: nat | k < width :: raw[at + k] == id / Pow256(k) % 256
  {
    forall k: nat | k < width
      ensures raw[at + k] == id / Pow256(k) % 256
    {
      LittleEndianAt(id, width, k);
      assert raw[at..at + width][k] == raw[at + k];
    }
  }

  /** Which texts have a header at all, and which error the others meet. */
  lemma HeaderIsReadableIff(p: Platform, raw: seq<byte>)
    ensures MessageName(p, raw).Ok? <==>
              |raw| >= 3 && raw[0] == 0 && (p.signedChar ==> raw[1] < 128) && raw[1] <= |raw|
    ensures MessageName(p, raw) == Throws(IllegalVersion) <==> |raw| >= 3 && raw[0] != 0
    ensures MessageName(p, raw).Ok? || MessageName(p, raw) == Throws(IllegalVersion)
            || MessageName(p, raw) == Throws(IncompleteHeader)
  {
  }

  /** An object reads a text exactly if the text has a header with its name, and fails with
      the error that looking for the name meets, or for another name. */
  lemma UnserializedThrowsIff(p: Platform, m: Message, raw: seq<byte>)
    requires HeaderFits(p, raw)
    ensures match MessageName(p, raw)
            case Ok(name) => if name == m.name then Unserialized(p, m, raw).Ok?
                             else Unserialized(p, m, raw) == Throws(NameMismatch)
            case Throws(e) => Unserialized(p, m, raw) == Throws(e)
  {
  }

  /** A field that the text does not have leaves the object's id as it was. */
  lemma AbsentFieldsKeepIds(p: Platform, m: Message, raw: seq<byte>, r: Message)
    requires HeaderFits(p, raw) && Unserialized(p, m, raw) == Ok(r)
    ensures !IsIdExists(raw[2]) ==> r.id == m.id
    ensures !IsRidExists(raw[2]) ==> r.rid == m.rid
  {
    hide FromLittleEndian, IsIdExists, IsRidExists;
  }

  /** A header that claims to be shorter than its first three bytes, and announces no ids, is
      read all the same: all behind these bytes is the name, and all behind the claimed
      length, header bytes included, is the tail as well. */
  lemma ShortHeaderIsRead(p: Platform, raw: seq<byte>)
    requires |raw| >= 3 && raw[0] == 0 && raw[1] < 3 && !IsIdExists(raw[2]) && !IsRidExists(raw[2])
    ensures MessageName(p, raw) == Ok(raw[3..]) && HeaderFits(p, raw)
    ensures Unserialized(p, Message(raw[3..], 0, 0, []), raw) == Ok(Message(raw[3..], 0, 0, raw[raw[1]..]))
  {
    hide IsIdExists, IsRidExists;
    assert CheckedHeadLength(p, raw) == Ok(raw[1]);
    assert NameEnd(raw, raw[1], 0) == |raw| && raw[3..|raw|] == raw[3..];
  }

  /** The name is what substr gives for a length computed in size_t, which wraps around when
      the header is too short for the id fields that its flags announce. */
  lemma NameEndIsSubstr(raw: seq<byte>, headLength: nat, idsLength: nat, sizeMax: nat)
    requires |raw| >= 3 && headLength <= |raw| && |raw| + idsLength + 3 <= sizeMax
    ensures var length := (headLength - 3 - idsLength) % (sizeMax + 1);
            NameEnd(raw, headLength, idsLength) == if 3 + length < |raw| then 3 + length else |raw|
  {
  }

  /** A text that is read is exactly what the message would be written as, unless its flags
      have further bits, its header is shorter than its fields, or a field that it has holds
      the undefined id. */
  lemma ReadTextPrintsBackIff(p: Platform, raw: seq<byte>, m: Message)
    requires HeaderFits(p, raw)
    requires Unserialized(p, Message(m.name, UNDEFINED_MESSAGE_ID, UNDEFINED_MESSAGE_ID, []), raw) == Ok(m)
    ensures Serialized(p, m) == Some(raw) <==>
              && raw[2] < 4 && raw[1] >= 3 + IdsLength(p, IsIdExists(raw[2]), IsRidExists(raw[2]))
              && (IsIdExists(raw[2]) ==> m.id != 0) && (IsRidExists(raw[2]) ==> m.rid != 0)
  {
    var hasId, hasRid := IsIdExists(raw[2]), IsRidExists(raw[2]);
    if Serialized(p, m) == Some(raw) {
      SerializedParts(p, m);
      SerializedLayout(p, m);
    } else if raw[2] < 4 && raw[1] >= 3 + IdsLength(p, hasId, hasRid) && hasId == m.IdExists() && hasRid == m.RidExists() {
      ReadPartsPrintBack(p, raw, m);
    }
  }

  lemma ReadPartsPrintBack(p: Platform, raw: seq<byte>, m: Message)
    requires HeaderFits(p, raw)
    requires Unserialized(p, Message(m.name, UNDEFINED_MESSAGE_ID, UNDEFINED_MESSAGE_ID, []), raw) == Ok(m)
    requires raw[2] < 4 && IsIdExists(raw[2]) == m.IdExists() && IsRidExists(raw[2]) == m.RidExists()
    requires raw[1] >= 3 + IdsLength(p, m.IdExists(), m.RidExists())
    ensures Serialized(p, m) == Some(raw)
  {
    hide LittleEndian, FromLittleEndian, IsIdExists, IsRidExists, HeaderFlags;
    var end := 3 + |m.name|;
    var atRid := end + FieldLength(p, m.IdExists());
    var head := atRid + FieldLength(p, m.RidExists());
    assert raw[1] == head;
    FlagsAreTheByte(raw[2]);
    FieldRoundTrip(raw[end..atRid]);
    FieldRoundTrip(raw[atRid..head]);
    assert raw[end..atRid] == IdField(p, m.id) && raw[atRid..head] == IdField(p, m.rid);
    CutInParts(raw, end, atRid, head);
  }

  lemma FlagsAreTheByte(flags: byte)
    requires flags < 4
    ensures HeaderFlags(IsIdExists(flags), IsRidExists(flags)) == flags
  {
  }

  lemma CutInParts(raw: seq<byte>, a: nat, b: nat, c: nat)
    requires 3 <= a <= b <= c <= |raw|
    ensures raw == [raw[0], raw[1], raw[2]] + raw[3..a] + raw[a..b] + raw[b..c] + raw[c..]
  {
  }
}
