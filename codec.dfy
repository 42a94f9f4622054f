/**
 * The native codec between collabedit_T and a dictionary message
 * (collabedit_from_ppvar / ppvar_from_collabedit in vim_pepper.h). Only its
 * declaration exists in the sources, so this module defines it over
 * the keys that vim_realtime.js reads and writes, and claims exactly the
 * declared contract for the decoder: it yields nothing for a message that is
 * not a well-formed edit.
 */
module Codec {
  import opened Wrappers
  import opened Wire
  import opened CollabStructs

  /** The type tag string of each kind. */
  function TypeName(t: CollabType): string
  {
    match t
    case AppendLine => TypeAppendLine
    case InsertText => TypeInsertText
    case RemoveLine => TypeRemoveLine
    case DeleteText => TypeDeleteText
    case BufferSync => TypeBufferSync
    case CursorMove => TypeCursorMove
    case ReplaceLine => TypeReplaceLine
  }

  /** The kind a type tag string names, if any. */
  function TypeFromName(tag: string): (r: Option<CollabType>)
    ensures r.Some? ==> TypeName(r.value) == tag
  {
    if tag == TypeAppendLine then Some(AppendLine)
    else if tag == TypeInsertText then Some(InsertText)
    else if tag == TypeRemoveLine then Some(RemoveLine)
    else if tag == TypeDeleteText then Some(DeleteText)
    else if tag == TypeBufferSync then Some(BufferSync)
    else if tag == TypeCursorMove then Some(CursorMove)
    else if tag == TypeReplaceLine then Some(ReplaceLine)
    else None
  }

  /** Every kind's tag is recognised as that kind, so distinct kinds have distinct tags. */
  lemma TypeFromNameOfTypeName(t: CollabType)
    ensures TypeFromName(TypeName(t)) == Some(t)
  {
    TagsDistinct();
  }

  /** ppvar_from_collabedit: the message for an edit. */
  function Encode(e: Edit): (m: Message)
    ensures TypeKey in m && m[TypeKey] == VStr(TypeName(TypeOf(e.payload)))
    ensures BufIdKey in m && m[BufIdKey] == VInt(e.bufId)
  {
    var base := map[TypeKey := VStr(TypeName(TypeOf(e.payload))), BufIdKey := VInt(e.bufId)];
    match e.payload
    case AppendLineData(line, text) =>
      base[LineKey := VInt(line)][TextKey := VStr(text)]
    case InsertTextData(line, index, text) =>
      base[LineKey := VInt(line)][IndexKey := VInt(index)][TextKey := VStr(text)]
    case RemoveLineData(line) =>
      base[LineKey := VInt(line)]
    case DeleteTextData(line, index, length) =>
      base[LineKey := VInt(line)][IndexKey := VInt(index)][LengthKey := VInt(length)]
    case ReplaceLineData(line, text) =>
      base[LineKey := VInt(line)][TextKey := VStr(text)]
    case BufferSyncData(filename, _, lines) =>
      base[FilenameKey := VStr(filename)][LinesKey := VList(lines)]
    case CursorMoveData(userId, pos) =>
      base[UserIdKey := VStr(userId)][LineKey := VInt(pos.lnum)][ColumnKey := VInt(pos.col)]
  }

  /** The payload of kind `t` read from the fields of `m`, if they are present with the right shape. */
  function DecodePayload(t: CollabType, m: Message): (r: Option<Payload>)
    ensures r.Some? ==> TypeOf(r.value) == t
  {
    match t
    case AppendLine =>
      (match (IntAt(m, LineKey), StrAt(m, TextKey))
       case (Some(line), Some(text)) => Some(AppendLineData(line, text))
       case _ => None)
    case InsertText =>
      (match (IntAt(m, LineKey), IntAt(m, IndexKey), StrAt(m, TextKey))
       case (Some(line), Some(index), Some(text)) => Some(InsertTextData(line, index, text))
       case _ => None)
    case RemoveLine =>
      (match IntAt(m, LineKey)
       case Some(line) => Some(RemoveLineData(line))
       case None => None)
    case DeleteText =>
      (match (IntAt(m, LineKey), IntAt(m, IndexKey), IntAt(m, LengthKey))
       case (Some(line), Some(index), Some(length)) =>
         if length >= 0 then Some(DeleteTextData(line, index, length)) else None
       case _ => None)
    case ReplaceLine =>
      (match (IntAt(m, LineKey), StrAt(m, TextKey))
       case (Some(line), Some(text)) => Some(ReplaceLineData(line, text))
       case _ => None)
    case BufferSync =>
      (match (StrAt(m, FilenameKey), ListAt(m, LinesKey))
       case (Some(filename), Some(lines)) => Some(BufferSyncData(filename, |lines|, lines))
       case _ => None)
    case CursorMove =>
      (match (StrAt(m, UserIdKey), IntAt(m, LineKey), IntAt(m, ColumnKey))
       case (Some(userId), Some(line), Some(col)) => Some(CursorMoveData(userId, Pos(line, col)))
       case _ => None)
  }

  /**
   * collabedit_from_ppvar: the edit a message describes, or None when the
   * message is not a well-formed edit (no or unknown type tag, a missing or
   * mistyped field, or a payload that breaks the field comments' rules).
   */
  function Decode(m: Message): (r: Option<Edit>)
    ensures r.Some? ==> ValidEdit(r.value)
    ensures r.Some? ==> TypeKey in m && m[TypeKey] == VStr(TypeName(TypeOf(r.value.payload)))
    ensures r.Some? ==> BufIdKey in m && m[BufIdKey] == VInt(r.value.bufId)
    ensures TypeKey !in m ==> r.None?
  {
    match (StrAt(m, TypeKey), IntAt(m, BufIdKey))
    case (Some(tag), Some(bufId)) =>
      (match TypeFromName(tag)
       case Some(t) =>
         (match DecodePayload(t, m)
          case Some(p) => if ValidPayload(p) then Some(Edit(bufId, p)) else None
          case None => None)
       case None => None)
    case _ => None
  }

  /** Decoding the encoding of any well-formed edit gives the edit back, field for field. */
  lemma DecodeEncode(e: Edit)
    requires ValidEdit(e)
    ensures Decode(Encode(e)) == Some(e)
  {
    var m := Encode(e);
    TypeFromNameOfTypeName(TypeOf(e.payload));
    assert StrAt(m, TypeKey) == Some(TypeName(TypeOf(e.payload)));
    assert IntAt(m, BufIdKey) == Some(e.bufId);
    match e.payload
    case AppendLineData(line, text) =>
      assert IntAt(m, LineKey) == Some(line) && StrAt(m, TextKey) == Some(text);
    case InsertTextData(line, index, text) =>
      assert IntAt(m, LineKey) == Some(line) && IntAt(m, IndexKey) == Some(index);
      assert StrAt(m, TextKey) == Some(text);
    case RemoveLineData(line) =>
      assert IntAt(m, LineKey) == Some(line);
    case DeleteTextData(line, index, length) =>
      assert IntAt(m, LineKey) == Some(line) && IntAt(m, IndexKey) == Some(index);
      assert IntAt(m, LengthKey) == Some(length);
    case ReplaceLineData(line, text) =>
      assert IntAt(m, LineKey) == Some(line) && StrAt(m, TextKey) == Some(text);
    case BufferSyncData(filename, nlines, lines) =>
      assert StrAt(m, FilenameKey) == Some(filename) && ListAt(m, LinesKey) == Some(lines);
    case CursorMoveData(userId, pos) =>
      assert StrAt(m, UserIdKey) == Some(userId) && IntAt(m, LineKey) == Some(pos.lnum);
      assert IntAt(m, ColumnKey) == Some(pos.col);
  }

  /** Encoding is injective on edits: distinct edits never share a message. */
  lemma EncodeInjective(e1: Edit, e2: Edit)
    requires ValidEdit(e1) && ValidEdit(e2) && Encode(e1) == Encode(e2)
    ensures e1 == e2
  {
    DecodeEncode(e1);
    DecodeEncode(e2);
  }
}
