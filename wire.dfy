/**
 * The message format that crosses the JavaScript / native boundary: a
 * dictionary from string keys to a small set of value shapes, and the key
 * and type-tag strings both sides agree on (vim_realtime.js).
 */
module Wire {
  import opened Wrappers

  /**
   * A message field: a number that is an integer, a string, a list of
   * strings, or the number NaN (what parseInt and `undefined + 1` produce).
   */
  datatype Value = VInt(i: int) | VStr(s: string) | VList(items: seq<string>) | VNaN

  /** A collaborative edit message: a dictionary of fields. */
  type Message = map<string, Value>

  // Type tags.
  const TypeAppendLine := "append_line"
  const TypeInsertText := "insert_text"
  const TypeRemoveLine := "remove_line"
  const TypeDeleteText := "delete_text"
  const TypeBufferSync := "buffer_sync"
  const TypeCursorMove := "cursor_move"
  const TypeReplaceLine := "replace_line"

  // Field keys.
  const TypeKey := "collabedit_type"
  const BufIdKey := "buf_id"
  const LineKey := "line"
  const ColumnKey := "column"
  const TextKey := "text"
  const IndexKey := "index"
  const LengthKey := "length"
  const FilenameKey := "filename"
  const LinesKey := "lines"
  const UserIdKey := "user_id"

  /** The seven type tags are pairwise distinct. */
  lemma TagsDistinct()
    ensures TypeAppendLine != TypeInsertText && TypeAppendLine != TypeRemoveLine
    ensures TypeAppendLine != TypeDeleteText && TypeAppendLine != TypeBufferSync
    ensures TypeAppendLine != TypeCursorMove && TypeAppendLine != TypeReplaceLine
    ensures TypeInsertText != TypeRemoveLine && TypeInsertText != TypeDeleteText
    ensures TypeInsertText != TypeBufferSync && TypeInsertText != TypeCursorMove
    ensures TypeInsertText != TypeReplaceLine
    ensures TypeRemoveLine != TypeDeleteText && TypeRemoveLine != TypeBufferSync
    ensures TypeRemoveLine != TypeCursorMove && TypeRemoveLine != TypeReplaceLine
    ensures TypeDeleteText != TypeBufferSync && TypeDeleteText != TypeCursorMove
    ensures TypeDeleteText != TypeReplaceLine
    ensures TypeBufferSync != TypeCursorMove && TypeBufferSync != TypeReplaceLine
    ensures TypeCursorMove != TypeReplaceLine
  {
    assert TypeAppendLine[0] == 'a' && TypeInsertText[0] == 'i' && TypeRemoveLine[0] == 'r';
    assert TypeDeleteText[0] == 'd' && TypeBufferSync[0] == 'b' && TypeCursorMove[0] == 'c';
    assert TypeReplaceLine[0] == 'r' && TypeReplaceLine[2] == 'p' && TypeRemoveLine[2] == 'm';
  }

  function IntAt(m: Message, key: string): (r: Option<int>)
    ensures r.Some? <==> key in m && m[key].VInt?
    ensures r.Some? ==> m[key] == VInt(r.value)
  {
    if key in m && m[key].VInt? then Some(m[key].i) else None
  }

  function StrAt(m: Message, key: string): (r: Option<string>)
    ensures r.Some? <==> key in m && m[key].VStr?
    ensures r.Some? ==> m[key] == VStr(r.value)
  {
    if key in m && m[key].VStr? then Some(m[key].s) else None
  }

  function ListAt(m: Message, key: string): (r: Option<seq<string>>)
    ensures r.Some? <==> key in m && m[key].VList?
    ensures r.Some? ==> m[key] == VList(r.value)
  {
    if key in m && m[key].VList? then Some(m[key].items) else None
  }
}
